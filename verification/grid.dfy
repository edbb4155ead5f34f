/**
 Grid geometry of the Pac-Man maze: integer cells, the four unit moves and
 the STOP action, Manhattan distance to a (possibly half-integer) position,
 the acceptance test of the searches' exact and "shadow" modes, and walks.
 */
module Grid {
  import opened Wrappers

  /** A maze cell `(x, y)`. */
  datatype Cell = Cell(x: int, y: int)

  /** A position that need not be a cell: ghosts stand on half-integer coordinates. */
  datatype Point = Point(x: real, y: real)

  /** The agent's actions; every action but `Stop` is a unit move. */
  datatype Direction = North | South | East | West | Stop

  /** The moves in the order of the searches' displacement list: (1,0), (-1,0), (0,1), (0,-1). */
  const Cardinals: seq<Direction> := [East, West, North, South]

  function ToPoint(c: Cell): Point {
    Point(c.x as real, c.y as real)
  }

  /** Displacement of an action; `Stop` does not move. */
  function Delta(d: Direction): (int, int) {
    match d
    case East => (1, 0)
    case West => (-1, 0)
    case North => (0, 1)
    case South => (0, -1)
    case Stop => (0, 0)
  }

  function Neighbor(c: Cell, d: Direction): Cell {
    Cell(c.x + Delta(d).0, c.y + Delta(d).1)
  }

  /** `b` is one unit move away from `a`. */
  predicate Adjacent(a: Cell, b: Cell) {
    || (b.x == a.x + 1 && b.y == a.y)
    || (b.x == a.x - 1 && b.y == a.y)
    || (b.x == a.x && b.y == a.y + 1)
    || (b.x == a.x && b.y == a.y - 1)
  }

  /**
   The action whose displacement is `(dx, dy)`, tested in the order the policy
   tests them (WEST, EAST, SOUTH, NORTH); `None` for anything that is not a
   unit move.
   */
  function DirectionOf(dx: int, dy: int): (r: Option<Direction>)
    ensures r.Some? ==> r.value != Stop && Delta(r.value) == (dx, dy)
    ensures r.None? <==> forall d :: d != Stop ==> Delta(d) != (dx, dy)
  {
    if (dx, dy) == (-1, 0) then Some(West)
    else if (dx, dy) == (1, 0) then Some(East)
    else if (dx, dy) == (0, -1) then Some(South)
    else if (dx, dy) == (0, 1) then Some(North)
    else None
  }

  /** The move that takes `a` to the adjacent cell `b`. */
  function DirTo(a: Cell, b: Cell): (d: Direction)
    requires Adjacent(a, b)
    ensures d != Stop && Neighbor(a, d) == b
  {
    DirectionOf(b.x - a.x, b.y - a.y).value
  }

  /** Decoding a move's displacement gives the move back, and only unit moves decode. */
  lemma DirectionOfDelta(d: Direction)
    ensures d != Stop <==> DirectionOf(Delta(d).0, Delta(d).1) == Some(d)
  {
  }

  /** The cells one move away are exactly the four neighbours. */
  lemma {:induction false} AdjacentIsNeighbor(a: Cell, b: Cell)
    ensures Adjacent(a, b) <==> exists d :: d != Stop && Neighbor(a, d) == b
  {
    if Adjacent(a, b) {
      var d := DirTo(a, b);
      assert d != Stop && Neighbor(a, d) == b;
    }
  }

  lemma NeighborAdjacent(a: Cell, d: Direction)
    requires d != Stop
    ensures Adjacent(a, Neighbor(a, d))
  {
  }

  /** Different actions lead to different cells. */
  lemma NeighborInjective(c: Cell, d: Direction, e: Direction)
    requires Neighbor(c, d) == Neighbor(c, e)
    ensures d == e
  {
  }

  /** Position of an action in `Cardinals`; `Stop` comes after the four moves. */
  function Rank(d: Direction): (k: int)
    ensures 0 <= k <= 4 && (k == 4 <==> d == Stop)
    ensures k < 4 ==> Cardinals[k] == d
  {
    match d
    case East => 0
    case West => 1
    case North => 2
    case South => 3
    case Stop => 4
  }

  function RealAbs(r: real): real {
    if r < 0.0 then -r else r
  }

  /** Manhattan distance from a cell to a position. */
  function Manhattan(c: Cell, p: Point): (m: real)
    ensures m >= 0.0
    ensures m == 0.0 <==> ToPoint(c) == p
  {
    RealAbs(c.x as real - p.x) + RealAbs(c.y as real - p.y)
  }

  /** Goal tests of the searches: exact membership, or membership up to a ghost shadow. */
  datatype Mode = Exact | Shadow

  /** The five ghost-shadow offsets (0,0), (0.5,0), (-0.5,0), (0,0.5), (0,-0.5). */
  const ShadowOffsets: seq<(real, real)> := [(0.0, 0.0), (0.5, 0.0), (-0.5, 0.0), (0.0, 0.5), (0.0, -0.5)]

  function Shift(c: Cell, off: (real, real)): Point {
    Point(c.x as real + off.0, c.y as real + off.1)
  }

  /** Whether a search stops at cell `c` when looking for `targets`. */
  predicate Accepts(mode: Mode, c: Cell, targets: set<Point>) {
    match mode
    case Exact => ToPoint(c) in targets
    case Shadow =>
      || Shift(c, ShadowOffsets[0]) in targets
      || Shift(c, ShadowOffsets[1]) in targets
      || Shift(c, ShadowOffsets[2]) in targets
      || Shift(c, ShadowOffsets[3]) in targets
      || Shift(c, ShadowOffsets[4]) in targets
  }

  /** The integer cells of a set, as positions. */
  function PointsOf(cells: set<Cell>): (ps: set<Point>)
    ensures forall c :: ToPoint(c) in ps <==> c in cells
  {
    set c | c in cells :: ToPoint(c)
  }

  /**
   For targets standing on whole cells the shadow test accepts exactly what the
   exact test accepts: a half-unit offset never lands on an integer position.
   */
  lemma {:induction false} ShadowOnCells(c: Cell, cells: set<Cell>)
    ensures Accepts(Shadow, c, PointsOf(cells)) <==> c in cells
    ensures Accepts(Exact, c, PointsOf(cells)) <==> c in cells
  {
    var ps := PointsOf(cells);
    forall k | 1 <= k < |ShadowOffsets|
      ensures Shift(c, ShadowOffsets[k]) !in ps
    {
      if Shift(c, ShadowOffsets[k]) in ps {
        var t :| t in cells && ToPoint(t) == Shift(c, ShadowOffsets[k]);
        HalfStepNotInteger(c.x, t.x);
        HalfStepNotInteger(c.y, t.y);
      }
    }
    if c in cells {
      assert Shift(c, ShadowOffsets[0]) == ToPoint(c);
    }
  }

  /** An integer shifted by half a unit is not an integer. */
  lemma HalfStepNotInteger(a: int, b: int)
    ensures a as real + 0.5 != b as real
    ensures a as real - 0.5 != b as real
  {
    if a < b {
      assert a as real + 0.5 < (a + 1) as real <= b as real;
    } else {
      assert a as real + 0.5 > a as real >= b as real;
    }
    if a <= b {
      assert a as real - 0.5 < a as real <= b as real;
    } else {
      assert a as real - 0.5 > (a - 1) as real >= b as real;
    }
  }

  /** The survival goal test agrees with the exact one when the goal is a whole cell. */
  lemma ShadowOnCellGoal(c: Cell, g: Cell)
    ensures Accepts(Shadow, c, {ToPoint(g)}) <==> c == g
    ensures Accepts(Exact, c, {ToPoint(g)}) <==> c == g
  {
    assert PointsOf({g}) == {ToPoint(g)};
    ShadowOnCells(c, {g});
  }

  // ---------------------------------------------------------------------------
  // Walks. A walk from `start` is the sequence of cells entered after `start`,
  // each one unit move from the previous and none of them a wall.
  // ---------------------------------------------------------------------------

  /** The `i`-th cell of the walk, counting `start` as cell 0. */
  function At(start: Cell, p: seq<Cell>, i: int): Cell
    requires 0 <= i <= |p|
  {
    if i == 0 then start else p[i - 1]
  }

  /** Where the walk ends. */
  function End(start: Cell, p: seq<Cell>): Cell {
    if |p| == 0 then start else p[|p| - 1]
  }

  ghost predicate IsWalk(walls: set<Cell>, start: Cell, p: seq<Cell>) {
    forall i :: 0 <= i < |p| ==> p[i] !in walls && Adjacent(At(start, p, i), p[i])
  }

  /** Some walk from `start` ends at a cell the goal test accepts. */
  ghost predicate Reachable(walls: set<Cell>, start: Cell, mode: Mode, targets: set<Point>) {
    exists p :: IsWalk(walls, start, p) && Accepts(mode, End(start, p), targets)
  }

  /** Some walk from `start` ends at `c`. */
  ghost predicate WalkTo(walls: set<Cell>, start: Cell, c: Cell) {
    exists p :: IsWalk(walls, start, p) && End(start, p) == c
  }

  /** A set containing `start` and closed under non-wall moves. */
  ghost predicate Closed(walls: set<Cell>, start: Cell, s: set<Cell>) {
    && start in s
    && forall c, d :: c in s && d != Stop && Neighbor(c, d) !in walls ==> Neighbor(c, d) in s
  }

  /** A finite region of the maze that no move leaves except into a wall. */
  ghost predicate Enclosed(walls: set<Cell>, region: set<Cell>) {
    forall c, d :: c in region && d != Stop && Neighbor(c, d) !in walls ==> Neighbor(c, d) in region
  }

  /** A closed set holds every cell of every walk from `start`. */
  lemma {:induction false} WalkStaysInClosed(walls: set<Cell>, start: Cell, s: set<Cell>, p: seq<Cell>, i: int)
    requires Closed(walls, start, s) && IsWalk(walls, start, p)
    requires 0 <= i <= |p|
    ensures At(start, p, i) in s
    decreases i
  {
    if i > 0 {
      WalkStaysInClosed(walls, start, s, p, i - 1);
      var d := DirTo(At(start, p, i - 1), p[i - 1]);
      assert Neighbor(At(start, p, i - 1), d) == At(start, p, i);
    }
  }

  /** A walk extended by a move onto a cell that is not a wall is a walk ending there. */
  lemma WalkExtend(walls: set<Cell>, start: Cell, p: seq<Cell>, c: Cell)
    requires IsWalk(walls, start, p) && c !in walls && Adjacent(End(start, p), c)
    ensures IsWalk(walls, start, p + [c]) && End(start, p + [c]) == c
  {
    var q := p + [c];
    forall i | 0 <= i < |q|
      ensures q[i] !in walls && Adjacent(At(start, q, i), q[i])
    {
      if i < |p| {
        assert q[i] == p[i] && At(start, q, i) == At(start, p, i);
      } else {
        assert q[i] == c && At(start, q, i) == End(start, p);
      }
    }
  }
}
