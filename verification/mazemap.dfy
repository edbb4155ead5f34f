/**
 The map the policy builds on its first tick: the corners it can stand on,
 one step in from the exterior-wall corners, and the floor rectangle they
 span; and the corner counter that picks the next corner to seek.
 */
module MazeMap {
  import opened Grid
  import opened Seqs

  /** One step in from an exterior-wall coordinate: 0 becomes 1, anything else goes down by one. */
  function Inward(v: int): int {
    if v == 0 then v + 1 else v - 1
  }

  function AdjustCorner(c: Cell): Cell {
    Cell(Inward(c.x), Inward(c.y))
  }

  /** The corners loop: every raw corner replaced, in place, by its adjusted cell. */
  function AdjustCorners(raw: seq<Cell>): (cs: seq<Cell>)
    ensures |cs| == |raw|
    ensures forall i :: 0 <= i < |raw| ==> cs[i] == AdjustCorner(raw[i])
  {
    seq(|raw|, i requires 0 <= i < |raw| => AdjustCorner(raw[i]))
  }

  /**
   The exterior corners of a maze whose walls run along x = 0, x = width,
   y = 0 and y = height become the diagonally adjacent interior cells, and
   distinct exterior corners stay distinct once the maze is at least three
   cells wide and high.
   */
  lemma AdjustFrameCorner(width: int, height: int, c: Cell, e: Cell)
    requires width >= 3 && height >= 3
    requires (c.x == 0 || c.x == width) && (c.y == 0 || c.y == height)
    requires (e.x == 0 || e.x == width) && (e.y == 0 || e.y == height)
    ensures 1 <= AdjustCorner(c).x <= width - 1 && 1 <= AdjustCorner(c).y <= height - 1
    ensures RealAbs((AdjustCorner(c).x - c.x) as real) == 1.0 && RealAbs((AdjustCorner(c).y - c.y) as real) == 1.0
    ensures c != e ==> AdjustCorner(c) != AdjustCorner(e)
  {
  }

  function Xs(cs: seq<Cell>): (xs: seq<int>)
    ensures |xs| == |cs| && forall i :: 0 <= i < |cs| ==> xs[i] == cs[i].x
  {
    seq(|cs|, i requires 0 <= i < |cs| => cs[i].x)
  }

  function Ys(cs: seq<Cell>): (ys: seq<int>)
    ensures |ys| == |cs| && forall i :: 0 <= i < |cs| ==> ys[i] == cs[i].y
  {
    seq(|cs|, i requires 0 <= i < |cs| => cs[i].y)
  }

  /** Python's `min` of a non-empty list. */
  function MinOf(s: seq<int>): (m: int)
    requires |s| > 0
    ensures m in s && forall i :: 0 <= i < |s| ==> m <= s[i]
  {
    if |s| == 1 then s[0]
    else
      var rest := MinOf(s[1..]);
      assert forall i :: 1 <= i < |s| ==> s[i] == s[1..][i - 1];
      if s[0] <= rest then s[0] else rest
  }

  /** Python's `max` of a non-empty list. */
  function MaxOf(s: seq<int>): (m: int)
    requires |s| > 0
    ensures m in s && forall i :: 0 <= i < |s| ==> s[i] <= m
  {
    if |s| == 1 then s[0]
    else
      var rest := MaxOf(s[1..]);
      assert forall i :: 1 <= i < |s| ==> s[i] == s[1..][i - 1];
      if s[0] >= rest then s[0] else rest
  }

  /** The closed rectangle spanned by the corners. */
  ghost predicate InBox(corners: seq<Cell>, c: Cell)
    requires |corners| > 0
  {
    && MinOf(Xs(corners)) <= c.x <= MaxOf(Xs(corners))
    && MinOf(Ys(corners)) <= c.y <= MaxOf(Ys(corners))
  }

  /** The number of columns of the rectangle. */
  function BoxWidth(corners: seq<Cell>): int
    requires |corners| > 0
  {
    MaxOf(Xs(corners)) - MinOf(Xs(corners)) + 1
  }

  /** The number of rows of the rectangle. */
  function BoxHeight(corners: seq<Cell>): int
    requires |corners| > 0
  {
    MaxOf(Ys(corners)) - MinOf(Ys(corners)) + 1
  }

  /** Column-major order: by x, then by y. */
  predicate Before(a: Cell, b: Cell) {
    a.x < b.x || (a.x == b.x && a.y < b.y)
  }

  /**
   The floors loops: every cell of the rectangle spanned by the corners,
   x in the outer loop and y in the inner one, each from its minimum to its
   maximum. The result is exactly the rectangle, each cell once in
   column-major order, and it contains every corner.
   */
  method EnumerateFloors(corners: seq<Cell>) returns (floors: seq<Cell>)
    requires |corners| > 0
    ensures forall c :: c in floors <==> InBox(corners, c)
    ensures forall i, j :: 0 <= i < j < |floors| ==> Before(floors[i], floors[j])
    ensures |floors| == BoxWidth(corners) * BoxHeight(corners)
    ensures forall k :: 0 <= k < |corners| ==> corners[k] in floors
  {
    var xs, ys := Xs(corners), Ys(corners);
    var x0 := MinOf(xs);
    var y0, y1 := MinOf(ys), MaxOf(ys);
    floors := Columns(x0, BoxWidth(corners), y0, y1, BoxHeight(corners));
    forall k | 0 <= k < |corners| ensures corners[k] in floors {
      assert xs[k] == corners[k].x && ys[k] == corners[k].y;
    }
  }

  /** The outer floors loop: the columns `x0` to `x0 + w - 1`, each from `y0` to `y1` (`h` cells). */
  method Columns(x0: int, w: int, y0: int, y1: int, h: int) returns (floors: seq<Cell>)
    requires w >= 0 && y0 <= y1 && h == y1 - y0 + 1
    ensures forall c :: c in floors <==> x0 <= c.x < x0 + w && y0 <= c.y <= y1
    ensures forall i, j :: 0 <= i < j < |floors| ==> Before(floors[i], floors[j])
    ensures |floors| == w * h
  {
    floors := [];
    var cols := 0;
    while cols < w
      invariant 0 <= cols <= w
      invariant |floors| == cols * h
      invariant forall c :: c in floors <==> x0 <= c.x < x0 + cols && y0 <= c.y <= y1
      invariant forall i, j :: 0 <= i < j < |floors| ==> Before(floors[i], floors[j])
    {
      floors := AppendColumn(floors, x0 + cols, y0, y1);
      assert (cols + 1) * h == cols * h + h;
      cols := cols + 1;
    }
  }

  /** The inner floors loop: the cells `(x, y0)` to `(x, y1)` appended in order of y. */
  method AppendColumn(floors: seq<Cell>, x: int, y0: int, y1: int) returns (floors': seq<Cell>)
    requires y0 <= y1
    requires forall i, j :: 0 <= i < j < |floors| ==> Before(floors[i], floors[j])
    requires forall c :: c in floors ==> c.x < x
    ensures |floors'| == |floors| + (y1 - y0 + 1)
    ensures forall c :: c in floors' <==> c in floors || (c.x == x && y0 <= c.y <= y1)
    ensures forall i, j :: 0 <= i < j < |floors'| ==> Before(floors'[i], floors'[j])
  {
    floors' := floors;
    for y := y0 to y1 + 1
      invariant |floors'| == |floors| + (y - y0)
      invariant forall c :: c in floors' <==> c in floors || (c.x == x && y0 <= c.y < y)
      invariant forall i, j :: 0 <= i < j < |floors'| ==> Before(floors'[i], floors'[j])
    {
      ghost var prev := floors';
      floors' := floors' + [Cell(x, y)];
      assert forall i :: 0 <= i < |prev| ==> floors'[i] == prev[i] && Before(prev[i], Cell(x, y));
    }
  }

  /**
   The corner counter: standing on a corner, the counter becomes that
   corner's first index plus `bump` (the source's random pick from 1, 2, 3);
   elsewhere it is kept.
   */
  function Retarget(corners: seq<Cell>, agent: Cell, counter: int, bump: int): int {
    if agent in corners then IndexOf(corners, agent) + bump else counter
  }

  /** The corner the policy seeks: the counter taken modulo the number of corners. */
  function Target(corners: seq<Cell>, counter: int): Cell
    requires |corners| > 0
  {
    corners[counter % |corners|]
  }

  /**
   On reaching a corner, the next corner sought is a different one whenever
   the corners are distinct and `bump` is less than their number; with the
   four corners of a maze and `bump` in 1..3 that always holds.
   */
  lemma RetargetLeaves(corners: seq<Cell>, agent: Cell, counter: int, bump: int)
    requires NoDup(corners) && agent in corners
    requires 1 <= bump < |corners|
    ensures Target(corners, Retarget(corners, agent, counter, bump)) != agent
  {
    var i := IndexOf(corners, agent);
    var n := |corners|;
    var k := (i + bump) % n;
    var q := (i + bump) / n;
    assert i + bump == n * q + k;
    if q >= 1 {
      MulAtLeast(n, q);
    }
    assert k != i;
    assert corners[k] != corners[i];
  }

  /** A positive multiple of `n` is at least `n`. */
  lemma {:induction false} MulAtLeast(n: int, q: int)
    requires n > 0 && q >= 1
    ensures n * q >= n
    decreases q
  {
    if q > 1 {
      MulAtLeast(n, q - 1);
      assert n * q == n * (q - 1) + n;
    }
  }
}
