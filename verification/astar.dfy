/**
 Weighted A* towards a single goal position (`ASS_for_closest_target`): the
 discovered set is scanned for a cell of lowest f = g + w·h, with h the
 Manhattan distance to the goal; a cell is accepted by the exact or the
 shadow goal test; otherwise it moves to the evaluated set and its non-wall,
 non-evaluated neighbours are discovered or given a shorter g-score through it.
 */
module AStar {
  import opened Wrappers
  import opened Grid
  import opened Paths

  /** A g-score: a step count, or the "infinitely far" score floor cells are seeded with. */
  datatype Cost = Finite(steps: nat) | Infinite

  /** The initial g-scores: every floor cell that is not a wall is infinitely far. */
  function Seed(floors: set<Cell>, walls: set<Cell>): (g: map<Cell, Cost>)
    ensures forall c :: c in g <==> c in floors && c !in walls
    ensures forall c :: c in g ==> g[c] == Infinite
  {
    map c | c in floors && c !in walls :: Infinite
  }

  /** Whether a path of `n` steps is strictly shorter than the recorded score `known`. */
  predicate Improves(n: nat, known: Cost) {
    match known
    case Finite(m) => n < m
    case Infinite => true
  }

  /** f = g + w·h of a cell with a finite g-score. */
  function FScore(g: map<Cell, Cost>, c: Cell, goal: Point, w: real): real
    requires c in g && g[c].Finite?
  {
    g[c].steps as real + w * Manhattan(c, goal)
  }

  /**
   The scan for the discovered cell of lowest f: the first cell met becomes
   the candidate and a later cell replaces it only when its f is strictly
   lower. The set's iteration order is not fixed, so the result is SOME cell
   of minimal f.
   */
  method LowestF(open: set<Cell>, g: map<Cell, Cost>, goal: Point, w: real) returns (c: Cell)
    requires open != {}
    requires forall x :: x in open ==> x in g && g[x].Finite?
    ensures c in open
    ensures forall x :: x in open ==> FScore(g, c, goal, w) <= FScore(g, x, goal, w)
  {
    c :| c in open;
    var rest := open - {c};
    while rest != {}
      invariant rest <= open && c in open
      invariant forall x :: x in open && x !in rest ==> FScore(g, c, goal, w) <= FScore(g, x, goal, w)
      decreases rest
    {
      var x :| x in rest;
      if FScore(g, x, goal, w) < FScore(g, c, goal, w) {
        c := x;
      }
      rest := rest - {x};
    }
  }

  /**
   The search's bookkeeping over the discovered set `open` and the evaluated
   set `closed`: the predecessor map covers exactly the two disjoint sets,
   every recorded predecessor is an evaluated cell, the g-score of every
   recorded cell is finite and equals its predecessor-chain length `depth`,
   and the start is evaluated unless it is still the only discovered cell.
   */
  ghost predicate Book(start: Cell, walls: set<Cell>, region: set<Cell>, open: set<Cell>, closed: set<Cell>,
                       back: map<Cell, Link>, g: map<Cell, Cost>, depth: map<Cell, nat>)
  {
    && Linked(back, depth, start, walls)
    && back.Keys == open + closed && open * closed == {}
    && open + closed <= region
    && (start in closed || (open == {start} && closed == {}))
    && (forall c :: c in back && c != start ==> back[c].prev in closed)
    && (forall c :: c in back ==> c in g && g[c] == Finite(depth[c]))
  }

  /** No evaluated cell is accepted. */
  ghost predicate Unaccepted(mode: Mode, goal: Point, closed: set<Cell>) {
    forall c :: c in closed ==> !Accepts(mode, c, {goal})
  }

  /** Every open neighbour of an evaluated cell is discovered or evaluated. */
  ghost predicate Sealed(walls: set<Cell>, open: set<Cell>, closed: set<Cell>) {
    forall c, d :: c in closed && d != Stop && Neighbor(c, d) !in walls ==> Neighbor(c, d) in open + closed
  }

  /** `Sealed`, except that of `curr` only the first `i` neighbours in displacement order are covered. */
  ghost predicate SealedBut(walls: set<Cell>, open: set<Cell>, closed: set<Cell>, curr: Cell, i: int) {
    forall c, d :: c in closed && d != Stop && Neighbor(c, d) !in walls && (c == curr ==> Rank(d) < i) ==>
      Neighbor(c, d) in open + closed
  }

  /**
   Weighted A* from `start` towards `goal` with heuristic weight `w`.
   `region` is a finite set of cells that no move leaves except into a wall;
   the search only ends because of it.

   A returned route is a walk from `start` ending at a cell the goal test
   accepts, and its length is the g-score of that cell. `None` is returned
   exactly when no walk reaches an accepted cell. The returned ghost maps are
   the final g-scores and predecessor map, from which the route is rebuilt:
   every cell in the map rebuilds to a walk from `start` ending there whose
   length is the cell's g-score, and when nothing is found the map holds the
   end of every walk from `start`.
   */
  method WeightedAStar(start: Cell, goal: Point, walls: set<Cell>, floors: set<Cell>, w: real, mode: Mode,
                       ghost region: set<Cell>)
    returns (r: Option<Route>, ghost scores: map<Cell, Cost>, ghost links: map<Cell, Link>)
    requires start in region && Enclosed(walls, region)
    ensures r.Some? ==> IsWalk(walls, start, r.value.stack)
    ensures r.Some? ==> r.value.length == |r.value.stack|
    ensures r.Some? ==> Accepts(mode, End(start, r.value.stack), {goal})
    ensures r.Some? ==> End(start, r.value.stack) in scores
                        && scores[End(start, r.value.stack)] == Finite(r.value.length)
    ensures r.Some? ==> ConstructPath(End(start, r.value.stack), links) == Success(r.value)
    ensures r.None? <==> !Reachable(walls, start, mode, {goal})
    ensures Accepts(mode, start, {goal}) ==> r == Some(Route([], 0))
    ensures start in links && links[start] == Origin
    ensures Recorded(start, walls, links, scores)
    ensures r.None? ==> forall p :: IsWalk(walls, start, p) ==> End(start, p) in links
  {
    var open: set<Cell> := {start};
    var closed: set<Cell> := {};
    var back: map<Cell, Link> := map[start := Origin];
    var g: map<Cell, Cost> := Seed(floors, walls)[start := Finite(0)];
    ghost var depth: map<Cell, nat> := map[start := 0];
    while open != {}
      invariant Book(start, walls, region, open, closed, back, g, depth)
      invariant Unaccepted(mode, goal, closed)
      invariant Sealed(walls, open, closed)
      decreases region - closed
    {
      var curr := LowestF(open, g, goal, w);
      assert Accepts(mode, start, {goal}) ==> curr == start;
      if Accepts(mode, curr, {goal}) {
        LinkedConstructPath(back, depth, start, walls, curr);
        var route := ConstructPath(curr, back).value;
        assert IsWalk(walls, start, route.stack) && Accepts(mode, End(start, route.stack), {goal});
        BookRecorded(start, walls, region, open, closed, back, g, depth);
        return Some(route), g, back;
      }
      Evaluate(start, goal, walls, mode, region, open, closed, back, g, depth, curr);
      open, closed := open - {curr}, closed + {curr};
      open, back, g, depth := Relax(start, walls, region, curr, open, closed, back, g, depth);
    }
    Exhausted(start, goal, walls, mode, region, closed, back, g, depth);
    BookRecorded(start, walls, region, open, closed, back, g, depth);
    return None, g, back;
  }

  /**
   Every cell of the predecessor map `links` reconstructs to a wall-free walk
   from `start` ending at that cell, and its g-score is that walk's length.
   */
  ghost predicate Recorded(start: Cell, walls: set<Cell>, links: map<Cell, Link>, scores: map<Cell, Cost>) {
    forall c :: c in links ==>
      && c in scores && ConstructPath(c, links).Success?
      && scores[c] == Finite(ConstructPath(c, links).value.length)
      && IsWalk(walls, start, ConstructPath(c, links).value.stack)
      && End(start, ConstructPath(c, links).value.stack) == c
  }

  /** The search's bookkeeping makes its tables recorded walks. */
  lemma BookRecorded(start: Cell, walls: set<Cell>, region: set<Cell>, open: set<Cell>, closed: set<Cell>,
                     back: map<Cell, Link>, g: map<Cell, Cost>, depth: map<Cell, nat>)
    requires Book(start, walls, region, open, closed, back, g, depth)
    ensures Recorded(start, walls, back, g)
  {
    forall c | c in back
      ensures && c in g && ConstructPath(c, back).Success?
              && g[c] == Finite(ConstructPath(c, back).value.length)
              && IsWalk(walls, start, ConstructPath(c, back).value.stack)
              && End(start, ConstructPath(c, back).value.stack) == c
    {
      LinkedConstructPath(back, depth, start, walls, c);
    }
  }

  /** Moving the chosen, rejected cell from the discovered to the evaluated set. */
  lemma Evaluate(start: Cell, goal: Point, walls: set<Cell>, mode: Mode, region: set<Cell>,
                 open: set<Cell>, closed: set<Cell>, back: map<Cell, Link>, g: map<Cell, Cost>, depth: map<Cell, nat>,
                 curr: Cell)
    requires Book(start, walls, region, open, closed, back, g, depth)
    requires Unaccepted(mode, goal, closed) && Sealed(walls, open, closed)
    requires curr in open && !Accepts(mode, curr, {goal})
    ensures Book(start, walls, region, open - {curr}, closed + {curr}, back, g, depth)
    ensures Unaccepted(mode, goal, closed + {curr})
    ensures SealedBut(walls, open - {curr}, closed + {curr}, curr, 0)
    ensures start in closed + {curr}
    ensures region - (closed + {curr}) < region - closed
  {
    assert (open - {curr}) + (closed + {curr}) == open + closed;
    assert curr in region && curr !in closed by {
      assert curr in open + closed;
      assert curr !in open * closed;
    }
    assert curr in region - closed && curr !in region - (closed + {curr});
    if start !in closed {
      assert open == {start};
    }
  }

  /** With nothing left to discover, the evaluated cells hold every walk, and none is accepted. */
  lemma Exhausted(start: Cell, goal: Point, walls: set<Cell>, mode: Mode, region: set<Cell>,
                  closed: set<Cell>, back: map<Cell, Link>, g: map<Cell, Cost>, depth: map<Cell, nat>)
    requires Book(start, walls, region, {}, closed, back, g, depth)
    requires Unaccepted(mode, goal, closed) && Sealed(walls, {}, closed)
    ensures !Reachable(walls, start, mode, {goal})
    ensures forall p :: IsWalk(walls, start, p) ==> End(start, p) in back
  {
    assert Closed(walls, start, closed);
    forall p | IsWalk(walls, start, p)
      ensures End(start, p) in back && !Accepts(mode, End(start, p), {goal})
    {
      WalkStaysInClosed(walls, start, closed, p, |p|);
      assert End(start, p) == At(start, p, |p|);
    }
  }

  /**
   Examining the neighbours of the just-evaluated cell `curr` in displacement
   order: walls and evaluated cells are passed over; an undiscovered cell is
   discovered, and a discovered one whose g-score the step through `curr`
   does not improve is passed over; otherwise `curr` becomes its predecessor
   and its g-score one more than `curr`'s. Evaluated cells keep their
   predecessor and g-score.
   */
  method Relax(start: Cell, walls: set<Cell>, ghost region: set<Cell>, curr: Cell,
               open: set<Cell>, closed: set<Cell>, back: map<Cell, Link>, g: map<Cell, Cost>, ghost depth: map<Cell, nat>)
    returns (open': set<Cell>, back': map<Cell, Link>, g': map<Cell, Cost>, ghost depth': map<Cell, nat>)
    requires Enclosed(walls, region)
    requires Book(start, walls, region, open, closed, back, g, depth)
    requires curr in closed && start in closed
    requires SealedBut(walls, open, closed, curr, 0)
    ensures Book(start, walls, region, open', closed, back', g', depth')
    ensures Sealed(walls, open', closed)
    ensures open <= open'
    ensures forall c :: c in closed ==> back'[c] == back[c] && g'[c] == g[c]
  {
    assert forall c :: c in closed ==> c in back && c in g;
    open', back', g', depth' := open, back, g, depth;
    for i := 0 to 4
      invariant Relaxing(start, walls, region, curr, open, closed, back, g, i, open', back', g', depth')
    {
      var next := Neighbor(curr, Cardinals[i]);
      if next in walls || next in closed {
        PassOver(start, walls, region, curr, open, closed, back, g, i, open', back', g', depth');
        continue;
      }
      var gs := g'[curr].steps + 1;
      if next in open' && !Improves(gs, g'[next]) {
        PassOver(start, walls, region, curr, open, closed, back, g, i, open', back', g', depth');
        continue;
      }
      RecordStep(start, walls, region, curr, open, closed, back, g, i, open', back', g', depth');
      // adding to the discovered set is a no-op for a cell already discovered
      open' := open' + {next};
      back' := back'[next := Via(curr)];
      g' := g'[next := Finite(gs)];
      depth' := depth'[next := gs];
    }
  }

  /**
   The bookkeeping after the first `i` neighbours of `curr` were examined,
   starting from `open`, `back` and `g`.
   */
  ghost predicate Relaxing(start: Cell, walls: set<Cell>, region: set<Cell>, curr: Cell,
                           open: set<Cell>, closed: set<Cell>, back: map<Cell, Link>, g: map<Cell, Cost>, i: int,
                           open': set<Cell>, back': map<Cell, Link>, g': map<Cell, Cost>, depth': map<Cell, nat>)
  {
    && Book(start, walls, region, open', closed, back', g', depth')
    && curr in closed && start in closed
    && SealedBut(walls, open', closed, curr, i)
    && open <= open'
    && (forall c :: c in closed ==> c in back && c in g && back'[c] == back[c] && g'[c] == g[c])
  }

  /** Passing over a neighbour that is a wall, evaluated, or discovered with no shorter g-score. */
  lemma PassOver(start: Cell, walls: set<Cell>, region: set<Cell>, curr: Cell,
                 open: set<Cell>, closed: set<Cell>, back: map<Cell, Link>, g: map<Cell, Cost>, i: int,
                 open': set<Cell>, back': map<Cell, Link>, g': map<Cell, Cost>, depth': map<Cell, nat>)
    requires 0 <= i < 4
    requires Relaxing(start, walls, region, curr, open, closed, back, g, i, open', back', g', depth')
    requires Neighbor(curr, Cardinals[i]) in walls + closed + open'
    ensures Relaxing(start, walls, region, curr, open, closed, back, g, i + 1, open', back', g', depth')
  {
    assert Rank(Cardinals[i]) == i;
  }

  /** Making `curr` the predecessor of its `i`-th neighbour, which is neither a wall nor evaluated. */
  lemma RecordStep(start: Cell, walls: set<Cell>, region: set<Cell>, curr: Cell,
                   open: set<Cell>, closed: set<Cell>, back: map<Cell, Link>, g: map<Cell, Cost>, i: int,
                   open': set<Cell>, back': map<Cell, Link>, g': map<Cell, Cost>, depth': map<Cell, nat>)
    requires 0 <= i < 4 && Enclosed(walls, region)
    requires Relaxing(start, walls, region, curr, open, closed, back, g, i, open', back', g', depth')
    requires Neighbor(curr, Cardinals[i]) !in walls && Neighbor(curr, Cardinals[i]) !in closed
    ensures var next := Neighbor(curr, Cardinals[i]);
            var gs := g'[curr].steps + 1;
            Relaxing(start, walls, region, curr, open, closed, back, g, i + 1,
                     open' + {next}, back'[next := Via(curr)], g'[next := Finite(gs)], depth'[next := gs])
  {
    var next := Neighbor(curr, Cardinals[i]);
    NeighborAdjacent(curr, Cardinals[i]);
    Record(start, walls, region, open', closed, back', g', depth', curr, next);
    SealNext(walls, open', closed, curr, i);
    forall c | c in closed
      ensures back'[next := Via(curr)][c] == back[c] && g'[next := Finite(g'[curr].steps + 1)][c] == g[c]
    {
      assert c != next;
    }
  }

  /** Discovering the `i`-th neighbour of `curr` extends the covered neighbours of `curr` by one. */
  lemma SealNext(walls: set<Cell>, open: set<Cell>, closed: set<Cell>, curr: Cell, i: int)
    requires 0 <= i < 4
    requires SealedBut(walls, open, closed, curr, i)
    ensures SealedBut(walls, open + {Neighbor(curr, Cardinals[i])}, closed, curr, i + 1)
  {
    assert Rank(Cardinals[i]) == i;
    forall c, d | c in closed && d != Stop && Neighbor(c, d) !in walls && (c == curr ==> Rank(d) < i + 1)
      ensures Neighbor(c, d) in open + {Neighbor(curr, Cardinals[i])} + closed
    {
      if c == curr && Rank(d) == i {
        assert d == Cardinals[i];
      }
    }
  }

  /** Recording the evaluated cell `curr` as the predecessor of its open neighbour `next`. */
  lemma Record(start: Cell, walls: set<Cell>, region: set<Cell>, open: set<Cell>, closed: set<Cell>,
               back: map<Cell, Link>, g: map<Cell, Cost>, depth: map<Cell, nat>, curr: Cell, next: Cell)
    requires Enclosed(walls, region)
    requires Book(start, walls, region, open, closed, back, g, depth)
    requires curr in closed && start in closed
    requires Adjacent(curr, next) && next !in walls && next !in closed
    ensures Book(start, walls, region, open + {next}, closed, back[next := Via(curr)],
                 g[next := Finite(depth[curr] + 1)], depth[next := depth[curr] + 1])
  {
    var d := DirTo(curr, next);
    assert Neighbor(curr, d) == next;
    assert next in region;
  }
}
