/**
 Breadth-first nearest-target search (`BFS_for_closest_target`): a FIFO
 queue seeded with the agent's cell, cells marked visited when enqueued,
 expansion in the displacement order (1,0), (-1,0), (0,1), (0,-1), and a
 stop at the first dequeued cell the goal test accepts.
 */
module Bfs {
  import opened Wrappers
  import opened Grid
  import opened Paths
  import opened Seqs

  /** Enqueued cells have depths, in non-decreasing order of enqueueing. */
  ghost predicate Levelled(order: seq<Cell>, depth: map<Cell, nat>) {
    && (forall c :: c in order ==> c in depth)
    && forall i, j :: 0 <= i <= j < |order| ==> depth[order[i]] <= depth[order[j]]
  }

  /** The first `n` enqueued cells have all their open neighbours visited, at most one level deeper. */
  ghost predicate Expanded(walls: set<Cell>, order: seq<Cell>, visited: set<Cell>, depth: map<Cell, nat>, n: int) {
    && 0 <= n <= |order|
    && visited <= depth.Keys
    && (forall c :: c in order ==> c in depth)
    && forall i, d :: 0 <= i < n && d != Stop ==>
         Neighbor(order[i], d) in walls
         || (Neighbor(order[i], d) in visited && depth[Neighbor(order[i], d)] <= depth[order[i]] + 1)
  }

  /** None of the first `n` enqueued cells is accepted. */
  ghost predicate Rejected(mode: Mode, targets: set<Point>, order: seq<Cell>, n: int) {
    0 <= n <= |order| && forall i :: 0 <= i < n ==> !Accepts(mode, order[i], targets)
  }

  /**
   The bookkeeping of the search with `order[head..]` still queued: the
   predecessor map and depths of `Linked`, every visited cell enqueued exactly
   once, depths non-decreasing along `order` and spanning at most one level in
   the queue, every dequeued cell expanded and rejected.
   */
  ghost predicate SearchInv(start: Cell, targets: set<Point>, walls: set<Cell>, mode: Mode, region: set<Cell>,
                            order: seq<Cell>, head: int, visited: set<Cell>, back: map<Cell, Link>, depth: map<Cell, nat>)
  {
    && Linked(back, depth, start, walls)
    && back.Keys == visited && visited <= region
    && NoDup(order) && |order| > 0 && order[0] == start
    && (forall c :: c in order <==> c in visited)
    && 0 <= head <= |order|
    && Levelled(order, depth)
    && (head < |order| ==> depth[order[|order| - 1]] <= depth[order[head]] + 1)
    && Expanded(walls, order, visited, depth, head)
    && Rejected(mode, targets, order, head)
  }

  /**
   The nearest-target search from `start`. `region` is a finite set of cells
   from which no move leads anywhere but a wall or back into the set; the
   search only ends because of it. The FIFO queue is `order[head..]`: `order`
   lists every cell in the order it was enqueued, `head` counts dequeues.

   A returned route is a walk from `start` (its first cell one move from
   `start`, each later cell one move from the previous, no wall on it) ending
   at an accepted cell, and no walk reaches an accepted cell in fewer moves.
   `None` is returned exactly when no walk from `start` reaches an accepted cell. Every cell is
   enqueued at most once: `enqueued` lists the enqueued cells in order. Each
   of them ends a walk from `start`, the route's end is one of them, and when
   nothing is found they include the end of every walk from `start`.
   */
  method NearestTarget(start: Cell, targets: set<Point>, walls: set<Cell>, mode: Mode, ghost region: set<Cell>)
    returns (r: Option<Route>, ghost enqueued: seq<Cell>)
    requires start in region && Enclosed(walls, region)
    ensures r.Some? ==> IsWalk(walls, start, r.value.stack)
    ensures r.Some? ==> r.value.length == |r.value.stack|
    ensures r.Some? ==> Accepts(mode, End(start, r.value.stack), targets)
    ensures r.Some? ==> forall p :: IsWalk(walls, start, p) && Accepts(mode, End(start, p), targets) ==> |r.value.stack| <= |p|
    ensures r.None? <==> !Reachable(walls, start, mode, targets)
    ensures NoDup(enqueued) && |enqueued| > 0 && enqueued[0] == start
    ensures forall c :: c in enqueued ==> WalkTo(walls, start, c)
    ensures r.Some? ==> End(start, r.value.stack) in enqueued
    ensures r.None? ==> forall p :: IsWalk(walls, start, p) ==> End(start, p) in enqueued
    ensures Accepts(mode, start, targets) ==> r == Some(Route([], 0))
  {
    var order: seq<Cell> := [start];
    var head := 0;
    var visited: set<Cell> := {start};
    var back: map<Cell, Link> := map[start := Origin];
    ghost var depth: map<Cell, nat> := map[start := 0];
    SearchStarts(start, targets, walls, mode, region);
    while head < |order|
      invariant SearchInv(start, targets, walls, mode, region, order, head, visited, back, depth)
      decreases region - visited, |order| - head
    {
      var curr := order[head];
      if Accepts(mode, curr, targets) {
        AcceptedIsNearest(start, targets, walls, mode, region, order, head, visited, back, depth);
        EnqueuedWalks(start, targets, walls, mode, region, order, head, visited, back, depth);
        LinkedConstructPath(back, depth, start, walls, curr);
        return Some(ConstructPath(curr, back).value), order;
      }
      assert Accepts(mode, start, targets) ==> head > 0;
      order, visited, back, depth := ExpandNeighbors(start, targets, walls, mode, region, order, head, visited, back, depth);
      head := head + 1;
    }
    NothingReachable(start, targets, walls, mode, region, order, visited, back, depth);
    EnqueuedWalks(start, targets, walls, mode, region, order, head, visited, back, depth);
    return None, order;
  }

  /** Every enqueued cell ends a walk from `start`: the one its predecessor chain spells out. */
  lemma EnqueuedWalks(start: Cell, targets: set<Point>, walls: set<Cell>, mode: Mode, region: set<Cell>,
                      order: seq<Cell>, head: int, visited: set<Cell>, back: map<Cell, Link>, depth: map<Cell, nat>)
    requires SearchInv(start, targets, walls, mode, region, order, head, visited, back, depth)
    ensures forall c :: c in order ==> WalkTo(walls, start, c)
  {
    forall c | c in order ensures WalkTo(walls, start, c) {
      LinkedConstructPath(back, depth, start, walls, c);
    }
  }

  /** The queue holding only `start`, visited and with no predecessor, satisfies the bookkeeping. */
  lemma SearchStarts(start: Cell, targets: set<Point>, walls: set<Cell>, mode: Mode, region: set<Cell>)
    requires start in region
    ensures SearchInv(start, targets, walls, mode, region, [start], 0, {start}, map[start := Origin], map[start := 0])
  {
    assert Linked(map[start := Origin], map[start := 0], start, walls);
  }

  /**
   The first dequeued cell the goal test accepts ends a shortest walk to an
   accepted cell, and it is `start` itself when `start` is accepted.
   */
  lemma AcceptedIsNearest(start: Cell, targets: set<Point>, walls: set<Cell>, mode: Mode, region: set<Cell>,
                          order: seq<Cell>, head: int, visited: set<Cell>, back: map<Cell, Link>, depth: map<Cell, nat>)
    requires SearchInv(start, targets, walls, mode, region, order, head, visited, back, depth)
    requires head < |order| && Accepts(mode, order[head], targets)
    ensures ConstructPath(order[head], back).Success?
    ensures var route := ConstructPath(order[head], back).value;
            && IsWalk(walls, start, route.stack) && route.length == |route.stack|
            && Accepts(mode, End(start, route.stack), targets)
            && Reachable(walls, start, mode, targets)
            && (forall p :: IsWalk(walls, start, p) && Accepts(mode, End(start, p), targets) ==> |route.stack| <= |p|)
            && (Accepts(mode, start, targets) ==> route == Route([], 0))
  {
    var curr := order[head];
    LinkedConstructPath(back, depth, start, walls, curr);
    var route := ConstructPath(curr, back).value;
    forall p | IsWalk(walls, start, p) && Accepts(mode, End(start, p), targets)
      ensures |route.stack| <= |p|
    {
      FirstAcceptedIsNearest(walls, start, targets, mode, order, head, visited, depth, p);
    }
    assert IsWalk(walls, start, route.stack) && Accepts(mode, End(start, route.stack), targets);
    if Accepts(mode, start, targets) {
      assert head == 0;
    }
  }

  /** An exhausted queue has visited every cell reachable from `start`, and none of them is accepted. */
  lemma NothingReachable(start: Cell, targets: set<Point>, walls: set<Cell>, mode: Mode, region: set<Cell>,
                         order: seq<Cell>, visited: set<Cell>, back: map<Cell, Link>, depth: map<Cell, nat>)
    requires SearchInv(start, targets, walls, mode, region, order, |order|, visited, back, depth)
    ensures !Reachable(walls, start, mode, targets)
    ensures forall p :: IsWalk(walls, start, p) ==> End(start, p) in order
  {
    assert Closed(walls, start, visited) by {
      forall c, d | c in visited && d != Stop && Neighbor(c, d) !in walls
        ensures Neighbor(c, d) in visited
      {
        var i :| 0 <= i < |order| && order[i] == c;
      }
    }
    forall p | IsWalk(walls, start, p)
      ensures End(start, p) in order && !Accepts(mode, End(start, p), targets)
    {
      WalkStaysInClosed(walls, start, visited, p, |p|);
      assert End(start, p) == At(start, p, |p|);
      var i :| 0 <= i < |order| && order[i] == End(start, p);
    }
  }

  /**
   The bookkeeping while the dequeued cell `curr` (at index `head`, depth `dc`)
   has had its first `i` neighbours in displacement order examined, starting
   from `order0` and `visited0`.
   */
  ghost predicate Expanding(start: Cell, targets: set<Point>, walls: set<Cell>, mode: Mode, region: set<Cell>,
                            order0: seq<Cell>, visited0: set<Cell>, head: int, curr: Cell, dc: nat,
                            order: seq<Cell>, visited: set<Cell>, back: map<Cell, Link>, depth: map<Cell, nat>, i: int)
  {
    && ExpandingCore(start, targets, walls, mode, region, head, order, visited, back, depth)
    && ExpandingProgress(walls, order0, visited0, head, curr, dc, order, visited, depth, i)
  }

  ghost predicate ExpandingCore(start: Cell, targets: set<Point>, walls: set<Cell>, mode: Mode, region: set<Cell>,
                                head: int, order: seq<Cell>, visited: set<Cell>, back: map<Cell, Link>, depth: map<Cell, nat>)
  {
    && Linked(back, depth, start, walls)
    && back.Keys == visited && visited <= region
    && NoDup(order) && |order| > 0 && order[0] == start
    && (forall c :: c in order <==> c in visited)
    && 0 <= head < |order|
    && Levelled(order, depth)
    && Expanded(walls, order, visited, depth, head)
    && Rejected(mode, targets, order, head + 1)
  }

  ghost predicate ExpandingProgress(walls: set<Cell>, order0: seq<Cell>, visited0: set<Cell>, head: int, curr: Cell, dc: nat,
                                    order: seq<Cell>, visited: set<Cell>, depth: map<Cell, nat>, i: int)
  {
    && 0 <= head < |order| && order[head] == curr && curr in depth && depth[curr] == dc
    && visited <= depth.Keys
    && (forall c :: c in order ==> c in depth)
    && (forall j :: 0 <= j < |order| ==> depth[order[j]] <= dc + 1)
    && (forall d :: Rank(d) < i ==>
          Neighbor(curr, d) in walls || (Neighbor(curr, d) in visited && depth[Neighbor(curr, d)] <= dc + 1))
    && visited0 <= visited && (visited == visited0 ==> order == order0)
  }

  /**
   One dequeue of the search, after the head cell was found not accepted:
   enqueue, in displacement order, each neighbour that is neither a wall nor
   visited, marking it visited and recording the head cell as its predecessor.
   */
  method ExpandNeighbors(start: Cell, targets: set<Point>, walls: set<Cell>, mode: Mode, ghost region: set<Cell>,
                         order: seq<Cell>, head: int, visited: set<Cell>, back: map<Cell, Link>, ghost depth: map<Cell, nat>)
    returns (order': seq<Cell>, visited': set<Cell>, back': map<Cell, Link>, ghost depth': map<Cell, nat>)
    requires Enclosed(walls, region)
    requires SearchInv(start, targets, walls, mode, region, order, head, visited, back, depth)
    requires head < |order| && !Accepts(mode, order[head], targets)
    ensures SearchInv(start, targets, walls, mode, region, order', head + 1, visited', back', depth')
    ensures (visited' == visited && order' == order) || region - visited' < region - visited
    ensures order' == order + Fresh(walls, visited, order[head], Cardinals)
    ensures forall c :: c in visited' <==> c in visited || c in Fresh(walls, visited, order[head], Cardinals)
    ensures forall c :: c in back ==> c in back' && back'[c] == back[c]
    ensures forall c :: c in Fresh(walls, visited, order[head], Cardinals) ==> c in back' && back'[c] == Via(order[head])
  {
    var curr := order[head];
    ghost var dc := depth[curr];
    StartExpanding(start, targets, walls, mode, region, order, head, visited, back, depth);
    order', visited', back', depth' := order, visited, back, depth;
    for i := 0 to 4
      invariant Expanding(start, targets, walls, mode, region, order, visited, head, curr, dc, order', visited', back', depth', i)
      invariant Grown(walls, order, visited, back, curr, i, order', visited', back')
    {
      var next := Neighbor(curr, Cardinals[i]);
      if next in walls || next in visited' {
        SkipStep(start, targets, walls, mode, region, order, visited, head, curr, dc, order', visited', back', depth', i);
        GrowSkip(walls, order, visited, back, curr, i, order', visited', back');
        continue;
      }
      EnqueueStep(start, targets, walls, mode, region, order, visited, head, curr, dc, order', visited', back', depth', i);
      GrowEnqueue(walls, order, visited, back, curr, i, order', visited', back');
      order', visited', back', depth' := order' + [next], visited' + {next}, back'[next := Via(curr)], depth'[next := dc + 1];
    }
    FinishExpanding(start, targets, walls, mode, region, order, visited, head, curr, dc, order', visited', back', depth');
    Shrinks(region, visited, visited');
    assert Cardinals[..4] == Cardinals;
  }

  /**
   The expansion of `curr` after examining its first `i` moves, starting from
   `order`, `visited` and `back`: the cells those moves enqueue were appended
   and visited, with `curr` as their predecessor, and no earlier link changed.
   */
  ghost predicate Grown(walls: set<Cell>, order: seq<Cell>, visited: set<Cell>, back: map<Cell, Link>, curr: Cell, i: int,
                        order': seq<Cell>, visited': set<Cell>, back': map<Cell, Link>)
    requires 0 <= i <= 4
  {
    && order' == order + Fresh(walls, visited, curr, Cardinals[..i])
    && (forall c :: c in visited' <==> c in visited || c in Fresh(walls, visited, curr, Cardinals[..i]))
    && (forall c :: c in back ==> c in back' && back'[c] == back[c])
    && (forall c :: c in Fresh(walls, visited, curr, Cardinals[..i]) ==> c in back' && back'[c] == Via(curr))
  }

  /** A neighbour that is a wall or visited is not enqueued. */
  lemma GrowSkip(walls: set<Cell>, order: seq<Cell>, visited: set<Cell>, back: map<Cell, Link>, curr: Cell, i: int,
                 order': seq<Cell>, visited': set<Cell>, back': map<Cell, Link>)
    requires 0 <= i < 4 && Grown(walls, order, visited, back, curr, i, order', visited', back')
    requires Neighbor(curr, Cardinals[i]) in walls || Neighbor(curr, Cardinals[i]) in visited'
    ensures Grown(walls, order, visited, back, curr, i + 1, order', visited', back')
  {
    FreshAhead(walls, visited, curr, i);
    assert Cardinals[..i + 1][..i] == Cardinals[..i];
  }

  /** A neighbour that is neither a wall nor visited is appended, visited and linked to `curr`. */
  lemma GrowEnqueue(walls: set<Cell>, order: seq<Cell>, visited: set<Cell>, back: map<Cell, Link>, curr: Cell, i: int,
                    order': seq<Cell>, visited': set<Cell>, back': map<Cell, Link>)
    requires 0 <= i < 4 && Grown(walls, order, visited, back, curr, i, order', visited', back')
    requires back.Keys == visited
    requires Neighbor(curr, Cardinals[i]) !in walls && Neighbor(curr, Cardinals[i]) !in visited'
    ensures var next := Neighbor(curr, Cardinals[i]);
            Grown(walls, order, visited, back, curr, i + 1, order' + [next], visited' + {next}, back'[next := Via(curr)])
  {
    assert Cardinals[..i + 1][..i] == Cardinals[..i];
  }

  /**
   The cells the expansion of `curr` enqueues when it examines the moves `ds`
   in turn: each neighbour that is neither a wall nor visited.
   */
  function Fresh(walls: set<Cell>, visited: set<Cell>, curr: Cell, ds: seq<Direction>): seq<Cell> {
    if |ds| == 0 then []
    else
      var next := Neighbor(curr, ds[|ds| - 1]);
      Fresh(walls, visited, curr, ds[..|ds| - 1]) + (if next in walls || next in visited then [] else [next])
  }

  /** Every cell enqueued while examining `ds` is an open, unvisited neighbour along one of `ds`. */
  lemma {:induction false} FreshFrom(walls: set<Cell>, visited: set<Cell>, curr: Cell, ds: seq<Direction>, c: Cell)
    requires c in Fresh(walls, visited, curr, ds)
    ensures c !in walls && c !in visited
    ensures exists j :: 0 <= j < |ds| && c == Neighbor(curr, ds[j])
    decreases |ds|
  {
    var next := Neighbor(curr, ds[|ds| - 1]);
    if c in Fresh(walls, visited, curr, ds[..|ds| - 1]) {
      FreshFrom(walls, visited, curr, ds[..|ds| - 1], c);
      var j :| 0 <= j < |ds| - 1 && c == Neighbor(curr, ds[..|ds| - 1][j]);
      assert ds[..|ds| - 1][j] == ds[j];
    } else {
      assert c == next;
    }
  }

  /** The `i`-th neighbour is not among those the first `i` moves enqueued: the four neighbours are distinct. */
  lemma FreshAhead(walls: set<Cell>, visited: set<Cell>, curr: Cell, i: int)
    requires 0 <= i < 4
    ensures Neighbor(curr, Cardinals[i]) !in Fresh(walls, visited, curr, Cardinals[..i])
  {
    if Neighbor(curr, Cardinals[i]) in Fresh(walls, visited, curr, Cardinals[..i]) {
      FreshFrom(walls, visited, curr, Cardinals[..i], Neighbor(curr, Cardinals[i]));
      assert false;
    }
  }

  /**
   One expansion enqueues exactly the open neighbours of `curr` that were not
   yet visited, each once.
   */
  lemma FreshCells(walls: set<Cell>, visited: set<Cell>, curr: Cell)
    ensures NoDup(Fresh(walls, visited, curr, Cardinals))
    ensures forall c :: c in Fresh(walls, visited, curr, Cardinals) <==> Adjacent(curr, c) && c !in walls && c !in visited
  {
    var f := Fresh(walls, visited, curr, Cardinals);
    forall c ensures c in f <==> Adjacent(curr, c) && c !in walls && c !in visited {
      if c in f {
        FreshFrom(walls, visited, curr, Cardinals, c);
        var j :| 0 <= j < 4 && c == Neighbor(curr, Cardinals[j]);
        NeighborAdjacent(curr, Cardinals[j]);
      }
      if Adjacent(curr, c) && c !in walls && c !in visited {
        var d := DirTo(curr, c);
        FreshGrows(walls, visited, curr, Rank(d) + 1);
        FreshUpTo(walls, visited, curr, Rank(d) + 1);
      }
    }
    FreshGrows(walls, visited, curr, 4);
    assert Cardinals[..4] == Cardinals;
  }

  /**
   Examining one more move keeps the enqueued cells distinct, keeps those
   already enqueued, and enqueues the move's neighbour exactly when it is
   open and unvisited.
   */
  lemma {:induction false} FreshGrows(walls: set<Cell>, visited: set<Cell>, curr: Cell, n: int)
    requires 0 <= n <= 4
    ensures NoDup(Fresh(walls, visited, curr, Cardinals[..n]))
    ensures n > 0 ==> Fresh(walls, visited, curr, Cardinals[..n - 1]) <= Fresh(walls, visited, curr, Cardinals[..n])
    ensures n > 0 ==> var next := Neighbor(curr, Cardinals[n - 1]);
                      (next !in walls && next !in visited <==> next in Fresh(walls, visited, curr, Cardinals[..n]))
    decreases n
  {
    if n > 0 {
      FreshGrows(walls, visited, curr, n - 1);
      assert Cardinals[..n][..n - 1] == Cardinals[..n - 1];
      FreshAhead(walls, visited, curr, n - 1);
      var prev := Fresh(walls, visited, curr, Cardinals[..n - 1]);
      var next := Neighbor(curr, Cardinals[n - 1]);
      if !(next in walls || next in visited) {
        AppendNoDup(prev, next);
      }
    }
  }

  /** What the first `n` moves enqueue is enqueued by the whole expansion. */
  lemma {:induction false} FreshUpTo(walls: set<Cell>, visited: set<Cell>, curr: Cell, n: int)
    requires 0 <= n <= 4
    ensures forall c :: c in Fresh(walls, visited, curr, Cardinals[..n]) ==> c in Fresh(walls, visited, curr, Cardinals)
    decreases 4 - n
  {
    if n < 4 {
      FreshGrows(walls, visited, curr, n + 1);
      FreshUpTo(walls, visited, curr, n + 1);
    } else {
      assert Cardinals[..n] == Cardinals;
    }
  }

  /** Growing the visited set inside the region shrinks what is left of the region. */
  lemma Shrinks(region: set<Cell>, visited: set<Cell>, visited': set<Cell>)
    requires visited <= visited' <= region
    ensures visited' == visited || region - visited' < region - visited
  {
    if visited' != visited {
      var c :| c in visited' && c !in visited;
      assert c in region - visited && c !in region - visited';
    }
  }

  lemma StartExpanding(start: Cell, targets: set<Point>, walls: set<Cell>, mode: Mode, region: set<Cell>,
                       order: seq<Cell>, head: int, visited: set<Cell>, back: map<Cell, Link>, depth: map<Cell, nat>)
    requires SearchInv(start, targets, walls, mode, region, order, head, visited, back, depth)
    requires head < |order| && !Accepts(mode, order[head], targets)
    ensures Expanding(start, targets, walls, mode, region, order, visited, head, order[head], depth[order[head]],
                      order, visited, back, depth, 0)
  {
    assert Rejected(mode, targets, order, head + 1) by {
      forall k | 0 <= k < head + 1 ensures !Accepts(mode, order[k], targets) {
        if k < head {
          assert Rejected(mode, targets, order, head);
        }
      }
    }
  }

  /** Passing over a neighbour that is a wall or already visited. */
  lemma SkipStep(start: Cell, targets: set<Point>, walls: set<Cell>, mode: Mode, region: set<Cell>,
                 order0: seq<Cell>, visited0: set<Cell>, head: int, curr: Cell, dc: nat,
                 order: seq<Cell>, visited: set<Cell>, back: map<Cell, Link>, depth: map<Cell, nat>, i: int)
    requires 0 <= i < 4
    requires Expanding(start, targets, walls, mode, region, order0, visited0, head, curr, dc, order, visited, back, depth, i)
    requires Neighbor(curr, Cardinals[i]) in walls || Neighbor(curr, Cardinals[i]) in visited
    ensures Expanding(start, targets, walls, mode, region, order0, visited0, head, curr, dc, order, visited, back, depth, i + 1)
  {
    assert Rank(Cardinals[i]) == i;
    var next := Neighbor(curr, Cardinals[i]);
    if next in visited {
      var j :| 0 <= j < |order| && order[j] == next;
    }
  }

  /** Enqueueing a neighbour that is neither a wall nor visited. */
  lemma EnqueueStep(start: Cell, targets: set<Point>, walls: set<Cell>, mode: Mode, region: set<Cell>,
                    order0: seq<Cell>, visited0: set<Cell>, head: int, curr: Cell, dc: nat,
                    order: seq<Cell>, visited: set<Cell>, back: map<Cell, Link>, depth: map<Cell, nat>, i: int)
    requires 0 <= i < 4 && Enclosed(walls, region)
    requires Expanding(start, targets, walls, mode, region, order0, visited0, head, curr, dc, order, visited, back, depth, i)
    requires Neighbor(curr, Cardinals[i]) !in walls && Neighbor(curr, Cardinals[i]) !in visited
    ensures var next := Neighbor(curr, Cardinals[i]);
            Expanding(start, targets, walls, mode, region, order0, visited0, head, curr, dc,
                      order + [next], visited + {next}, back[next := Via(curr)], depth[next := dc + 1], i + 1)
  {
    NeighborAdjacent(curr, Cardinals[i]);
    var next := Neighbor(curr, Cardinals[i]);
    EnqueueCore(start, targets, walls, mode, region, head, curr, dc, order, visited, back, depth, next);
    EnqueueProgress(walls, order0, visited0, head, curr, dc, order, visited, depth, i);
  }

  lemma EnqueueCore(start: Cell, targets: set<Point>, walls: set<Cell>, mode: Mode, region: set<Cell>,
                    head: int, curr: Cell, dc: nat,
                    order: seq<Cell>, visited: set<Cell>, back: map<Cell, Link>, depth: map<Cell, nat>, next: Cell)
    requires Enclosed(walls, region)
    requires ExpandingCore(start, targets, walls, mode, region, head, order, visited, back, depth)
    requires order[head] == curr && depth[curr] == dc
    requires forall j :: 0 <= j < |order| ==> depth[order[j]] <= dc + 1
    requires Adjacent(curr, next) && next !in walls && next !in visited
    ensures ExpandingCore(start, targets, walls, mode, region, head, order + [next], visited + {next},
                          back[next := Via(curr)], depth[next := dc + 1])
  {
    EnqueuePreserves(start, targets, walls, mode, order, head, head + 1, visited, back, depth, curr, next, dc + 1);
    var d := DirTo(curr, next);
    assert Neighbor(curr, d) == next;
    assert next in region;
  }

  lemma EnqueueProgress(walls: set<Cell>, order0: seq<Cell>, visited0: set<Cell>, head: int, curr: Cell, dc: nat,
                        order: seq<Cell>, visited: set<Cell>, depth: map<Cell, nat>, i: int)
    requires 0 <= i < 4
    requires ExpandingProgress(walls, order0, visited0, head, curr, dc, order, visited, depth, i)
    requires forall c :: c in order <==> c in visited
    requires Neighbor(curr, Cardinals[i]) !in visited
    ensures var next := Neighbor(curr, Cardinals[i]);
            ExpandingProgress(walls, order0, visited0, head, curr, dc, order + [next], visited + {next},
                              depth[next := dc + 1], i + 1)
  {
    assert Rank(Cardinals[i]) == i;
    var next := Neighbor(curr, Cardinals[i]);
    var order', depth' := order + [next], depth[next := dc + 1];
    assert forall j :: 0 <= j < |order| ==> order'[j] == order[j] && depth'[order[j]] == depth[order[j]];
  }

  lemma FinishExpanding(start: Cell, targets: set<Point>, walls: set<Cell>, mode: Mode, region: set<Cell>,
                        order0: seq<Cell>, visited0: set<Cell>, head: int, curr: Cell, dc: nat,
                        order: seq<Cell>, visited: set<Cell>, back: map<Cell, Link>, depth: map<Cell, nat>)
    requires Expanding(start, targets, walls, mode, region, order0, visited0, head, curr, dc, order, visited, back, depth, 4)
    ensures SearchInv(start, targets, walls, mode, region, order, head + 1, visited, back, depth)
    ensures visited0 <= visited && (visited == visited0 ==> order == order0)
  {
    forall i, d | 0 <= i < head + 1 && d != Stop
      ensures Neighbor(order[i], d) in walls
              || (Neighbor(order[i], d) in visited && depth[Neighbor(order[i], d)] <= depth[order[i]] + 1)
    {
      if i == head {
        assert Rank(d) < 4;
      }
    }
  }

  /** Enqueueing an unvisited open neighbour of a visited cell keeps the bookkeeping. */
  lemma EnqueuePreserves(start: Cell, targets: set<Point>, walls: set<Cell>, mode: Mode,
                         order: seq<Cell>, n: int, m: int, visited: set<Cell>, back: map<Cell, Link>, depth: map<Cell, nat>,
                         curr: Cell, next: Cell, k: nat)
    requires Linked(back, depth, start, walls) && back.Keys == visited
    requires curr in visited && depth[curr] + 1 == k
    requires next !in visited && next !in walls && Adjacent(curr, next)
    requires NoDup(order) && forall c :: c in order <==> c in visited
    requires Levelled(order, depth) && forall j :: 0 <= j < |order| ==> depth[order[j]] <= k
    requires Expanded(walls, order, visited, depth, n)
    requires Rejected(mode, targets, order, m)
    ensures Linked(back[next := Via(curr)], depth[next := k], start, walls)
    ensures NoDup(order + [next])
    ensures Levelled(order + [next], depth[next := k])
    ensures Expanded(walls, order + [next], visited + {next}, depth[next := k], n)
    ensures Rejected(mode, targets, order + [next], m)
  {
    var order', depth' := order + [next], depth[next := k];
    assert forall j :: 0 <= j < |order| ==> order'[j] == order[j] && order[j] != next;
    assert forall c :: c in visited ==> depth'[c] == depth[c];
  }

  /**
   When the queue's head is accepted, no walk reaches an accepted cell in
   fewer moves than the head's depth: every cell a shorter walk passes through
   has already been dequeued, and dequeued cells were not accepted.
   */
  lemma {:induction false} FirstAcceptedIsNearest(walls: set<Cell>, start: Cell, targets: set<Point>, mode: Mode,
                                                  order: seq<Cell>, head: int, visited: set<Cell>,
                                                  depth: map<Cell, nat>, p: seq<Cell>)
    requires 0 <= head < |order| && start in visited && start in depth && depth[start] == 0
    requires forall c :: c in order <==> c in visited
    requires Levelled(order, depth) && Expanded(walls, order, visited, depth, head)
    requires Rejected(mode, targets, order, head)
    requires IsWalk(walls, start, p) && Accepts(mode, End(start, p), targets)
    ensures depth[order[head]] <= |p|
  {
    assert End(start, p) == At(start, p, |p|);
    if |p| < depth[order[head]] {
      var k := ShorterWalkDequeued(walls, start, order, head, visited, depth, p, |p|);
    }
  }

  /** Each cell of a walk shorter than the head's depth was dequeued, at depth at most its position. */
  lemma {:induction false} ShorterWalkDequeued(walls: set<Cell>, start: Cell, order: seq<Cell>, head: int,
                                               visited: set<Cell>, depth: map<Cell, nat>, p: seq<Cell>, i: int)
    returns (k: int)
    requires 0 <= head < |order| && start in visited && start in depth && depth[start] == 0
    requires forall c :: c in order <==> c in visited
    requires Levelled(order, depth) && Expanded(walls, order, visited, depth, head)
    requires IsWalk(walls, start, p) && |p| < depth[order[head]]
    requires 0 <= i <= |p|
    ensures 0 <= k < head && order[k] == At(start, p, i) && depth[order[k]] <= i
    decreases i
  {
    var v := At(start, p, i);
    if i > 0 {
      var k' := ShorterWalkDequeued(walls, start, order, head, visited, depth, p, i - 1);
      var u := At(start, p, i - 1);
      var d := DirTo(u, p[i - 1]);
      assert Neighbor(order[k'], d) == v;
    }
    assert v in order;
    k :| 0 <= k < |order| && order[k] == v;
  }
}
