/**
 The death-trap classifier (`BFS_for_death_traps`): a breadth-first scan
 seeded with the agent's open neighbours, each queue item tagged with the
 direction of the first move and a distance. A direction is flagged when
 seeded and unflagged when one of its items is dequeued at a distance of at
 least the threshold; a move left unflagged when the queue empties starts a
 path through at least `threshold` distinct cells.

 The scan's `visited` map holds, for each cell reached, the distance at which
 it was last queued; an item does not enter a cell recorded at a smaller
 distance. Because the grid is bipartite (every move changes `x + y` by one),
 an item's distance and a recorded distance of a neighbour differ in parity,
 so recorded distances never grow, and an item never re-enters a cell of its
 own trail.
 */
module DeathTraps {
  import opened Wrappers
  import opened Grid
  import opened Seqs

  /** A queue item: a cell, the first move that led there, and the distance walked. */
  datatype Item = Item(cell: Cell, dir: Direction, dist: int)

  /**
   An iteration order of the displacement-to-direction table: each of the
   four moves once. The same order is used for seeding and for expansion.
   */
  predicate IsOrdering(order: seq<Direction>) {
    && |order| == 4
    && (forall d :: d in order <==> d != Stop)
    && forall i, j :: 0 <= i < j < 4 ==> order[i] != order[j]
  }

  /** The moves from `agent` that do not run into a wall. */
  function Open(agent: Cell, walls: set<Cell>): (ds: set<Direction>)
    ensures forall d :: d in ds <==> d != Stop && Neighbor(agent, d) !in walls
  {
    set d | d in Cardinals && Neighbor(agent, d) !in walls
  }

  /** Some dequeued item of direction `d` was at distance at least `threshold`. */
  ghost predicate Reached(popped: seq<Item>, d: Direction, threshold: int) {
    exists k :: 0 <= k < |popped| && popped[k].dir == d && popped[k].dist >= threshold
  }

  /** A walk of at least `n` moves from `agent`, through distinct cells, whose first move is `d`. */
  ghost predicate Escapes(walls: set<Cell>, agent: Cell, d: Direction, n: int) {
    exists p :: IsWalk(walls, agent, p) && NoDup(p) && |p| > 0 && |p| >= n && p[0] == Neighbor(agent, d)
  }

  /** The item records a walk from `agent` through distinct cells: `dist` moves, the first one `dir`, ending at `cell`. */
  ghost predicate Witnessed(walls: set<Cell>, agent: Cell, it: Item) {
    exists p :: IsWalk(walls, agent, p) && NoDup(p) && |p| == it.dist && |p| > 0
                && p[0] == Neighbor(agent, it.dir) && End(agent, p) == it.cell
  }

  /** `x + y` of `c`, measured from `agent`: one move changes it by exactly one. */
  function Drift(agent: Cell, c: Cell): int {
    (c.x - agent.x) + (c.y - agent.y)
  }

  predicate Even(n: int) {
    n % 2 == 0
  }

  /** Every recorded distance has the parity of its cell. */
  ghost predicate Parity(agent: Cell, visited: map<Cell, int>) {
    forall c :: c in visited ==> Even(visited[c] - Drift(agent, c))
  }

  /** `visited'` records every cell of `visited`, none at a larger distance. */
  ghost predicate Lower(visited: map<Cell, int>, visited': map<Cell, int>) {
    forall c :: c in visited ==> c in visited' && visited'[c] <= visited[c]
  }

  /** `p` is the item's walk, and its `j`-th cell is recorded at distance at most `j + 1`. */
  ghost predicate Trail(walls: set<Cell>, agent: Cell, visited: map<Cell, int>, it: Item, p: seq<Cell>) {
    && IsWalk(walls, agent, p) && NoDup(p) && |p| == it.dist && |p| > 0
    && p[0] == Neighbor(agent, it.dir) && End(agent, p) == it.cell
    && forall j :: 0 <= j < |p| ==> p[j] in visited && visited[p[j]] <= j + 1
  }

  /** The item's distance has its cell's parity. */
  predicate Fits(agent: Cell, it: Item) {
    Even(it.dist - Drift(agent, it.cell))
  }

  /** A queued item: its distance has its cell's parity, and it has a trail. */
  ghost predicate Tracked(walls: set<Cell>, agent: Cell, visited: map<Cell, int>, it: Item) {
    && Fits(agent, it)
    && exists p :: Trail(walls, agent, visited, it, p)
  }

  /** The seed item of move `d`. */
  function SeedOf(agent: Cell, d: Direction): Item {
    Item(Neighbor(agent, d), d, 1)
  }

  /**
   The scan's bookkeeping: `traps` is the set of open moves no dequeued item of
   which reached the threshold; every item seen starts with an open move and
   records a walk through distinct cells, and every queued item has a trail in
   `visited`; every open move's seed is queued or dequeued.
   */
  ghost predicate ScanInv(agent: Cell, walls: set<Cell>, threshold: int,
                          queue: seq<Item>, popped: seq<Item>, traps: set<Direction>, visited: map<Cell, int>)
  {
    && (forall d :: d in traps <==> d in Open(agent, walls) && !Reached(popped, d, threshold))
    && (forall k :: 0 <= k < |queue| ==> queue[k].dir in Open(agent, walls) && Tracked(walls, agent, visited, queue[k]))
    && (forall k :: 0 <= k < |popped| ==> popped[k].dir in Open(agent, walls) && Witnessed(walls, agent, popped[k]))
    && (forall d :: d in Open(agent, walls) ==> SeedOf(agent, d) in queue || SeedOf(agent, d) in popped)
    && Parity(agent, visited)
  }

  /**
   `BFS_for_death_traps(agent, walls, threshold)` with the dictionary order
   `order` and at most `fuel` dequeues; `None` when the budget runs out with
   items still queued. `popped` lists the dequeued items in order.

   The result holds only open moves, and an open move is in it exactly when
   none of its dequeued items was at distance `threshold` or more. Every open
   move's seed is dequeued, so a threshold of at most 1 flags nothing. A move
   left out of the result starts a walk through at least `threshold` distinct
   cells.

   The trace is a breadth-first one: every dequeued item is a seed or one
   step further than an earlier dequeued item that was expanded, and every
   open neighbour of an expanded item is the cell of some dequeued item at
   most one step further.
   */
  method DeathTrapScan(agent: Cell, walls: set<Cell>, threshold: int, order: seq<Direction>, fuel: nat)
    returns (r: Option<set<Direction>>, ghost popped: seq<Item>)
    requires IsOrdering(order)
    ensures r.Some? ==> r.value <= Open(agent, walls)
    ensures r.Some? ==> forall d :: d in r.value <==> d in Open(agent, walls) && !Reached(popped, d, threshold)
    ensures r.Some? ==> forall d :: d in Open(agent, walls) ==> SeedOf(agent, d) in popped
    ensures r.Some? && threshold <= 1 ==> r.value == {}
    ensures r.Some? ==> forall d :: d in Open(agent, walls) && d !in r.value ==> Escapes(walls, agent, d, threshold)
    ensures r.None? ==> |popped| == fuel
    ensures forall j :: 0 <= j < |popped| ==> Born(agent, threshold, popped, j, popped[j])
    ensures r.Some? ==> Covered(walls, threshold, popped)
  {
    var queue, visited, traps := Seeds(agent, walls, order);
    popped := [];
    TraceStarts(agent, walls, threshold, queue, visited);
    var dequeued := 0;
    while |queue| > 0
      invariant ScanInv(agent, walls, threshold, queue, popped, traps, visited)
      invariant TraceInv(agent, walls, threshold, queue, popped, visited, |popped|)
      invariant dequeued == |popped| <= fuel
      decreases fuel - dequeued
    {
      if dequeued == fuel {
        return None, popped;
      }
      ghost var queue0, popped0 := queue, popped;
      var it, skip;
      it, queue, popped, traps, skip := Dequeue(agent, walls, threshold, queue, popped, traps, visited);
      TraceDequeue(agent, walls, threshold, queue0, popped0, visited, skip);
      dequeued := dequeued + 1;
      if skip {
        continue;
      }
      ghost var visited0 := visited;
      queue, visited := EnqueueNeighbors(agent, walls, threshold, order, it, queue, popped, traps, visited);
      TraceEnqueue(agent, walls, threshold, order, queue0[1..], popped, visited0, queue, visited);
    }
    Finished(agent, walls, threshold, popped, traps, visited);
    TraceFinished(agent, walls, threshold, popped, visited);
    return Some(traps), popped;
  }

  /**
   Dequeuing the head item; when it has reached the threshold and its move is
   still flagged, the move is unflagged and the item is not expanded (`skip`).
   */
  method Dequeue(agent: Cell, walls: set<Cell>, threshold: int, queue: seq<Item>, ghost popped: seq<Item>,
                 traps: set<Direction>, ghost visited: map<Cell, int>)
    returns (it: Item, queue': seq<Item>, ghost popped': seq<Item>, traps': set<Direction>, skip: bool)
    requires |queue| > 0 && ScanInv(agent, walls, threshold, queue, popped, traps, visited)
    ensures ScanInv(agent, walls, threshold, queue', popped', traps', visited)
    ensures it.dir in Open(agent, walls) && Tracked(walls, agent, visited, it)
    ensures it == queue[0] && queue' == queue[1..] && popped' == popped + [it]
    ensures skip <==> it.dist >= threshold && it.dir in traps
    ensures skip <==> it.dist >= threshold && !Reached(popped, it.dir, threshold)
  {
    it := queue[0];
    assert queue == [it] + queue[1..];
    assert it.dir in Open(agent, walls) && Tracked(walls, agent, visited, it);
    DequeueKeeps(agent, walls, threshold, queue[1..], popped, it, traps, visited);
    queue', popped', traps' := queue[1..], popped + [it], traps;
    skip := false;
    if it.dist >= threshold {
      if it.dir in traps {
        traps' := traps - {it.dir};
        skip := true;
      }
    }
  }

  /**
   The expansion of a dequeued item: each neighbour in dictionary order that
   is not a wall is queued one step further, unless it was already reached
   at a distance smaller than the item's; its distance is recorded.
   */
  method EnqueueNeighbors(agent: Cell, walls: set<Cell>, threshold: int, order: seq<Direction>, it: Item,
                          queue: seq<Item>, ghost popped: seq<Item>, ghost traps: set<Direction>, visited: map<Cell, int>)
    returns (queue': seq<Item>, visited': map<Cell, int>)
    requires IsOrdering(order)
    requires ScanInv(agent, walls, threshold, queue, popped, traps, visited)
    requires it.dir in Open(agent, walls) && Tracked(walls, agent, visited, it)
    ensures ScanInv(agent, walls, threshold, queue', popped, traps, visited')
    ensures queue' == queue + Spread(walls, visited, it, order)
    ensures Lower(visited, visited') && Retains(visited, visited', it, Spread(walls, visited, it, order))
    ensures Reaches(walls, visited', it)
  {
    queue', visited' := queue, visited;
    for k := 0 to 4
      invariant ScanInv(agent, walls, threshold, queue', popped, traps, visited')
      invariant Tracked(walls, agent, visited', it)
      invariant Spreading(walls, visited, it, order, k, queue, queue', visited')
    {
      queue', visited' := Offer(agent, walls, threshold, order, it, k, queue, popped, traps, visited, queue', visited');
    }
    SpreadDone(walls, visited, it, order, queue, queue', visited');
  }

  /**
   One step of the expansion of `it`: the `k`-th neighbour in dictionary
   order is skipped when it is a wall or recorded at a distance below
   `it`'s; otherwise `it` one step further is queued and the neighbour's
   distance recorded.
   */
  method Offer(agent: Cell, walls: set<Cell>, threshold: int, order: seq<Direction>, it: Item, k: int,
               ghost queue0: seq<Item>, ghost popped: seq<Item>, ghost traps: set<Direction>, ghost visited0: map<Cell, int>,
               queue: seq<Item>, visited: map<Cell, int>)
    returns (queue': seq<Item>, visited': map<Cell, int>)
    requires IsOrdering(order) && 0 <= k < 4
    requires ScanInv(agent, walls, threshold, queue, popped, traps, visited)
    requires it.dir in Open(agent, walls) && Tracked(walls, agent, visited, it)
    requires Spreading(walls, visited0, it, order, k, queue0, queue, visited)
    ensures ScanInv(agent, walls, threshold, queue', popped, traps, visited')
    ensures Tracked(walls, agent, visited', it)
    ensures Spreading(walls, visited0, it, order, k + 1, queue0, queue', visited')
  {
    var next := Neighbor(it.cell, order[k]);
    if next in walls || (next in visited && it.dist > visited[next]) {
      SpreadSkip(walls, visited0, it, order, k, queue0, queue, visited);
      return queue, visited;
    }
    assert order[k] in order;
    var it' := Item(next, it.dir, it.dist + 1);
    ExtendTracked(walls, agent, visited, it, order[k]);
    TrackedLower(walls, agent, visited, visited[next := it.dist + 1], it);
    EnqueueKeeps(agent, walls, threshold, queue, popped, traps, visited, visited[next := it.dist + 1], it');
    SpreadEnqueue(walls, visited0, it, order, k, queue0, queue, visited);
    queue' := queue + [it'];
    visited' := visited[next := it.dist + 1];
  }

  /**
   Dequeuing `it`: the seeds stay accounted for, and the flagged set becomes
   what it must be once `it` counts as dequeued, after removing `it`'s move
   when it reached the threshold.
   */
  lemma DequeueKeeps(agent: Cell, walls: set<Cell>, threshold: int, rest: seq<Item>, popped: seq<Item>,
                     it: Item, traps: set<Direction>, visited: map<Cell, int>)
    requires ScanInv(agent, walls, threshold, [it] + rest, popped, traps, visited)
    requires it.dir in Open(agent, walls) && Tracked(walls, agent, visited, it)
    ensures it.dist >= threshold && it.dir in traps ==>
              ScanInv(agent, walls, threshold, rest, popped + [it], traps - {it.dir}, visited)
    ensures !(it.dist >= threshold && it.dir in traps) ==>
              ScanInv(agent, walls, threshold, rest, popped + [it], traps, visited)
  {
    DequeueSeeds(agent, walls, it, rest, popped);
    DequeueReached(popped, it, threshold);
    TrackedWitnessed(walls, agent, visited, it);
    DequeueItems(agent, walls, visited, it, rest, popped);
  }

  /** Every item still queued keeps its trail, and every dequeued item records a walk beginning with an open move. */
  lemma DequeueItems(agent: Cell, walls: set<Cell>, visited: map<Cell, int>, it: Item, rest: seq<Item>, popped: seq<Item>)
    requires forall k :: 0 <= k < |[it] + rest| ==>
               ([it] + rest)[k].dir in Open(agent, walls) && Tracked(walls, agent, visited, ([it] + rest)[k])
    requires forall k :: 0 <= k < |popped| ==> popped[k].dir in Open(agent, walls) && Witnessed(walls, agent, popped[k])
    requires Witnessed(walls, agent, it)
    ensures forall k :: 0 <= k < |rest| ==> rest[k].dir in Open(agent, walls) && Tracked(walls, agent, visited, rest[k])
    ensures forall k :: 0 <= k < |popped + [it]| ==>
              (popped + [it])[k].dir in Open(agent, walls) && Witnessed(walls, agent, (popped + [it])[k])
  {
    var q := [it] + rest;
    assert forall k :: 0 <= k < |rest| ==> rest[k] == q[k + 1];
    var popped' := popped + [it];
    assert forall k :: 0 <= k < |popped| ==> popped'[k] == popped[k];
    assert popped'[|popped|] == q[0];
  }

  /** A queued item's trail is a walk through distinct cells. */
  lemma TrackedWitnessed(walls: set<Cell>, agent: Cell, visited: map<Cell, int>, it: Item)
    requires Tracked(walls, agent, visited, it)
    ensures Witnessed(walls, agent, it)
  {
    var p :| Trail(walls, agent, visited, it, p);
  }

  /** Lowering recorded distances keeps every trail a trail. */
  lemma TrackedLower(walls: set<Cell>, agent: Cell, visited: map<Cell, int>, visited': map<Cell, int>, it: Item)
    requires Tracked(walls, agent, visited, it) && Lower(visited, visited')
    ensures Tracked(walls, agent, visited', it)
  {
    var p :| Trail(walls, agent, visited, it, p);
    assert Trail(walls, agent, visited', it, p);
  }

  /**
   Queueing `it` one step further, onto a neighbour that is not a wall and not
   recorded at a distance below `it`'s: the recorded distance of the neighbour
   does not grow, and the new item's trail is the old one extended, which
   repeats no cell because every earlier cell of it is recorded at a distance
   at most `it`'s.
   */
  lemma ExtendTracked(walls: set<Cell>, agent: Cell, visited: map<Cell, int>, it: Item, d: Direction)
    requires Tracked(walls, agent, visited, it) && Parity(agent, visited)
    requires d != Stop && Neighbor(it.cell, d) !in walls
    requires !(Neighbor(it.cell, d) in visited && it.dist > visited[Neighbor(it.cell, d)])
    ensures var next := Neighbor(it.cell, d);
            var visited' := visited[next := it.dist + 1];
            && Lower(visited, visited') && Parity(agent, visited')
            && Tracked(walls, agent, visited', Item(next, it.dir, it.dist + 1))
  {
    var next := Neighbor(it.cell, d);
    var it' := Item(next, it.dir, it.dist + 1);
    StepParity(agent, visited, it, d);
    var p :| Trail(walls, agent, visited, it, p);
    ExtendTrail(walls, agent, visited, it, d, p);
    assert Trail(walls, agent, visited[next := it.dist + 1], it', p + [next]);
  }

  /**
   The neighbour's recorded distance, if any, has the other parity than the
   item's distance, so it is at least one more: recording the neighbour one
   step further lowers nothing and keeps every recorded distance's parity.
   */
  lemma StepParity(agent: Cell, visited: map<Cell, int>, it: Item, d: Direction)
    requires Fits(agent, it) && Parity(agent, visited) && d != Stop
    requires !(Neighbor(it.cell, d) in visited && it.dist > visited[Neighbor(it.cell, d)])
    ensures var next := Neighbor(it.cell, d);
            && (next in visited ==> it.dist + 1 <= visited[next])
            && Lower(visited, visited[next := it.dist + 1])
            && Parity(agent, visited[next := it.dist + 1])
            && Fits(agent, Item(next, it.dir, it.dist + 1))
  {
    var next := Neighbor(it.cell, d);
    assert Drift(agent, next) == Drift(agent, it.cell) + Delta(d).0 + Delta(d).1;
    if next in visited {
      assert Even(visited[next] - Drift(agent, next));
      assert visited[next] != it.dist;
    }
  }

  /**
   The trail extended by the neighbour is a trail of the new item: the
   neighbour is not on the trail, since every cell of it is recorded at a
   distance at most the item's and the only one recorded at exactly that
   distance could be the item's own cell.
   */
  lemma ExtendTrail(walls: set<Cell>, agent: Cell, visited: map<Cell, int>, it: Item, d: Direction, p: seq<Cell>)
    requires Trail(walls, agent, visited, it, p)
    requires d != Stop && Neighbor(it.cell, d) !in walls
    requires Neighbor(it.cell, d) in visited ==> it.dist + 1 <= visited[Neighbor(it.cell, d)]
    ensures Trail(walls, agent, visited[Neighbor(it.cell, d) := it.dist + 1], Item(Neighbor(it.cell, d), it.dir, it.dist + 1),
                  p + [Neighbor(it.cell, d)])
  {
    var next := Neighbor(it.cell, d);
    var visited' := visited[next := it.dist + 1];
    assert next !in p;
    var q := p + [next];
    NeighborAdjacent(it.cell, d);
    WalkExtend(walls, agent, p, next);
    AppendNoDup(p, next);
    forall j | 0 <= j < |q| ensures q[j] in visited' && visited'[q[j]] <= j + 1 {
      if j < |p| {
        assert q[j] == p[j] && p[j] != next;
      }
    }
    assert q[0] == p[0];
  }

  /** Queueing an item with a trail, after lowering the recorded distances, keeps the bookkeeping. */
  lemma EnqueueKeeps(agent: Cell, walls: set<Cell>, threshold: int, queue: seq<Item>, popped: seq<Item>,
                     traps: set<Direction>, visited: map<Cell, int>, visited': map<Cell, int>, it: Item)
    requires ScanInv(agent, walls, threshold, queue, popped, traps, visited)
    requires Lower(visited, visited') && Parity(agent, visited')
    requires it.dir in Open(agent, walls) && Tracked(walls, agent, visited', it)
    ensures ScanInv(agent, walls, threshold, queue + [it], popped, traps, visited')
  {
    var q := queue + [it];
    forall k | 0 <= k < |q| ensures q[k].dir in Open(agent, walls) && Tracked(walls, agent, visited', q[k]) {
      if k < |queue| {
        assert q[k] == queue[k];
        TrackedLower(walls, agent, visited, visited', queue[k]);
      } else {
        assert q[k] == it;
      }
    }
    assert forall x :: x in queue ==> x in q;
  }

  /**
   The seeding loop: in dictionary order, each move whose neighbour is not a
   wall queues its seed item, marks the neighbour visited at distance 1, and
   is flagged. The queue ends up holding exactly one seed per open move, in
   dictionary order.
   */
  method Seeds(agent: Cell, walls: set<Cell>, order: seq<Direction>)
    returns (queue: seq<Item>, visited: map<Cell, int>, traps: set<Direction>)
    requires IsOrdering(order)
    ensures traps == Open(agent, walls)
    ensures forall j :: 0 <= j < |queue| ==> queue[j].dir in Open(agent, walls) && Tracked(walls, agent, visited, queue[j])
    ensures forall j :: 0 <= j < |queue| ==> queue[j] == SeedOf(agent, queue[j].dir)
    ensures forall d :: d in Open(agent, walls) ==> SeedOf(agent, d) in queue
    ensures forall i, j :: 0 <= i < j < |queue| ==> IndexOf(order, queue[i].dir) < IndexOf(order, queue[j].dir)
    ensures forall c :: c in visited ==> visited[c] == 1 && exists j :: 0 <= j < |queue| && queue[j].cell == c
    ensures Parity(agent, visited)
  {
    queue, visited, traps := SowAll(agent, walls, order);
    SeedsDone(agent, walls, order, queue, visited, traps);
  }

  /** The seeding loop proper: every move of `order` examined in turn. */
  method SowAll(agent: Cell, walls: set<Cell>, order: seq<Direction>)
    returns (queue: seq<Item>, visited: map<Cell, int>, traps: set<Direction>)
    requires IsOrdering(order)
    ensures Seeding(agent, walls, order, 4, queue, visited, traps)
  {
    queue, visited, traps := [], map[], {};
    for k := 0 to 4
      invariant Seeding(agent, walls, order, k, queue, visited, traps)
    {
      queue, visited, traps := Sow(agent, walls, order, k, queue, visited, traps);
    }
  }

  /** Once all four moves are examined, the seeding state is the one `Seeds` promises. */
  lemma SeedsDone(agent: Cell, walls: set<Cell>, order: seq<Direction>,
                  queue: seq<Item>, visited: map<Cell, int>, traps: set<Direction>)
    requires IsOrdering(order) && Seeding(agent, walls, order, 4, queue, visited, traps)
    ensures traps == Open(agent, walls)
    ensures forall j :: 0 <= j < |queue| ==> queue[j] == SeedOf(agent, queue[j].dir)
    ensures forall d :: d in Open(agent, walls) ==> SeedOf(agent, d) in queue
    ensures forall i, j :: 0 <= i < j < |queue| ==> IndexOf(order, queue[i].dir) < IndexOf(order, queue[j].dir)
    ensures forall c :: c in visited ==> visited[c] == 1 && exists j :: 0 <= j < |queue| && queue[j].cell == c
    ensures Parity(agent, visited)
  {
    assert order[..4] == order;
    forall d | d in Open(agent, walls) ensures d in order {
      assert d != Stop;
    }
    forall c | c in visited ensures Even(visited[c] - Drift(agent, c)) {
      assert Adjacent(agent, c);
    }
  }

  /** The seeding loop after the first `k` moves of `order`. */
  ghost predicate Seeding(agent: Cell, walls: set<Cell>, order: seq<Direction>, k: int,
                          queue: seq<Item>, visited: map<Cell, int>, traps: set<Direction>)
    requires 0 <= k <= |order|
  {
    && Flagged(agent, walls, order, k, traps)
    && AllTracked(agent, walls, queue, visited)
    && Planted(agent, walls, order, k, queue)
    && Beside(agent, visited)
    && InOrder(agent, order, k, queue, visited)
  }

  /** Exactly the open moves among the first `k` of `order` are flagged. */
  ghost predicate Flagged(agent: Cell, walls: set<Cell>, order: seq<Direction>, k: int, traps: set<Direction>)
    requires 0 <= k <= |order|
  {
    forall d :: d in traps <==> d in order[..k] && d in Open(agent, walls)
  }

  /** Every queued item belongs to an open move and has a trail under `visited`. */
  ghost predicate AllTracked(agent: Cell, walls: set<Cell>, queue: seq<Item>, visited: map<Cell, int>) {
    forall j :: 0 <= j < |queue| ==> queue[j].dir in Open(agent, walls) && Tracked(walls, agent, visited, queue[j])
  }

  /** Every open move among the first `k` of `order` has its seed queued. */
  ghost predicate Planted(agent: Cell, walls: set<Cell>, order: seq<Direction>, k: int, queue: seq<Item>)
    requires 0 <= k <= |order|
  {
    forall d :: d in order[..k] && d in Open(agent, walls) ==> SeedOf(agent, d) in queue
  }

  /** Every recorded cell is a neighbour of the agent, at distance 1. */
  ghost predicate Beside(agent: Cell, visited: map<Cell, int>) {
    forall c :: c in visited ==> visited[c] == 1 && Adjacent(agent, c)
  }

  /** One step of the seeding loop: the `k`-th move of `order`. */
  method Sow(agent: Cell, walls: set<Cell>, order: seq<Direction>, k: int,
             queue: seq<Item>, visited: map<Cell, int>, traps: set<Direction>)
    returns (queue': seq<Item>, visited': map<Cell, int>, traps': set<Direction>)
    requires IsOrdering(order) && 0 <= k < 4
    requires Seeding(agent, walls, order, k, queue, visited, traps)
    ensures Seeding(agent, walls, order, k + 1, queue', visited', traps')
  {
    var step := Neighbor(agent, order[k]);
    if step in walls {
      SowSkip(agent, walls, order, k, queue, visited, traps);
      return queue, visited, traps;
    }
    SowSeed(agent, walls, order, k, queue, visited, traps);
    queue' := queue + [SeedOf(agent, order[k])];
    visited' := visited[step := 1];
    traps' := traps + {order[k]};
  }

  /** A move into a wall queues nothing and leaves the seeding state as it was. */
  lemma SowSkip(agent: Cell, walls: set<Cell>, order: seq<Direction>, k: int,
                queue: seq<Item>, visited: map<Cell, int>, traps: set<Direction>)
    requires IsOrdering(order) && 0 <= k < 4 && Neighbor(agent, order[k]) in walls
    requires Seeding(agent, walls, order, k, queue, visited, traps)
    ensures Seeding(agent, walls, order, k + 1, queue, visited, traps)
  {
    assert order[..k + 1] == order[..k] + [order[k]];
    InOrderSkip(agent, order, k, queue, visited);
  }

  /** An open move queues its seed, records its neighbour at distance 1 and is flagged. */
  lemma SowSeed(agent: Cell, walls: set<Cell>, order: seq<Direction>, k: int,
                queue: seq<Item>, visited: map<Cell, int>, traps: set<Direction>)
    requires IsOrdering(order) && 0 <= k < 4 && Neighbor(agent, order[k]) !in walls
    requires Seeding(agent, walls, order, k, queue, visited, traps)
    ensures Seeding(agent, walls, order, k + 1, queue + [SeedOf(agent, order[k])],
                    visited[Neighbor(agent, order[k]) := 1], traps + {order[k]})
  {
    FlaggedSeed(agent, walls, order, k, traps);
    AllTrackedSeed(agent, walls, order, k, queue, visited);
    PlantedSeed(agent, walls, order, k, queue);
    BesideSeed(agent, order[k], visited);
    InOrderAppend(agent, order, k, queue, visited);
  }

  /** Flagging the open `k`-th move extends the flags to the first `k + 1` moves. */
  lemma FlaggedSeed(agent: Cell, walls: set<Cell>, order: seq<Direction>, k: int, traps: set<Direction>)
    requires IsOrdering(order) && 0 <= k < 4 && Neighbor(agent, order[k]) !in walls
    requires Flagged(agent, walls, order, k, traps)
    ensures Flagged(agent, walls, order, k + 1, traps + {order[k]})
  {
    assert order[..k + 1] == order[..k] + [order[k]];
    assert order[k] in order;
  }

  /** Queueing the open `k`-th move's seed keeps every queued item tracked. */
  lemma AllTrackedSeed(agent: Cell, walls: set<Cell>, order: seq<Direction>, k: int,
                       queue: seq<Item>, visited: map<Cell, int>)
    requires IsOrdering(order) && 0 <= k < 4 && Neighbor(agent, order[k]) !in walls
    requires AllTracked(agent, walls, queue, visited) && Beside(agent, visited)
    ensures AllTracked(agent, walls, queue + [SeedOf(agent, order[k])], visited[Neighbor(agent, order[k]) := 1])
  {
    var v := visited[Neighbor(agent, order[k]) := 1];
    var q := queue + [SeedOf(agent, order[k])];
    assert order[k] in order;
    SeedTracked(walls, agent, visited, order[k]);
    forall j | 0 <= j < |q| ensures q[j].dir in Open(agent, walls) && Tracked(walls, agent, v, q[j]) {
      if j < |queue| {
        assert q[j] == queue[j];
        TrackedLower(walls, agent, visited, v, queue[j]);
      }
    }
  }

  /** Queueing the open `k`-th move's seed extends the planted seeds to the first `k + 1` moves. */
  lemma PlantedSeed(agent: Cell, walls: set<Cell>, order: seq<Direction>, k: int, queue: seq<Item>)
    requires IsOrdering(order) && 0 <= k < 4
    requires Planted(agent, walls, order, k, queue)
    ensures Planted(agent, walls, order, k + 1, queue + [SeedOf(agent, order[k])])
  {
    assert order[..k + 1] == order[..k] + [order[k]];
  }

  /** Recording the neighbour along `d` at distance 1 keeps every recorded cell beside the agent. */
  lemma BesideSeed(agent: Cell, d: Direction, visited: map<Cell, int>)
    requires d != Stop && Beside(agent, visited)
    ensures Beside(agent, visited[Neighbor(agent, d) := 1])
  {
    NeighborAdjacent(agent, d);
    var v := visited[Neighbor(agent, d) := 1];
    forall c | c in v ensures v[c] == 1 && Adjacent(agent, c) {
      if c != Neighbor(agent, d) {
        assert c in visited;
      }
    }
  }

  /**
   The seeds queued so far belong to moves among the first `k` of `order`,
   appear in that order, and their cells are the cells recorded.
   */
  ghost predicate InOrder(agent: Cell, order: seq<Direction>, k: int, queue: seq<Item>, visited: map<Cell, int>)
    requires 0 <= k <= |order|
  {
    && (forall j :: 0 <= j < |queue| ==> queue[j] == SeedOf(agent, queue[j].dir) && queue[j].dir in order[..k])
    && (forall i, j :: 0 <= i < j < |queue| ==>
          queue[i].dir in order && queue[j].dir in order && IndexOf(order, queue[i].dir) < IndexOf(order, queue[j].dir))
    && (forall c :: c in visited ==> exists j :: 0 <= j < |queue| && queue[j].cell == c)
  }

  /** In an ordering, the `k`-th move has index `k` and every earlier move a smaller one. */
  lemma OrderIndex(order: seq<Direction>, k: int)
    requires IsOrdering(order) && 0 <= k < 4
    ensures IndexOf(order, order[k]) == k
    ensures forall d :: d in order[..k] ==> d in order && IndexOf(order, d) < k
  {
    assert order[k] in order;
    forall d | d in order[..k] ensures d in order && IndexOf(order, d) < k {
      var j :| 0 <= j < k && order[..k][j] == d;
      assert order[j] == d;
    }
  }

  /** Examining the `k`-th move without queueing its seed keeps the seeds in order. */
  lemma InOrderSkip(agent: Cell, order: seq<Direction>, k: int, queue: seq<Item>, visited: map<Cell, int>)
    requires IsOrdering(order) && 0 <= k < 4 && InOrder(agent, order, k, queue, visited)
    ensures InOrder(agent, order, k + 1, queue, visited)
  {
    assert forall d :: d in order[..k] ==> d in order[..k + 1];
  }

  /** Queueing the `k`-th move's seed keeps the seeds in order. */
  lemma InOrderAppend(agent: Cell, order: seq<Direction>, k: int, queue: seq<Item>, visited: map<Cell, int>)
    requires IsOrdering(order) && 0 <= k < 4 && InOrder(agent, order, k, queue, visited)
    ensures InOrder(agent, order, k + 1, queue + [SeedOf(agent, order[k])], visited[Neighbor(agent, order[k]) := 1])
  {
    OrderIndex(order, k);
    assert forall d :: d in order[..k] ==> d in order[..k + 1];
    assert order[k] in order[..k + 1];
    var q := queue + [SeedOf(agent, order[k])];
    assert forall j :: 0 <= j < |queue| ==> q[j] == queue[j];
    var v := visited[Neighbor(agent, order[k]) := 1];
    forall c | c in v ensures exists j :: 0 <= j < |q| && q[j].cell == c {
      if c == Neighbor(agent, order[k]) {
        assert q[|queue|].cell == c;
      } else {
        var j :| 0 <= j < |queue| && queue[j].cell == c;
        assert q[j].cell == c;
      }
    }
  }

  /** A seed's trail is the one-move walk to the neighbour, recorded at distance 1; no recorded distance grows. */
  lemma SeedTracked(walls: set<Cell>, agent: Cell, visited: map<Cell, int>, d: Direction)
    requires d != Stop && Neighbor(agent, d) !in walls
    requires forall c :: c in visited ==> visited[c] == 1
    ensures Lower(visited, visited[Neighbor(agent, d) := 1])
    ensures Tracked(walls, agent, visited[Neighbor(agent, d) := 1], SeedOf(agent, d))
    ensures Adjacent(agent, Neighbor(agent, d))
  {
    var p := [Neighbor(agent, d)];
    NeighborAdjacent(agent, d);
    assert IsWalk(walls, agent, p);
    assert End(agent, p) == Neighbor(agent, d);
    assert Trail(walls, agent, visited[Neighbor(agent, d) := 1], SeedOf(agent, d), p);
  }

  /** Moving the queue's head to the dequeued items keeps every open move's seed in one of the two. */
  lemma DequeueSeeds(agent: Cell, walls: set<Cell>, it: Item, rest: seq<Item>, popped: seq<Item>)
    requires forall d :: d in Open(agent, walls) ==> SeedOf(agent, d) in [it] + rest || SeedOf(agent, d) in popped
    ensures forall d :: d in Open(agent, walls) ==> SeedOf(agent, d) in rest || SeedOf(agent, d) in popped + [it]
  {
    forall d | d in Open(agent, walls)
      ensures SeedOf(agent, d) in rest || SeedOf(agent, d) in popped + [it]
    {
      assert SeedOf(agent, d) in [it] + rest ==> SeedOf(agent, d) == it || SeedOf(agent, d) in rest;
    }
  }

  /** A move has reached the threshold after dequeuing `it` exactly when it had before, or `it` reaches it. */
  lemma DequeueReached(popped: seq<Item>, it: Item, threshold: int)
    ensures forall d :: Reached(popped + [it], d, threshold) <==>
                        Reached(popped, d, threshold) || (d == it.dir && it.dist >= threshold)
  {
    var popped' := popped + [it];
    forall d
      ensures Reached(popped', d, threshold) <==> Reached(popped, d, threshold) || (d == it.dir && it.dist >= threshold)
    {
      if Reached(popped', d, threshold) && !Reached(popped, d, threshold) {
        var k :| 0 <= k < |popped'| && popped'[k].dir == d && popped'[k].dist >= threshold;
        assert k == |popped|;
      }
      if Reached(popped, d, threshold) {
        var k :| 0 <= k < |popped| && popped[k].dir == d && popped[k].dist >= threshold;
        assert popped'[k] == popped[k];
      }
      if d == it.dir && it.dist >= threshold {
        assert popped'[|popped|] == it;
      }
    }
  }

  /** With the queue empty, every open move's seed was dequeued, and the result has its meaning. */
  lemma Finished(agent: Cell, walls: set<Cell>, threshold: int, popped: seq<Item>, traps: set<Direction>,
                 visited: map<Cell, int>)
    requires ScanInv(agent, walls, threshold, [], popped, traps, visited)
    ensures forall d :: d in Open(agent, walls) ==> SeedOf(agent, d) in popped
    ensures threshold <= 1 ==> traps == {}
    ensures forall d :: d in Open(agent, walls) && d !in traps ==> Escapes(walls, agent, d, threshold)
  {
    if threshold <= 1 {
      forall d | d in Open(agent, walls) ensures Reached(popped, d, threshold) {
        var k :| 0 <= k < |popped| && popped[k] == SeedOf(agent, d);
        assert popped[k].dir == d && popped[k].dist >= threshold;
      }
    }
    forall d | d in Open(agent, walls) && d !in traps
      ensures Escapes(walls, agent, d, threshold)
    {
      var k :| 0 <= k < |popped| && popped[k].dir == d && popped[k].dist >= threshold;
      var p :| IsWalk(walls, agent, p) && NoDup(p) && |p| == popped[k].dist && |p| > 0
               && p[0] == Neighbor(agent, popped[k].dir) && End(agent, p) == popped[k].cell;
    }
  }

  // ---------------------------------------------------------------------------
  // What one expansion queues.
  // ---------------------------------------------------------------------------

  /** Whether the expansion of `it` queues the neighbour `next`: not a wall, and not recorded at a distance below `it`'s. */
  predicate Enters(walls: set<Cell>, visited: map<Cell, int>, it: Item, next: Cell) {
    next !in walls && !(next in visited && it.dist > visited[next])
  }

  /** `it` moved one step further, onto `next`. */
  function Onto(it: Item, next: Cell): Item {
    Item(next, it.dir, it.dist + 1)
  }

  /** The items the expansion of `it` queues, with recorded distances `visited`, examining the moves `ds` in turn. */
  function Spread(walls: set<Cell>, visited: map<Cell, int>, it: Item, ds: seq<Direction>): seq<Item> {
    if |ds| == 0 then []
    else
      var next := Neighbor(it.cell, ds[|ds| - 1]);
      Spread(walls, visited, it, ds[..|ds| - 1]) + (if Enters(walls, visited, it, next) then [Onto(it, next)] else [])
  }

  /** Every item queued while examining `ds` is `it` moved onto the neighbour along one of `ds`, which it may enter. */
  lemma {:induction false} SpreadFrom(walls: set<Cell>, visited: map<Cell, int>, it: Item, ds: seq<Direction>, x: Item)
    requires x in Spread(walls, visited, it, ds)
    ensures Enters(walls, visited, it, x.cell)
    ensures exists j :: 0 <= j < |ds| && x == Onto(it, Neighbor(it.cell, ds[j]))
    decreases |ds|
  {
    if x in Spread(walls, visited, it, ds[..|ds| - 1]) {
      SpreadFrom(walls, visited, it, ds[..|ds| - 1], x);
      var j :| 0 <= j < |ds| - 1 && x == Onto(it, Neighbor(it.cell, ds[..|ds| - 1][j]));
      assert ds[..|ds| - 1][j] == ds[j];
    }
  }

  /** A cell no move of `ds` leads to is not the cell of any item the expansion queues. */
  lemma {:induction false} SpreadAvoids(walls: set<Cell>, visited: map<Cell, int>, it: Item, ds: seq<Direction>, c: Cell)
    requires forall j :: 0 <= j < |ds| ==> Neighbor(it.cell, ds[j]) != c
    ensures Onto(it, c) !in Spread(walls, visited, it, ds)
    decreases |ds|
  {
    if |ds| > 0 {
      var init := ds[..|ds| - 1];
      assert forall j :: 0 <= j < |init| ==> init[j] == ds[j];
      SpreadAvoids(walls, visited, it, init, c);
    }
  }

  /** The `k`-th move's neighbour is not the cell of an item the earlier moves queued. */
  lemma SpreadAhead(walls: set<Cell>, visited: map<Cell, int>, it: Item, order: seq<Direction>, k: int)
    requires IsOrdering(order) && 0 <= k < 4
    ensures Onto(it, Neighbor(it.cell, order[k])) !in Spread(walls, visited, it, order[..k])
  {
    var next := Neighbor(it.cell, order[k]);
    forall j | 0 <= j < k ensures Neighbor(it.cell, order[..k][j]) != next {
      if Neighbor(it.cell, order[j]) == next {
        NeighborInjective(it.cell, order[j], order[k]);
      }
    }
    SpreadAvoids(walls, visited, it, order[..k], next);
  }

  /**
   The expansion of `it` after examining the first `k` moves of `order`,
   starting from `queue` and `visited`: the items those moves may enter were
   queued and recorded one step further, and every open neighbour examined is
   recorded at most one step further.
   */
  ghost predicate Spreading(walls: set<Cell>, visited: map<Cell, int>, it: Item, order: seq<Direction>, k: int,
                            queue: seq<Item>, queue': seq<Item>, visited': map<Cell, int>)
    requires 0 <= k <= |order|
  {
    && queue' == queue + Spread(walls, visited, it, order[..k])
    && Lower(visited, visited')
    && Retains(visited, visited', it, Spread(walls, visited, it, order[..k]))
    && (forall j :: 0 <= j < k && Neighbor(it.cell, order[j]) !in walls ==>
          Neighbor(it.cell, order[j]) in visited' && visited'[Neighbor(it.cell, order[j])] <= it.dist + 1)
  }

  /** A neighbour that is a wall or recorded below `it`'s distance is not queued. */
  lemma SpreadSkip(walls: set<Cell>, visited: map<Cell, int>, it: Item, order: seq<Direction>, k: int,
                   queue: seq<Item>, queue': seq<Item>, visited': map<Cell, int>)
    requires IsOrdering(order) && 0 <= k < 4
    requires Spreading(walls, visited, it, order, k, queue, queue', visited')
    requires !Enters(walls, visited', it, Neighbor(it.cell, order[k]))
    ensures Spreading(walls, visited, it, order, k + 1, queue, queue', visited')
  {
    SpreadAhead(walls, visited, it, order, k);
    assert order[..k + 1][..k] == order[..k];
  }

  /** A neighbour `it` may enter is queued one step further and recorded at that distance. */
  lemma SpreadEnqueue(walls: set<Cell>, visited: map<Cell, int>, it: Item, order: seq<Direction>, k: int,
                      queue: seq<Item>, queue': seq<Item>, visited': map<Cell, int>)
    requires IsOrdering(order) && 0 <= k < 4
    requires Spreading(walls, visited, it, order, k, queue, queue', visited')
    requires Enters(walls, visited', it, Neighbor(it.cell, order[k]))
    requires Lower(visited', visited'[Neighbor(it.cell, order[k]) := it.dist + 1])
    ensures var next := Neighbor(it.cell, order[k]);
            Spreading(walls, visited, it, order, k + 1, queue, queue' + [Onto(it, next)], visited'[next := it.dist + 1])
  {
    SpreadAhead(walls, visited, it, order, k);
    assert order[..k + 1][..k] == order[..k];
  }

  /** Once all four moves are examined, the expansion queued `Spread` over the whole order. */
  lemma SpreadDone(walls: set<Cell>, visited: map<Cell, int>, it: Item, order: seq<Direction>,
                   queue: seq<Item>, queue': seq<Item>, visited': map<Cell, int>)
    requires IsOrdering(order) && Spreading(walls, visited, it, order, 4, queue, queue', visited')
    ensures queue' == queue + Spread(walls, visited, it, order)
    ensures Lower(visited, visited') && Retains(visited, visited', it, Spread(walls, visited, it, order))
    ensures Reaches(walls, visited', it)
  {
    assert order[..4] == order;
    forall d | d != Stop && Neighbor(it.cell, d) !in walls
      ensures Neighbor(it.cell, d) in visited' && visited'[Neighbor(it.cell, d)] <= it.dist + 1
    {
      assert d in order;
      var j :| 0 <= j < 4 && order[j] == d;
    }
  }

  /**
   The expansion queues, in the order of `order`, one item for each move
   whose neighbour `it` may enter, each one step further along the same
   first move, and nothing else.
   */
  lemma SpreadItems(walls: set<Cell>, visited: map<Cell, int>, it: Item, order: seq<Direction>)
    requires IsOrdering(order)
    ensures forall x :: x in Spread(walls, visited, it, order) <==>
              exists d :: d != Stop && x == Onto(it, Neighbor(it.cell, d)) && Enters(walls, visited, it, Neighbor(it.cell, d))
  {
    forall x
      ensures x in Spread(walls, visited, it, order) <==>
              exists d :: d != Stop && x == Onto(it, Neighbor(it.cell, d)) && Enters(walls, visited, it, Neighbor(it.cell, d))
    {
      if x in Spread(walls, visited, it, order) {
        SpreadFrom(walls, visited, it, order, x);
        var j :| 0 <= j < |order| && x == Onto(it, Neighbor(it.cell, order[j]));
        assert order[j] in order;
      }
      if exists d :: d != Stop && x == Onto(it, Neighbor(it.cell, d)) && Enters(walls, visited, it, Neighbor(it.cell, d)) {
        var d :| d != Stop && x == Onto(it, Neighbor(it.cell, d)) && Enters(walls, visited, it, Neighbor(it.cell, d));
        assert d in order;
        var j :| 0 <= j < 4 && order[j] == d;
        assert order[..j + 1][..j] == order[..j];
        SpreadUpTo(walls, visited, it, order, j + 1);
      }
    }
  }

  /** What the first `n` moves queue is queued by the whole expansion. */
  lemma {:induction false} SpreadUpTo(walls: set<Cell>, visited: map<Cell, int>, it: Item, order: seq<Direction>, n: int)
    requires IsOrdering(order) && 0 <= n <= 4
    ensures forall x :: x in Spread(walls, visited, it, order[..n]) ==> x in Spread(walls, visited, it, order)
    decreases 4 - n
  {
    if n < 4 {
      assert order[..n + 1][..n] == order[..n];
      SpreadUpTo(walls, visited, it, order, n + 1);
    } else {
      assert order[..n] == order;
    }
  }

  /** Every item the expansion queues is `it` one step further along the same first move. */
  lemma {:induction false} SpreadSteps(walls: set<Cell>, visited: map<Cell, int>, it: Item, ds: seq<Direction>)
    requires forall d :: d in ds ==> d != Stop
    ensures forall x :: x in Spread(walls, visited, it, ds) ==> Step(it, x)
  {
    forall x | x in Spread(walls, visited, it, ds) ensures Step(it, x) {
      SpreadFrom(walls, visited, it, ds, x);
      var j :| 0 <= j < |ds| && x == Onto(it, Neighbor(it.cell, ds[j]));
      assert ds[j] in ds;
      NeighborAdjacent(it.cell, ds[j]);
    }
  }

  // ---------------------------------------------------------------------------
  // The trace of the scan.
  // ---------------------------------------------------------------------------

  /** Every cell recorded in `visited'` keeps its distance from `visited`, or is that of an item in `items`, `it` one step further. */
  ghost predicate Retains(visited: map<Cell, int>, visited': map<Cell, int>, it: Item, items: seq<Item>) {
    forall c :: c in visited' ==>
      || (c in visited && visited'[c] == visited[c])
      || (Onto(it, c) in items && visited'[c] == it.dist + 1)
  }

  /** Every open neighbour of `it`'s cell is recorded at most one step further than `it`. */
  ghost predicate Reaches(walls: set<Cell>, visited: map<Cell, int>, it: Item) {
    forall d :: d != Stop && Neighbor(it.cell, d) !in walls ==>
      Neighbor(it.cell, d) in visited && visited[Neighbor(it.cell, d)] <= it.dist + 1
  }

  /** Lowering recorded distances keeps every neighbour reached. */
  lemma ReachesLower(walls: set<Cell>, visited: map<Cell, int>, visited': map<Cell, int>, it: Item)
    requires Reaches(walls, visited, it) && Lower(visited, visited')
    ensures Reaches(walls, visited', it)
  {
  }

  /**
   The trace is closed under expansion: every open neighbour of a dequeued
   item that was expanded is the cell of some dequeued item at most one step
   further.
   */
  ghost predicate Covered(walls: set<Cell>, threshold: int, popped: seq<Item>) {
    forall k, d ::
      0 <= k < |popped| && !Skipped(popped, k, threshold) && d != Stop && Neighbor(popped[k].cell, d) !in walls ==>
        exists j :: 0 <= j < |popped| && popped[j].cell == Neighbor(popped[k].cell, d) && popped[j].dist <= popped[k].dist + 1
  }

  /** `b` is `a` one move further: same first move, one more step, an adjacent cell. */
  predicate Step(a: Item, b: Item) {
    b.dir == a.dir && b.dist == a.dist + 1 && Adjacent(a.cell, b.cell)
  }

  /**
   The `k`-th dequeued item was the first of its move to reach the threshold:
   its move was unflagged and the item was not expanded.
   */
  ghost predicate Skipped(popped: seq<Item>, k: int, threshold: int)
    requires 0 <= k < |popped|
  {
    popped[k].dist >= threshold && !Reached(popped[..k], popped[k].dir, threshold)
  }

  /** `x` is the seed of its move, or one step further than an expanded item among the first `n` dequeued. */
  ghost predicate Born(agent: Cell, threshold: int, popped: seq<Item>, n: int, x: Item)
    requires 0 <= n <= |popped|
  {
    || x == SeedOf(agent, x.dir)
    || exists k :: 0 <= k < n && !Skipped(popped, k, threshold) && Step(popped[k], x)
  }

  /**
   The scan's trace: every recorded distance is that of an item queued or
   dequeued at that cell; each of the first `n` dequeued items that was
   expanded has every open neighbour recorded at most one step further; and
   every item seen is born of the seeds or of an earlier expanded item.
   */
  ghost predicate TraceInv(agent: Cell, walls: set<Cell>, threshold: int,
                           queue: seq<Item>, popped: seq<Item>, visited: map<Cell, int>, n: int)
  {
    && 0 <= n <= |popped|
    && (forall c :: c in visited ==> exists x :: (x in queue || x in popped) && x.cell == c && x.dist == visited[c])
    && (forall k :: 0 <= k < n && !Skipped(popped, k, threshold) ==> Reaches(walls, visited, popped[k]))
    && (forall j :: 0 <= j < |popped| ==> Born(agent, threshold, popped, j, popped[j]))
    && (forall x :: x in queue ==> Born(agent, threshold, popped, |popped|, x))
  }

  /** The seeded queue starts the trace. */
  lemma TraceStarts(agent: Cell, walls: set<Cell>, threshold: int, queue: seq<Item>, visited: map<Cell, int>)
    requires forall j :: 0 <= j < |queue| ==> queue[j] == SeedOf(agent, queue[j].dir)
    requires forall c :: c in visited ==> visited[c] == 1 && exists j :: 0 <= j < |queue| && queue[j].cell == c
    ensures TraceInv(agent, walls, threshold, queue, [], visited, 0)
  {
    forall c | c in visited ensures exists x :: (x in queue || x in []) && x.cell == c && x.dist == visited[c] {
      var j :| 0 <= j < |queue| && queue[j].cell == c;
      assert queue[j] in queue;
    }
  }

  /** Dequeuing one more item keeps whether the earlier ones were skipped, and so how they were born. */
  lemma SkippedStable(agent: Cell, threshold: int, popped: seq<Item>, it: Item)
    ensures forall k :: 0 <= k < |popped| ==> (Skipped(popped + [it], k, threshold) <==> Skipped(popped, k, threshold))
    ensures forall n, x :: 0 <= n <= |popped| ==> (Born(agent, threshold, popped + [it], n, x) <==> Born(agent, threshold, popped, n, x))
  {
    var popped' := popped + [it];
    forall k | 0 <= k < |popped| ensures popped'[..k] == popped[..k] && popped'[k] == popped[k] {
    }
  }

  /**
   Dequeuing the head: it is skipped exactly when it is the first of its move
   to reach the threshold; a skipped item needs no expansion.
   */
  lemma TraceDequeue(agent: Cell, walls: set<Cell>, threshold: int, queue: seq<Item>, popped: seq<Item>,
                     visited: map<Cell, int>, skip: bool)
    requires |queue| > 0 && TraceInv(agent, walls, threshold, queue, popped, visited, |popped|)
    requires skip <==> queue[0].dist >= threshold && !Reached(popped, queue[0].dir, threshold)
    ensures var popped' := popped + [queue[0]];
            && (skip <==> Skipped(popped', |popped|, threshold))
            && TraceInv(agent, walls, threshold, queue[1..], popped', visited, if skip then |popped'| else |popped|)
  {
    var it := queue[0];
    var popped' := popped + [it];
    SkippedStable(agent, threshold, popped, it);
    assert popped'[..|popped|] == popped;
    assert queue == [it] + queue[1..];
    forall c | c in visited ensures exists x :: (x in queue[1..] || x in popped') && x.cell == c && x.dist == visited[c] {
      var x :| (x in queue || x in popped) && x.cell == c && x.dist == visited[c];
      assert x in queue[1..] || x in popped';
    }
    forall j | 0 <= j < |popped'| ensures Born(agent, threshold, popped', j, popped'[j]) {
      if j < |popped| {
        assert popped'[j] == popped[j];
      } else {
        assert it in queue;
      }
    }
    forall x | x in queue[1..] ensures Born(agent, threshold, popped', |popped'|, x) {
      assert x in queue;
      assert Born(agent, threshold, popped', |popped|, x);
    }
  }

  /** The expansion of the last dequeued item completes its part of the trace. */
  lemma TraceEnqueue(agent: Cell, walls: set<Cell>, threshold: int, order: seq<Direction>,
                     queue: seq<Item>, popped: seq<Item>, visited: map<Cell, int>, queue': seq<Item>, visited': map<Cell, int>)
    requires IsOrdering(order) && |popped| > 0
    requires TraceInv(agent, walls, threshold, queue, popped, visited, |popped| - 1)
    requires !Skipped(popped, |popped| - 1, threshold)
    requires var it := popped[|popped| - 1];
             && queue' == queue + Spread(walls, visited, it, order)
             && Lower(visited, visited') && Retains(visited, visited', it, Spread(walls, visited, it, order))
             && Reaches(walls, visited', it)
    ensures TraceInv(agent, walls, threshold, queue', popped, visited', |popped|)
  {
    var it := popped[|popped| - 1];
    var spread := Spread(walls, visited, it, order);
    forall c | c in visited' ensures exists x :: (x in queue' || x in popped) && x.cell == c && x.dist == visited'[c] {
      if c in visited && visited'[c] == visited[c] {
        var x :| (x in queue || x in popped) && x.cell == c && x.dist == visited[c];
        assert x in queue' || x in popped;
      } else {
        assert Onto(it, c) in queue';
      }
    }
    forall k | 0 <= k < |popped| && !Skipped(popped, k, threshold) ensures Reaches(walls, visited', popped[k]) {
      if k < |popped| - 1 {
        ReachesLower(walls, visited, visited', popped[k]);
      }
    }
    SpreadSteps(walls, visited, it, order);
    forall x | x in queue' ensures Born(agent, threshold, popped, |popped|, x) {
      if x !in queue {
        assert x in spread && Step(popped[|popped| - 1], x);
      }
    }
  }

  /**
   With the queue empty, every open neighbour of an expanded item is the cell
   of a dequeued item at most one step further.
   */
  lemma TraceFinished(agent: Cell, walls: set<Cell>, threshold: int, popped: seq<Item>, visited: map<Cell, int>)
    requires TraceInv(agent, walls, threshold, [], popped, visited, |popped|)
    ensures Covered(walls, threshold, popped)
  {
    forall k, d | 0 <= k < |popped| && !Skipped(popped, k, threshold) && d != Stop && Neighbor(popped[k].cell, d) !in walls
      ensures exists j :: 0 <= j < |popped| && popped[j].cell == Neighbor(popped[k].cell, d)
                          && popped[j].dist <= popped[k].dist + 1
    {
      assert Reaches(walls, visited, popped[k]);
      var c := Neighbor(popped[k].cell, d);
      var x :| (x in [] || x in popped) && x.cell == c && x.dist == visited[c];
      var j :| 0 <= j < |popped| && popped[j] == x;
    }
  }
}
