/**
 The policy (`PartialAgent`): one tick of `getAction` as a step function from
 the agent's memory and the tick's sensor readings to an action and the new
 memory. A tick builds the map on the first call of a game, updates the
 remembered food, retargets the corner counter, filters the legal moves, and
 then decides in three modes: survival when a ghost is near, hungry when
 food is remembered, corner seeking otherwise.
 */
module Agent {
  import opened Wrappers
  import opened Grid
  import opened Paths
  import opened Seqs
  import Bfs
  import AStar
  import opened DeathTraps
  import opened MazeMap
  import opened Actions

  /** The death-trap threshold the policy uses. */
  const TrapThreshold := 5

  /** Ghosts further than this many moves along the survival route are ignored. */
  const GhostRange := 4

  /**
   What the agent keeps between ticks of one game: remembered food and
   capsule cells, the map (walls, adjusted corners, floor rectangle) once
   built, the corner counter, and the cached route to food, its next cell
   first. The log of past states is not kept: nothing reads it.
   */
  datatype Memory = Memory(
    foods: set<Cell>,
    walls: Option<set<Cell>>,
    corners: Option<seq<Cell>>,
    floors: Option<seq<Cell>>,
    counter: int,
    pathToFood: seq<Cell>)

  /** What the sensors report on one tick; `corners` are the raw exterior-wall corners. */
  datatype Observation = Observation(
    walls: set<Cell>,
    corners: seq<Cell>,
    agent: Cell,
    legal: seq<Direction>,
    food: set<Cell>,
    capsules: set<Cell>,
    ghosts: seq<Point>)

  /** The ways a tick of the source raises instead of returning a move. */
  datatype Fault =
    | NoCorners             // `min` of the coordinates of an empty corner list
    | NoStop                // STOP removed from legal actions that do not hold it
    | ScanBudget            // the death-trap scan did not finish within its dequeue budget
    | NoGhostPath(at: Point) // the survival search found no route: unpacking its `None`
    | NoFoodPath            // the food search found no route: unpacking its `None`
    | NoCornerPath          // the corner search found no route: unpacking its `None`

  /** A move, or a uniformly random choice among `options` (the source's `random.choice(legal)`). */
  datatype Action = Go(d: Direction) | Pick(options: seq<Direction>)

  datatype Tick = Tick(action: Action, memory: Memory)

  /**
   Memory as the policy leaves it: no cached route without a map, no wall on
   the cached route, and a map's corner list is never empty.
   */
  ghost predicate Valid(mem: Memory) {
    && (mem.walls.None? ==> mem.pathToFood == [])
    && (mem.walls.Some? ==> forall c :: c in mem.pathToFood ==> c !in mem.walls.value)
    && (mem.corners.Some? ==> |mem.corners.value| > 0)
    && (mem.floors.Some? ==> mem.corners.Some?)
  }

  /** The memory of a new agent: nothing known, counter 0, no cached route. */
  function Initial(): (mem: Memory)
    ensures Valid(mem)
    ensures mem.walls.None? && mem.corners.None? && mem.floors.None?
    ensures mem.foods == {} && mem.counter == 0 && mem.pathToFood == []
  {
    Memory({}, None, None, None, 0, [])
  }

  /**
   Between games every memory is reset, so the next game's first tick
   rebuilds the map from its own maze.
   */
  function Final(mem: Memory): (mem': Memory)
    ensures Valid(mem') && mem' == Initial()
  {
    Memory({}, None, None, None, 0, [])
  }

  /** The walls a tick works with: those remembered, else those observed. */
  function MapWalls(mem: Memory, obs: Observation): set<Cell> {
    if mem.walls.Some? then mem.walls.value else obs.walls
  }

  /** The corners a tick works with: those remembered, else the observed ones moved one step inward. */
  function MapCorners(mem: Memory, obs: Observation): seq<Cell> {
    if mem.corners.Some? then mem.corners.value else AdjustCorners(obs.corners)
  }

  /** The food cells remembered after this tick: the agent's cell is eaten, observed food and capsules are added. */
  function Foods(mem: Memory, obs: Observation): set<Cell> {
    (mem.foods - {obs.agent}) + obs.food + obs.capsules
  }

  /** The map a tick works with. */
  datatype Map = Map(walls: set<Cell>, corners: seq<Cell>, floors: seq<Cell>)

  /**
   The map-building part of a tick: each of walls, corners and floors is
   computed only if not yet remembered. Building floors from an empty corner
   list is the only failure.
   */
  method BuildMap(mem: Memory, obs: Observation) returns (r: Result<Map, Fault>)
    requires Valid(mem)
    ensures r.Failure? <==> mem.corners.None? && |obs.corners| == 0
    ensures r.Failure? ==> r.error == NoCorners
    ensures r.Success? ==> r.value.walls == MapWalls(mem, obs) && r.value.corners == MapCorners(mem, obs)
    ensures r.Success? ==> |r.value.corners| > 0
    ensures r.Success? && mem.floors.Some? ==> r.value.floors == mem.floors.value
    ensures r.Success? && mem.floors.None? ==> forall c :: c in r.value.floors <==> InBox(r.value.corners, c)
  {
    var walls := MapWalls(mem, obs);
    var corners := MapCorners(mem, obs);
    if mem.floors.Some? {
      return Success(Map(walls, corners, mem.floors.value));
    }
    if |corners| == 0 {
      return Failure(NoCorners);
    }
    var floors := EnumerateFloors(corners);
    return Success(Map(walls, corners, floors));
  }

  /**
   The legal-move filter: STOP is removed (a fault if it is not there), then
   every death-trap direction, and an emptied list becomes `[STOP]`. On a
   list without repetitions the result holds exactly the moves other than
   STOP that are not traps, or STOP alone when there are none; every open
   move that is not a trap starts a path through at least `TrapThreshold`
   distinct cells.
   */
  method FilterLegal(agent: Cell, walls: set<Cell>, legal: seq<Direction>, order: seq<Direction>, fuel: nat)
    returns (r: Result<seq<Direction>, Fault>, ghost traps: set<Direction>)
    requires IsOrdering(order)
    ensures Stop !in legal <==> r == Failure(NoStop)
    ensures r.Failure? ==> r.error == NoStop || r.error == ScanBudget
    ensures r.Success? ==> |r.value| > 0 && forall d :: d in r.value ==> d in legal
    ensures r.Success? ==> traps <= Open(agent, walls)
    ensures r.Success? ==> forall d :: d in Open(agent, walls) && d !in traps ==> Escapes(walls, agent, d, TrapThreshold)
    ensures r.Success? && NoDup(legal) ==> NoDup(r.value) && StopAlone(r.value)
    ensures r.Success? && NoDup(legal) ==> forall d :: d != Stop ==> (d in r.value <==> d in legal && d !in traps)
  {
    traps := {};
    if Stop !in legal {
      return Failure(NoStop), traps;
    }
    var moves := RemoveFirst(legal, Stop);
    if NoDup(legal) {
      RemoveFirstNoDup(legal, Stop);
    }
    var scan, _ := DeathTrapScan(agent, walls, TrapThreshold, order, fuel);
    if scan.None? {
      return Failure(ScanBudget), traps;
    }
    traps := scan.value;
    var kept := RemoveEach(moves, scan.value);
    assert forall d :: d in kept ==> d in legal by {
      forall d | d in kept ensures d in legal {
        assert d in multiset(kept);
        assert d in multiset(moves);
      }
    }
    r := Success(Pad(kept));
  }

  /** Every move facing the threat `p` is the same move. */
  ghost predicate Narrow(p: Offset) {
    forall d, e :: Faces(d, p) && Faces(e, p) ==> d == e
  }

  /** A threat taken from a survival route faces at most one move. */
  lemma NarrowThreat(walls: set<Cell>, agent: Cell, ghostPos: Point, stack: seq<Cell>)
    requires IsWalk(walls, agent, stack)
    requires |stack| == 0 ==> Accepts(Shadow, agent, {ghostPos})
    ensures Narrow(Proximity(agent, ghostPos, stack))
  {
    if |stack| > 0 {
      StepThreatFacesFirstMove(walls, agent, ghostPos, stack);
    } else {
      forall d, e | Faces(d, Proximity(agent, ghostPos, stack)) && Faces(e, Proximity(agent, ghostPos, stack))
        ensures d == e
      {
        ShadowThreatFacesAtMostOne(agent, ghostPos, d, e);
      }
    }
  }

  /** What the survival check leaves: the moves still allowed and the threats found, one per near ghost. */
  datatype Alarm = Alarm(legal: seq<Direction>, threats: seq<Offset>)

  /**
   `route` is what the survival search returns for the ghost at `g`: a walk
   from the agent, as long as its step count, ending where the ghost is within
   half a cell, and empty when the agent itself is that close.
   */
  ghost predicate Survives(walls: set<Cell>, agent: Cell, g: Point, route: Route) {
    && IsWalk(walls, agent, route.stack)
    && route.length == |route.stack|
    && Accepts(Shadow, End(agent, route.stack), {g})
    && (Accepts(Shadow, agent, {g}) ==> route == Route([], 0))
  }

  /** Some ghost's route is no longer than `GhostRange`. */
  ghost predicate Near(routes: seq<Route>) {
    exists i :: 0 <= i < |routes| && routes[i].length <= GhostRange
  }

  /**
   The threats the survival check finds, given each ghost's route: the
   proximity of every route no longer than `GhostRange`, in ghost order.
   */
  function Threats(agent: Cell, ghosts: seq<Point>, routes: seq<Route>): (t: seq<Offset>)
    requires |ghosts| == |routes|
    ensures |t| <= |routes|
    decreases |routes|
  {
    if |routes| == 0 then []
    else
      var n := |routes| - 1;
      Threats(agent, ghosts[..n], routes[..n])
        + (if routes[n].length <= GhostRange then [Proximity(agent, ghosts[n], routes[n].stack)] else [])
  }

  /** A threat is exactly the proximity of some ghost whose route is no longer than `GhostRange`. */
  lemma {:induction false} ThreatsFrom(agent: Cell, ghosts: seq<Point>, routes: seq<Route>, p: Offset)
    requires |ghosts| == |routes|
    ensures p in Threats(agent, ghosts, routes) <==>
              exists i :: 0 <= i < |routes| && routes[i].length <= GhostRange && p == Proximity(agent, ghosts[i], routes[i].stack)
    decreases |routes|
  {
    if |routes| > 0 {
      var n := |routes| - 1;
      ThreatsFrom(agent, ghosts[..n], routes[..n], p);
      if p in Threats(agent, ghosts, routes) {
        if p in Threats(agent, ghosts[..n], routes[..n]) {
          var i :| 0 <= i < n && routes[..n][i].length <= GhostRange && p == Proximity(agent, ghosts[..n][i], routes[..n][i].stack);
          assert routes[i] == routes[..n][i] && ghosts[i] == ghosts[..n][i];
        }
      } else {
        forall i | 0 <= i < |routes| && routes[i].length <= GhostRange
          ensures p != Proximity(agent, ghosts[i], routes[i].stack)
        {
          if i < n {
            assert routes[i] == routes[..n][i] && ghosts[i] == ghosts[..n][i];
          }
        }
      }
    }
  }

  /** Some threat is found exactly when some ghost's route is no longer than `GhostRange`. */
  lemma {:induction false} ThreatsNear(agent: Cell, ghosts: seq<Point>, routes: seq<Route>)
    requires |ghosts| == |routes|
    ensures |Threats(agent, ghosts, routes)| > 0 <==> Near(routes)
  {
    var t := Threats(agent, ghosts, routes);
    if |t| > 0 {
      ThreatsFrom(agent, ghosts, routes, t[0]);
    }
    if Near(routes) {
      var i :| 0 <= i < |routes| && routes[i].length <= GhostRange;
      ThreatsFrom(agent, ghosts, routes, Proximity(agent, ghosts[i], routes[i].stack));
    }
  }

  /** The survival search for one ghost: its route, or a fault when the ghost cannot be reached. */
  method Track(agent: Cell, g: Point, walls: set<Cell>, floors: set<Cell>, ghost region: set<Cell>)
    returns (r: Result<Route, Fault>)
    requires agent in region && Enclosed(walls, region)
    ensures r.Failure? <==> !Reachable(walls, agent, Shadow, {g})
    ensures r.Failure? ==> r.error == NoGhostPath(g)
    ensures r.Success? ==> Survives(walls, agent, g, r.value)
  {
    var found, _, _ := AStar.WeightedAStar(agent, g, walls, floors, 1.0, Shadow, region);
    if found.None? {
      return Failure(NoGhostPath(g));
    }
    return Success(found.value);
  }

  /**
   The survival check: for each ghost, the survival search from the agent;
   a ghost whose route is longer than `GhostRange` is ignored, otherwise the
   route's first cell (or the ghost itself, on an empty route) is a threat
   and the moves facing it are dropped. An emptied list becomes `[STOP]`.
   The ghost routes are returned alongside, one per ghost, and the threats
   are those the routes give. On a list without repetitions the result
   holds exactly the moves facing no threat (or STOP alone); a ghost that
   the goal test accepts at the agent's own cell is always a threat.
   */
  method Survey(agent: Cell, ghosts: seq<Point>, walls: set<Cell>, floors: set<Cell>, legal: seq<Direction>,
                ghost region: set<Cell>)
    returns (r: Result<Alarm, Fault>, ghost routes: seq<Route>)
    requires agent in region && Enclosed(walls, region)
    ensures r.Failure? ==> r.error.NoGhostPath? && r.error.at in ghosts
                           && !Reachable(walls, agent, Shadow, {r.error.at})
    ensures r.Success? ==> forall g :: g in ghosts ==> Reachable(walls, agent, Shadow, {g})
    ensures r.Success? ==> |routes| == |ghosts| && forall i :: 0 <= i < |ghosts| ==> Survives(walls, agent, ghosts[i], routes[i])
    ensures r.Success? ==> r.value.threats == Threats(agent, ghosts, routes)
    ensures r.Success? ==> |r.value.legal| > 0 && |r.value.threats| <= |ghosts|
    ensures r.Success? ==> forall d :: d in r.value.legal ==> d in legal || d == Stop
    ensures r.Success? ==> forall k :: 0 <= k < |r.value.threats| ==> Narrow(r.value.threats[k])
    ensures r.Success? ==> forall g :: g in ghosts && Accepts(Shadow, agent, {g}) ==> |r.value.threats| > 0
    ensures r.Success? && NoDup(legal) ==> NoDup(r.value.legal)
    ensures r.Success? && NoDup(legal) && StopAlone(legal) ==> StopAlone(r.value.legal)
    ensures r.Success? && NoDup(legal) ==>
              forall d :: d != Stop ==>
                (d in r.value.legal <==> d in legal && forall k :: 0 <= k < |r.value.threats| ==> !Faces(d, r.value.threats[k]))
  {
    var cur := legal;
    var threats: seq<Offset> := [];
    routes := [];
    for i := 0 to |ghosts|
      invariant Screened(legal, cur, threats)
      invariant |routes| == i && forall j :: 0 <= j < i ==> Survives(walls, agent, ghosts[j], routes[j])
      invariant threats == Threats(agent, ghosts[..i], routes)
    {
      var found := Track(agent, ghosts[i], walls, floors, region);
      if found.Failure? {
        return Failure(found.error), routes;
      }
      var route := found.value;
      assert ghosts[..i + 1][..i] == ghosts[..i];
      assert (routes + [route])[..i] == routes;
      routes := routes + [route];
      if route.length > GhostRange {
        continue;
      }
      var p := Proximity(agent, ghosts[i], route.stack);
      NarrowThreat(walls, agent, ghosts[i], route.stack);
      ScreenStep(legal, cur, threats, p);
      cur := AvoidThreat(cur, p);
      threats := threats + [p];
    }
    assert ghosts[..|ghosts|] == ghosts;
    SurveyDone(agent, ghosts, walls, routes);
    ScreenDone(legal, cur, threats);
    r := Success(Alarm(Pad(cur), threats));
  }

  /** Every ghost with a survival route is reachable, and one the agent already touches is a threat. */
  lemma SurveyDone(agent: Cell, ghosts: seq<Point>, walls: set<Cell>, routes: seq<Route>)
    requires |routes| == |ghosts| && forall i :: 0 <= i < |ghosts| ==> Survives(walls, agent, ghosts[i], routes[i])
    ensures forall g :: g in ghosts ==> Reachable(walls, agent, Shadow, {g})
    ensures forall g :: g in ghosts && Accepts(Shadow, agent, {g}) ==> |Threats(agent, ghosts, routes)| > 0
  {
    forall g | g in ghosts ensures Reachable(walls, agent, Shadow, {g}) {
      var i :| 0 <= i < |ghosts| && ghosts[i] == g;
      assert IsWalk(walls, agent, routes[i].stack) && Accepts(Shadow, End(agent, routes[i].stack), {g});
    }
    forall g | g in ghosts && Accepts(Shadow, agent, {g}) ensures |Threats(agent, ghosts, routes)| > 0 {
      var i :| 0 <= i < |ghosts| && ghosts[i] == g;
      assert routes[i].length <= GhostRange;
      ThreatsNear(agent, ghosts, routes);
    }
  }

  /**
   The survival check's bookkeeping: `cur` is `legal` with some moves
   dropped; on a list without repetitions, exactly the moves facing one of
   `threats`; every threat faces at most one move.
   */
  ghost predicate Screened(legal: seq<Direction>, cur: seq<Direction>, threats: seq<Offset>) {
    && multiset(cur) <= multiset(legal)
    && (forall k :: 0 <= k < |threats| ==> Narrow(threats[k]))
    && (NoDup(legal) ==> NoDup(cur))
    && (NoDup(legal) ==> forall d :: d in cur <==> d in legal && forall k :: 0 <= k < |threats| ==> !Faces(d, threats[k]))
    && (NoDup(legal) && StopAlone(legal) ==> StopAlone(cur))
  }

  /** Dropping the moves that face one more threat keeps the bookkeeping. */
  lemma ScreenStep(legal: seq<Direction>, cur: seq<Direction>, threats: seq<Offset>, p: Offset)
    requires Screened(legal, cur, threats) && Narrow(p)
    ensures Screened(legal, AvoidThreat(cur, p), threats + [p])
  {
    var threats' := threats + [p];
    var cur' := AvoidThreat(cur, p);
    assert multiset(cur') <= multiset(legal);
    assert forall k :: 0 <= k < |threats'| ==> Narrow(threats'[k]) by {
      assert forall k :: 0 <= k < |threats| ==> threats'[k] == threats[k];
    }
    if NoDup(legal) {
      AvoidThreatDropsFacing(cur, p);
      forall d
        ensures d in cur' <==> d in legal && forall k :: 0 <= k < |threats'| ==> !Faces(d, threats'[k])
      {
        assert (forall k :: 0 <= k < |threats'| ==> !Faces(d, threats'[k]))
               <==> (forall k :: 0 <= k < |threats| ==> !Faces(d, threats[k])) && !Faces(d, p) by {
          assert threats'[|threats|] == p;
          assert forall k :: 0 <= k < |threats| ==> threats'[k] == threats[k];
        }
      }
      if StopAlone(legal) {
        AvoidThreatStopAlone(cur, p);
      }
    }
  }

  /** What is left once every ghost was examined, padded with STOP if emptied. */
  lemma ScreenDone(legal: seq<Direction>, cur: seq<Direction>, threats: seq<Offset>)
    requires Screened(legal, cur, threats)
    ensures |Pad(cur)| > 0
    ensures forall d :: d in Pad(cur) ==> d in legal || d == Stop
    ensures NoDup(legal) ==> NoDup(Pad(cur))
    ensures NoDup(legal) && StopAlone(legal) ==> StopAlone(Pad(cur))
    ensures NoDup(legal) ==>
              forall d :: d != Stop ==>
                (d in Pad(cur) <==> d in legal && forall k :: 0 <= k < |threats| ==> !Faces(d, threats[k]))
  {
    forall d | d in cur ensures d in legal {
      assert d in multiset(cur);
    }
  }

  /** `p` is a walk to an accepted cell and no walk to an accepted cell is shorter. */
  ghost predicate Nearest(walls: set<Cell>, start: Cell, targets: set<Point>, p: seq<Cell>) {
    && IsWalk(walls, start, p)
    && Accepts(Exact, End(start, p), targets)
    && forall q :: IsWalk(walls, start, q) && Accepts(Exact, End(start, q), targets) ==> |p| <= |q|
  }

  /** The hungry mode's outcome: the move it makes, if any, and the cached route after it. */
  datatype Forage = Forage(step: Option<Direction>, path: seq<Cell>)

  /**
   The hungry mode: with an empty cache the route to the nearest food is
   searched for (a fault when there is none); then the route's next cell is
   popped and, when it is one move away, that move is made. A cached route
   is followed without searching.
   */
  method FollowFood(agent: Cell, foods: set<Cell>, walls: set<Cell>, path: seq<Cell>, ghost region: set<Cell>)
    returns (r: Result<Forage, Fault>)
    requires agent in region && Enclosed(walls, region)
    requires forall c :: c in path ==> c !in walls
    ensures r.Success? ==> forall c :: c in r.value.path ==> c !in walls
    ensures r.Success? && r.value.step.Some? ==>
              r.value.step.value != Stop && Neighbor(agent, r.value.step.value) !in walls
    ensures |path| > 0 ==> r == Success(Forage(StepToward(agent, path[0]), path[1..]))
    ensures |path| == 0 ==> (r.Failure? <==> !Reachable(walls, agent, Exact, PointsOf(foods)))
    ensures r.Failure? ==> r.error == NoFoodPath
    ensures |path| == 0 && r.Success? && agent in foods ==> r.value == Forage(None, [])
    ensures |path| == 0 && r.Success? && agent !in foods ==>
              exists p :: Nearest(walls, agent, PointsOf(foods), p) && |p| > 0
                          && r.value == Forage(Some(DirTo(agent, p[0])), p[1..])
  {
    var route := path;
    if |route| == 0 {
      var found, _ := Bfs.NearestTarget(agent, PointsOf(foods), walls, Exact, region);
      if found.None? {
        return Failure(NoFoodPath);
      }
      route := found.value.stack;
      ShadowOnCells(agent, foods);
      if agent !in foods {
        assert |route| > 0;
        assert Adjacent(At(agent, route, 0), route[0]);
        assert Nearest(walls, agent, PointsOf(foods), route);
      }
      assert forall c :: c in route ==> c !in walls by {
        forall c | c in route ensures c !in walls {
          var i :| 0 <= i < |route| && route[i] == c;
        }
      }
    }
    if |route| > 0 {
      return Success(Forage(StepToward(agent, route[0]), route[1..]));
    }
    return Success(Forage(None, []));
  }

  /**
   The corner-seeking mode's move: the first move of the search's route to
   the target corner; none exactly when the agent already stands on it, and
   a fault when no route exists.
   */
  method SeekCorner(agent: Cell, corner: Cell, walls: set<Cell>, floors: set<Cell>, ghost region: set<Cell>)
    returns (r: Result<Option<Direction>, Fault>)
    requires agent in region && Enclosed(walls, region)
    ensures r.Failure? <==> !Reachable(walls, agent, Exact, {ToPoint(corner)})
    ensures r.Failure? ==> r.error == NoCornerPath
    ensures r.Success? ==> (r.value.None? <==> agent == corner)
    ensures r.Success? && r.value.Some? ==> r.value.value != Stop && Neighbor(agent, r.value.value) !in walls
    ensures r.Success? && r.value.Some? ==>
              exists p :: IsWalk(walls, agent, p) && |p| > 0 && p[0] == Neighbor(agent, r.value.value) && End(agent, p) == corner
  {
    var found, _, _ := AStar.WeightedAStar(agent, ToPoint(corner), walls, floors, 1.0, Exact, region);
    if found.None? {
      return Failure(NoCornerPath);
    }
    var route := found.value.stack;
    ShadowOnCellGoal(agent, corner);
    ShadowOnCellGoal(End(agent, route), corner);
    if |route| > 0 {
      assert Adjacent(At(agent, route, 0), route[0]);
      return Success(StepToward(agent, route[0]));
    }
    return Success(None);
  }

  /** `mem` remembers the map `world`, the food cells `foods` and the counter `counter`. */
  predicate Keeps(mem: Memory, world: Map, foods: set<Cell>, counter: int) {
    && mem.foods == foods && mem.counter == counter
    && mem.walls == Some(world.walls) && mem.corners == Some(world.corners) && mem.floors == Some(world.floors)
  }

  /**
   The hungry mode makes no move: no food is remembered, the cached route's
   next cell is not one move away, or there is no cached route and the agent
   stands on remembered food. The policy then seeks the target corner.
   */
  predicate Unfed(agent: Cell, foods: set<Cell>, path: seq<Cell>) {
    || foods == {}
    || (|path| > 0 && !Adjacent(agent, path[0]))
    || (path == [] && agent in foods)
  }

  /**
   The hungry and corner-seeking modes, once no ghost is near. With food
   remembered, the cached route is followed, or the route to the nearest
   food found and its first move made; the cached route loses its next cell
   whether or not that cell is one move away. When that gives no move, the
   first move towards the target corner; on the target corner itself, a
   random legal move.
   */
  method Calm(agent: Cell, world: Map, foods: set<Cell>, counter: int, legal: seq<Direction>, path: seq<Cell>,
              ghost region: set<Cell>)
    returns (r: Result<Tick, Fault>)
    requires agent in region && Enclosed(world.walls, region) && |world.corners| > 0
    requires forall c :: c in path ==> c !in world.walls
    ensures r.Success? ==> Keeps(r.value.memory, world, foods, counter)
    ensures r.Success? ==> forall c :: c in r.value.memory.pathToFood ==> c !in world.walls
    ensures r.Success? && r.value.action.Go? ==>
              r.value.action.d != Stop && Neighbor(agent, r.value.action.d) !in world.walls
    ensures r.Success? && r.value.action.Pick? ==> r.value.action.options == legal
    ensures r.Failure? ==>
              || (r.error == NoFoodPath && path == [] && !Reachable(world.walls, agent, Exact, PointsOf(foods)))
              || (r.error == NoCornerPath && !Reachable(world.walls, agent, Exact, {ToPoint(Target(world.corners, counter))}))
    ensures r.Success? && |foods| > 0 && |path| > 0 && Adjacent(agent, path[0]) ==>
              r.value.action == Go(DirTo(agent, path[0])) && r.value.memory.pathToFood == path[1..]
    ensures r.Success? && |foods| > 0 && path == [] && agent !in foods ==>
              exists p :: Nearest(world.walls, agent, PointsOf(foods), p) && |p| > 0
                          && r.value.action == Go(DirTo(agent, p[0])) && r.value.memory.pathToFood == p[1..]
    ensures r.Success? && |foods| > 0 && |path| > 0 ==> r.value.memory.pathToFood == path[1..]
    ensures r.Success? && Unfed(agent, foods, path) ==> (r.value.action.Pick? <==> agent == Target(world.corners, counter))
    ensures r.Success? && Unfed(agent, foods, path) && r.value.action.Go? ==>
              exists p :: IsWalk(world.walls, agent, p) && |p| > 0 && p[0] == Neighbor(agent, r.value.action.d)
                          && End(agent, p) == Target(world.corners, counter)
  {
    var cache := path;
    if |foods| > 0 {
      var forage := FollowFood(agent, foods, world.walls, path, region);
      if forage.Failure? {
        return Failure(forage.error);
      }
      cache := forage.value.path;
      if forage.value.step.Some? {
        var memory := Memory(foods, Some(world.walls), Some(world.corners), Some(world.floors), counter, cache);
        return Success(Tick(Go(forage.value.step.value), memory));
      }
    }
    var memory := Memory(foods, Some(world.walls), Some(world.corners), Some(world.floors), counter, cache);
    var seek := SeekCorner(agent, Target(world.corners, counter), world.walls, Cells(world.floors), region);
    if seek.Failure? {
      return Failure(seek.error);
    }
    if seek.value.Some? {
      return Success(Tick(Go(seek.value.value), memory));
    }
    return Success(Tick(Pick(legal), memory));
  }

  /**
   The three modes. When some ghost's survival route is at most
   `GhostRange` moves long, the cached route is dropped and a random move is
   picked among those facing no threat; otherwise the calm modes decide.
   */
  method Decide(agent: Cell, ghosts: seq<Point>, world: Map, foods: set<Cell>, counter: int, legal: seq<Direction>,
                path: seq<Cell>, ghost region: set<Cell>)
    returns (r: Result<Tick, Fault>, ghost threats: seq<Offset>, ghost routes: seq<Route>)
    requires agent in region && Enclosed(world.walls, region) && |world.corners| > 0
    requires forall c :: c in path ==> c !in world.walls
    requires |legal| > 0
    ensures r.Success? ==> Keeps(r.value.memory, world, foods, counter)
    ensures r.Success? ==> forall c :: c in r.value.memory.pathToFood ==> c !in world.walls
    ensures r.Success? && r.value.action.Go? ==>
              r.value.action.d != Stop && Neighbor(agent, r.value.action.d) !in world.walls
    ensures r.Success? && r.value.action.Pick? ==>
              |r.value.action.options| > 0 && forall d :: d in r.value.action.options ==> d in legal || d == Stop
    ensures r.Success? && r.value.action.Pick? && NoDup(legal) ==> NoDup(r.value.action.options)
    ensures r.Success? && r.value.action.Pick? && NoDup(legal) && StopAlone(legal) ==> StopAlone(r.value.action.options)
    ensures r.Success? && r.value.action.Pick? && NoDup(legal) ==>
              forall d, k :: d in r.value.action.options && 0 <= k < |threats| ==> !Faces(d, threats[k])
    // Survival mode.
    ensures r.Success? ==> |routes| == |ghosts| && forall i :: 0 <= i < |ghosts| ==> Survives(world.walls, agent, ghosts[i], routes[i])
    ensures r.Success? ==> threats == Threats(agent, ghosts, routes) && |threats| <= |ghosts|
    ensures r.Success? ==> forall k :: 0 <= k < |threats| ==> Narrow(threats[k])
    ensures r.Success? ==> forall g :: g in ghosts && Accepts(Shadow, agent, {g}) ==> |threats| > 0
    ensures r.Success? && Near(routes) ==> r.value.action.Pick? && r.value.memory.pathToFood == []
    ensures r.Failure? ==>
              || (r.error.NoGhostPath? && r.error.at in ghosts && !Reachable(world.walls, agent, Shadow, {r.error.at}))
              || (r.error == NoFoodPath && path == [] && !Reachable(world.walls, agent, Exact, PointsOf(foods)))
              || (r.error == NoCornerPath && !Reachable(world.walls, agent, Exact, {ToPoint(Target(world.corners, counter))}))
    // Hungry mode.
    ensures r.Success? && !Near(routes) && |foods| > 0 && |path| > 0 ==> r.value.memory.pathToFood == path[1..]
    ensures r.Success? && !Near(routes) && |foods| > 0 && |path| > 0 && Adjacent(agent, path[0]) ==>
              r.value.action == Go(DirTo(agent, path[0]))
    ensures r.Success? && !Near(routes) && |foods| > 0 && path == [] && agent !in foods ==>
              exists p :: Nearest(world.walls, agent, PointsOf(foods), p) && |p| > 0
                          && r.value.action == Go(DirTo(agent, p[0])) && r.value.memory.pathToFood == p[1..]
    // Corner-seeking mode.
    ensures r.Success? && !Near(routes) && Unfed(agent, foods, path) ==>
              (r.value.action.Pick? <==> agent == Target(world.corners, counter))
    ensures r.Success? && !Near(routes) && Unfed(agent, foods, path) && r.value.action.Go? ==>
              exists p :: IsWalk(world.walls, agent, p) && |p| > 0 && p[0] == Neighbor(agent, r.value.action.d)
                          && End(agent, p) == Target(world.corners, counter)
  {
    var alarm;
    alarm, routes := Watch(agent, ghosts, world.walls, Cells(world.floors), legal, region);
    threats := [];
    if alarm.Failure? {
      return Failure(alarm.error), threats, routes;
    }
    threats := alarm.value.threats;
    if |alarm.value.threats| > 0 {
      var memory := Memory(foods, Some(world.walls), Some(world.corners), Some(world.floors), counter, []);
      return Success(Tick(Pick(alarm.value.legal), memory)), threats, routes;
    }
    r := Calm(agent, world, foods, counter, alarm.value.legal, path, region);
  }

  /**
   The survival check as a tick runs it: skipped when there are no ghosts,
   leaving the moves as they are. Some threat is found exactly when some
   ghost's route is at most `GhostRange` moves long.
   */
  method Watch(agent: Cell, ghosts: seq<Point>, walls: set<Cell>, floors: set<Cell>, legal: seq<Direction>,
               ghost region: set<Cell>)
    returns (r: Result<Alarm, Fault>, ghost routes: seq<Route>)
    requires agent in region && Enclosed(walls, region) && |legal| > 0
    ensures |ghosts| == 0 ==> r == Success(Alarm(legal, [])) && routes == []
    ensures r.Failure? ==> r.error.NoGhostPath? && r.error.at in ghosts
                           && !Reachable(walls, agent, Shadow, {r.error.at})
    ensures r.Success? ==> |routes| == |ghosts| && forall i :: 0 <= i < |ghosts| ==> Survives(walls, agent, ghosts[i], routes[i])
    ensures r.Success? ==> r.value.threats == Threats(agent, ghosts, routes) && |r.value.threats| <= |ghosts|
    ensures r.Success? ==> (|r.value.threats| > 0 <==> Near(routes))
    ensures r.Success? ==> |r.value.legal| > 0 && forall d :: d in r.value.legal ==> d in legal || d == Stop
    ensures r.Success? ==> forall k :: 0 <= k < |r.value.threats| ==> Narrow(r.value.threats[k])
    ensures r.Success? ==> forall g :: g in ghosts && Accepts(Shadow, agent, {g}) ==> |r.value.threats| > 0
    ensures r.Success? && NoDup(legal) ==> NoDup(r.value.legal)
    ensures r.Success? && NoDup(legal) && StopAlone(legal) ==> StopAlone(r.value.legal)
    ensures r.Success? && NoDup(legal) ==>
              forall d :: d in r.value.legal ==> forall k :: 0 <= k < |r.value.threats| ==> !Faces(d, r.value.threats[k])
  {
    if |ghosts| == 0 {
      return Success(Alarm(legal, [])), [];
    }
    r, routes := Survey(agent, ghosts, walls, floors, legal, region);
    if r.Success? {
      ThreatsNear(agent, ghosts, routes);
      if NoDup(legal) {
        FacingNone(legal, r.value.legal, r.value.threats);
      }
    }
  }

  /** When the moves other than STOP are exactly those facing no threat, no move faces a threat: STOP faces nothing. */
  lemma FacingNone(legal: seq<Direction>, moves: seq<Direction>, threats: seq<Offset>)
    requires forall d :: d != Stop ==> (d in moves <==> d in legal && forall k :: 0 <= k < |threats| ==> !Faces(d, threats[k]))
    ensures forall d :: d in moves ==> forall k :: 0 <= k < |threats| ==> !Faces(d, threats[k])
  {
    forall d | d in moves ensures forall k :: 0 <= k < |threats| ==> !Faces(d, threats[k]) {
      if d == Stop {
        assert Delta(Stop) == (0, 0);
      }
    }
  }

  /** A tick's state once the map is built, the food updated, the counter retargeted and the moves filtered. */
  datatype Ready = Ready(world: Map, foods: set<Cell>, counter: int, legal: seq<Direction>)

  /**
   The part of a tick before the modes: the map, the remembered food (the
   agent's cell eaten before the observed food and capsules are added), the
   counter (retargeted when the agent stands on a corner) and the legal moves
   without STOP and without death traps.
   */
  method Prepare(mem: Memory, obs: Observation, bump: int, order: seq<Direction>, fuel: nat)
    returns (r: Result<Ready, Fault>, ghost traps: set<Direction>)
    requires Valid(mem) && IsOrdering(order)
    ensures r == Failure(NoCorners) <==> mem.corners.None? && |obs.corners| == 0
    ensures r.Failure? ==> r.error == NoCorners || r.error == NoStop || r.error == ScanBudget
    ensures r.Success? ==> Stop in obs.legal
    ensures Stop !in obs.legal && !(mem.corners.None? && |obs.corners| == 0) ==> r == Failure(NoStop)
    ensures r.Success? ==> r.value.world.walls == MapWalls(mem, obs) && r.value.world.corners == MapCorners(mem, obs)
    ensures r.Success? ==> |r.value.world.corners| > 0
    ensures r.Success? && mem.floors.Some? ==> r.value.world.floors == mem.floors.value
    ensures r.Success? && mem.floors.None? ==> forall c :: c in r.value.world.floors <==> InBox(MapCorners(mem, obs), c)
    ensures r.Success? ==> r.value.foods == Foods(mem, obs)
    ensures r.Success? ==> r.value.counter == Retarget(MapCorners(mem, obs), obs.agent, mem.counter, bump)
    ensures r.Success? ==> |r.value.legal| > 0 && forall d :: d in r.value.legal ==> d in obs.legal
    ensures r.Success? ==> traps <= Open(obs.agent, MapWalls(mem, obs))
    ensures r.Success? ==> forall d :: d in Open(obs.agent, MapWalls(mem, obs)) && d !in traps ==>
                             Escapes(MapWalls(mem, obs), obs.agent, d, TrapThreshold)
    ensures r.Success? && NoDup(obs.legal) ==> NoDup(r.value.legal) && StopAlone(r.value.legal)
    ensures r.Success? && NoDup(obs.legal) ==> forall d :: d != Stop ==> (d in r.value.legal <==> d in obs.legal && d !in traps)
  {
    traps := {};
    var built := BuildMap(mem, obs);
    if built.Failure? {
      return Failure(built.error), traps;
    }
    var world := built.value;
    var foods := mem.foods - {obs.agent};
    var counter := Retarget(world.corners, obs.agent, mem.counter, bump);
    var filtered;
    filtered, traps := FilterLegal(obs.agent, world.walls, obs.legal, order, fuel);
    if filtered.Failure? {
      return Failure(filtered.error), traps;
    }
    foods := foods + obs.food + obs.capsules;
    r := Success(Ready(world, foods, counter, filtered.value));
  }

  /**
   One tick of the policy. `bump` is the source's random pick from 1, 2, 3;
   `order` the iteration order of the death-trap scan's direction table;
   `fuel` the scan's dequeue budget; `region` a finite part of the maze,
   closed under moves, holding the agent. The result is the move, or the
   list a random move is picked from, and the memory for the next tick; the
   death-trap directions, the threats found and the ghosts' survival routes are
   returned alongside.
   */
  method GetAction(mem: Memory, obs: Observation, bump: int, order: seq<Direction>, fuel: nat, ghost region: set<Cell>)
    returns (r: Result<Tick, Fault>, ghost traps: set<Direction>, ghost threats: seq<Offset>, ghost routes: seq<Route>)
    requires Valid(mem)
    requires 1 <= bump <= 3 && IsOrdering(order)
    requires obs.agent in region && Enclosed(MapWalls(mem, obs), region)
    // The map.
    ensures r == Failure(NoCorners) <==> mem.corners.None? && |obs.corners| == 0
    ensures r.Success? ==> Valid(r.value.memory)
    ensures r.Success? ==> r.value.memory.walls == Some(MapWalls(mem, obs)) && r.value.memory.corners == Some(MapCorners(mem, obs))
    ensures r.Success? ==> r.value.memory.floors.Some? && (mem.floors.Some? ==> r.value.memory.floors == mem.floors)
    ensures r.Success? && mem.floors.None? ==>
              forall c :: c in r.value.memory.floors.value <==> InBox(MapCorners(mem, obs), c)
    // The remembered food.
    ensures r.Success? ==> obs.food + obs.capsules <= r.value.memory.foods
    ensures r.Success? ==> forall c :: c in mem.foods && c != obs.agent ==> c in r.value.memory.foods
    ensures r.Success? ==> forall c :: c in r.value.memory.foods ==> c in mem.foods || c in obs.food || c in obs.capsules
    ensures r.Success? && obs.agent !in obs.food + obs.capsules ==> obs.agent !in r.value.memory.foods
    // The corner counter.
    ensures r.Success? && obs.agent !in MapCorners(mem, obs) ==> r.value.memory.counter == mem.counter
    ensures r.Success? && NoDup(MapCorners(mem, obs)) && |MapCorners(mem, obs)| >= 4 && obs.agent in MapCorners(mem, obs) ==>
              Target(MapCorners(mem, obs), r.value.memory.counter) != obs.agent
    // The legal moves and the traps.
    ensures r.Success? ==> Stop in obs.legal
    ensures Stop !in obs.legal && !(mem.corners.None? && |obs.corners| == 0) ==> r == Failure(NoStop)
    ensures r.Success? ==> traps <= Open(obs.agent, MapWalls(mem, obs))
    ensures r.Success? ==> forall d :: d in Open(obs.agent, MapWalls(mem, obs)) && d !in traps ==>
                             Escapes(MapWalls(mem, obs), obs.agent, d, TrapThreshold)
    // The action.
    ensures r.Success? && r.value.action.Go? ==>
              r.value.action.d != Stop && Neighbor(obs.agent, r.value.action.d) !in MapWalls(mem, obs)
    ensures r.Success? && r.value.action.Pick? ==>
              |r.value.action.options| > 0 && forall d :: d in r.value.action.options ==> d in obs.legal
    ensures r.Success? && r.value.action.Pick? && NoDup(obs.legal) ==>
              NoDup(r.value.action.options) && StopAlone(r.value.action.options)
    ensures r.Success? && r.value.action.Pick? && NoDup(obs.legal) ==>
              forall d :: d in r.value.action.options ==> d !in traps
    ensures r.Success? && r.value.action.Pick? && NoDup(obs.legal) ==>
              forall d, k :: d in r.value.action.options && 0 <= k < |threats| ==> !Faces(d, threats[k])
    // Survival mode.
    ensures r.Success? ==> |routes| == |obs.ghosts|
                           && forall i :: 0 <= i < |obs.ghosts| ==> Survives(MapWalls(mem, obs), obs.agent, obs.ghosts[i], routes[i])
    ensures r.Success? ==> threats == Threats(obs.agent, obs.ghosts, routes)
    ensures r.Success? ==> forall k :: 0 <= k < |threats| ==> Narrow(threats[k])
    ensures r.Success? ==> forall g :: g in obs.ghosts && Accepts(Shadow, obs.agent, {g}) ==> |threats| > 0
    ensures r.Success? && Near(routes) ==> r.value.action.Pick? && r.value.memory.pathToFood == []
    // Hungry mode.
    ensures r.Success? && !Near(routes) && |Foods(mem, obs)| > 0 && |mem.pathToFood| > 0 ==>
              r.value.memory.pathToFood == mem.pathToFood[1..]
    ensures r.Success? && !Near(routes) && |Foods(mem, obs)| > 0 && |mem.pathToFood| > 0
            && Adjacent(obs.agent, mem.pathToFood[0]) ==>
              r.value.action == Go(DirTo(obs.agent, mem.pathToFood[0]))
    ensures r.Success? && !Near(routes) && |Foods(mem, obs)| > 0 && mem.pathToFood == [] && obs.agent !in Foods(mem, obs) ==>
              exists p :: Nearest(MapWalls(mem, obs), obs.agent, PointsOf(Foods(mem, obs)), p) && |p| > 0
                          && r.value.action == Go(DirTo(obs.agent, p[0])) && r.value.memory.pathToFood == p[1..]
    // Corner-seeking mode.
    ensures r.Success? && !Near(routes) && Unfed(obs.agent, Foods(mem, obs), mem.pathToFood) ==>
              (r.value.action.Pick? <==> obs.agent == Target(MapCorners(mem, obs), r.value.memory.counter))
    ensures r.Success? && !Near(routes) && Unfed(obs.agent, Foods(mem, obs), mem.pathToFood) && r.value.action.Go? ==>
              exists p :: IsWalk(MapWalls(mem, obs), obs.agent, p) && |p| > 0 && p[0] == Neighbor(obs.agent, r.value.action.d)
                          && End(obs.agent, p) == Target(MapCorners(mem, obs), r.value.memory.counter)
    // The failed searches.
    ensures r.Failure? && r.error.NoGhostPath? ==>
              r.error.at in obs.ghosts && !Reachable(MapWalls(mem, obs), obs.agent, Shadow, {r.error.at})
    ensures r == Failure(NoFoodPath) ==>
              mem.pathToFood == [] && !Reachable(MapWalls(mem, obs), obs.agent, Exact, PointsOf(Foods(mem, obs)))
    ensures r == Failure(NoCornerPath) ==>
              !Reachable(MapWalls(mem, obs), obs.agent, Exact,
                         {ToPoint(Target(MapCorners(mem, obs), Retarget(MapCorners(mem, obs), obs.agent, mem.counter, bump)))})
  {
    threats, routes := [], [];
    var ready;
    ready, traps := Prepare(mem, obs, bump, order, fuel);
    if ready.Failure? {
      return Failure(ready.error), traps, threats, routes;
    }
    var st := ready.value;
    if obs.agent in st.world.corners {
      RetargetLeavesIf(st.world.corners, obs.agent, mem.counter, bump);
    }
    r, threats, routes := Decide(obs.agent, obs.ghosts, st.world, st.foods, st.counter, st.legal, mem.pathToFood, region);
  }

  /** `RetargetLeaves` under the conditions the policy can state about its own corners. */
  lemma RetargetLeavesIf(corners: seq<Cell>, agent: Cell, counter: int, bump: int)
    requires agent in corners && 1 <= bump <= 3
    ensures NoDup(corners) && |corners| >= 4 ==> Target(corners, Retarget(corners, agent, counter, bump)) != agent
  {
    if NoDup(corners) && |corners| >= 4 {
      RetargetLeaves(corners, agent, counter, bump);
    }
  }
}
