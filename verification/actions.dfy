/**
 Filtering the legal actions: dropping the moves that face an imminent
 ghost, padding an emptied list with STOP, and turning a path's next cell
 into a move.
 */
module Actions {
  import opened Grid
  import opened Seqs
  import opened Wrappers

  /** A displacement with real components: ghosts may stand half-way between cells. */
  datatype Offset = Offset(dx: real, dy: real)

  /** Moving by `d` heads towards `p`: the move's displacement has a positive dot product with `p`. */
  predicate Faces(d: Direction, p: Offset) {
    Delta(d).0 as real * p.dx + Delta(d).1 as real * p.dy > 0.0
  }

  /**
   Where an imminent threat comes from: the first cell of the path to the
   ghost, or the ghost itself when that path is empty, relative to the agent.
   */
  function Proximity(agent: Cell, ghostPos: Point, stack: seq<Cell>): Offset {
    if |stack| == 0 then Offset(ghostPos.x - agent.x as real, ghostPos.y - agent.y as real)
    else Offset((stack[0].x - agent.x) as real, (stack[0].y - agent.y) as real)
  }

  /** `if cond and d in legal: legal.remove(d)`. */
  function DropIf(legal: seq<Direction>, cond: bool, d: Direction): (r: seq<Direction>)
    ensures multiset(r) <= multiset(legal)
    ensures NoDup(legal) ==> NoDup(r) && forall e :: e in r <==> e in legal && !(cond && e == d)
  {
    RemoveFirstNoDupIf(legal, d);
    if cond && d in legal then RemoveFirst(legal, d) else legal
  }

  lemma RemoveFirstNoDupIf(legal: seq<Direction>, d: Direction)
    ensures NoDup(legal) ==> NoDup(RemoveFirst(legal, d)) && forall e :: e in RemoveFirst(legal, d) <==> e in legal && e != d
  {
    if NoDup(legal) {
      RemoveFirstNoDup(legal, d);
    }
  }

  /**
   The four sign tests on the threat's displacement: EAST is dropped when it
   is to the east (dx > 0), WEST when dx < 0, NORTH when dy > 0, SOUTH when
   dy < 0, each only if still listed. Nothing is added.
   */
  function AvoidThreat(legal: seq<Direction>, p: Offset): (r: seq<Direction>)
    ensures multiset(r) <= multiset(legal)
  {
    var afterEast := DropIf(legal, p.dx > 0.0, East);
    var afterWest := DropIf(afterEast, p.dx < 0.0, West);
    var afterNorth := DropIf(afterWest, p.dy > 0.0, North);
    DropIf(afterNorth, p.dy < 0.0, South)
  }

  /**
   On a list without repetitions the sign tests drop exactly the moves that
   face the threat, and STOP, which faces nothing, is kept.
   */
  lemma AvoidThreatDropsFacing(legal: seq<Direction>, p: Offset)
    requires NoDup(legal)
    ensures NoDup(AvoidThreat(legal, p))
    ensures forall d :: d in AvoidThreat(legal, p) <==> d in legal && !Faces(d, p)
  {
    var afterEast := DropIf(legal, p.dx > 0.0, East);
    var afterWest := DropIf(afterEast, p.dx < 0.0, West);
    var afterNorth := DropIf(afterWest, p.dy > 0.0, North);
    var r := DropIf(afterNorth, p.dy < 0.0, South);
    assert r == AvoidThreat(legal, p);
    forall d ensures d in r <==> d in legal && !Faces(d, p) {
      FacesBySign(d, p);
    }
  }

  /** The dot-product test is the source's sign test on the matching component. */
  lemma FacesBySign(d: Direction, p: Offset)
    ensures Faces(d, p) <==> || (d == East && p.dx > 0.0) || (d == West && p.dx < 0.0)
                             || (d == North && p.dy > 0.0) || (d == South && p.dy < 0.0)
  {
  }

  /** A list that holds STOP holds nothing else. */
  predicate StopAlone(legal: seq<Direction>) {
    Stop in legal ==> legal == [Stop]
  }

  /** An emptied list of legal actions becomes `[STOP]`. */
  function Pad(legal: seq<Direction>): (r: seq<Direction>)
    ensures |r| > 0
    ensures |legal| > 0 ==> r == legal
    ensures |legal| == 0 ==> r == [Stop]
    ensures StopAlone(legal) ==> StopAlone(r)
    ensures forall d :: d in r ==> d in legal || d == Stop
  {
    if |legal| == 0 then [Stop] else legal
  }

  /** Dropping the moves that face a threat keeps STOP alone and keeps the list free of repetitions. */
  lemma AvoidThreatStopAlone(legal: seq<Direction>, p: Offset)
    requires NoDup(legal) && StopAlone(legal)
    ensures StopAlone(AvoidThreat(legal, p)) && NoDup(AvoidThreat(legal, p))
  {
    AvoidThreatDropsFacing(legal, p);
    if Stop in legal {
      assert AvoidThreat(legal, p) == [Stop];
    }
  }

  /**
   A threat one step along a walk faces exactly one move, the walk's first
   one, so exactly that move is dropped.
   */
  lemma StepThreatFacesFirstMove(walls: set<Cell>, agent: Cell, ghostPos: Point, stack: seq<Cell>)
    requires IsWalk(walls, agent, stack) && |stack| > 0
    ensures forall d :: Faces(d, Proximity(agent, ghostPos, stack)) <==> d == DirTo(agent, stack[0])
  {
    assert Adjacent(At(agent, stack, 0), stack[0]);
  }

  /**
   A ghost the survival goal test accepts at the agent's own cell is at most
   half a cell away along one axis, so at most one move faces it.
   */
  lemma ShadowThreatFacesAtMostOne(agent: Cell, ghostPos: Point, d: Direction, e: Direction)
    requires Accepts(Shadow, agent, {ghostPos})
    requires Faces(d, Proximity(agent, ghostPos, [])) && Faces(e, Proximity(agent, ghostPos, []))
    ensures d == e
  {
  }

  /** The move that takes the agent into the next cell of a path; `None` when that cell is not adjacent. */
  function StepToward(agent: Cell, next: Cell): (r: Option<Direction>)
    ensures r.Some? <==> Adjacent(agent, next)
    ensures r.Some? ==> r.value != Stop && Neighbor(agent, r.value) == next
  {
    DirectionOf(next.x - agent.x, next.y - agent.y)
  }
}
