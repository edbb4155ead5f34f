/**
 Path reconstruction (`construct_path`): walk a predecessor map back from a
 terminal cell to the start, whose entry is the `(None, None)` sentinel,
 pushing every cell met on the way onto a stack.

 Stacks are sequences whose TOP is index 0; the last cell pushed is the first
 popped. The reconstructed stack, read from the top, is therefore the path
 from the first step after the start to the terminal cell.
 */
module Paths {
  import opened Wrappers
  import opened Grid

  /** A predecessor-map entry: the start's sentinel, or the cell a cell was reached from. */
  datatype Link = Origin | Via(prev: Cell)

  /** What `construct_path` returns: the path stack and the counted path length. */
  datatype Route = Route(stack: seq<Cell>, length: int)

  /**
   Ways a reconstruction can fail: a cell with no entry (the source raises
   KeyError), or a predecessor chain that comes back to a cell already pushed
   (the source never leaves its loop).
   */
  datatype PathFault = MissingLink(at: Cell) | Cycle(at: Cell)

  /**
   `stack` is the predecessor chain ending at `terminal`: read from the top,
   the first cell's predecessor carries the sentinel and each later cell's
   predecessor is the cell before it.
   */
  ghost predicate ChainTo(back: map<Cell, Link>, stack: seq<Cell>, terminal: Cell) {
    if |stack| == 0 then
      terminal in back && back[terminal] == Origin
    else
      && stack[|stack| - 1] == terminal
      && (forall i :: 0 <= i < |stack| ==> stack[i] in back && back[stack[i]].Via?)
      && back[stack[0]].prev in back && back[back[stack[0]].prev] == Origin
      && (forall i :: 0 < i < |stack| ==> back[stack[i]].prev == stack[i - 1])
  }

  /**
   The loop of `construct_path` from `loc` on; `seen` holds the cells already
   pushed, and a chain that returns to one of them is reported as a cycle.
   */
  function Backtrack(back: map<Cell, Link>, loc: Cell, seen: set<Cell>): (r: Result<Route, PathFault>)
    ensures r.Success? ==> r.value.length == |r.value.stack|
    ensures r.Success? ==> ChainTo(back, r.value.stack, loc)
    ensures r.Success? ==> forall c :: c in r.value.stack ==> c !in seen
    decreases back.Keys - seen
  {
    if loc !in back then Failure(MissingLink(loc))
    else match back[loc]
      case Origin => Success(Route([], 0))
      case Via(prev) =>
        if loc in seen then Failure(Cycle(loc))
        else
          match Backtrack(back, prev, seen + {loc})
          case Failure(e) => Failure(e)
          case Success(rest) =>
            var r := Route(rest.stack + [loc], rest.length + 1);
            assert ChainTo(back, r.stack, loc) by {
              if |rest.stack| > 0 {
                assert r.stack[|rest.stack| - 1] == prev;
              }
            }
            Success(r)
  }

  /**
   `construct_path(terminal, backtrace)`. On success the counted length equals
   the number of cells pushed, the stack is the predecessor chain ending at
   `terminal` with the sentinel-marked start never pushed, so a terminal that is
   itself the start gives the empty stack and length 0.
   */
  function ConstructPath(terminal: Cell, back: map<Cell, Link>): (r: Result<Route, PathFault>)
    ensures r.Success? ==> r.value.length == |r.value.stack|
    ensures r.Success? ==> ChainTo(back, r.value.stack, terminal)
    ensures terminal in back && back[terminal] == Origin ==> r == Success(Route([], 0))
    ensures terminal !in back ==> r == Failure(MissingLink(terminal))
  {
    Backtrack(back, terminal, {})
  }

  function Cells(s: seq<Cell>): set<Cell> {
    set c | c in s
  }

  /** The cells of a chain are pairwise distinct: a chain that reaches the sentinel cannot revisit a cell. */
  lemma {:induction false} ChainDistinct(back: map<Cell, Link>, stack: seq<Cell>, terminal: Cell, i: int, j: int)
    requires ChainTo(back, stack, terminal)
    requires 0 <= i < j < |stack|
    ensures stack[i] != stack[j]
    decreases i
  {
    assert back[stack[j]].prev == stack[j - 1];
    assert back[stack[j - 1]].Via?;
    if i > 0 {
      ChainDistinct(back, stack, terminal, i - 1, j - 1);
      assert back[stack[i]].prev == stack[i - 1];
    }
  }

  /**
   Reconstruction is determined by the map: whenever `stack` is a predecessor
   chain ending at `terminal`, `construct_path` returns exactly that stack.
   */
  lemma {:induction false} ConstructPathFindsChain(back: map<Cell, Link>, stack: seq<Cell>, terminal: Cell)
    requires ChainTo(back, stack, terminal)
    ensures ConstructPath(terminal, back) == Success(Route(stack, |stack|))
  {
    if |stack| > 0 {
      BacktrackSuffix(back, stack, terminal, |stack| - 1);
      assert Cells(stack[|stack|..]) == {};
      assert stack[..|stack|] == stack;
    }
  }

  /** Backtracking from `stack[k]`, having pushed the cells above it, yields the chain's first `k + 1` cells. */
  lemma {:induction false} BacktrackSuffix(back: map<Cell, Link>, stack: seq<Cell>, terminal: Cell, k: int)
    requires ChainTo(back, stack, terminal)
    requires 0 <= k < |stack|
    ensures Backtrack(back, stack[k], Cells(stack[k + 1..])) == Success(Route(stack[..k + 1], k + 1))
    decreases k
  {
    var seen := Cells(stack[k + 1..]);
    assert stack[k] !in seen by {
      forall i | k < i < |stack| ensures stack[i] != stack[k] {
        ChainDistinct(back, stack, terminal, k, i);
      }
    }
    if k == 0 {
      var prev := back[stack[0]].prev;
      assert Backtrack(back, prev, seen + {stack[0]}) == Success(Route([], 0));
      assert stack[..1] == [] + [stack[0]];
    } else {
      var prev := back[stack[k]].prev;
      assert prev == stack[k - 1];
      var seen' := Cells(stack[k..]);
      assert stack[k..] == [stack[k]] + stack[k + 1..];
      assert seen' == seen + {stack[k]};
      BacktrackSuffix(back, stack, terminal, k - 1);
      assert stack[..k + 1] == stack[..k] + [stack[k]];
    }
  }

  /**
   The bookkeeping both searches keep: the start carries the sentinel at depth
   0, and every other recorded cell is a non-wall neighbour of its recorded
   predecessor, one deeper than it.
   */
  ghost predicate Linked(back: map<Cell, Link>, depth: map<Cell, nat>, start: Cell, walls: set<Cell>) {
    && back.Keys <= depth.Keys
    && start in back && back[start] == Origin && depth[start] == 0
    && forall c :: c in back && c != start ==>
         && back[c].Via? && back[c].prev in back
         && depth[c] == depth[back[c].prev] + 1
         && Adjacent(back[c].prev, c) && c !in walls
  }

  /**
   With the searches' bookkeeping, reconstruction from any recorded cell
   succeeds, its length is the cell's depth, and the stack is a walk from the
   start that ends at that cell.
   */
  lemma {:induction false} LinkedConstructPath(back: map<Cell, Link>, depth: map<Cell, nat>, start: Cell, walls: set<Cell>, c: Cell)
    requires Linked(back, depth, start, walls)
    requires c in back
    ensures ConstructPath(c, back).Success?
    ensures ConstructPath(c, back).value.length == depth[c]
    ensures IsWalk(walls, start, ConstructPath(c, back).value.stack)
    ensures End(start, ConstructPath(c, back).value.stack) == c
  {
    LinkedBacktrack(back, depth, start, walls, c, {});
  }

  lemma {:induction false} LinkedBacktrack(back: map<Cell, Link>, depth: map<Cell, nat>, start: Cell, walls: set<Cell>, c: Cell, seen: set<Cell>)
    requires Linked(back, depth, start, walls)
    requires c in back
    requires forall s :: s in seen ==> s in depth && depth[s] > depth[c]
    ensures Backtrack(back, c, seen).Success?
    ensures |Backtrack(back, c, seen).value.stack| == depth[c]
    ensures IsWalk(walls, start, Backtrack(back, c, seen).value.stack)
    ensures End(start, Backtrack(back, c, seen).value.stack) == c
    decreases depth[c]
  {
    if c == start {
    } else {
      var prev := back[c].prev;
      assert c !in seen;
      LinkedBacktrack(back, depth, start, walls, prev, seen + {c});
      var rest := Backtrack(back, prev, seen + {c}).value.stack;
      var p := rest + [c];
      assert Backtrack(back, c, seen).value.stack == p;
      forall i | 0 <= i < |p|
        ensures p[i] !in walls && Adjacent(At(start, p, i), p[i])
      {
        if i < |rest| {
          assert At(start, p, i) == At(start, rest, i);
          assert p[i] == rest[i];
        } else {
          assert At(start, p, i) == End(start, rest);
        }
      }
    }
  }
}
