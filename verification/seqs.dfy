/** Python list operations the policy relies on: `index`, `remove`, and removing every member of a set. */
module Seqs {

  /** No element occurs twice. */
  ghost predicate NoDup<T>(s: seq<T>) {
    forall i, j :: 0 <= i < j < |s| ==> s[i] != s[j]
  }

  /** `list.index(x)`: the position of the first occurrence of `x`. */
  function IndexOf<T(==)>(s: seq<T>, x: T): (i: nat)
    requires x in s
    ensures i < |s| && s[i] == x
    ensures forall j :: 0 <= j < i ==> s[j] != x
  {
    if s[0] == x then 0 else 1 + IndexOf(s[1..], x)
  }

  /**
   `list.remove(x)` for a present `x`: the first occurrence is dropped. The
   source only calls it after testing membership, except for STOP, whose
   absence the policy reports as a fault; an absent `x` leaves the list as is.
   */
  function RemoveFirst<T(==)>(s: seq<T>, x: T): (r: seq<T>)
    ensures x !in s ==> r == s
    ensures multiset(r) == multiset(s) - multiset{x}
  {
    if |s| == 0 then s
    else if s[0] == x then
      assert s == [s[0]] + s[1..];
      s[1..]
    else
      var rest := RemoveFirst(s[1..], x);
      assert s == [s[0]] + s[1..];
      assert multiset([s[0]] + rest) == multiset{s[0]} + multiset(rest);
      [s[0]] + rest
  }

  /** Removing from a list without repetitions removes every occurrence and keeps it without repetitions. */
  lemma {:induction false} RemoveFirstNoDup<T>(s: seq<T>, x: T)
    requires NoDup(s)
    ensures NoDup(RemoveFirst(s, x))
    ensures forall y :: y in RemoveFirst(s, x) <==> y in s && y != x
  {
    if |s| > 0 {
      TailNoDup(s);
      if s[0] != x {
        var rest := RemoveFirst(s[1..], x);
        RemoveFirstNoDup(s[1..], x);
        assert RemoveFirst(s, x) == [s[0]] + rest;
        ConsNoDup(s[0], rest);
      }
    }
  }

  /** The tail of a list without repetitions has none and lacks the head. */
  lemma TailNoDup<T>(s: seq<T>)
    requires NoDup(s) && |s| > 0
    ensures NoDup(s[1..]) && s[0] !in s[1..]
    ensures forall y :: y in s <==> y == s[0] || y in s[1..]
  {
    var tail := s[1..];
    forall j | 0 <= j < |tail| ensures tail[j] != s[0] {
      assert tail[j] == s[j + 1];
    }
    forall i, j | 0 <= i < j < |tail| ensures tail[i] != tail[j] {
      assert tail[i] == s[i + 1] && tail[j] == s[j + 1];
    }
    assert s == [s[0]] + tail;
  }

  /** Putting a new element in front of a list without repetitions keeps it without repetitions. */
  lemma ConsNoDup<T>(a: T, r: seq<T>)
    requires NoDup(r) && a !in r
    ensures NoDup([a] + r)
  {
    var c := [a] + r;
    forall i, j | 0 <= i < j < |c| ensures c[i] != c[j] {
      assert c[j] == r[j - 1];
      if i > 0 {
        assert c[i] == r[i - 1];
      }
    }
  }

  /** Appending a new element to a list without repetitions keeps it without repetitions. */
  lemma AppendNoDup<T>(p: seq<T>, x: T)
    requires NoDup(p) && x !in p
    ensures NoDup(p + [x])
  {
    var q := p + [x];
    forall i, j | 0 <= i < j < |q| ensures q[i] != q[j] {
      assert q[i] == p[i];
      if j < |p| {
        assert q[j] == p[j];
      }
    }
  }

  /**
   `for x in xs: if x in s: s.remove(x)` over a set, in whatever order the set
   is iterated: one occurrence of every member of `xs` is removed.
   */
  method RemoveEach<T(==,!new)>(s: seq<T>, xs: set<T>) returns (r: seq<T>)
    ensures multiset(r) == multiset(s) - multiset(xs)
    ensures NoDup(s) ==> NoDup(r) && forall y :: y in r <==> y in s && y !in xs
  {
    r := s;
    var rest := xs;
    while rest != {}
      invariant rest <= xs
      invariant multiset(r) == multiset(s) - multiset(xs - rest)
      invariant NoDup(s) ==> RemovedAllBut(s, xs, rest, r)
      decreases rest
    {
      var x :| x in rest;
      RemoveStepCount(s, xs - rest, r, x);
      if NoDup(s) {
        RemoveStep(s, xs, rest, r, x);
      }
      if x in r {
        r := RemoveFirst(r, x);
      }
      assert xs - (rest - {x}) == (xs - rest) + {x};
      rest := rest - {x};
    }
    assert xs - rest == xs;
  }

  /** `r` is `s`, without repetitions, with every member of `xs` outside `rest` removed. */
  ghost predicate RemovedAllBut<T(!new)>(s: seq<T>, xs: set<T>, rest: set<T>, r: seq<T>) {
    NoDup(r) && forall y :: y in r <==> y in s && y !in xs - rest
  }

  /** Removing one more member of `xs` from a list without repetitions keeps the bookkeeping. */
  lemma RemoveStep<T(!new)>(s: seq<T>, xs: set<T>, rest: set<T>, r: seq<T>, x: T)
    requires rest <= xs && x in rest
    requires RemovedAllBut(s, xs, rest, r)
    ensures RemovedAllBut(s, xs, rest - {x}, if x in r then RemoveFirst(r, x) else r)
  {
    var r' := if x in r then RemoveFirst(r, x) else r;
    RemoveIfPresent(r, x);
    var done := xs - rest;
    assert xs - (rest - {x}) == done + {x};
    assert forall y :: y in r <==> y in s && y !in done;
    forall y ensures y in r' <==> y in s && y !in done + {x} {
      assert y in r' <==> y in r && y != x;
    }
  }

  /** The source's `if x in s: s.remove(x)` on a list without repetitions. */
  lemma RemoveIfPresent<T>(r: seq<T>, x: T)
    requires NoDup(r)
    ensures NoDup(if x in r then RemoveFirst(r, x) else r)
    ensures forall y :: y in (if x in r then RemoveFirst(r, x) else r) <==> y in r && y != x
  {
    RemoveFirstNoDup(r, x);
  }

  /** Removing one occurrence of `x`, if present, subtracts `x` once more from the count. */
  lemma RemoveStepCount<T>(s: seq<T>, done: set<T>, r: seq<T>, x: T)
    requires x !in done
    requires multiset(r) == multiset(s) - multiset(done)
    ensures multiset(if x in r then RemoveFirst(r, x) else r) == multiset(s) - multiset(done + {x})
  {
    var r' := if x in r then RemoveFirst(r, x) else r;
    assert multiset(done + {x}) == multiset(done) + multiset{x};
    calc {
      multiset(r');
      multiset(r) - multiset{x};
      (multiset(s) - multiset(done)) - multiset{x};
      { SubtractTwice(multiset(s), multiset(done), multiset{x}); }
      multiset(s) - (multiset(done) + multiset{x});
    }
  }

  /** Subtracting two multisets one after the other subtracts their sum. */
  lemma SubtractTwice<T>(a: multiset<T>, b: multiset<T>, c: multiset<T>)
    ensures (a - b) - c == a - (b + c)
  {
    forall y ensures ((a - b) - c)[y] == (a - (b + c))[y] {
    }
  }
}
