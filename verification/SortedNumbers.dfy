/** Ascending sequences of numbers: the multiset the radix tree stands for, written in its output order. */
module SortedNumbers {

  ghost predicate Sorted(q: seq<int>) {
    forall i, j :: 0 <= i < j < |q| ==> q[i] <= q[j]
  }

  /** The ascending sequence with one more occurrence of x. */
  function Insert(q: seq<int>, x: int): seq<int> {
    if q == [] || x <= q[0] then [x] + q else [q[0]] + Insert(q[1..], x)
  }

  lemma SortedJoin(p: seq<int>, q: seq<int>)
    requires Sorted(p) && Sorted(q)
    requires forall x, y :: x in p && y in q ==> x <= y
    ensures Sorted(p + q)
  {
    forall i, j | 0 <= i < j < |p + q|
      ensures (p + q)[i] <= (p + q)[j]
    {
      if i < |p| <= j {
        assert p[i] in p && q[j - |p|] in q;
      }
    }
  }

  lemma {:induction false} InsertAddsOne(q: seq<int>, x: int)
    ensures multiset(Insert(q, x)) == multiset(q) + multiset{x}
  {
    if q == [] || x <= q[0] {
    } else {
      InsertAddsOne(q[1..], x);
      assert q == [q[0]] + q[1..];
    }
  }

  lemma {:induction false} InsertKeepsSorted(q: seq<int>, x: int)
    requires Sorted(q)
    ensures Sorted(Insert(q, x))
  {
    if q == [] || x <= q[0] {
    } else {
      InsertKeepsSorted(q[1..], x);
      InsertAddsOne(q[1..], x);
      var rest := Insert(q[1..], x);
      forall y | y in rest
        ensures q[0] <= y
      {
        assert y in multiset(rest);
      }
      SortedJoin([q[0]], rest);
    }
  }

  lemma HeadIsLeast(q: seq<int>, x: int)
    requires Sorted(q) && x in multiset(q)
    ensures q != [] && q[0] <= x
  {
    assert x in q;
  }

  lemma TailMultiset(q: seq<int>)
    requires q != []
    ensures multiset(q[1..]) == multiset(q) - multiset{q[0]}
  {
    assert q == [q[0]] + q[1..];
  }

  /** A multiset has only one ascending listing. */
  lemma {:induction false} SortedIsUnique(p: seq<int>, q: seq<int>)
    requires Sorted(p) && Sorted(q) && multiset(p) == multiset(q)
    ensures p == q
  {
    if p == [] {
      assert |multiset(q)| == 0;
    } else {
      assert p[0] == q[0] by {
        HeadIsLeast(q, p[0]);
        HeadIsLeast(p, q[0]);
      }
      TailMultiset(p);
      TailMultiset(q);
      SortedIsUnique(p[1..], q[1..]);
    }
  }

  lemma InsertIsTheOnlyOne(p: seq<int>, q: seq<int>, x: int)
    requires Sorted(p) && Sorted(q) && multiset(q) == multiset(p) + multiset{x}
    ensures q == Insert(p, x)
  {
    InsertKeepsSorted(p, x);
    InsertAddsOne(p, x);
    SortedIsUnique(q, Insert(p, x));
  }

  function Least(n: int, q: seq<int>): nat {
    if n <= 0 then 0 else if n < |q| then n else |q|
  }
}
