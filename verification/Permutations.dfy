/** Index vectors that are permutations of a range of indices, and the orders of visits
    they stand for. */
module Permutations {
  import opened Basics

  function Range(lo: int, hi: int): (s: seq<int>)
    requires lo <= hi
    ensures |s| == hi - lo && forall k :: 0 <= k < |s| ==> s[k] == lo + k
  {
    seq(hi - lo, k requires 0 <= k < hi - lo => lo + k)
  }

  /** `s` lists each index from `lo` up to `hi` once. */
  ghost predicate PermutationOf(s: seq<int>, lo: int, hi: int) {
    lo <= hi && multiset(s) == multiset(Range(lo, hi))
  }

  lemma {:induction false} RangeMultiplicity(lo: int, hi: int, x: int)
    requires lo <= hi
    ensures multiset(Range(lo, hi))[x] == if lo <= x < hi then 1 else 0
    decreases hi - lo
  {
    if lo < hi {
      RangeMultiplicity(lo, hi - 1, x);
      assert Range(lo, hi) == Range(lo, hi - 1) + [hi - 1];
    } else {
      assert Range(lo, hi) == [];
    }
  }

  lemma PermutationMembers(s: seq<int>, lo: int, hi: int)
    requires PermutationOf(s, lo, hi)
    ensures |s| == hi - lo
    ensures forall x :: x in s <==> lo <= x < hi
    ensures forall k :: 0 <= k < |s| ==> lo <= s[k] < hi
  {
    forall x
      ensures x in s <==> lo <= x < hi
    {
      RangeMultiplicity(lo, hi, x);
      assert x in s <==> multiset(s)[x] > 0;
    }
    assert |multiset(s)| == |multiset(Range(lo, hi))|;
    assert forall k :: 0 <= k < |s| ==> s[k] in s;
  }

  lemma PermutationIsInjective(s: seq<int>, lo: int, hi: int)
    requires PermutationOf(s, lo, hi)
    ensures Distinct(s)
  {
    forall i, j | 0 <= i < j < |s|
      ensures s[i] != s[j]
    {
      if s[i] == s[j] {
        var x := s[i];
        assert s == s[..j] + s[j..] && x in s[..j] && x in s[j..];
        assert multiset(s)[x] == multiset(s[..j])[x] + multiset(s[j..])[x];
        RangeMultiplicity(lo, hi, x);
        assert false;
      }
    }
  }

  // ----- visiting in the order of an index vector -----

  ghost function Visits<T>(items: seq<T>, order: seq<int>): (visited: seq<T>)
    requires IndicesInto(order, |items|)
    ensures |visited| == |order|
  {
    seq(|order|, k requires 0 <= k < |order| => items[order[k]])
  }

  ghost predicate IndicesInto(order: seq<int>, n: nat) {
    forall k :: 0 <= k < |order| ==> 0 <= order[k] < n
  }

  function Without<T>(t: seq<T>, j: nat): seq<T>
    requires j < |t|
  {
    t[..j] + t[j + 1..]
  }

  lemma MultisetWithout<T>(t: seq<T>, j: nat)
    requires j < |t|
    ensures multiset(Without(t, j)) == multiset(t) - multiset{t[j]} && t[j] in multiset(t)
  {
    assert t == t[..j] + ([t[j]] + t[j + 1..]);
  }

  lemma SameRemainders<T>(s: seq<T>, t: seq<T>, i: nat, j: nat)
    requires i < |s| && j < |t| && s[i] == t[j]
    ensures multiset(s) == multiset(t) <==> multiset(Without(s, i)) == multiset(Without(t, j))
  {
    MultisetWithout(s, i);
    MultisetWithout(t, j);
    assert multiset(s) == multiset(Without(s, i)) + multiset{s[i]};
    assert multiset(t) == multiset(Without(t, j)) + multiset{t[j]};
  }

  lemma {:induction false} SameIndicesSameVisits<T>(items: seq<T>, s: seq<int>, t: seq<int>)
    requires multiset(s) == multiset(t)
    requires IndicesInto(s, |items|) && IndicesInto(t, |items|)
    ensures multiset(Visits(items, s)) == multiset(Visits(items, t))
    decreases |s|
  {
    assert |multiset(s)| == |multiset(t)|;
    if s != [] {
      assert s[0] in multiset(t);
      var j :| 0 <= j < |t| && t[j] == s[0];
      SameRemainders(s, t, 0, j);
      SameIndicesSameVisits(items, Without(s, 0), Without(t, j));
      assert Visits(items, Without(s, 0)) == Without(Visits(items, s), 0);
      assert Visits(items, Without(t, j)) == Without(Visits(items, t), j);
      SameRemainders(Visits(items, s), Visits(items, t), 0, j);
    }
  }

  /** Following a permutation of all the indices visits every item exactly once. */
  lemma PermutationVisitsEverything<T>(items: seq<T>, order: seq<int>)
    requires PermutationOf(order, 0, |items|)
    ensures IndicesInto(order, |items|)
    ensures multiset(Visits(items, order)) == multiset(items)
  {
    PermutationMembers(order, 0, |items|);
    SameIndicesSameVisits(items, order, Range(0, |items|));
    assert Visits(items, Range(0, |items|)) == items;
  }

  /** The items in the order of a permutation of their indices. */
  ghost function ByIndex<T>(items: seq<T>, order: seq<int>): (visited: seq<T>)
    requires PermutationOf(order, 0, |items|)
    ensures |visited| == |items|
  {
    PermutationMembers(order, 0, |items|);
    Visits(items, order)
  }
}
