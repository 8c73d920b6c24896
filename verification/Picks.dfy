/** Picking the marked items of a list. */
module Picks {
  import opened Basics
  import opened Permutations

  /** The marked items, in order. */
  function Picked<T>(marked: seq<(T, bool)>): (picked: seq<T>)
    ensures |picked| <= |marked|
  {
    if marked == [] then []
    else
      var last := marked[|marked| - 1];
      Picked(marked[..|marked| - 1]) + if last.1 then [last.0] else []
  }

  function Zip<T>(items: seq<T>, flags: seq<bool>): (marked: seq<(T, bool)>)
    requires |items| == |flags|
    ensures |marked| == |items| && forall k :: 0 <= k < |items| ==> marked[k] == (items[k], flags[k])
  {
    seq(|items|, k requires 0 <= k < |items| => (items[k], flags[k]))
  }

  lemma {:induction false} PickedConcat<T>(a: seq<(T, bool)>, b: seq<(T, bool)>)
    ensures Picked(a + b) == Picked(a) + Picked(b)
  {
    if b == [] {
      assert a + b == a;
    } else {
      var front, last := b[..|b| - 1], b[|b| - 1];
      PickedConcat(a, front);
      assert (a + b)[..|a + b| - 1] == a + front && (a + b)[|a + b| - 1] == last;
    }
  }

  ghost function BagOf<T>(x: T, present: bool): multiset<T> {
    if present then multiset{x} else multiset{}
  }

  lemma PickedNext<T>(marked: seq<(T, bool)>, i: nat)
    requires i < |marked|
    ensures Picked(marked[..i + 1]) == Picked(marked[..i]) + if marked[i].1 then [marked[i].0] else []
    ensures multiset(Picked(marked[..i + 1])) == multiset(Picked(marked[..i])) + BagOf(marked[i].0, marked[i].1)
  {
    assert marked[..i + 1][..i] == marked[..i];
  }

  lemma {:induction false} NothingPicked<T>(marked: seq<(T, bool)>)
    requires forall k :: 0 <= k < |marked| ==> !marked[k].1
    ensures Picked(marked) == []
  {
    if marked != [] {
      NothingPicked(marked[..|marked| - 1]);
    }
  }

  lemma PickedSingle<T>(x: (T, bool))
    ensures Picked([x]) == if x.1 then [x.0] else []
  {
    assert [x][..0] == [];
  }

  lemma SplitAround<T>(s: seq<T>, j: nat)
    requires j < |s|
    ensures s == s[..j] + ([s[j]] + s[j + 1..])
  {
  }

  lemma MiddleCounts<T>(p: seq<T>, q: seq<T>, r: seq<T>)
    ensures multiset(p + (q + r)) == multiset(p + r) + multiset(q)
  {
  }

  lemma PickedAround<T>(front: seq<(T, bool)>, x: (T, bool), back: seq<(T, bool)>)
    ensures Picked(front + ([x] + back)) == Picked(front) + (Picked([x]) + Picked(back))
  {
    PickedConcat(front, [x] + back);
    PickedConcat([x], back);
  }

  /** What a single item contributes. */
  lemma PickedWithout<T>(marked: seq<(T, bool)>, j: nat)
    requires j < |marked|
    ensures multiset(Picked(marked)) == multiset(Picked(Without(marked, j))) + BagOf(marked[j].0, marked[j].1)
  {
    var front, back := marked[..j], marked[j + 1..];
    SplitAround(marked, j);
    PickedAround(front, marked[j], back);
    PickedSingle(marked[j]);
    PickedConcat(front, back);
    MiddleCounts(Picked(front), Picked([marked[j]]), Picked(back));
  }

  /** The order of the list does not matter for what is picked. */
  lemma {:induction false} SamePicks<T>(a: seq<(T, bool)>, b: seq<(T, bool)>)
    requires multiset(a) == multiset(b)
    ensures multiset(Picked(a)) == multiset(Picked(b))
    decreases |a|
  {
    assert |multiset(a)| == |multiset(b)|;
    if a != [] {
      assert a[0] in multiset(b);
      var j :| 0 <= j < |b| && b[j] == a[0];
      SameRemainders(a, b, 0, j);
      SamePicks(Without(a, 0), Without(b, j));
      PickedWithout(a, 0);
      PickedWithout(b, j);
    }
  }

  lemma {:induction false} PickedMembers<T>(marked: seq<(T, bool)>)
    ensures forall x :: x in Picked(marked) ==> (x, true) in marked
  {
    if marked != [] {
      PickedMembers(marked[..|marked| - 1]);
    }
  }

  /** Of distinct items, each marked one is picked exactly once and no other. */
  lemma EachMarkedItemOnce<T>(items: seq<T>, flags: seq<bool>, k: nat)
    requires Distinct(items) && |items| == |flags| && k < |items|
    ensures multiset(Picked(Zip(items, flags)))[items[k]] == if flags[k] then 1 else 0
  {
    var marked := Zip(items, flags);
    var others := Without(marked, k);
    PickedWithout(marked, k);
    PickedMembers(others);
    forall j | 0 <= j < |others|
      ensures others[j].0 != items[k]
    {
      assert others[j] == marked[if j < k then j else j + 1];
    }
    assert items[k] !in Picked(others);
  }
}
