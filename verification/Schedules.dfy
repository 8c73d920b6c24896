/** The order in which test cases and their tests run, as values: schedules, what shuffling
    makes of them, and what runs under a schedule. */
module Schedules {
  import opened Basics
  import opened Permutations
  import opened Picks
  import opened Shuffles

  function Flatten<T>(lists: seq<seq<T>>): seq<T> {
    if lists == [] then [] else Flatten(lists[..|lists| - 1]) + lists[|lists| - 1]
  }

  /** The order of the cases, and for each case, by its number, the order of its tests. */
  datatype Schedule = Schedule(cases: seq<int>, tests: seq<seq<int>>) {
    ghost predicate Fits<T>(lists: seq<seq<T>>) {
      PermutationOf(cases, 0, |lists|) && PermutationsOf(tests, lists)
    }
  }

  ghost predicate PermutationsOf<T>(orders: seq<seq<int>>, lists: seq<seq<T>>) {
    |orders| == |lists| && forall k :: 0 <= k < |lists| ==> PermutationOf(orders[k], 0, |lists[k]|)
  }

  // ----- what runs -----

  /** The marked tests of every case, by its number, each list in its order. */
  ghost function CaseRuns<T>(marks: seq<seq<(T, bool)>>, orders: seq<seq<int>>): (runs: seq<seq<T>>)
    requires PermutationsOf(orders, marks)
    ensures |runs| == |marks|
    ensures forall k :: 0 <= k < |marks| ==> runs[k] == Picked(ByIndex(marks[k], orders[k]))
  {
    seq(|marks|, k requires 0 <= k < |marks| => Picked(ByIndex(marks[k], orders[k])))
  }

  /** What runs of each case, in the order of the visits. */
  ghost function Runs<T>(s: Schedule, marks: seq<seq<(T, bool)>>): (runs: seq<seq<T>>)
    requires s.Fits(marks)
    ensures |runs| == |marks|
  {
    ByIndex(CaseRuns(marks, s.tests), s.cases)
  }

  lemma RunsAt<T>(s: Schedule, marks: seq<seq<(T, bool)>>, i: nat)
    requires s.Fits(marks) && i < |marks|
    ensures |s.cases| == |marks| && 0 <= s.cases[i] < |marks|
    ensures var k := s.cases[i]; Runs(s, marks)[i] == Picked(ByIndex(marks[k], s.tests[k]))
  {
    PermutationMembers(s.cases, 0, |marks|);
  }

  /** The one run that the schedule and the marks allow. */
  ghost predicate IsRunOf<T>(run: seq<T>, s: Schedule, marks: seq<seq<(T, bool)>>) {
    s.Fits(marks) && run == Flatten(Runs(s, marks))
  }

  lemma FlattenOneMore<T>(lists: seq<seq<T>>, last: seq<T>)
    ensures Flatten(lists + [last]) == Flatten(lists) + last
  {
    assert (lists + [last])[..|lists|] == lists;
  }

  lemma WithoutBeforeTheLast<T>(lists: seq<T>, j: nat)
    requires j < |lists| - 1
    ensures var n := |lists| - 1; Without(lists, j) == Without(lists[..n], j) + [lists[n]]
  {
  }

  lemma {:induction false} FlattenWithout<T>(lists: seq<seq<T>>, j: nat)
    requires j < |lists|
    ensures multiset(Flatten(lists)) == multiset(Flatten(Without(lists, j))) + multiset(lists[j])
    decreases |lists|
  {
    var n := |lists| - 1;
    if j == n {
      assert Without(lists, j) == lists[..n];
    } else {
      hide Without;
      FlattenWithout(lists[..n], j);
      WithoutBeforeTheLast(lists, j);
      FlattenOneMore(Without(lists[..n], j), lists[n]);
    }
  }

  /** The order of the lists does not matter for what they hold together. */
  lemma {:induction false} SameFlattened<T>(a: seq<seq<T>>, b: seq<seq<T>>)
    requires multiset(a) == multiset(b)
    ensures multiset(Flatten(a)) == multiset(Flatten(b))
    decreases |a|
  {
    assert |multiset(a)| == |multiset(b)|;
    if a != [] {
      assert a[0] in multiset(b);
      var j :| 0 <= j < |b| && b[j] == a[0];
      SameRemainders(a, b, 0, j);
      SameFlattened(Without(a, 0), Without(b, j));
      FlattenWithout(a, 0);
      FlattenWithout(b, j);
    }
  }

  /** Nor does the order inside each list matter for what is picked. */
  lemma {:induction false} CaseRunsPickTheMarked<T>(marks: seq<seq<(T, bool)>>, orders: seq<seq<int>>)
    requires PermutationsOf(orders, marks)
    ensures multiset(Flatten(CaseRuns(marks, orders))) == multiset(Picked(Flatten(marks)))
    decreases |marks|
  {
    if marks != [] {
      var n := |marks| - 1;
      CaseRunsPickTheMarked(marks[..n], orders[..n]);
      assert CaseRuns(marks, orders)[..n] == CaseRuns(marks[..n], orders[..n]);
      PickedConcat(Flatten(marks[..n]), marks[n]);
      PermutationVisitsEverything(marks[n], orders[n]);
      SamePicks(ByIndex(marks[n], orders[n]), marks[n]);
    }
  }

  /** Under every schedule exactly the marked tests run. */
  lemma EveryScheduleRunsTheMarked<T>(s: Schedule, marks: seq<seq<(T, bool)>>)
    requires s.Fits(marks)
    ensures multiset(Flatten(Runs(s, marks))) == multiset(Picked(Flatten(marks)))
  {
    PermutationVisitsEverything(CaseRuns(marks, s.tests), s.cases);
    SameFlattened(Runs(s, marks), CaseRuns(marks, s.tests));
    CaseRunsPickTheMarked(marks, s.tests);
  }

  // ----- the order of registration -----

  ghost function RegisteredOrders<T>(lists: seq<seq<T>>): (orders: seq<seq<int>>)
    ensures |orders| == |lists|
  {
    seq(|lists|, k requires 0 <= k < |lists| => Range(0, |lists[k]|))
  }

  ghost function Registered<T>(lists: seq<seq<T>>): (s: Schedule)
    ensures s.Fits(lists)
  {
    Schedule(Range(0, |lists|), RegisteredOrders(lists))
  }

  lemma ByIdentity<T>(items: seq<T>)
    ensures ByIndex(items, Range(0, |items|)) == items
  {
  }

  lemma {:induction false} CaseRunsInOrder<T>(marks: seq<seq<(T, bool)>>)
    ensures Flatten(CaseRuns(marks, RegisteredOrders(marks))) == Picked(Flatten(marks))
    decreases |marks|
  {
    if marks != [] {
      var n := |marks| - 1;
      CaseRunsInOrder(marks[..n]);
      assert RegisteredOrders(marks)[..n] == RegisteredOrders(marks[..n]);
      assert CaseRuns(marks, RegisteredOrders(marks))[..n] == CaseRuns(marks[..n], RegisteredOrders(marks[..n]));
      PickedConcat(Flatten(marks[..n]), marks[n]);
      ByIdentity(marks[n]);
    }
  }

  /** In the order of registration the marked tests run one after the other. */
  lemma RegisteredRunsInOrder<T>(marks: seq<seq<(T, bool)>>)
    ensures Flatten(Runs(Registered(marks), marks)) == Picked(Flatten(marks))
  {
    CaseRunsInOrder(marks);
    ByIdentity(CaseRuns(marks, RegisteredOrders(marks)));
  }

  // ----- shuffling -----


  /** How often shuffling each of the lists draws a number. */
  function DrawsFor<T>(lists: seq<seq<T>>): nat {
    if lists == [] then 0 else DrawsFor(lists[..|lists| - 1]) + NumberOfChoices(|lists[|lists| - 1]|)
  }

  /** The first `d` indices and the others, each part shuffled, one after the other. */
  ghost function ShuffledInParts(order: seq<int>, d: nat, state: nat): (t: seq<int>)
    requires d <= |order|
    ensures |t| == |order|
  {
    var n := |order| - d;
    var front := Shuffled(order, 0, d, Drawn(state, d));
    Shuffled(front, d, n, Drawn(StateAfter(state, NumberOfChoices(d)), n))
  }

  ghost function ShuffledOnce(order: seq<int>, state: nat): seq<int> {
    Shuffled(order, 0, |order|, Drawn(state, |order|))
  }

  /** Each of the orders shuffled, one after the other. */
  ghost function ShuffledEach(orders: seq<seq<int>>, state: nat): (t: seq<seq<int>>)
    ensures |t| == |orders|
  {
    if orders == [] then []
    else
      var n := |orders| - 1;
      ShuffledEach(orders[..n], state)
      + [ShuffledOnce(orders[n], StateAfter(state, DrawsFor(orders[..n])))]
  }

  /** What shuffling makes of a schedule whose first `d` cases stay in front, when the
      generator starts from `state`. */
  ghost function ShuffledSchedule(s: Schedule, d: nat, state: nat): (t: Schedule)
    requires d <= |s.cases|
    ensures |t.cases| == |s.cases|
  {
    var draws := NumberOfChoices(d) + NumberOfChoices(|s.cases| - d);
    Schedule(ShuffledInParts(s.cases, d, state), ShuffledEach(s.tests, StateAfter(state, draws)))
  }

  lemma {:induction false} StateAfterTwice(state: nat, a: nat, b: nat)
    ensures StateAfter(StateAfter(state, a), b) == StateAfter(state, a + b)
    decreases b
  {
    if b > 0 {
      StateAfterTwice(state, a, b - 1);
    }
  }

  lemma {:induction false} ShuffledEachAt(orders: seq<seq<int>>, state: nat, k: nat)
    requires k < |orders|
    ensures ShuffledEach(orders, state)[k] == ShuffledOnce(orders[k], StateAfter(state, DrawsFor(orders[..k])))
    decreases |orders|
  {
    var n := |orders| - 1;
    if k < n {
      ShuffledEachAt(orders[..n], state, k);
      assert orders[..n][..k] == orders[..k];
    }
  }

  /** The first `i` of the orders shuffled, the others as they are. */
  ghost function ShuffledSoFar(orders: seq<seq<int>>, i: nat, state: nat): (t: seq<seq<int>>)
    requires i <= |orders|
    ensures |t| == |orders|
  {
    ShuffledEach(orders[..i], state) + orders[i..]
  }

  lemma OneMoreShuffled(orders: seq<seq<int>>, i: nat, state: nat)
    requires i < |orders|
    ensures ShuffledSoFar(orders, i, state)[i] == orders[i]
    ensures ShuffledSoFar(orders, i + 1, state)
            == ShuffledSoFar(orders, i, state)[i := ShuffledOnce(orders[i], StateAfter(state, DrawsFor(orders[..i])))]
    ensures StateAfter(state, DrawsFor(orders[..i + 1]))
            == StateAfter(StateAfter(state, DrawsFor(orders[..i])), NumberOfChoices(|orders[i]|))
  {
    assert orders[..i + 1][..i] == orders[..i];
    StateAfterTwice(state, DrawsFor(orders[..i]), NumberOfChoices(|orders[i]|));
  }

  /** What the first `i` of the orders have become, and the generator. */
  ghost predicate AreShuffled(orders: seq<seq<int>>, i: nat, state: nat, now: seq<seq<int>>, stateNow: nat) {
    && i <= |orders| && now == ShuffledSoFar(orders, i, state)
    && stateNow == StateAfter(state, DrawsFor(orders[..i]))
  }

  lemma AllShuffled(orders: seq<seq<int>>, state: nat)
    ensures AreShuffled(orders, 0, state, orders, state)
    ensures ShuffledSoFar(orders, |orders|, state) == ShuffledEach(orders, state)
  {
    assert orders[..0] == [] && orders[..|orders|] == orders;
  }

  lemma ShuffledIsPermutation(order: seq<int>, state: nat, n: nat)
    requires PermutationOf(order, 0, n)
    ensures |order| == n && PermutationOf(ShuffledOnce(order, state), 0, n)
  {
    PermutationMembers(order, 0, n);
    var t := Shuffled(order, 0, n, Drawn(state, n));
    ShuffledRearranges(order, 0, n, Drawn(state, n));
    assert order[0..n] == order && t[0..n] == t;
  }

  lemma ShuffledEachFits<T>(orders: seq<seq<int>>, state: nat, lists: seq<seq<T>>)
    requires PermutationsOf(orders, lists)
    ensures PermutationsOf(ShuffledEach(orders, state), lists)
  {
    forall k | 0 <= k < |lists|
      ensures PermutationOf(ShuffledEach(orders, state)[k], 0, |lists[k]|)
    {
      ShuffledEachAt(orders, state, k);
      ShuffledIsPermutation(orders[k], StateAfter(state, DrawsFor(orders[..k])), |lists[k]|);
    }
  }

  // ----- two parts -----

  /** The index vector permutes the first `d` indices among themselves, and the others. */
  ghost predicate OrderedIndices(order: seq<int>, d: int, n: int) {
    0 <= d <= n == |order| && PermutationOf(order[..d], 0, d) && PermutationOf(order[d..], d, n)
  }

  lemma IdentityIsOrdered(d: int, n: int)
    requires 0 <= d <= n
    ensures OrderedIndices(Range(0, n), d, n)
  {
    assert Range(0, n)[..d] == Range(0, d) && Range(0, n)[d..] == Range(d, n);
  }

  lemma OrderedIsPermutation(order: seq<int>, d: int, n: int)
    requires OrderedIndices(order, d, n)
    ensures PermutationOf(order, 0, n)
  {
    assert order == order[..d] + order[d..];
    assert Range(0, n) == Range(0, d) + Range(d, n);
  }

  /** Such an index vector visits the first `d` items first. */
  lemma OrderedVisitsDeathTestsFirst(order: seq<int>, d: int, n: int)
    requires OrderedIndices(order, d, n)
    ensures forall k :: 0 <= k < n ==> (order[k] < d <==> k < d)
  {
    PermutationMembers(order[..d], 0, d);
    PermutationMembers(order[d..], d, n);
    assert forall k :: 0 <= k < d ==> order[k] == order[..d][k];
    assert forall k :: d <= k < n ==> order[k] == order[d..][k - d];
  }

  /** Rearranging the front, or the back, leaves each of the two a permutation. */
  lemma RearrangedFront(order: seq<int>, t: seq<int>, d: int, n: int)
    requires OrderedIndices(order, d, n) && Rearranged(order, t, 0, d)
    ensures OrderedIndices(t, d, n)
  {
    assert t[0..d] == t[..d] && order[0..d] == order[..d];
    assert t[d..] == order[d..];
  }

  lemma RearrangedBack(order: seq<int>, t: seq<int>, d: int, n: int)
    requires OrderedIndices(order, d, n) && Rearranged(order, t, d, n - d)
    ensures OrderedIndices(t, d, n)
  {
    assert t[d..n] == t[d..] && order[d..n] == order[d..];
    assert t[..d] == order[..d];
  }

  /** Shuffling in parts keeps the two parts apart. */
  lemma ShuffledInPartsStaysOrdered(order: seq<int>, d: nat, n: nat, state: nat)
    requires OrderedIndices(order, d, n)
    ensures OrderedIndices(ShuffledInParts(order, d, state), d, n)
  {
    var front := Shuffled(order, 0, d, Drawn(state, d));
    var draws := Drawn(StateAfter(state, NumberOfChoices(d)), n - d);
    ShuffledRearranges(order, 0, d, Drawn(state, d));
    RearrangedFront(order, front, d, n);
    ShuffledRearranges(front, d, n - d, draws);
    RearrangedBack(front, Shuffled(front, d, n - d, draws), d, n);
  }

  /** A shuffled schedule fits the same lists, with the first `d` cases in front. */
  lemma ShuffledScheduleFits<T>(s: Schedule, d: nat, state: nat, lists: seq<seq<T>>)
    requires s.Fits(lists) && OrderedIndices(s.cases, d, |lists|)
    ensures ShuffledSchedule(s, d, state).Fits(lists)
    ensures OrderedIndices(ShuffledSchedule(s, d, state).cases, d, |lists|)
  {
    var draws := NumberOfChoices(d) + NumberOfChoices(|s.cases| - d);
    hide OrderedIndices, Shuffled, Drawn, StateAfter, ShuffledInParts, ShuffledEach;
    ShuffledInPartsStaysOrdered(s.cases, d, |lists|, state);
    OrderedIsPermutation(ShuffledInParts(s.cases, d, state), d, |lists|);
    ShuffledEachFits(s.tests, StateAfter(state, draws), lists);
  }

  // ----- the seeds of the iterations -----

  const MAX_RANDOM_SEED := 99999

  /** The seed for the value of the flag; a flag of 0 asks for the current time. */
  function RandomSeedFromFlag(flag: int, now: nat): (seed: nat)
    requires -0x8000_0000 <= flag < 0x8000_0000
    ensures 1 <= seed <= MAX_RANDOM_SEED
  {
    var rawSeed := (if flag == 0 then now else flag) % TWO_TO_32;
    (rawSeed - 1) % TWO_TO_32 % MAX_RANDOM_SEED + 1
  }

  function NextRandomSeed(seed: nat): (next: nat)
    requires 1 <= seed <= MAX_RANDOM_SEED
    ensures 1 <= next <= MAX_RANDOM_SEED
  {
    if seed + 1 > MAX_RANDOM_SEED then 1 else seed + 1
  }

  /** The seed of iteration `i`, when that of the first is given. */
  function SeedOfIteration(first: nat, i: nat): (seed: nat)
    requires 1 <= first <= MAX_RANDOM_SEED
    ensures 1 <= seed <= MAX_RANDOM_SEED
  {
    if i == 0 then first else NextRandomSeed(SeedOfIteration(first, i - 1))
  }

  /** A valid seed given as the flag is the seed of the first iteration. */
  lemma SeedIsItsFlag(seed: nat, now: nat)
    requires 1 <= seed <= MAX_RANDOM_SEED
    ensures RandomSeedFromFlag(seed, now) == RandomSeedFromFlag(0, seed) == seed
  {
  }

  /** The seeds count up and start again behind the largest one. */
  lemma {:induction false} SeedsGoRound(first: nat, i: nat)
    requires 1 <= first <= MAX_RANDOM_SEED
    ensures SeedOfIteration(first, i) == (first - 1 + i) % MAX_RANDOM_SEED + 1
    decreases i
  {
    if i > 0 {
      SeedsGoRound(first, i - 1);
    }
  }

  // ----- the iterations -----

  ghost function ScheduleFor(s: Schedule, shuffle: bool, d: nat, seed: nat): Schedule
    requires d <= |s.cases|
  {
    if shuffle then ShuffledSchedule(s, d, seed) else s
  }

  /** The schedule of iteration `i`: each but the first begins in the order of registration,
      and with a seed of its own. */
  ghost function IterationSchedule<T>(start: Schedule, lists: seq<seq<T>>, shuffle: bool, d: nat, seed: nat, i: nat)
    : Schedule
    requires d <= |start.cases| && d <= |lists| && 1 <= seed <= MAX_RANDOM_SEED
  {
    ScheduleFor(if i == 0 then start else Registered(lists), shuffle, d, SeedOfIteration(seed, i))
  }

  /** The runs are those of the iterations. */
  ghost predicate AreIterations<T>(runs: seq<seq<T>>, start: Schedule, marks: seq<seq<(T, bool)>>, shuffle: bool,
                                   d: nat, seed: nat)
    requires d <= |start.cases| && d <= |marks| && 1 <= seed <= MAX_RANDOM_SEED
  {
    forall i {:trigger runs[i]} :: 0 <= i < |runs| ==>
      IsRunOf(runs[i], IterationSchedule(start, marks, shuffle, d, seed, i), marks)
  }

  lemma OneMoreIteration<T>(runs: seq<seq<T>>, run: seq<T>, start: Schedule, marks: seq<seq<(T, bool)>>,
                            shuffle: bool, d: nat, seed: nat)
    requires d <= |start.cases| && d <= |marks| && 1 <= seed <= MAX_RANDOM_SEED
    requires AreIterations(runs, start, marks, shuffle, d, seed)
    requires IsRunOf(run, IterationSchedule(start, marks, shuffle, d, seed, |runs|), marks)
    ensures AreIterations(runs + [run], start, marks, shuffle, d, seed)
  {
    hide IsRunOf, IterationSchedule;
    var more := runs + [run];
    forall i | 0 <= i < |more|
      ensures IsRunOf(more[i], IterationSchedule(start, marks, shuffle, d, seed, i), marks)
    {
      assert i < |runs| ==> more[i] == runs[i];
    }
  }

  /** Any iteration that starts in the order of registration can be had as the first one: by
      giving its seed as the flag. */
  lemma IterationIsReproducible<T>(lists: seq<seq<T>>, d: nat, seed: nat, i: nat, now: nat)
    requires d <= |lists| && 1 <= seed <= MAX_RANDOM_SEED
    ensures var flag := SeedOfIteration(seed, i);
            var start := Registered(lists);
            IterationSchedule(start, lists, true, d, RandomSeedFromFlag(flag, now), 0)
            == IterationSchedule(start, lists, true, d, seed, i)
  {
    SeedIsItsFlag(SeedOfIteration(seed, i), now);
  }

  lemma RunInOrder<T>(run: seq<T>, marks: seq<seq<(T, bool)>>)
    requires IsRunOf(run, Registered(marks), marks)
    ensures run == Picked(Flatten(marks))
  {
    RegisteredRunsInOrder(marks);
  }

  lemma IterationInOrder<T>(lists: seq<seq<T>>, d: nat, seed: nat, i: nat)
    requires d <= |lists| && 1 <= seed <= MAX_RANDOM_SEED
    ensures IterationSchedule(Registered(lists), lists, false, d, seed, i) == Registered(lists)
  {
  }

  /** Without shuffling every iteration that starts in the order of registration runs the
      marked tests in that order. */
  lemma IterationsInOrder<T>(runs: seq<seq<T>>, marks: seq<seq<(T, bool)>>, d: nat, seed: nat)
    requires d <= |marks| && 1 <= seed <= MAX_RANDOM_SEED
    requires AreIterations(runs, Registered(marks), marks, false, d, seed)
    ensures forall i :: 0 <= i < |runs| ==> runs[i] == Picked(Flatten(marks))
  {
    assert |Registered(marks).cases| == |marks|;
    hide IsRunOf, IterationSchedule, Flatten, Picked, Registered;
    forall i | 0 <= i < |runs|
      ensures runs[i] == Picked(Flatten(marks))
    {
      IterationInOrder(marks, d, seed, i);
      RunInOrder(runs[i], marks);
    }
  }
}
