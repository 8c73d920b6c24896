/** `UnitTestImpl::RunAllTests`: selection and order together. Every iteration runs exactly
    the selected tests, and the shards together run every runnable test once. */
module TestRuns {
  import opened Basics
  import opened NamingConventions
  import opened Permutations
  import opened Picks
  import opened Schedules
  import opened Shardings
  import opened Shuffles
  import opened TestSelection
  import opened UnitTests

  // ----- what is due in all the cases -----

  lemma MarksConcat(a: seq<TestInfo>, b: seq<TestInfo>)
    ensures Marks(a + b) == Marks(a) + Marks(b)
  {
  }

  /** A case that should not run has no test that should. */
  lemma DueInCase(tc: TestCase)
    requires CaseRunsIffATestDoes(tc)
    ensures DueMarks(tc) == Marks(tc.testInfoList)
  {
  }

  /** What is due in all the cases are all the tests that should run. */
  lemma {:induction false} DueInAllCases(cases: seq<TestCase>, marks: seq<seq<(TestInfo, bool)>>)
    requires |marks| == |cases| && forall k :: 0 <= k < |cases| ==> marks[k] == DueMarks(cases[k])
    requires forall k :: 0 <= k < |cases| ==> CaseRunsIffATestDoes(cases[k])
    ensures Flatten(marks) == Marks(AllTests(cases))
    decreases |cases|
  {
    if cases != [] {
      var n := |cases| - 1;
      DueInAllCases(cases[..n], marks[..n]);
      DueInCase(cases[n]);
      MarksConcat(AllTests(cases[..n]), cases[n].testInfoList);
    }
  }

  // ----- the selected tests -----

  lemma {:induction false} PickedRank<T>(items: seq<T>, flags: seq<bool>, k: nat)
    requires |items| == |flags| && k <= |flags|
    ensures |Picked(Zip(items, flags)[..k])| == Rank(flags, k)
    decreases k
  {
    if k > 0 {
      PickedRank(items, flags, k - 1);
      PickedNext(Zip(items, flags), k - 1);
    }
  }

  /** The selected tests: each occurs once, no other test does, and there are `Count` many. */
  lemma SelectedTestsOnce<T>(tests: seq<T>, selection: seq<bool>, run: seq<T>)
    requires Distinct(tests) && |tests| == |selection|
    requires multiset(run) == multiset(Picked(Zip(tests, selection)))
    ensures forall k :: 0 <= k < |tests| ==> multiset(run)[tests[k]] == if selection[k] then 1 else 0
    ensures |run| == Count(selection)
  {
    forall k | 0 <= k < |tests|
      ensures multiset(run)[tests[k]] == if selection[k] then 1 else 0
    {
      EachMarkedItemOnce(tests, selection, k);
    }
    var marked := Zip(tests, selection);
    PickedRank(tests, selection, |tests|);
    assert marked[..|tests|] == marked;
    assert |multiset(run)| == |multiset(Picked(marked))|;
  }

  // ----- death tests first -----

  /** Every test of a death test case runs before every other test. */
  ghost predicate DeathTestsRunFirst(run: seq<TestInfo>) {
    forall j, k :: 0 <= j < k < |run| && IsDeathTestCase(run[k].testCaseName) ==> IsDeathTestCase(run[j].testCaseName)
  }

  /** What is due in a case are tests of that case. */
  ghost predicate OwnTests(marks: seq<seq<(TestInfo, bool)>>, cases: seq<TestCase>) {
    |marks| == |cases| &&
    forall k, x :: 0 <= k < |cases| && x in marks[k] ==> x.0.testCaseName == cases[k].name
  }

  lemma {:induction false} DeathTestsStayFirst(visited: seq<TestCase>, ran: seq<seq<TestInfo>>, d: int)
    requires |ran| == |visited| && Classified(visited)
    requires forall k, t :: 0 <= k < |visited| && t in ran[k] ==> t.testCaseName == visited[k].name
    requires forall k :: 0 <= k < |visited| ==> (visited[k].isDeathTestCase <==> k < d)
    ensures DeathTestsRunFirst(Flatten(ran))
    ensures |visited| <= d ==> forall t :: t in Flatten(ran) ==> IsDeathTestCase(t.testCaseName)
    decreases |visited|
  {
    if visited != [] {
      var n := |visited| - 1;
      var tc := visited[n];
      DeathTestsStayFirst(visited[..n], ran[..n], d);
      forall t | t in ran[n]
        ensures IsDeathTestCase(t.testCaseName) <==> n < d
      {
        assert tc in visited;
      }
    }
  }

  /** What runs in a case are tests of that case. */
  lemma RunsOwnTests(marks: seq<seq<(TestInfo, bool)>>, cases: seq<TestCase>, s: Schedule, k: nat)
    requires OwnTests(marks, cases) && s.Fits(marks) && k < |cases|
    ensures forall t :: t in Runs(s, marks)[k] ==> t.testCaseName == ByIndex(cases, s.cases)[k].name
  {
    RunsAt(s, marks, k);
    var c := s.cases[k];
    var visits := ByIndex(marks[c], s.tests[c]);
    PickedMembers(visits);
    PermutationVisitsEverything(marks[c], s.tests[c]);
    forall x | x in visits
      ensures x in marks[c]
    {
      assert x in multiset(visits);
    }
  }

  /** Any order of the cases, death test cases first, runs all that is due. */
  lemma RunsWhatIsDue(marks: seq<seq<(TestInfo, bool)>>, cases: seq<TestCase>, s: Schedule, d: int)
    requires OwnTests(marks, cases) && s.Fits(marks) && Classified(cases)
    requires OrderedIndices(s.cases, d, |cases|) && DeathTestsFirst(cases, d)
    ensures multiset(Flatten(Runs(s, marks))) == multiset(Picked(Flatten(marks)))
    ensures DeathTestsRunFirst(Flatten(Runs(s, marks)))
  {
    EveryScheduleRunsTheMarked(s, marks);
    var visited := ByIndex(cases, s.cases);
    VisitsDeathTestsFirst(cases, s.cases, d);
    forall c | c in visited
      ensures c in cases
    {
      assert c in multiset(visited);
    }
    forall k | 0 <= k < |cases|
      ensures forall t :: t in Runs(s, marks)[k] ==> t.testCaseName == visited[k].name
    {
      RunsOwnTests(marks, cases, s, k);
    }
    DeathTestsStayFirst(visited, Runs(s, marks), d);
  }

  /** The same for a schedule that may have been shuffled. */
  lemma RunsWhatMayBeShuffled(marks: seq<seq<(TestInfo, bool)>>, cases: seq<TestCase>, start: Schedule,
                              shuffle: bool, d: nat, seed: nat)
    requires OwnTests(marks, cases) && start.Fits(marks) && Classified(cases) && |marks| == |cases|
    requires d <= |start.cases| && OrderedIndices(start.cases, d, |cases|) && DeathTestsFirst(cases, d)
    ensures var s := ScheduleFor(start, shuffle, d, seed);
            s.Fits(marks) &&
            var run := Flatten(Runs(s, marks));
            && IsRunOf(run, s, marks)
            && multiset(run) == multiset(Picked(Flatten(marks))) && DeathTestsRunFirst(run)
            && (Picked(Flatten(marks)) == [] ==> run == [])
  {
    hide OrderedIndices, PermutationOf, DeathTestsFirst, ShuffledSchedule, Runs, Picked, Flatten, Schedule.Fits;
    hide OwnTests, Classified, DeathTestsRunFirst;
    ShuffledScheduleFits(start, d, seed, marks);
    RunsWhatIsDue(marks, cases, ScheduleFor(start, shuffle, d, seed), d);
  }

  /** What an iteration ran is the run of its schedule, even if it had nothing to run. */
  lemma IterationRuns(marks: seq<seq<(TestInfo, bool)>>, start: Schedule, s: Schedule, ran: seq<seq<TestInfo>>,
                      hasTestsToRun: bool, shuffle: bool, d: nat, seed: nat)
    requires d <= |start.cases| && s.Fits(marks) && ScheduleFor(start, shuffle, d, seed).Fits(marks)
    requires Picked(Flatten(marks)) == [] ==> Flatten(Runs(ScheduleFor(start, shuffle, d, seed), marks)) == []
    requires s == ScheduleFor(start, hasTestsToRun && shuffle, d, seed)
    requires if hasTestsToRun then ran == Runs(s, marks) else ran == [] && Picked(Flatten(marks)) == []
    ensures Flatten(ran) == Flatten(Runs(ScheduleFor(start, shuffle, d, seed), marks))
  {
    hide Runs, ShuffledSchedule, Picked;
  }

  // ----- the run -----

  /** Records what is due in each of the cases. */
  lemma MakePlan(cases: seq<TestCase>) returns (plan: Plan)
    requires AllValid(cases)
    ensures plan.Fits(cases) && OwnTests(plan.marks, cases)
  {
    var due := map k | 0 <= k < |cases| :: DueMarks(cases[k]);
    plan := Plan(seq(|cases|, k requires 0 <= k < |cases| => due[k]), set t | t in AllTests(cases));
    forall c, t | c in cases && t in c.testInfoList
      ensures t in plan.tests
    {
      var i :| 0 <= i < |cases| && cases[i] == c;
      CaseTestsAreTests(cases, i);
    }
    forall k, x | 0 <= k < |cases| && x in plan.marks[k]
      ensures x.0.testCaseName == cases[k].name
    {
      assert IndexVectors(cases)[k] == cases[k].testIndices && cases[k].Valid();
      assert plan.marks[k] == DueMarks(cases[k]);
    }
  }

  /** The cases and the tests in every case are in the order of their registration. */
  ghost predicate InOrderOfRegistration(impl: UnitTestImpl)
    reads impl`testCases, impl.testCaseIndices`elems, impl.testCases`testInfoList, IndexVectors(impl.testCases)`elems
  {
    impl.Unshuffled() && TestsUnshuffled(impl.testCases)
  }

  lemma CurrentIsRegistered(impl: UnitTestImpl, marks: seq<seq<(TestInfo, bool)>>)
    requires InOrderOfRegistration(impl) && |marks| == |impl.testCases|
    requires forall k :: 0 <= k < |marks| ==> |marks[k]| == |impl.testCases[k].testInfoList|
    ensures impl.Current() == Registered(marks)
  {
    var contents, orders := Contents(IndexVectors(impl.testCases)), RegisteredOrders(marks);
    forall k | 0 <= k < |marks|
      ensures contents[k] == orders[k]
    {
      assert IndexVectors(impl.testCases)[k] == impl.testCases[k].testIndices && impl.testCases[k].InOrder();
    }
  }

  /** The registry is valid, and the plan says what is due in its cases. */
  ghost predicate IsReady(impl: UnitTestImpl, plan: Plan)
    reads impl, impl.testCaseIndices`elems, impl.testCases`testInfoList, IndexVectors(impl.testCases)`elems
    reads impl.testCases`shouldRun, plan.tests`shouldRun
  {
    && impl.ValidOrder() && AllValid(impl.testCases) && Classified(impl.testCases)
    && plan.Fits(impl.testCases) && OwnTests(plan.marks, impl.testCases)
  }

  lemma ReadyBounds(impl: UnitTestImpl, plan: Plan)
    requires IsReady(impl, plan)
    ensures impl.ValidOrder() && AllValid(impl.testCases)
    ensures 0 <= impl.lastDeathTestCase + 1 <= |impl.Current().cases| == |plan.marks| == |impl.testCases|
    ensures forall k :: 0 <= k < |plan.marks| ==> |plan.marks[k]| == |impl.testCases[k].testInfoList|
  {
  }

  lemma ReadyIsRegistered(impl: UnitTestImpl, plan: Plan)
    requires IsReady(impl, plan) && InOrderOfRegistration(impl)
    ensures impl.Current() == Registered(plan.marks)
  {
    CurrentIsRegistered(impl, plan.marks);
  }

  lemma RunsOfReady(impl: UnitTestImpl, plan: Plan, shuffle: bool, d: nat, seed: nat)
    requires IsReady(impl, plan) && d == impl.lastDeathTestCase + 1
    ensures d <= |impl.Current().cases|
    ensures var s := ScheduleFor(impl.Current(), shuffle, d, seed);
            s.Fits(plan.marks) &&
            var run := Flatten(Runs(s, plan.marks));
            && IsRunOf(run, s, plan.marks)
            && multiset(run) == multiset(Picked(Flatten(plan.marks))) && DeathTestsRunFirst(run)
            && (Picked(Flatten(plan.marks)) == [] ==> run == [])
  {
    ReadyBounds(impl, plan);
    impl.CurrentFits(plan);
    RunsWhatMayBeShuffled(plan.marks, impl.testCases, impl.Current(), shuffle, d, seed);
  }

  method RunReady(impl: UnitTestImpl, random: Random, hasTestsToRun: bool, shuffle: bool, seed: nat, ghost plan: Plan,
                  ghost d: nat)
    returns (ran: seq<seq<TestInfo>>, ghost s: Schedule)
    requires IsReady(impl, plan) && random.Valid() && seed < TWO_TO_32
    requires d == impl.lastDeathTestCase + 1 && d <= |impl.Current().cases|
    modifies random`state, impl.testCaseIndices`elems, IndexVectors(impl.testCases)`elems
    ensures IsReady(impl, plan) && random.Valid() && InOrderOfRegistration(impl)
    ensures !(hasTestsToRun && shuffle) ==> random.state == old(random.state)
    ensures s.Fits(plan.marks) && s == ScheduleFor(old(impl.Current()), hasTestsToRun && shuffle, d, seed)
    ensures ran == if hasTestsToRun then Runs(s, plan.marks) else []
  {
    hide OrderedIndices, PermutationOf, DeathTestsFirst, ScheduleFor, Runs, Separate, Contents, Plan.Fits, OwnTests;
    hide Schedule.Fits, Classified;
    var visited;
    visited, ran, s := impl.RunIteration(random, hasTestsToRun, shuffle, seed, plan);
  }

  /** One iteration runs what the schedule and the selection say, and leaves the registry in
      the order of registration. In particular exactly the selected tests run, those of death
      test cases first. */
  method RunOnce(impl: UnitTestImpl, random: Random, hasTestsToRun: bool, shuffle: bool, seed: nat, ghost plan: Plan,
                 ghost d: nat)
    returns (run: seq<TestInfo>)
    requires IsReady(impl, plan) && random.Valid() && seed < TWO_TO_32
    requires !hasTestsToRun ==> Picked(Flatten(plan.marks)) == []
    requires d == impl.lastDeathTestCase + 1 && d <= |impl.Current().cases|
    modifies random`state, impl.testCaseIndices`elems, IndexVectors(impl.testCases)`elems
    ensures IsReady(impl, plan) && random.Valid() && InOrderOfRegistration(impl)
    ensures !shuffle ==> random.state == old(random.state)
    ensures IsRunOf(run, ScheduleFor(old(impl.Current()), shuffle, d, seed), plan.marks)
    ensures multiset(run) == multiset(Picked(Flatten(plan.marks))) && DeathTestsRunFirst(run)
  {
    hide IsReady, InOrderOfRegistration, ScheduleFor, Runs, Picked, Contents, DeathTestsRunFirst, IsRunOf, Flatten;
    hide Schedule.Fits;
    ghost var start := impl.Current();
    RunsOfReady(impl, plan, shuffle, d, seed);
    var ran;
    ghost var s;
    ran, s := RunReady(impl, random, hasTestsToRun, shuffle, seed, plan, d);
    IterationRuns(plan.marks, start, s, ran, hasTestsToRun, shuffle, d, seed);
    run := Flatten(ran);
  }

  lemma SelectionMarked(tests: seq<TestInfo>, selection: seq<bool>)
    requires |selection| == |tests| && forall k :: 0 <= k < |tests| ==> tests[k].shouldRun == selection[k]
    ensures Marks(tests) == Zip(tests, selection)
    ensures Count(selection) == 0 ==> Picked(Zip(tests, selection)) == []
  {
    var marked := Zip(tests, selection);
    PickedRank(tests, selection, |tests|);
    assert marked[..|tests|] == marked;
  }

  /** After filtering, what is due are the selected tests. */
  lemma PlanSelection(cases: seq<TestCase>, tests: seq<TestInfo>, selection: seq<bool>)
    returns (plan: Plan)
    requires AllValid(cases) && tests == AllTests(cases) && |selection| == |tests|
    requires forall k :: 0 <= k < |tests| ==> tests[k].shouldRun == selection[k]
    requires forall c :: 0 <= c < |cases| ==> CaseRunsIffATestDoes(cases[c])
    ensures plan.Fits(cases) && OwnTests(plan.marks, cases) && Flatten(plan.marks) == Zip(tests, selection)
    ensures Count(selection) == 0 ==> Picked(Flatten(plan.marks)) == []
  {
    plan := MakePlan(cases);
    DueInAllCases(cases, plan.marks);
    SelectionMarked(tests, selection);
  }

  /** Filtering leaves the registry as it is, and makes the selected tests due. */
  method SelectTests(impl: UnitTestImpl, flags: Flags, sharding: Sharding)
    returns (hasTestsToRun: bool, ghost tests: seq<TestInfo>, ghost runnable: seq<bool>, ghost plan: Plan)
    requires impl.ValidOrder() && AllValid(impl.testCases) && Classified(impl.testCases) && sharding.Valid()
    modifies impl.testCases`shouldRun, AllTests(impl.testCases)`isDisabled
    modifies AllTests(impl.testCases)`matchesFilter, AllTests(impl.testCases)`shouldRun
    ensures IsReady(impl, plan) && impl.Current() == old(impl.Current())
    ensures old(InOrderOfRegistration(impl)) ==>
              InOrderOfRegistration(impl) && impl.Current() == Registered(plan.marks)
    ensures tests == old(AllTests(impl.testCases)) && Distinct(tests) && Decides(flags, tests, runnable)
    ensures Flatten(plan.marks) == Zip(tests, Selection(runnable, sharding))
    ensures !hasTestsToRun ==> Picked(Flatten(plan.marks)) == []
  {
    TestsAreDistinct(impl.testCases);
    hide OrderedIndices, PermutationOf, DeathTestsFirst, Contents, Decides, Distinct, Picked, Flatten;
    hasTestsToRun, tests, runnable := FilterRegistry(impl, flags, sharding);
    plan := PlanSelection(impl.testCases, tests, Selection(runnable, sharding));
    if InOrderOfRegistration(impl) {
      ReadyIsRegistered(impl, plan);
    }
  }

  method FilterRegistry(impl: UnitTestImpl, flags: Flags, sharding: Sharding)
    returns (hasTestsToRun: bool, ghost tests: seq<TestInfo>, ghost runnable: seq<bool>)
    requires impl.ValidOrder() && AllValid(impl.testCases) && sharding.Valid()
    modifies impl.testCases`shouldRun, AllTests(impl.testCases)`isDisabled
    modifies AllTests(impl.testCases)`matchesFilter, AllTests(impl.testCases)`shouldRun
    ensures impl.ValidOrder() && AllValid(impl.testCases) && impl.Current() == old(impl.Current())
    ensures old(InOrderOfRegistration(impl)) ==> InOrderOfRegistration(impl)
    ensures tests == old(AllTests(impl.testCases)) == AllTests(impl.testCases) && Decides(flags, tests, runnable)
    ensures forall k :: 0 <= k < |tests| ==> IsMarked(flags, tests[k], Selection(runnable, sharding)[k])
    ensures hasTestsToRun <==> Count(Selection(runnable, sharding)) > 0
    ensures forall c :: 0 <= c < |impl.testCases| ==> CaseRunsIffATestDoes(impl.testCases[c])
  {
    hide OrderedIndices, PermutationOf, DeathTestsFirst, Contents;
    var numSelected;
    numSelected, tests, runnable := FilterTests(impl.testCases, flags, sharding);
    hasTestsToRun := numSelected > 0;
  }

  /** Every run is a run of the selected tests, those of death test cases first. */
  ghost predicate AllRunsOf(runs: seq<seq<TestInfo>>, selected: multiset<TestInfo>) {
    forall i :: 0 <= i < |runs| ==> multiset(runs[i]) == selected && DeathTestsRunFirst(runs[i])
  }

  /** The runs so far are those of the iterations, and of the selected tests. */
  ghost predicate RunsSoFar(runs: seq<seq<TestInfo>>, start: Schedule, marks: seq<seq<(TestInfo, bool)>>,
                            shuffle: bool, d: nat, seed: nat)
    requires d <= |start.cases| && d <= |marks| && 1 <= seed <= MAX_RANDOM_SEED
  {
    AllRunsOf(runs, multiset(Picked(Flatten(marks)))) && AreIterations(runs, start, marks, shuffle, d, seed)
  }

  lemma NoRunsYet(start: Schedule, marks: seq<seq<(TestInfo, bool)>>, shuffle: bool, d: nat, seed: nat)
    requires d <= |start.cases| && d <= |marks| && 1 <= seed <= MAX_RANDOM_SEED
    ensures RunsSoFar([], start, marks, shuffle, d, seed)
  {
  }

  lemma OneMoreRun(runs: seq<seq<TestInfo>>, run: seq<TestInfo>, start: Schedule,
                   marks: seq<seq<(TestInfo, bool)>>, shuffle: bool, d: nat, seed: nat)
    requires d <= |start.cases| && d <= |marks| && 1 <= seed <= MAX_RANDOM_SEED
    requires RunsSoFar(runs, start, marks, shuffle, d, seed)
    requires IsRunOf(run, IterationSchedule(start, marks, shuffle, d, seed, |runs|), marks)
    requires multiset(run) == multiset(Picked(Flatten(marks))) && DeathTestsRunFirst(run)
    ensures RunsSoFar(runs + [run], start, marks, shuffle, d, seed)
  {
    hide AllRunsOf, AreIterations, IsRunOf, IterationSchedule, Picked, Flatten, DeathTestsRunFirst;
    OneMoreIteration(runs, run, start, marks, shuffle, d, seed);
    OneMoreOf(runs, run, multiset(Picked(Flatten(marks))));
  }

  lemma OneMoreOf(runs: seq<seq<TestInfo>>, run: seq<TestInfo>, selected: multiset<TestInfo>)
    requires AllRunsOf(runs, selected) && multiset(run) == selected && DeathTestsRunFirst(run)
    ensures AllRunsOf(runs + [run], selected)
  {
    hide DeathTestsRunFirst;
    var more := runs + [run];
    forall i | 0 <= i < |more|
      ensures multiset(more[i]) == selected && DeathTestsRunFirst(more[i])
    {
      assert i < |runs| ==> more[i] == runs[i];
    }
  }

  /** The seed of the generator in iteration `i`; it is used only for shuffling. */
  function IterationSeed(shuffle: bool, randomSeed: nat, i: nat): (seed: nat)
    requires 1 <= randomSeed <= MAX_RANDOM_SEED
    ensures seed < TWO_TO_32
  {
    if shuffle then SeedOfIteration(randomSeed, i) else 0
  }

  /** One more iteration of the loop. */
  method RunNext(impl: UnitTestImpl, random: Random, hasTestsToRun: bool, shuffle: bool, seed: nat, ghost plan: Plan,
                 runs: seq<seq<TestInfo>>, ghost start: Schedule, ghost d: nat, ghost randomSeed: nat)
    returns (more: seq<seq<TestInfo>>)
    requires IsReady(impl, plan) && random.Valid() && 1 <= randomSeed <= MAX_RANDOM_SEED
    requires !hasTestsToRun ==> Picked(Flatten(plan.marks)) == []
    requires d == impl.lastDeathTestCase + 1 && d <= |start.cases| && d <= |plan.marks|
    requires impl.Current() == if runs == [] then start else Registered(plan.marks)
    requires seed == IterationSeed(shuffle, randomSeed, |runs|)
    requires RunsSoFar(runs, start, plan.marks, shuffle, d, randomSeed)
    modifies random`state, impl.testCaseIndices`elems, IndexVectors(impl.testCases)`elems
    ensures IsReady(impl, plan) && random.Valid() && InOrderOfRegistration(impl)
    ensures impl.Current() == Registered(plan.marks)
    ensures !shuffle ==> random.state == old(random.state)
    ensures |more| == |runs| + 1 && RunsSoFar(more, start, plan.marks, shuffle, d, randomSeed)
  {
    hide IsReady, InOrderOfRegistration, ShuffledSchedule, Runs, Picked, Flatten, Contents, DeathTestsRunFirst, IsRunOf;
    hide RunsSoFar;
    var run := RunOnce(impl, random, hasTestsToRun, shuffle, seed, plan, d);
    ReadyIsRegistered(impl, plan);
    OneMoreRun(runs, run, start, plan.marks, shuffle, d, randomSeed);
    more := runs + [run];
  }

  /** The loop over the iterations, unless the tests are only listed. */
  method RunRepeatedly(impl: UnitTestImpl, random: Random, hasTestsToRun: bool, listTests: bool, repeat: nat,
                       shuffle: bool, randomSeed: nat, ghost plan: Plan, ghost d: nat)
    returns (runs: seq<seq<TestInfo>>)
    requires IsReady(impl, plan) && random.Valid() && 1 <= randomSeed <= MAX_RANDOM_SEED
    requires !hasTestsToRun ==> Picked(Flatten(plan.marks)) == []
    requires d == impl.lastDeathTestCase + 1 && d <= |impl.Current().cases| && d <= |plan.marks|
    modifies random`state, impl.testCaseIndices`elems, IndexVectors(impl.testCases)`elems
    ensures IsReady(impl, plan)
    ensures old(InOrderOfRegistration(impl)) || |runs| > 0 ==> InOrderOfRegistration(impl)
    ensures |runs| == if listTests then 0 else repeat
    ensures RunsSoFar(runs, old(impl.Current()), plan.marks, shuffle, d, randomSeed)
    ensures !shuffle ==> random.state == old(random.state)
  {
    hide IsReady, InOrderOfRegistration, Contents, Flatten, Picked, RunsSoFar;
    ghost var start := impl.Current();
    NoRunsYet(start, plan.marks, shuffle, d, randomSeed);
    runs := [];
    if listTests {
      return;
    }
    var seed := if shuffle then randomSeed else 0;
    for i := 0 to repeat
      invariant IsReady(impl, plan) && random.Valid()
      invariant old(InOrderOfRegistration(impl)) || i > 0 ==> InOrderOfRegistration(impl)
      invariant impl.Current() == if i == 0 then start else Registered(plan.marks)
      invariant seed == IterationSeed(shuffle, randomSeed, i)
      invariant !shuffle ==> random.state == old(random.state)
      invariant |runs| == i && RunsSoFar(runs, start, plan.marks, shuffle, d, randomSeed)
    {
      runs := RunNext(impl, random, hasTestsToRun, shuffle, seed, plan, runs, start, d, randomSeed);
      if shuffle {
        seed := NextRandomSeed(seed);
      }
    }
  }

  /** The iterations over the selected tests. */
  method RunSelected(impl: UnitTestImpl, random: Random, hasTestsToRun: bool, listTests: bool, repeat: nat,
                     shuffle: bool, randomSeed: nat, ghost plan: Plan)
    returns (runs: seq<seq<TestInfo>>)
    requires IsReady(impl, plan) && random.Valid() && 1 <= randomSeed <= MAX_RANDOM_SEED
    requires !hasTestsToRun ==> Picked(Flatten(plan.marks)) == []
    modifies random`state, impl.testCaseIndices`elems, IndexVectors(impl.testCases)`elems
    ensures impl.ValidOrder() && AllValid(impl.testCases) && |plan.marks| == |impl.testCases|
    ensures forall k :: 0 <= k < |plan.marks| ==> |plan.marks[k]| == |impl.testCases[k].testInfoList|
    ensures old(InOrderOfRegistration(impl)) || |runs| > 0 ==> InOrderOfRegistration(impl)
    ensures |runs| == if listTests then 0 else repeat
    ensures AllRunsOf(runs, multiset(Picked(Flatten(plan.marks))))
    ensures 0 <= impl.lastDeathTestCase + 1 <= |old(impl.Current()).cases| == |plan.marks|
    ensures AreIterations(runs, old(impl.Current()), plan.marks, shuffle, impl.lastDeathTestCase + 1, randomSeed)
    ensures !shuffle && old(impl.Current()) == Registered(plan.marks) ==>
              forall i :: 0 <= i < |runs| ==> runs[i] == Picked(Flatten(plan.marks))
    ensures !shuffle ==> random.state == old(random.state)
  {
    hide IsReady, InOrderOfRegistration, Contents, Picked, Flatten, AllRunsOf, AreIterations, Registered;
    ghost var start, d := impl.Current(), impl.lastDeathTestCase + 1;
    ReadyBounds(impl, plan);
    runs := RunRepeatedly(impl, random, hasTestsToRun, listTests, repeat, shuffle, randomSeed, plan, d);
    ReadyBounds(impl, plan);
    if !shuffle && start == Registered(plan.marks) {
      IterationsInOrder(runs, plan.marks, d, randomSeed);
    }
  }

  /** Filters the tests and runs them `repeat` times. Each time exactly the selected tests
      run, each once, those of death test cases first; when the tests are only listed, none
      runs. `marks` are the tests of each case with the selection: with them and the seeds it
      is said which test runs when. Without shuffling that is the order of registration.
      The registry stays valid, and ends in the order of registration if it was in that order
      or anything was iterated: more tests can be registered, and the tests run again. */
  method RunAllTests(impl: UnitTestImpl, flags: Flags, sharding: Sharding, random: Random,
                     listTests: bool, repeat: nat, shuffle: bool, randomSeedFlag: int, now: nat)
    returns (runs: seq<seq<TestInfo>>, ghost tests: seq<TestInfo>, ghost runnable: seq<bool>,
             ghost marks: seq<seq<(TestInfo, bool)>>)
    requires impl.ValidOrder() && AllValid(impl.testCases) && Classified(impl.testCases)
    requires random.Valid() && sharding.Valid() && -0x8000_0000 <= randomSeedFlag < 0x8000_0000
    modifies impl.testCases`shouldRun, AllTests(impl.testCases)`isDisabled
    modifies AllTests(impl.testCases)`matchesFilter, AllTests(impl.testCases)`shouldRun
    modifies random`state, impl.testCaseIndices`elems, IndexVectors(impl.testCases)`elems
    ensures impl.ValidOrder() && AllValid(impl.testCases)
    ensures old(InOrderOfRegistration(impl)) || |runs| > 0 ==> InOrderOfRegistration(impl)
    ensures tests == old(AllTests(impl.testCases)) && Distinct(tests) && Decides(flags, tests, runnable)
    ensures |runs| == if listTests then 0 else repeat
    ensures AllRunsOf(runs, multiset(Picked(Zip(tests, Selection(runnable, sharding)))))
    ensures |marks| == |impl.testCases| && Flatten(marks) == Zip(tests, Selection(runnable, sharding))
    ensures forall k :: 0 <= k < |marks| ==> |marks[k]| == |impl.testCases[k].testInfoList|
    ensures AreIterations(runs, old(impl.Current()), marks, shuffle, impl.lastDeathTestCase + 1,
                          RandomSeedFromFlag(randomSeedFlag, now))
    ensures old(InOrderOfRegistration(impl)) ==> old(impl.Current()) == Registered(marks)
    ensures old(InOrderOfRegistration(impl)) && !shuffle ==>
              forall i :: 0 <= i < |runs| ==> runs[i] == Picked(Zip(tests, Selection(runnable, sharding)))
    ensures !shuffle ==> random.state == old(random.state)
  {
    hide IsReady, InOrderOfRegistration, Decides, Distinct, Contents, Picked, Flatten, Classified, OrderedIndices;
    hide Separate, DeathTestsFirst, AllRunsOf, AreIterations;
    var hasTestsToRun;
    ghost var plan;
    hasTestsToRun, tests, runnable, plan := SelectTests(impl, flags, sharding);
    marks := plan.marks;
    var randomSeed := RandomSeedFromFlag(randomSeedFlag, now);
    runs := RunSelected(impl, random, hasTestsToRun, listTests, repeat, shuffle, randomSeed, plan);
  }

  // ----- all the shards -----

  ghost function SumOf<T>(bags: seq<multiset<T>>): multiset<T> {
    if bags == [] then multiset{} else SumOf(bags[..|bags| - 1]) + bags[|bags| - 1]
  }

  lemma {:induction false} FlattenSum<T>(runs: seq<seq<T>>, bags: seq<multiset<T>>)
    requires |runs| == |bags| && forall s :: 0 <= s < |runs| ==> multiset(runs[s]) == bags[s]
    ensures multiset(Flatten(runs)) == SumOf(bags)
    decreases |runs|
  {
    if runs != [] {
      var m := |runs| - 1;
      FlattenSum(runs[..m], bags[..m]);
      assert Flatten(runs) == Flatten(runs[..m]) + runs[m];
    }
  }

  lemma {:induction false} EmptySum<T>(bags: seq<multiset<T>>)
    requires forall s :: 0 <= s < |bags| ==> bags[s] == multiset{}
    ensures SumOf(bags) == multiset{}
  {
    if bags != [] {
      EmptySum(bags[..|bags| - 1]);
    }
  }

  lemma OneMoreInEither<T>(a: multiset<T>, b: multiset<T>, x: T, inA: bool, inB: bool)
    requires !(inA && inB)
    ensures (a + BagOf(x, inA)) + (b + BagOf(x, inB)) == (a + b) + BagOf(x, inA || inB)
  {
  }

  /** When only bag `r` gets one more, so does the sum, if that is one of the bags. */
  lemma {:induction false} OneMoreInSum<T>(bags: seq<multiset<T>>, more: seq<multiset<T>>, x: T, r: nat, present: bool)
    requires |bags| == |more|
    requires forall s :: 0 <= s < |bags| ==> more[s] == bags[s] + BagOf(x, present && s == r)
    ensures SumOf(more) == SumOf(bags) + BagOf(x, present && r < |bags|)
    decreases |bags|
  {
    if bags != [] {
      var m := |bags| - 1;
      OneMoreInSum(bags[..m], more[..m], x, r, present);
      OneMoreInEither(SumOf(bags[..m]), bags[m], x, present && r < m, present && r == m);
    }
  }

  /** What a shard picks from the first `k` tests. */
  ghost function ShardPicks<T>(tests: seq<T>, runnable: seq<bool>, n: nat, s: nat, k: nat): multiset<T>
    requires |tests| == |runnable| && s < n && k <= |tests|
  {
    multiset(Picked(Zip(tests, Selection(runnable, Honor(n, s)))[..k]))
  }

  ghost function AllPicks<T>(tests: seq<T>, runnable: seq<bool>, n: nat, k: nat): (bags: seq<multiset<T>>)
    requires |tests| == |runnable| && k <= |tests|
    ensures |bags| == n && forall s :: 0 <= s < n ==> bags[s] == ShardPicks(tests, runnable, n, s, k)
  {
    seq(n, s requires 0 <= s < n => ShardPicks(tests, runnable, n, s, k))
  }

  lemma ShardPicksNext<T>(tests: seq<T>, runnable: seq<bool>, n: nat, s: nat, k: nat)
    requires |tests| == |runnable| && s < n && k < |tests|
    ensures ShardPicks(tests, runnable, n, s, k + 1)
            == ShardPicks(tests, runnable, n, s, k) + BagOf(tests[k], runnable[k] && Rank(runnable, k) % n == s)
  {
    PickedNext(Zip(tests, Selection(runnable, Honor(n, s))), k);
  }

  lemma NoPicksYet<T>(tests: seq<T>, runnable: seq<bool>, n: nat)
    requires |tests| == |runnable|
    ensures SumOf(AllPicks(tests, runnable, n, 0)) == multiset{}
  {
    EmptySum(AllPicks(tests, runnable, n, 0));
  }

  /** Each test is picked by the one shard that its number falls to. */
  lemma NextTestIsPickedOnce<T>(tests: seq<T>, runnable: seq<bool>, n: nat, k: nat, r: nat)
    requires |tests| == |runnable| && k < |tests| && r < n && Rank(runnable, k) % n == r
    ensures SumOf(AllPicks(tests, runnable, n, k + 1))
            == SumOf(AllPicks(tests, runnable, n, k)) + BagOf(tests[k], runnable[k])
  {
    var bags, more := AllPicks(tests, runnable, n, k), AllPicks(tests, runnable, n, k + 1);
    forall s | 0 <= s < n
      ensures more[s] == bags[s] + BagOf(tests[k], runnable[k] && s == r)
    {
      ShardPicksNext(tests, runnable, n, s, k);
    }
    OneMoreInSum(bags, more, tests[k], r, runnable[k]);
  }

  lemma {:induction false} AllShardsPick<T>(tests: seq<T>, runnable: seq<bool>, n: nat, k: nat)
    requires |tests| == |runnable| && n > 0 && k <= |tests|
    ensures SumOf(AllPicks(tests, runnable, n, k)) == multiset(Picked(Zip(tests, runnable)[..k]))
    decreases k
  {
    if k == 0 {
      NoPicksYet(tests, runnable, n);
    } else {
      AllShardsPick(tests, runnable, n, k - 1);
      NextTestIsPickedOnce(tests, runnable, n, k - 1, Rank(runnable, k - 1) % n);
      PickedNext(Zip(tests, runnable), k - 1);
    }
  }

  /** When each of `n` shards runs what it selects, they run every runnable test exactly once
      in total, and no other. */
  lemma ShardsRunEverythingOnce<T>(tests: seq<T>, runnable: seq<bool>, n: nat, runs: seq<seq<T>>)
    requires Distinct(tests) && |tests| == |runnable| && |runs| == n > 0
    requires forall s :: 0 <= s < n ==>
               multiset(runs[s]) == multiset(Picked(Zip(tests, Selection(runnable, Honor(n, s)))))
    ensures forall k :: 0 <= k < |tests| ==> multiset(Flatten(runs))[tests[k]] == if runnable[k] then 1 else 0
    ensures |Flatten(runs)| == Count(runnable)
  {
    var bags := AllPicks(tests, runnable, n, |tests|);
    forall s | 0 <= s < n
      ensures multiset(runs[s]) == bags[s]
    {
      var marked := Zip(tests, Selection(runnable, Honor(n, s)));
      assert marked[..|tests|] == marked;
    }
    FlattenSum(runs, bags);
    AllShardsPick(tests, runnable, n, |tests|);
    assert Zip(tests, runnable)[..|tests|] == Zip(tests, runnable);
    SelectedTestsOnce(tests, runnable, Flatten(runs));
  }
}
