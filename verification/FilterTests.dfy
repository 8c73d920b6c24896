/** `UnitTestImpl::FilterTests`: deciding which of the registered tests should run. */
module TestSelection {
  import opened Basics
  import opened Filters
  import opened NamingConventions
  import opened Shardings
  import opened UnitTests

  predicate IsDisabled(testCaseName: string, testName: string) {
    IsDisabledName(testCaseName) || IsDisabledName(testName)
  }

  /** The flags that `FilterTests` consults. */
  datatype Flags = Flags(filter: string, alsoRunDisabledTests: bool)

  predicate IsRunnable(flags: Flags, testCaseName: string, testName: string) {
    (flags.alsoRunDisabledTests || !IsDisabled(testCaseName, testName))
    && TestMatches(flags.filter, testCaseName, testName)
  }

  // ----- all tests in the order of registration -----

  ghost function AllTests(cases: seq<TestCase>): seq<TestInfo>
    reads cases`testInfoList
  {
    if cases == [] then [] else AllTests(cases[..|cases| - 1]) + cases[|cases| - 1].testInfoList
  }

  /** `runnable` tells of each of the tests whether it may run, leaving shards aside. */
  ghost predicate Decides(flags: Flags, tests: seq<TestInfo>, runnable: seq<bool>) {
    |runnable| == |tests| &&
    forall k {:trigger IsRunnable(flags, tests[k].testCaseName, tests[k].name)} ::
      0 <= k < |tests| ==> runnable[k] == IsRunnable(flags, tests[k].testCaseName, tests[k].name)
  }

  /** The three flags of a test after filtering. */
  ghost predicate IsMarked(flags: Flags, test: TestInfo, selected: bool)
    reads test
  {
    && test.shouldRun == selected
    && test.isDisabled == (IsDisabledName(test.testCaseName) || IsDisabledName(test.name))
    && test.matchesFilter == TestMatches(flags.filter, test.testCaseName, test.name)
  }

  ghost predicate AreMarked(flags: Flags, tests: seq<TestInfo>, selection: seq<bool>)
    reads tests
  {
    |selection| == |tests| && forall k :: 0 <= k < |tests| ==> IsMarked(flags, tests[k], selection[k])
  }

  lemma MoreAreMarked(flags: Flags, tests: seq<TestInfo>, selection: seq<bool>, offset: nat, next: nat)
    requires offset <= next <= |tests| == |selection|
    requires AreMarked(flags, tests[..offset], selection[..offset])
    requires AreMarked(flags, tests[offset..next], selection[offset..next])
    ensures AreMarked(flags, tests[..next], selection[..next])
  {
    hide IsMarked;
    var a, b := tests[..offset], tests[offset..next];
    assert tests[..next] == a + b && selection[..next] == selection[..offset] + selection[offset..next];
  }

  /** A test that its own name or that of its case disables does not run unless disabled tests
      are run as well; apart from that the filter alone decides. */
  lemma RunnableIff(flags: Flags, tests: seq<TestInfo>, runnable: seq<bool>, k: nat)
    requires Decides(flags, tests, runnable) && k < |tests|
    ensures var t := tests[k];
            runnable[k] <==>
            && TestMatches(flags.filter, t.testCaseName, t.name)
            && (IsDisabledName(t.testCaseName) || IsDisabledName(t.name) ==> flags.alsoRunDisabledTests)
  {
    assert runnable[k] == IsRunnable(flags, tests[k].testCaseName, tests[k].name);
  }

  lemma DecisionsExist(flags: Flags, tests: seq<TestInfo>) returns (runnable: seq<bool>)
    ensures Decides(flags, tests, runnable)
  {
    runnable := seq(|tests|, k requires 0 <= k < |tests| => IsRunnable(flags, tests[k].testCaseName, tests[k].name));
  }

  lemma DecidesSlice(flags: Flags, tests: seq<TestInfo>, runnable: seq<bool>, offset: nat, list: seq<TestInfo>)
    requires Decides(flags, tests, runnable)
    requires offset + |list| <= |tests| && tests[offset..offset + |list|] == list
    ensures Decides(flags, list, runnable[offset..offset + |list|])
  {
    forall j | 0 <= j < |list|
      ensures runnable[offset + j] == IsRunnable(flags, list[j].testCaseName, list[j].name)
    {
      assert list[j] == tests[offset + j];
    }
  }

  lemma {:induction false} TestsAreDistinct(cases: seq<TestCase>)
    requires Separate(cases) && AllValid(cases)
    ensures Distinct(AllTests(cases))
    ensures forall t :: t in AllTests(cases) ==> t.testCaseName in Names(cases)
    decreases |cases|
  {
    if cases != [] {
      var front, last := cases[..|cases| - 1], cases[|cases| - 1];
      assert Names(cases) == Names(front) + [last.name];
      assert IndexVectors(cases) == IndexVectors(front) + [last.testIndices];
      assert IndexVectors(cases)[|front|] == last.testIndices && last.Valid();
      assert AllValid(front);
      TestsAreDistinct(front);
      assert last.name !in Names(front) by {
        assert Names(cases)[|front|] == last.name;
      }
    }
  }

  lemma {:induction false} TestsOfPrefix(cases: seq<TestCase>, i: nat)
    requires i < |cases|
    ensures var n := |AllTests(cases[..i])|;
            var next := n + |cases[i].testInfoList|;
            && next == |AllTests(cases[..i + 1])| <= |AllTests(cases)|
            && AllTests(cases)[n..next] == cases[i].testInfoList
    decreases |cases|
  {
    var front := cases[..|cases| - 1];
    if i < |front| {
      TestsOfPrefix(front, i);
      assert front[..i] == cases[..i] && front[..i + 1] == cases[..i + 1];
    } else {
      assert cases[..i] == front && cases[..i + 1] == cases;
    }
  }

  lemma CaseTestsAreTests(cases: seq<TestCase>, i: nat)
    requires i < |cases|
    ensures forall j :: 0 <= j < |cases[i].testInfoList| ==> cases[i].testInfoList[j] in AllTests(cases)
  {
    TestsOfPrefix(cases, i);
    var n := |AllTests(cases[..i])|;
    assert forall j :: 0 <= j < |cases[i].testInfoList| ==> cases[i].testInfoList[j] == AllTests(cases)[n + j];
  }

  // ----- the selection -----

  /** `selection` tells of each of the tests whether it should run on this shard. */
  ghost predicate Selects(runnable: seq<bool>, sharding: Sharding, selection: seq<bool>)
    requires sharding.Valid()
  {
    |selection| == |runnable| &&
    forall k {:trigger Selected(runnable, sharding, k)} ::
      0 <= k < |runnable| ==> selection[k] == Selected(runnable, sharding, k)
  }

  /** The decision about one test, whose number among the runnable tests is `testId`. */
  method FilterTest(testCaseName: string, testInfo: TestInfo, flags: Flags, sharding: Sharding, testId: nat)
    returns (isRunnable: bool)
    requires sharding.Valid()
    modifies testInfo`isDisabled, testInfo`matchesFilter, testInfo`shouldRun
    ensures testInfo.isDisabled <==> IsDisabledName(testCaseName) || IsDisabledName(testInfo.name)
    ensures testInfo.matchesFilter <==> TestMatches(flags.filter, testCaseName, testInfo.name)
    ensures isRunnable <==> testInfo.matchesFilter && (testInfo.isDisabled ==> flags.alsoRunDisabledTests)
    ensures testInfo.shouldRun <==> isRunnable && sharding.Takes(testId)
  {
    var isDisabled := NamesADisabledTest(testCaseName);
    if !isDisabled {
      isDisabled := NamesADisabledTest(testInfo.name);
    }
    testInfo.isDisabled := isDisabled;
    var matchesFilter := FilterMatchesTest(flags.filter, testCaseName, testInfo.name);
    testInfo.matchesFilter := matchesFilter;
    isRunnable := (flags.alsoRunDisabledTests || !isDisabled) && matchesFilter;
    testInfo.shouldRun := isRunnable && sharding.Takes(testId);
  }

  /** The same for a test of a case, number `j` of those whose decisions are known. */
  method FilterListedTest(tc: TestCase, testInfo: TestInfo, flags: Flags, sharding: Sharding, testId: nat,
                          ghost list: seq<TestInfo>, ghost j: nat, ghost decisions: seq<bool>)
    returns (isRunnable: bool, isSelected: bool)
    requires sharding.Valid() && j < |list| && list[j] == testInfo && Decides(flags, list, decisions)
    modifies tc`shouldRun, testInfo`isDisabled, testInfo`matchesFilter, testInfo`shouldRun
    ensures isRunnable == decisions[j]
    ensures isSelected == testInfo.shouldRun == (decisions[j] && sharding.Takes(testId))
    ensures IsMarked(flags, testInfo, isSelected)
    ensures tc.shouldRun == (old(tc.shouldRun) || isSelected)
  {
    isRunnable := FilterTest(testInfo.testCaseName, testInfo, flags, sharding, testId);
    assert decisions[j] == IsRunnable(flags, list[j].testCaseName, list[j].name);
    isSelected := testInfo.shouldRun;
    tc.shouldRun := tc.shouldRun || isSelected;
  }

  /** The inner loop, over the tests of one case: those from number `offset` on. */
  method FilterTestsOfCase(tc: TestCase, flags: Flags, sharding: Sharding, runnableBefore: nat, selectedBefore: nat,
                           ghost runnable: seq<bool>, ghost selection: seq<bool>, ghost offset: nat,
                           ghost list: seq<TestInfo>, ghost decisions: seq<bool>)
    returns (numRunnable: nat, numSelected: nat)
    requires list == tc.testInfoList && Distinct(list) && sharding.Valid()
    requires offset + |list| <= |runnable| && decisions == runnable[offset..offset + |list|]
    requires Decides(flags, list, decisions) && Selects(runnable, sharding, selection)
    requires runnableBefore == Rank(runnable, offset)
    requires selectedBefore == Rank(selection, offset)
    modifies tc`shouldRun
    modifies tc.testInfoList`isDisabled, tc.testInfoList`matchesFilter, tc.testInfoList`shouldRun
    ensures AreMarked(flags, list, selection[offset..offset + |list|])
    ensures CaseRunsIffATestDoes(tc)
    ensures numRunnable == Rank(runnable, offset + |list|)
    ensures numSelected == Rank(selection, offset + |list|)
  {
    hide IsMarked, Decides;
    numRunnable, numSelected := runnableBefore, selectedBefore;
    tc.shouldRun := false;
    for j := 0 to |tc.testInfoList|
      invariant forall k :: 0 <= k < j ==> IsMarked(flags, list[k], selection[offset + k])
      invariant tc.shouldRun <==> exists k :: 0 <= k < j && list[k].shouldRun
      invariant numRunnable == Rank(runnable, offset + j)
      invariant numSelected == Rank(selection, offset + j)
    {
      var testInfo := tc.testInfoList[j];
      var isRunnable, isSelected :=
        FilterListedTest(tc, testInfo, flags, sharding, numRunnable, list, j, decisions);
      assert decisions[j] == runnable[offset + j];
      assert isSelected == (runnable[offset + j] && sharding.Takes(Rank(runnable, offset + j)));
      assert isSelected == Selected(runnable, sharding, offset + j);
      numRunnable := numRunnable + if isRunnable then 1 else 0;
      numSelected := numSelected + if isSelected then 1 else 0;
    }
  }

  ghost predicate ConsistentLists(cases: seq<TestCase>)
    reads cases`testInfoList
  {
    forall c :: 0 <= c < |cases| ==>
      && Distinct(cases[c].testInfoList)
      && forall j :: 0 <= j < |cases[c].testInfoList| ==> cases[c].testInfoList[j].testCaseName == cases[c].name
  }

  ghost predicate CaseRunsIffATestDoes(tc: TestCase)
    reads tc, tc.testInfoList
  {
    tc.shouldRun <==> exists j :: 0 <= j < |tc.testInfoList| && tc.testInfoList[j].shouldRun
  }

  lemma OtherCasesHaveOtherTests(cases: seq<TestCase>, i: nat)
    requires Separate(cases) && ConsistentLists(cases) && i < |cases|
    ensures forall c, j :: 0 <= c < |cases| && c != i && 0 <= j < |cases[c].testInfoList| ==>
              cases[c] != cases[i] && cases[c].testInfoList[j] !in cases[i].testInfoList
  {
    assert forall c :: 0 <= c < |cases| && c != i ==> Names(cases)[c] != Names(cases)[i];
  }

  lemma SliceOfDistinct<T>(s: seq<T>, offset: nat, next: nat, slice: seq<T>)
    requires Distinct(s) && offset <= next <= |s| && s[offset..next] == slice
    ensures next == offset + |slice| && Distinct(slice)
    ensures forall k :: 0 <= k < offset ==> s[k] !in slice
    ensures forall k :: offset <= k < next ==> s[k] == slice[k - offset]
  {
  }

  lemma DecisionsOfCase(flags: Flags, tests: seq<TestInfo>, runnable: seq<bool>, offset: nat, next: nat,
                        list: seq<TestInfo>)
    returns (decisions: seq<bool>)
    requires Distinct(tests) && Decides(flags, tests, runnable)
    requires offset <= next <= |tests| && tests[offset..next] == list
    ensures next == offset + |list| <= |runnable| && decisions == runnable[offset..offset + |list|]
    ensures Distinct(list) && Decides(flags, list, decisions)
    ensures forall t :: t in tests[..offset] ==> t !in list
  {
    SliceOfDistinct(tests, offset, next, list);
    DecidesSlice(flags, tests, runnable, offset, list);
    decisions := runnable[offset..next];
  }

  /** One round of the outer loop, in terms of all the tests. */
  method FilterNextCase(tc: TestCase, flags: Flags, sharding: Sharding, runnableBefore: nat, selectedBefore: nat,
                        ghost tests: seq<TestInfo>, ghost runnable: seq<bool>, ghost selection: seq<bool>,
                        ghost offset: nat, ghost next: nat)
    returns (numRunnable: nat, numSelected: nat)
    requires Distinct(tests) && Decides(flags, tests, runnable) && sharding.Valid()
    requires Selects(runnable, sharding, selection)
    requires offset <= next <= |tests| && tests[offset..next] == tc.testInfoList
    requires runnableBefore == Rank(runnable, offset)
    requires selectedBefore == Rank(selection, offset)
    requires AreMarked(flags, tests[..offset], selection[..offset])
    modifies tc`shouldRun
    modifies tc.testInfoList`isDisabled, tc.testInfoList`matchesFilter, tc.testInfoList`shouldRun
    ensures numRunnable == Rank(runnable, next)
    ensures numSelected == Rank(selection, next)
    ensures AreMarked(flags, tests[..next], selection[..next])
    ensures CaseRunsIffATestDoes(tc)
  {
    assert |selection| == |runnable| == |tests|;
    hide IsMarked, AreMarked, Decides, Selects, Rank, Distinct, CaseRunsIffATestDoes;
    ghost var list := tc.testInfoList;
    ghost var front, before := tests[..offset], selection[..offset];
    ghost var decisions := DecisionsOfCase(flags, tests, runnable, offset, next, list);
    numRunnable, numSelected :=
      FilterTestsOfCase(tc, flags, sharding, runnableBefore, selectedBefore, runnable, selection, offset, list,
                        decisions);
    assert AreMarked(flags, front, before);
    MoreAreMarked(flags, tests, selection, offset, next);
  }

  /** The number of tests in the cases up to number `i`, of which `offset` come before it. */
  lemma TestsUpTo(cases: seq<TestCase>, i: nat, tests: seq<TestInfo>, offset: nat) returns (next: nat)
    requires i < |cases| && tests == AllTests(cases) && offset == |AllTests(cases[..i])|
    ensures next == |AllTests(cases[..i + 1])| && offset <= next <= |tests|
    ensures tests[offset..next] == cases[i].testInfoList
  {
    TestsOfPrefix(cases, i);
    next := offset + |cases[i].testInfoList|;
  }

  /** The same, by the number of the case. */
  method FilterCaseTests(tc: TestCase, ghost cases: seq<TestCase>, ghost i: nat, flags: Flags, sharding: Sharding,
                         runnableBefore: nat, selectedBefore: nat,
                         ghost tests: seq<TestInfo>, ghost runnable: seq<bool>, ghost selection: seq<bool>,
                         ghost offset: nat)
    returns (numRunnable: nat, numSelected: nat, ghost next: nat)
    requires i < |cases| && cases[i] == tc && tests == AllTests(cases)
    requires Distinct(tests) && Decides(flags, tests, runnable) && sharding.Valid()
    requires Selects(runnable, sharding, selection)
    requires offset == |AllTests(cases[..i])| <= |tests|
    requires runnableBefore == Rank(runnable, offset)
    requires selectedBefore == Rank(selection, offset)
    requires AreMarked(flags, tests[..offset], selection[..offset])
    modifies tc`shouldRun
    modifies tc.testInfoList`isDisabled, tc.testInfoList`matchesFilter, tc.testInfoList`shouldRun
    ensures AllTests(cases) == tests && next == |AllTests(cases[..i + 1])| <= |tests|
    ensures numRunnable == Rank(runnable, next)
    ensures numSelected == Rank(selection, next)
    ensures AreMarked(flags, tests[..next], selection[..next])
    ensures CaseRunsIffATestDoes(tc)
  {
    assert |selection| == |runnable| == |tests|;
    hide Decides, Selects, Rank, Distinct, AreMarked, AllTests, CaseRunsIffATestDoes;
    next := TestsUpTo(cases, i, tests, offset);
    numRunnable, numSelected :=
      FilterNextCase(tc, flags, sharding, runnableBefore, selectedBefore, tests, runnable, selection, offset, next);
  }

  /** The same, with the cases that come before. */
  method FilterCase(cases: seq<TestCase>, i: nat, flags: Flags, sharding: Sharding,
                    runnableBefore: nat, selectedBefore: nat,
                    ghost tests: seq<TestInfo>, ghost runnable: seq<bool>, ghost selection: seq<bool>,
                    ghost offset: nat)
    returns (numRunnable: nat, numSelected: nat, ghost next: nat)
    requires i < |cases| && Separate(cases) && ConsistentLists(cases) && tests == AllTests(cases)
    requires Distinct(tests) && Decides(flags, tests, runnable) && sharding.Valid()
    requires Selects(runnable, sharding, selection)
    requires offset == |AllTests(cases[..i])| <= |tests|
    requires runnableBefore == Rank(runnable, offset)
    requires selectedBefore == Rank(selection, offset)
    requires AreMarked(flags, tests[..offset], selection[..offset])
    requires forall c :: 0 <= c < i ==> CaseRunsIffATestDoes(cases[c])
    modifies {cases[i]}`shouldRun
    modifies tests`isDisabled, tests`matchesFilter, tests`shouldRun
    ensures ConsistentLists(cases) && AllTests(cases) == tests
    ensures next == |AllTests(cases[..i + 1])| <= |tests|
    ensures numRunnable == Rank(runnable, next)
    ensures numSelected == Rank(selection, next)
    ensures AreMarked(flags, tests[..next], selection[..next])
    ensures forall c :: 0 <= c <= i ==> CaseRunsIffATestDoes(cases[c])
  {
    assert |selection| == |runnable| == |tests|;
    hide Decides, Selects, Rank, AreMarked;
    OtherCasesHaveOtherTests(cases, i);
    CaseTestsAreTests(cases, i);
    numRunnable, numSelected, next :=
      FilterCaseTests(cases[i], cases, i, flags, sharding, runnableBefore, selectedBefore, tests, runnable, selection,
                      offset);
  }

  /** The outer loop. */
  method FilterCases(cases: seq<TestCase>, flags: Flags, sharding: Sharding,
                     ghost tests: seq<TestInfo>, ghost runnable: seq<bool>, ghost selection: seq<bool>)
    returns (numSelected: nat)
    requires Separate(cases) && ConsistentLists(cases) && tests == AllTests(cases)
    requires Distinct(tests) && Decides(flags, tests, runnable) && sharding.Valid()
    requires Selects(runnable, sharding, selection)
    modifies cases`shouldRun
    modifies tests`isDisabled, tests`matchesFilter, tests`shouldRun
    ensures forall k :: 0 <= k < |tests| ==> IsMarked(flags, tests[k], selection[k])
    ensures numSelected == Count(selection)
    ensures forall c :: 0 <= c < |cases| ==> CaseRunsIffATestDoes(cases[c])
  {
    var numRunnable := 0;
    numSelected := 0;
    ghost var offset := 0;
    for i := 0 to |cases|
      invariant ConsistentLists(cases) && AllTests(cases) == tests
      invariant offset == |AllTests(cases[..i])| <= |tests|
      invariant numRunnable == Rank(runnable, offset)
      invariant numSelected == Rank(selection, offset)
      invariant AreMarked(flags, tests[..offset], selection[..offset])
      invariant forall c :: 0 <= c < i ==> CaseRunsIffATestDoes(cases[c])
    {
      numRunnable, numSelected, offset :=
        FilterCase(cases, i, flags, sharding, numRunnable, numSelected, tests, runnable, selection, offset);
    }
    assert cases[..|cases|] == cases;
    assert tests[..offset] == tests && selection[..offset] == selection;
  }

  /** Exactly the selected tests should run, the result is their number, and a test case
      should run exactly when one of its tests does. */
  method FilterTests(cases: seq<TestCase>, flags: Flags, sharding: Sharding)
    returns (numSelected: nat, ghost tests: seq<TestInfo>, ghost runnable: seq<bool>)
    requires Separate(cases) && AllValid(cases) && sharding.Valid()
    modifies cases`shouldRun
    modifies AllTests(cases)`isDisabled, AllTests(cases)`matchesFilter, AllTests(cases)`shouldRun
    ensures AllValid(cases) && (old(TestsUnshuffled(cases)) ==> TestsUnshuffled(cases))
    ensures tests == old(AllTests(cases)) == AllTests(cases) && Decides(flags, tests, runnable)
    ensures forall k :: 0 <= k < |tests| ==> IsMarked(flags, tests[k], Selection(runnable, sharding)[k])
    ensures numSelected == Count(Selection(runnable, sharding))
    ensures forall c :: 0 <= c < |cases| ==> CaseRunsIffATestDoes(cases[c])
  {
    hide Decides, Selects, Rank, Count, Distinct, ConsistentLists, Separate, IsMarked;
    tests := AllTests(cases);
    runnable := DecisionsExist(flags, tests);
    TestsAreDistinct(cases);
    ListsAreConsistent(cases);
    numSelected := FilterCases(cases, flags, sharding, tests, runnable, Selection(runnable, sharding));
  }

  lemma ListsAreConsistent(cases: seq<TestCase>)
    requires AllValid(cases)
    ensures ConsistentLists(cases)
  {
    assert forall c :: 0 <= c < |cases| ==> IndexVectors(cases)[c] == cases[c].testIndices && cases[c].Valid();
  }
}
