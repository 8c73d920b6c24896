/** The registry of test cases and tests: registration, shuffling, unshuffling and the
    order in which an iteration runs the tests. */
module UnitTests {
  import opened Basics
  import opened NamingConventions
  import opened Permutations
  import opened Picks
  import opened Schedules
  import opened Shuffles

  /** The element at index `i`, or the default when there is no such index. */
  function GetElementOr<E>(v: seq<E>, i: int, default: E): E {
    if i < 0 || i >= |v| then default else v[i]
  }

  /** The loop of both `UnshuffleTests` methods. */
  method SetToIdentity(v: Vector<int>)
    modifies v`elems
    ensures v.elems == Range(0, |old(v.elems)|)
  {
    var i := 0;
    while i < |v.elems|
      invariant 0 <= i <= |v.elems| == |old(v.elems)|
      invariant v.elems[..i] == Range(0, i)
    {
      v.elems := v.elems[i := i];
      assert v.elems[..i + 1] == v.elems[..i] + [i];
      i := i + 1;
    }
    assert v.elems[..i] == v.elems;
  }

  class TestInfo {
    const testCaseName: string
    const name: string
    var isDisabled: bool
    var matchesFilter: bool
    var shouldRun: bool

    constructor (testCaseName: string, name: string)
      ensures this.testCaseName == testCaseName && this.name == name
    {
      this.testCaseName, this.name := testCaseName, name;
      isDisabled, matchesFilter, shouldRun := false, false, false;
    }

    /** A test that should not run returns at once; `ran` tells whether the test ran. */
    method Run() returns (ran: bool)
      ensures ran == shouldRun
    {
      if !shouldRun {
        return false;
      }
      return true;
    }
  }

  /** The tests, each with its mark. */
  ghost function Marks(tests: seq<TestInfo>): (marked: seq<(TestInfo, bool)>)
    reads tests`shouldRun
    ensures |marked| == |tests| && forall k :: 0 <= k < |tests| ==> marked[k] == (tests[k], tests[k].shouldRun)
  {
    if tests == [] then []
    else
      var last := tests[|tests| - 1];
      Marks(tests[..|tests| - 1]) + [(last, last.shouldRun)]
  }

  /** The tests of a case, those marked that it runs. */
  ghost function DueMarks(tc: TestCase): (marked: seq<(TestInfo, bool)>)
    reads tc`shouldRun, tc`testInfoList, tc.testInfoList`shouldRun
    ensures |marked| == |tc.testInfoList|
    ensures forall k :: 0 <= k < |marked| ==>
              marked[k] == (tc.testInfoList[k], tc.shouldRun && tc.testInfoList[k].shouldRun)
  {
    if tc.shouldRun then Marks(tc.testInfoList)
    else Zip(tc.testInfoList, seq(|tc.testInfoList|, _ => false))
  }

  // ----- a test case -----

  class TestCase {
    const name: string
    const testIndices: Vector<int>
    ghost const isDeathTestCase: bool
    var testInfoList: seq<TestInfo>
    var shouldRun: bool

    ghost predicate Valid()
      reads this`testInfoList, testIndices`elems
    {
      && |testInfoList| <= MAX_RANGE
      && PermutationOf(testIndices.elems, 0, |testInfoList|)
      && Distinct(testInfoList)
      && forall k :: 0 <= k < |testInfoList| ==> testInfoList[k].testCaseName == name
    }

    /** The tests run in the order of their registration. */
    ghost predicate InOrder()
      reads this`testInfoList, testIndices`elems
    {
      testIndices.elems == Range(0, |testInfoList|)
    }

    constructor (name: string)
      ensures Valid() && this.name == name && testInfoList == [] && !shouldRun
      ensures isDeathTestCase == IsDeathTestCase(name)
      ensures fresh(testIndices) && testIndices.elems == []
    {
      this.name := name;
      isDeathTestCase := IsDeathTestCase(name);
      testInfoList := [];
      testIndices := new Vector();
      shouldRun := false;
      new;
      assert Range(0, 0) == [];
    }

    method AddTestInfo(testInfo: TestInfo)
      requires Valid() && |testInfoList| < MAX_RANGE
      requires testInfo.testCaseName == name && testInfo !in testInfoList
      modifies this`testInfoList, testIndices`elems
      ensures Valid()
      ensures testInfoList == old(testInfoList) + [testInfo]
      ensures testIndices.elems == old(testIndices.elems) + [|old(testInfoList)|]
    {
      PermutationMembers(testIndices.elems, 0, |testInfoList|);
      assert Range(0, |testInfoList| + 1) == Range(0, |testInfoList|) + [|testInfoList|];
      testInfoList := testInfoList + [testInfo];
      testIndices.PushBack(|testIndices.elems|);
    }

    method GetMutableTestInfo(i: int) returns (info: TestInfo?)
      requires Valid()
      ensures info == if 0 <= i < |testInfoList| then ByIndex(testInfoList, testIndices.elems)[i] else null
    {
      PermutationMembers(testIndices.elems, 0, |testInfoList|);
      var index := GetElementOr(testIndices.elems, i, -1);
      info := if index < 0 then null else testInfoList[index];
    }

    method ShuffleTests(random: Random)
      requires Valid() && random.Valid()
      modifies random`state, testIndices`elems
      ensures Valid() && random.Valid()
      ensures random.state == StateAfter(old(random.state), NumberOfChoices(|old(testIndices.elems)|))
      ensures testIndices.elems == ShuffledOnce(old(testIndices.elems), old(random.state))
    {
      ShuffledIsPermutation(testIndices.elems, random.state, |testInfoList|);
      ghost var choices := Shuffle(random, testIndices);
    }

    method UnshuffleTests()
      requires Valid()
      modifies testIndices`elems
      ensures Valid() && InOrder()
    {
      PermutationMembers(testIndices.elems, 0, |testInfoList|);
      SetToIdentity(testIndices);
    }

    /** Runs the tests that should run, each exactly once and in the order of the index
        vector, if the case should run. */
    method Run() returns (ran: seq<TestInfo>)
      requires Valid()
      ensures ran == if shouldRun then Picked(Marks(ByIndex(testInfoList, testIndices.elems))) else []
      ensures shouldRun ==> multiset(ran) == multiset(Picked(Marks(testInfoList)))
      ensures shouldRun && InOrder() ==> ran == Picked(Marks(testInfoList))
    {
      if !shouldRun {
        return [];
      }
      ran := RunEachTest();
      MarksByIndex(testInfoList, testIndices.elems);
      assert InOrder() ==> ByIndex(testInfoList, testIndices.elems) == testInfoList;
    }

    /** The loop over the tests. */
    method RunEachTest() returns (ran: seq<TestInfo>)
      requires Valid()
      ensures ran == Picked(Marks(ByIndex(testInfoList, testIndices.elems)))
    {
      ran := [];
      ghost var visits := ByIndex(testInfoList, testIndices.elems);
      ghost var marked := Marks(visits);
      for i := 0 to |testInfoList|
        invariant ran == Picked(marked[..i])
      {
        var info := GetMutableTestInfo(i);
        var hasRun := info.Run();
        PickedNext(marked, i);
        if hasRun {
          ran := ran + [info];
        }
      }
      assert marked[..|marked|] == marked == Marks(visits);
    }
  }

  /** Going through the tests in another order picks the same ones. */
  lemma MarksByIndex(tests: seq<TestInfo>, order: seq<int>)
    requires PermutationOf(order, 0, |tests|)
    ensures Marks(ByIndex(tests, order)) == ByIndex(Marks(tests), order)
    ensures multiset(Picked(Marks(ByIndex(tests, order)))) == multiset(Picked(Marks(tests)))
  {
    hide PermutationOf, Picked;
    PermutationMembers(order, 0, |tests|);
    PermutationVisitsEverything(Marks(tests), order);
    assert Marks(ByIndex(tests, order)) == ByIndex(Marks(tests), order);
    SamePicks(Marks(ByIndex(tests, order)), Marks(tests));
  }

  /** What a case runs is picked from what is due in it. */
  lemma RunOfDue(tc: TestCase, order: seq<int>)
    requires PermutationOf(order, 0, |tc.testInfoList|)
    ensures Picked(ByIndex(DueMarks(tc), order))
            == if tc.shouldRun then Picked(Marks(ByIndex(tc.testInfoList, order))) else []
  {
    PermutationMembers(order, 0, |tc.testInfoList|);
    if tc.shouldRun {
      MarksByIndex(tc.testInfoList, order);
    } else {
      NothingPicked(ByIndex(DueMarks(tc), order));
    }
  }

  // ----- sequences of test cases -----

  /** What `std::vector::insert` does to the elements. */
  function Inserted<T>(s: seq<T>, place: nat, x: T): (t: seq<T>)
    requires place <= |s|
    ensures |t| == |s| + 1
    ensures forall k :: 0 <= k < |t| ==> t[k] == if k < place then s[k] else if k == place then x else s[k - 1]
  {
    s[..place] + [x] + s[place..]
  }

  lemma DistinctInserted<T>(s: seq<T>, place: nat, x: T)
    requires place <= |s| && Distinct(s) && x !in s
    ensures Distinct(Inserted(s, place, x))
  {
  }

  ghost function Names(cases: seq<TestCase>): (names: seq<string>)
    ensures |names| == |cases| && forall k :: 0 <= k < |cases| ==> names[k] == cases[k].name
  {
    seq(|cases|, k requires 0 <= k < |cases| => cases[k].name)
  }

  ghost function IndexVectors(cases: seq<TestCase>): (vectors: seq<Vector<int>>)
    ensures |vectors| == |cases| && forall k :: 0 <= k < |cases| ==> vectors[k] == cases[k].testIndices
  {
    seq(|cases|, k requires 0 <= k < |cases| => cases[k].testIndices)
  }

  ghost function Contents(vectors: seq<Vector<int>>): (contents: seq<seq<int>>)
    reads vectors`elems
    ensures |contents| == |vectors| && forall k :: 0 <= k < |vectors| ==> contents[k] == vectors[k].elems
  {
    if vectors == [] then []
    else Contents(vectors[..|vectors| - 1]) + [vectors[|vectors| - 1].elems]
  }

  lemma VectorOfMember(cases: seq<TestCase>, tc: TestCase)
    requires tc in cases
    ensures tc.testIndices in IndexVectors(cases)
  {
    var k :| 0 <= k < |cases| && cases[k] == tc;
    assert IndexVectors(cases)[k] == tc.testIndices;
  }

  /** Test cases with names and index vectors of their own. */
  ghost predicate Separate(cases: seq<TestCase>) {
    |cases| <= MAX_RANGE && Distinct(Names(cases)) && Distinct(IndexVectors(cases))
  }

  /** Every test case knows whether its name makes it a death test case. */
  ghost predicate Classified(cases: seq<TestCase>) {
    forall tc :: tc in cases ==> tc.isDeathTestCase == IsDeathTestCase(tc.name)
  }

  /** The death test cases are the first `d` ones. */
  ghost predicate DeathTestsFirst(cases: seq<TestCase>, d: int) {
    0 <= d <= |cases| && forall k :: 0 <= k < |cases| ==> (cases[k].isDeathTestCase <==> k < d)
  }

  lemma InsertedMembers(cases: seq<TestCase>, place: nat, tc: TestCase)
    requires place <= |cases|
    requires Classified(cases) && tc.isDeathTestCase == IsDeathTestCase(tc.name)
    ensures tc in Inserted(cases, place, tc) && Classified(Inserted(cases, place, tc))
  {
    assert Inserted(cases, place, tc)[place] == tc;
  }

  lemma InsertedSeparate(cases: seq<TestCase>, place: nat, tc: TestCase)
    requires Separate(cases) && place <= |cases| < MAX_RANGE
    requires tc.name !in Names(cases) && tc.testIndices !in IndexVectors(cases)
    ensures Separate(Inserted(cases, place, tc))
    ensures forall v :: v !in IndexVectors(cases) && v != tc.testIndices ==>
              v !in IndexVectors(Inserted(cases, place, tc))
  {
    var now := Inserted(cases, place, tc);
    DistinctInserted(Names(cases), place, tc.name);
    assert Names(now) == Inserted(Names(cases), place, tc.name);
    DistinctInserted(IndexVectors(cases), place, tc.testIndices);
    assert IndexVectors(now) == Inserted(IndexVectors(cases), place, tc.testIndices);
  }

  ghost predicate AllValid(cases: seq<TestCase>)
    reads cases`testInfoList, IndexVectors(cases)`elems
  {
    forall k :: 0 <= k < |cases| ==> IndexVectors(cases)[k] == cases[k].testIndices && cases[k].Valid()
  }

  lemma InsertedValid(cases: seq<TestCase>, place: nat, tc: TestCase)
    requires AllValid(cases) && place <= |cases| && tc.Valid()
    ensures AllValid(Inserted(cases, place, tc))
  {
  }

  lemma InsertedKeepsDeathTestsFirst(cases: seq<TestCase>, d: nat, tc: TestCase)
    requires DeathTestsFirst(cases, d)
    ensures if tc.isDeathTestCase then DeathTestsFirst(Inserted(cases, d, tc), d + 1)
            else DeathTestsFirst(Inserted(cases, |cases|, tc), d)
  {
  }

  lemma EmptyRegistry()
    ensures Separate([]) && Classified([]) && DeathTestsFirst([], 0) && AllValid([]) && IndexVectors([]) == []
    ensures Range(0, 0) == [] && OrderedIndices([], 0, 0)
  {
    IdentityIsOrdered(0, 0);
    assert Range(0, 0) == [];
  }

  // ----- the registry -----

  class UnitTestImpl {
    const testCaseIndices: Vector<int>
    var testCases: seq<TestCase>
    var lastDeathTestCase: int

    /** The index vector permutes the death test cases, which come first, among themselves
        and the other test cases among themselves. */
    ghost predicate ValidOrder()
      reads this`testCases, this`lastDeathTestCase, testCaseIndices`elems
    {
      && Separate(testCases)
      && testCaseIndices !in IndexVectors(testCases)
      && DeathTestsFirst(testCases, lastDeathTestCase + 1)
      && OrderedIndices(testCaseIndices.elems, lastDeathTestCase + 1, |testCases|)
    }

    ghost predicate Unshuffled()
      reads this`testCases, testCaseIndices`elems
    {
      testCaseIndices.elems == Range(0, |testCases|)
    }

    /** The order in which the cases and the tests in every case would run now. */
    ghost function Current(): Schedule
      reads this`testCases, testCaseIndices`elems, IndexVectors(testCases)`elems
    {
      Schedule(testCaseIndices.elems, Contents(IndexVectors(testCases)))
    }

    constructor ()
      ensures ValidOrder() && AllValid(testCases) && Unshuffled() && testCases == []
      ensures Classified(testCases)
    {
      testCases := [];
      testCaseIndices := new Vector();
      lastDeathTestCase := -1;
      new;
      hide OrderedIndices, Separate, Classified, DeathTestsFirst, AllValid, IndexVectors, Range;
      EmptyRegistry();
    }

    method FindTestCase(name: string) returns (i: nat)
      ensures i <= |testCases| && forall k :: 0 <= k < i ==> testCases[k].name != name
      ensures i < |testCases| ==> testCases[i].name == name
      ensures name in Names(testCases) <==> i < |testCases|
    {
      i := 0;
      while i < |testCases| && testCases[i].name != name
        invariant i <= |testCases|
        invariant forall k :: 0 <= k < i ==> testCases[k].name != name
      {
        i := i + 1;
      }
      assert i < |testCases| ==> Names(testCases)[i] == name;
    }

    /** Finds the test case of that name, or makes one: behind the last death test case if it
        is one itself, behind all test cases otherwise. */
    method GetTestCase(name: string) returns (tc: TestCase)
      requires ValidOrder() && AllValid(testCases) && Unshuffled() && |testCases| < MAX_RANGE
      requires Classified(testCases)
      modifies this, testCaseIndices`elems
      ensures ValidOrder() && AllValid(testCases) && Unshuffled() && Classified(testCases)
      ensures tc in testCases && tc.name == name && tc.testIndices in IndexVectors(testCases)
      ensures if name in Names(old(testCases)) then testCases == old(testCases) && tc in old(testCases)
              else
                && fresh(tc) && fresh(tc.testIndices) && tc.testInfoList == []
                && var place := if tc.isDeathTestCase then old(lastDeathTestCase) + 1 else |old(testCases)|;
                   testCases == Inserted(old(testCases), place, tc)
    {
      hide OrderedIndices, PermutationOf, DeathTestsFirst, Separate;
      var found := FindTestCase(name);
      if found < |testCases| {
        tc := testCases[found];
      } else {
        tc := AddTestCase(name);
      }
      VectorOfMember(testCases, tc);
    }

    /** A test case outside the registry, and whether it is a death test case. */
    method NewTestCase(name: string) returns (tc: TestCase, isDeathTestCase: bool)
      requires ValidOrder() && AllValid(testCases) && Unshuffled()
      ensures ValidOrder() && AllValid(testCases) && Unshuffled()
      ensures tc.Valid() && tc.name == name && tc.testInfoList == []
      ensures isDeathTestCase == tc.isDeathTestCase == IsDeathTestCase(name)
      ensures fresh(tc) && fresh(tc.testIndices)
      ensures tc.testIndices !in IndexVectors(testCases) && tc.testIndices != testCaseIndices
    {
      ghost var vectors := IndexVectors(testCases);
      tc := new TestCase(name);
      isDeathTestCase := NamesADeathTestCase(name);
      assert forall v :: v in vectors ==> old(allocated(v));
    }

    method AddTestCase(name: string) returns (tc: TestCase)
      requires ValidOrder() && AllValid(testCases) && Unshuffled() && |testCases| < MAX_RANGE
      requires name !in Names(testCases) && Classified(testCases)
      modifies this, testCaseIndices`elems
      ensures ValidOrder() && AllValid(testCases) && Unshuffled() && Classified(testCases)
      ensures fresh(tc) && fresh(tc.testIndices) && tc.name == name && tc.testInfoList == []
      ensures tc in testCases
      ensures testCases == Inserted(old(testCases),
                                    if tc.isDeathTestCase then old(lastDeathTestCase) + 1 else |old(testCases)|, tc)
    {
      hide OrderedIndices, PermutationOf;
      var isDeathTestCase;
      tc, isDeathTestCase := NewTestCase(name);
      ghost var before, place := testCases, if isDeathTestCase then lastDeathTestCase + 1 else |testCases|;
      InsertTestCase(tc, isDeathTestCase);
      assert AllValid(before) && tc.Valid();
      InsertedValid(before, place, tc);
      InsertedMembers(before, place, tc);
    }

    method InsertTestCase(tc: TestCase, isDeathTestCase: bool)
      requires ValidOrder() && Unshuffled() && |testCases| < MAX_RANGE
      requires tc.name !in Names(testCases) && tc.testIndices !in IndexVectors(testCases)
      requires tc.testIndices != testCaseIndices && isDeathTestCase == tc.isDeathTestCase
      modifies this, testCaseIndices`elems
      ensures ValidOrder() && Unshuffled()
      ensures testCases == Inserted(old(testCases),
                                    if isDeathTestCase then old(lastDeathTestCase) + 1 else |old(testCases)|, tc)
    {
      hide OrderedIndices, PermutationOf;
      ghost var d, place := lastDeathTestCase + 1, if isDeathTestCase then lastDeathTestCase + 1 else |testCases|;
      ghost var now := Inserted(testCases, place, tc);
      InsertedKeepsDeathTestsFirst(testCases, d, tc);
      InsertedSeparate(testCases, place, tc);
      if isDeathTestCase {
        lastDeathTestCase := lastDeathTestCase + 1;
        testCases := testCases[..lastDeathTestCase] + [tc] + testCases[lastDeathTestCase..];
      } else {
        testCases := testCases + [tc];
      }
      assert testCases == now;
      testCaseIndices.PushBack(|testCaseIndices.elems|);
      assert testCaseIndices.elems == Range(0, |testCases|);
      IdentityIsOrdered(lastDeathTestCase + 1, |testCases|);
    }

    /** Registers a test under the name of its test case: it becomes the last test of that
        case, and everything registered before stays. */
    method AddTestInfo(testInfo: TestInfo) returns (ghost tc: TestCase)
      requires ValidOrder() && AllValid(testCases) && Unshuffled() && |testCases| < MAX_RANGE
      requires Classified(testCases)
      requires forall c :: c in testCases ==> |c.testInfoList| < MAX_RANGE && testInfo !in c.testInfoList
      modifies this, testCaseIndices`elems, testCases`testInfoList, IndexVectors(testCases)`elems
      ensures tc in testCases && tc.name == testInfo.testCaseName
      ensures if testInfo.testCaseName in Names(old(testCases)) then
                && testCases == old(testCases) && tc in old(testCases)
                && tc.testInfoList == old(tc.testInfoList) + [testInfo]
              else
                && fresh(tc) && tc.testInfoList == [testInfo]
                && var place := if tc.isDeathTestCase then old(lastDeathTestCase) + 1 else |old(testCases)|;
                   testCases == Inserted(old(testCases), place, tc)
      ensures forall c :: c in old(testCases) && c != tc ==> c.testInfoList == old(c.testInfoList)
      ensures ValidOrder() && AllValid(testCases) && Unshuffled() && Classified(testCases)
    {
      hide OrderedIndices, DeathTestsFirst, PermutationOf;
      var c := GetTestCase(testInfo.testCaseName);
      tc := c;
      AddTestTo(c, testInfo, testCases);
      assert ValidOrder();
    }

    static method AddTestTo(tc: TestCase, testInfo: TestInfo, ghost cases: seq<TestCase>)
      requires Separate(cases) && AllValid(cases) && tc in cases
      requires |tc.testInfoList| < MAX_RANGE && testInfo !in tc.testInfoList && testInfo.testCaseName == tc.name
      modifies tc`testInfoList, tc.testIndices`elems
      ensures AllValid(cases) && tc.testInfoList == old(tc.testInfoList) + [testInfo]
    {
      ghost var k :| 0 <= k < |cases| && cases[k] == tc;
      assert forall j :: 0 <= j < |cases| && j != k ==>
               Names(cases)[j] != Names(cases)[k] && IndexVectors(cases)[j] != IndexVectors(cases)[k];
      tc.AddTestInfo(testInfo);
    }

    method GetMutableTestCase(i: int) returns (tc: TestCase?)
      requires PermutationOf(testCaseIndices.elems, 0, |testCases|)
      ensures tc == if 0 <= i < |testCases| then ByIndex(testCases, testCaseIndices.elems)[i] else null
    {
      PermutationMembers(testCaseIndices.elems, 0, |testCases|);
      var index := GetElementOr(testCaseIndices.elems, i, -1);
      tc := if index < 0 then null else testCases[index];
    }

    method ShuffleTests(random: Random)
      requires ValidOrder() && AllValid(testCases) && random.Valid()
      modifies random`state, testCaseIndices`elems, IndexVectors(testCases)`elems
      ensures ValidOrder() && AllValid(testCases) && random.Valid()
      ensures Current() == ShuffledSchedule(old(Current()), lastDeathTestCase + 1, old(random.state))
    {
      hide OrderedIndices, PermutationOf, DeathTestsFirst, Separate, ShuffledInParts, ShuffledEach, StateAfter;
      hide Contents;
      ShuffleCaseIndices(random);
      ShuffleTestIndices(random);
    }

    method ShuffleCaseIndices(random: Random)
      requires ValidOrder() && AllValid(testCases) && random.Valid()
      modifies random`state, testCaseIndices`elems
      ensures ValidOrder() && AllValid(testCases) && random.Valid()
      ensures Contents(IndexVectors(testCases)) == old(Contents(IndexVectors(testCases)))
      ensures testCaseIndices.elems
              == ShuffledInParts(old(testCaseIndices.elems), lastDeathTestCase + 1, old(random.state))
      ensures var d := lastDeathTestCase + 1;
              random.state
              == StateAfter(old(random.state), NumberOfChoices(d) + NumberOfChoices(|old(testCaseIndices.elems)| - d))
    {
      hide PermutationOf, DeathTestsFirst, ShuffledInParts, StateAfter;
      ShuffleTestCases(random, lastDeathTestCase + 1, |testCases|, testCaseIndices);
    }

    method ShuffleTestIndices(random: Random)
      requires ValidOrder() && AllValid(testCases) && random.Valid()
      modifies random`state, IndexVectors(testCases)`elems
      ensures ValidOrder() && AllValid(testCases) && random.Valid()
      ensures testCaseIndices.elems == old(testCaseIndices.elems)
      ensures Contents(IndexVectors(testCases))
              == ShuffledEach(old(Contents(IndexVectors(testCases))), old(random.state))
    {
      hide OrderedIndices, PermutationOf, DeathTestsFirst, ShuffledEach, Contents;
      ShuffleTestsInside(random, testCases);
    }

    static method ShuffleTestCases(random: Random, d: int, n: int, indices: Vector<int>)
      requires OrderedIndices(indices.elems, d, n) && n <= MAX_RANGE && random.Valid()
      modifies random`state, indices`elems
      ensures OrderedIndices(indices.elems, d, n) && random.Valid()
      ensures indices.elems == ShuffledInParts(old(indices.elems), d, old(random.state))
      ensures random.state == StateAfter(old(random.state), NumberOfChoices(d) + NumberOfChoices(n - d))
    {
      ghost var state := random.state;
      ShuffledInPartsStaysOrdered(indices.elems, d, n, state);
      StateAfterTwice(state, NumberOfChoices(d), NumberOfChoices(n - d));
      hide PermutationOf, Drawn, Shuffled, StateAfter;
      ghost var c1 := ShuffleRange(random, 0, d, indices);
      ghost var c2 := ShuffleRange(random, d, n, indices);
    }

    static method ShuffleTestsInside(random: Random, cases: seq<TestCase>)
      requires Separate(cases) && AllValid(cases) && random.Valid()
      modifies random`state, IndexVectors(cases)`elems
      ensures AllValid(cases) && random.Valid()
      ensures Contents(IndexVectors(cases)) == ShuffledEach(old(Contents(IndexVectors(cases))), old(random.state))
    {
      ghost var before, state := Contents(IndexVectors(cases)), random.state;
      AllShuffled(before, state);
      for i := 0 to |cases|
        invariant AllValid(cases) && random.Valid()
        invariant AreShuffled(before, i, state, Contents(IndexVectors(cases)), random.state)
      {
        ShuffleNext(random, cases, i, before, state);
      }
    }

    static method ShuffleNext(random: Random, cases: seq<TestCase>, i: nat, ghost before: seq<seq<int>>,
                              ghost state: nat)
      requires Separate(cases) && AllValid(cases) && random.Valid() && i < |cases| == |before|
      requires AreShuffled(before, i, state, Contents(IndexVectors(cases)), random.state)
      modifies random`state, IndexVectors(cases)`elems
      ensures AllValid(cases) && random.Valid()
      ensures AreShuffled(before, i + 1, state, Contents(IndexVectors(cases)), random.state)
    {
      hide PermutationOf, ShuffledEach, ShuffledSoFar, DrawsFor, StateAfter, Separate, Contents, AllValid;
      OneMoreShuffled(before, i, state);
      ShuffleOne(random, cases, i);
    }

    static method ShuffleOne(random: Random, cases: seq<TestCase>, i: nat)
      requires Separate(cases) && AllValid(cases) && random.Valid() && i < |cases|
      modifies random`state, IndexVectors(cases)[i..i + 1]`elems
      ensures AllValid(cases) && random.Valid()
      ensures var before := old(Contents(IndexVectors(cases)));
              && Contents(IndexVectors(cases)) == before[i := ShuffledOnce(before[i], old(random.state))]
              && random.state == StateAfter(old(random.state), NumberOfChoices(|before[i]|))
    {
      hide PermutationOf, ShuffledOnce, StateAfter;
      assert forall k :: 0 <= k < |cases| && k != i ==> IndexVectors(cases)[k] != IndexVectors(cases)[i];
      cases[i].ShuffleTests(random);
    }

    method UnshuffleTests()
      requires ValidOrder() && AllValid(testCases)
      modifies testCaseIndices`elems, IndexVectors(testCases)`elems
      ensures ValidOrder() && AllValid(testCases)
      ensures Unshuffled() && TestsUnshuffled(testCases)
    {
      UnshuffleAll(testCases, testCaseIndices);
      IdentityIsOrdered(lastDeathTestCase + 1, |testCases|);
    }

    static method UnshuffleAll(cases: seq<TestCase>, indices: Vector<int>)
      requires Separate(cases) && AllValid(cases)
      requires indices !in IndexVectors(cases) && |indices.elems| == |cases|
      modifies indices`elems, IndexVectors(cases)`elems
      ensures AllValid(cases) && TestsUnshuffled(cases) && indices.elems == Range(0, |cases|)
    {
      for i := 0 to |cases|
        invariant AllValid(cases) && InOrderUpTo(cases, i)
        invariant |indices.elems| == |cases| && forall k :: 0 <= k < i ==> indices.elems[k] == k
      {
        UnshuffleOne(cases, i, indices);
      }
    }

    static method UnshuffleOne(cases: seq<TestCase>, i: nat, indices: Vector<int>)
      requires Separate(cases) && AllValid(cases) && i < |cases| && InOrderUpTo(cases, i)
      requires indices !in IndexVectors(cases) && |indices.elems| == |cases|
      modifies indices`elems, IndexVectors(cases)[i..i + 1]`elems
      ensures AllValid(cases) && InOrderUpTo(cases, i + 1)
      ensures indices.elems == old(indices.elems)[i := i]
    {
      assert forall k :: 0 <= k < |cases| && k != i ==> IndexVectors(cases)[k] != IndexVectors(cases)[i];
      cases[i].UnshuffleTests();
      indices.elems := indices.elems[i := i];
    }

    /** The schedule visits what is due in every case. */
    lemma CurrentFits(plan: Plan)
      requires ValidOrder() && AllValid(testCases) && plan.Fits(testCases)
      ensures Current().Fits(plan.marks)
    {
      OrderedIsPermutation(testCaseIndices.elems, lastDeathTestCase + 1, |testCases|);
    }

    /** One pass of the run loop: it visits the test cases in the order of the schedule, all
        death test cases before the others, and runs in each the tests that are due. */
    method RunTestCases(ghost plan: Plan, ghost s: Schedule)
      returns (visited: seq<TestCase>, ran: seq<seq<TestInfo>>)
      requires ValidOrder() && AllValid(testCases) && plan.Fits(testCases)
      requires s == Current() && s.Fits(plan.marks)
      ensures ValidOrder() && AllValid(testCases) && plan.Fits(testCases)
      ensures visited == ByIndex(testCases, s.cases) && ran == Runs(s, plan.marks)
      ensures |visited| == |testCases| && multiset(visited) == multiset(testCases)
      ensures forall k :: 0 <= k < |visited| ==> (visited[k].isDeathTestCase <==> k <= lastDeathTestCase)
    {
      hide OrderedIndices, PermutationOf, DeathTestsFirst, Runs;
      VisitsDeathTestsFirst(testCases, s.cases, lastDeathTestCase + 1);
      visited, ran := VisitTestCases(plan, s);
    }

    /** One iteration of `RunAllTests`. It shuffles the tests only if it is asked to; whatever
        the order it ran them in, it leaves them in the order of their registration. */
    method RunIteration(random: Random, hasTestsToRun: bool, shuffle: bool, seed: nat, ghost plan: Plan)
      returns (visited: seq<TestCase>, ran: seq<seq<TestInfo>>, ghost s: Schedule)
      requires ValidOrder() && AllValid(testCases) && random.Valid() && seed < TWO_TO_32 && plan.Fits(testCases)
      modifies random`state, testCaseIndices`elems, IndexVectors(testCases)`elems
      ensures ValidOrder() && AllValid(testCases) && random.Valid() && plan.Fits(testCases)
      ensures Unshuffled() && TestsUnshuffled(testCases)
      ensures !(hasTestsToRun && shuffle) ==> random.state == old(random.state)
      ensures s == ScheduleFor(old(Current()), hasTestsToRun && shuffle, lastDeathTestCase + 1, seed)
      ensures s.Fits(plan.marks) && OrderedIndices(s.cases, lastDeathTestCase + 1, |testCases|)
      ensures if hasTestsToRun then visited == ByIndex(testCases, s.cases) && ran == Runs(s, plan.marks)
              else visited == [] && ran == []
      ensures multiset(visited) == if hasTestsToRun then multiset(testCases) else multiset{}
      ensures forall k :: 0 <= k < |visited| ==> (visited[k].isDeathTestCase <==> k <= lastDeathTestCase)
    {
      hide OrderedIndices, PermutationOf, DeathTestsFirst, Separate, ScheduleFor, Schedule.Fits, Runs, Contents;
      hide Plan.Fits, AllValid, TestsUnshuffled, ByIndex;
      visited, ran, s := RunInSomeOrder(random, hasTestsToRun, shuffle, seed, plan);
      UnshuffleAfterRun(random, plan);
    }

    method UnshuffleAfterRun(ghost random: Random, ghost plan: Plan)
      requires ValidOrder() && AllValid(testCases) && random.Valid() && plan.Fits(testCases)
      modifies testCaseIndices`elems, IndexVectors(testCases)`elems
      ensures ValidOrder() && AllValid(testCases) && random.Valid() && plan.Fits(testCases)
      ensures random.state == old(random.state)
      ensures Unshuffled() && TestsUnshuffled(testCases)
    {
      UnshuffleTests();
    }

    method RunInSomeOrder(random: Random, hasTestsToRun: bool, shuffle: bool, seed: nat, ghost plan: Plan)
      returns (visited: seq<TestCase>, ran: seq<seq<TestInfo>>, ghost s: Schedule)
      requires ValidOrder() && AllValid(testCases) && random.Valid() && seed < TWO_TO_32 && plan.Fits(testCases)
      modifies random`state, testCaseIndices`elems, IndexVectors(testCases)`elems
      ensures ValidOrder() && AllValid(testCases) && random.Valid() && plan.Fits(testCases)
      ensures !(hasTestsToRun && shuffle) ==> random.state == old(random.state)
      ensures s == ScheduleFor(old(Current()), hasTestsToRun && shuffle, lastDeathTestCase + 1, seed)
      ensures s.Fits(plan.marks) && OrderedIndices(s.cases, lastDeathTestCase + 1, |testCases|)
      ensures if hasTestsToRun then visited == ByIndex(testCases, s.cases) && ran == Runs(s, plan.marks)
              else visited == [] && ran == []
      ensures multiset(visited) == if hasTestsToRun then multiset(testCases) else multiset{}
      ensures forall k :: 0 <= k < |visited| ==> (visited[k].isDeathTestCase <==> k <= lastDeathTestCase)
    {
      hide OrderedIndices, PermutationOf, DeathTestsFirst, ScheduleFor, Schedule.Fits, Runs, Contents;
      ShuffleIfRequested(random, hasTestsToRun, shuffle, seed, plan);
      CurrentFits(plan);
      s := Current();
      visited, ran := [], [];
      if hasTestsToRun {
        visited, ran := RunTestCases(plan, s);
      }
    }

    /** Reseeds the generator and shuffles, if there is anything to run and it is requested. */
    method ShuffleIfRequested(random: Random, hasTestsToRun: bool, shuffle: bool, seed: nat, ghost plan: Plan)
      requires ValidOrder() && AllValid(testCases) && random.Valid() && seed < TWO_TO_32 && plan.Fits(testCases)
      modifies random`state, testCaseIndices`elems, IndexVectors(testCases)`elems
      ensures ValidOrder() && AllValid(testCases) && random.Valid() && plan.Fits(testCases)
      ensures !(hasTestsToRun && shuffle) ==> random.state == old(random.state)
      ensures Current() == ScheduleFor(old(Current()), hasTestsToRun && shuffle, lastDeathTestCase + 1, seed)
    {
      hide OrderedIndices, PermutationOf, DeathTestsFirst, Separate, ShuffledSchedule, Contents, Plan.Fits;
      if hasTestsToRun && shuffle {
        random.Reseed(seed);
        ShuffleTests(random);
      }
    }

    method VisitTestCases(ghost plan: Plan, ghost s: Schedule)
      returns (visited: seq<TestCase>, ran: seq<seq<TestInfo>>)
      requires CanVisit(plan, s)
      ensures visited == ByIndex(testCases, s.cases) && ran == Runs(s, plan.marks)
    {
      visited, ran := [], [];
      ghost var cases, visits, runs := testCases, ByIndex(testCases, s.cases), Runs(s, plan.marks);
      assert |visits| == |runs| == |cases|;
      hide PermutationOf, ByIndex, Runs, CanVisit;
      for i := 0 to |testCases|
        invariant testCases == cases && CanVisit(plan, s)
        invariant visited == visits[..i] && ran == runs[..i]
      {
        LongerPrefix(visits, i);
        LongerPrefix(runs, i);
        var tc, tests := VisitTestCase(i, plan, s);
        visited, ran := visited + [tc], ran + [tests];
      }
    }

    ghost predicate CanVisit(plan: Plan, s: Schedule)
      reads this`testCases, testCaseIndices`elems, IndexVectors(testCases)`elems
      reads testCases`testInfoList, testCases`shouldRun, plan.tests`shouldRun
    {
      AllValid(testCases) && plan.Fits(testCases) && s == Current() && s.Fits(plan.marks)
    }

    method VisitTestCase(i: nat, ghost plan: Plan, ghost s: Schedule) returns (tc: TestCase, tests: seq<TestInfo>)
      requires CanVisit(plan, s) && i < |testCases|
      ensures CanVisit(plan, s)
      ensures tc == ByIndex(testCases, s.cases)[i] && tests == Runs(s, plan.marks)[i]
    {
      hide PermutationOf, Picked, Runs;
      RunsAt(s, plan.marks, i);
      ghost var k := s.cases[i];
      tc := GetMutableTestCase(i);
      assert tc == testCases[k] && IndexVectors(testCases)[k] == tc.testIndices;
      tests := RunDue(tc, plan.marks[k], s.tests[k]);
    }

    static method RunDue(tc: TestCase, ghost marked: seq<(TestInfo, bool)>, ghost order: seq<int>)
      returns (tests: seq<TestInfo>)
      requires tc.Valid() && marked == DueMarks(tc) && order == tc.testIndices.elems
      ensures tests == Picked(ByIndex(marked, order))
    {
      tests := tc.Run();
      RunOfDue(tc, order);
    }
  }

  /** What is due in each test case, recorded before a run, and the tests it depends on. */
  datatype Plan = Plan(marks: seq<seq<(TestInfo, bool)>>, tests: set<TestInfo>) {
    ghost predicate Fits(cases: seq<TestCase>)
      reads cases`shouldRun, cases`testInfoList, tests`shouldRun
    {
      && (forall c :: c in cases ==> forall t :: t in c.testInfoList ==> t in tests)
      && |marks| == |cases| && forall k :: 0 <= k < |cases| ==> marks[k] == DueMarks(cases[k])
    }
  }

  /** The tests of every test case are in the order of their registration. */
  ghost predicate TestsUnshuffled(cases: seq<TestCase>)
    reads cases`testInfoList, IndexVectors(cases)`elems
  {
    InOrderUpTo(cases, |cases|)
  }

  ghost predicate InOrderUpTo(cases: seq<TestCase>, n: nat)
    requires n <= |cases|
    reads cases`testInfoList, IndexVectors(cases)`elems
  {
    forall k :: 0 <= k < n ==> IndexVectors(cases)[k] == cases[k].testIndices && cases[k].InOrder()
  }

  /** Such an index vector visits every test case once, all death test cases first. */
  lemma VisitsDeathTestsFirst(cases: seq<TestCase>, order: seq<int>, d: int)
    requires OrderedIndices(order, d, |cases|) && PermutationOf(order, 0, |cases|) && DeathTestsFirst(cases, d)
    ensures multiset(ByIndex(cases, order)) == multiset(cases)
    ensures forall k :: 0 <= k < |cases| ==> (ByIndex(cases, order)[k].isDeathTestCase <==> k < d)
  {
    hide OrderedIndices, PermutationOf;
    PermutationMembers(order, 0, |cases|);
    PermutationVisitsEverything(cases, order);
    OrderedVisitsDeathTestsFirst(order, d, |cases|);
  }
}
