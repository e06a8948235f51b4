/** Google Test's registry: test cases with death tests first, shuffled and unshuffled, run in
    order, and filtered and sharded. */
module TestRegistry {
  import opened Wrappers
  import opened Sequences
  import opened Shuffling
  import opened TestFilter
  import opened Registration

  class TestInfo {
    const testCaseName: string
    const name: string
    var isDisabled: bool
    var matchesFilter: bool
    var shouldRun: bool

    constructor (testCaseName: string, name: string)
      ensures this.testCaseName == testCaseName && this.name == name && !isDisabled && !matchesFilter && !shouldRun
    {
      this.testCaseName, this.name := testCaseName, name;
      isDisabled, matchesFilter, shouldRun := false, false, false;
    }
  }

  class TestCase {
    const name: string
    var testInfoList: seq<TestInfo>
    var testIndices: seq<int>
    var shouldRun: bool

    ghost predicate Valid()
      reads this`testIndices, this`testInfoList
    {
      && |testIndices| == |testInfoList| <= MAX_RANGE && BlockPermutation(testIndices, 0)
      && Distinct(testInfoList) && forall ti :: ti in testInfoList ==> ti.testCaseName == name
    }

    /** The tests of this test case by name. */
    ghost function Named(): (suite: Suite)
      reads this`testInfoList
      ensures suite.name == name && |suite.tests| == |testInfoList|
    {
      var tests := testInfoList;
      Suite(name, seq(|tests|, i requires 0 <= i < |tests| => tests[i].name))
    }

    constructor (name: string)
      ensures this.name == name && testInfoList == [] && testIndices == [] && !shouldRun && Valid()
    {
      this.name := name;
      testInfoList, testIndices, shouldRun := [], [], false;
      IdentityIsBlockPermutation(0, 0);
      assert Identity(0) == [];
    }

    /** AddTestInfo. The new test comes last, also in the order of execution. */
    method AddTestInfo(testInfo: TestInfo)
      requires Valid() && |testInfoList| < MAX_RANGE && testInfo !in testInfoList && testInfo.testCaseName == name
      modifies this`testInfoList, this`testIndices
      ensures Valid() && testInfoList == old(testInfoList) + [testInfo]
      ensures testIndices == old(testIndices) + [|old(testIndices)|]
      ensures Named() == old(Named()).(tests := old(Named()).tests + [testInfo.name])
    {
      OneMoreIndex(testIndices);
      testInfoList := testInfoList + [testInfo];
      testIndices := testIndices + [|testIndices|];
      assert Named().tests == old(Named()).tests + [testInfo.name];
    }

    method ShuffleTests(random: Random)
      requires Valid()
      modifies this`testIndices, random
      ensures Valid() && random.state == StateAfter(old(random.state), |testInfoList|)
      ensures testIndices == FisherYates(old(testIndices), 0, Draws(old(random.state), |testInfoList|))
      ensures testIndices == Shuffled(old(testIndices), old(random.state))
    {
      var before := testIndices;
      testIndices := ShuffleRange(random, 0, |testIndices|, testIndices);
      assert before[0..] == before[0..|before|] && testIndices[0..] == testIndices[0..|testIndices|];
    }

    method UnshuffleTests()
      requires Valid()
      modifies this`testIndices
      ensures Valid() && testIndices == Identity(|testInfoList|)
    {
      for i := 0 to |testIndices|
        invariant |testIndices| == |testInfoList|
        invariant forall k :: 0 <= k < i ==> testIndices[k] == k
      {
        testIndices := testIndices[i := i];
      }
      assert testIndices == Identity(|testInfoList|);
    }

    /** GetMutableTestInfo: the i-th test to run. */
    function GetMutableTestInfo(i: int): Option<TestInfo>
      requires Valid()
      reads this
    {
      var index := GetElementOr(testIndices, i, -1);
      if index < 0 then None else
      assert index < |testInfoList| by { BlockPermutationRange(testIndices, 0, i); }
      Some(testInfoList[index])
    }

    /** Run: the tests started, in order; chosen holds those that should run. Each of them is started
        exactly once if the test case should run, and none otherwise. */
    method Run(ghost chosen: set<TestInfo>) returns (started: seq<TestInfo>)
      requires Valid() && forall ti :: ti in testInfoList ==> (ti.shouldRun <==> ti in chosen)
      ensures Indexes(testInfoList, testIndices)
      ensures started == if shouldRun then Chosen(Select(testInfoList, testIndices), chosen) else []
      ensures multiset(started) == if shouldRun then multiset(Chosen(testInfoList, chosen)) else multiset{}
    {
      started := [];
      PermutationVisitsAll(testInfoList, testIndices, 0);
      ghost var visited := Select(testInfoList, testIndices);
      ChosenOfSame(visited, testInfoList, chosen);
      if !shouldRun {
        return;
      }
      for i := 0 to |testInfoList|
        invariant started == Chosen(visited[..i], chosen)
      {
        BlockPermutationRange(testIndices, 0, i);
        var testInfo := GetMutableTestInfo(i).value;
        TakeOneMore(visited, i);
        ChosenAppend(visited[..i], testInfo, chosen);
        if testInfo.shouldRun {
          started := started + [testInfo];
        }
      }
      assert visited[..|visited|] == visited;
    }
  }

  function GetElementOr(v: seq<int>, i: int, default: int): int {
    if 0 <= i < |v| then v[i] else default
  }

  // ----- The tests that are started -----

  /** Those of the tests that are chosen. */
  ghost function Chosen(tests: seq<TestInfo>, chosen: set<TestInfo>): seq<TestInfo> {
    if tests == [] then [] else ChosenOne(tests[0], chosen) + Chosen(tests[1..], chosen)
  }

  ghost function ChosenOne(test: TestInfo, chosen: set<TestInfo>): seq<TestInfo> {
    if test in chosen then [test] else []
  }

  lemma {:induction false} ChosenOfConcat(a: seq<TestInfo>, b: seq<TestInfo>, chosen: set<TestInfo>)
    ensures Chosen(a + b, chosen) == Chosen(a, chosen) + Chosen(b, chosen)
  {
    if a == [] {
      assert a + b == b;
    } else {
      ChosenOfConcat(a[1..], b, chosen);
      assert (a + b)[1..] == a[1..] + b;
      Associates(ChosenOne(a[0], chosen), Chosen(a[1..], chosen), Chosen(b, chosen));
    }
  }

  lemma ChosenAppend(tests: seq<TestInfo>, last: TestInfo, chosen: set<TestInfo>)
    ensures Chosen(tests + [last], chosen) == Chosen(tests, chosen) + ChosenOne(last, chosen)
  {
    ChosenOfConcat(tests, [last], chosen);
    assert [last][1..] == [] && ChosenOne(last, chosen) + [] == ChosenOne(last, chosen);
  }

  lemma ChosenWithout(tests: seq<TestInfo>, j: nat, chosen: set<TestInfo>)
    requires j < |tests|
    ensures multiset(Chosen(tests, chosen)) ==
            multiset(ChosenOne(tests[j], chosen)) + multiset(Chosen(tests[..j] + tests[j + 1..], chosen))
  {
    var before, after := tests[..j], tests[j + 1..];
    assert tests == before + [tests[j]] + after;
    ChosenAppend(before, tests[j], chosen);
    ChosenOfConcat(before + [tests[j]], after, chosen);
    ChosenOfConcat(before, after, chosen);
  }

  lemma {:induction false} ChosenOfSame(a: seq<TestInfo>, b: seq<TestInfo>, chosen: set<TestInfo>)
    requires multiset(a) == multiset(b)
    ensures multiset(Chosen(a, chosen)) == multiset(Chosen(b, chosen))
    decreases |a|
  {
    if a == [] {
      assert |multiset(b)| == 0;
    } else {
      var j := SameWithoutOne(a, b);
      ChosenOfSame(a[1..], b[..j] + b[j + 1..], chosen);
      ChosenWithout(b, j, chosen);
    }
  }

  lemma {:induction false} NoneChosen(tests: seq<TestInfo>, chosen: set<TestInfo>)
    requires forall ti :: ti in tests ==> ti !in chosen
    ensures Chosen(tests, chosen) == []
  {
    if tests != [] {
      NoneChosen(tests[1..], chosen);
    }
  }

  /** All chosen tests of several lists. */
  ghost function AllChosen(lists: seq<seq<TestInfo>>, chosen: set<TestInfo>): seq<TestInfo> {
    if lists == [] then [] else Chosen(lists[0], chosen) + AllChosen(lists[1..], chosen)
  }

  lemma {:induction false} AllChosenOfConcat(a: seq<seq<TestInfo>>, b: seq<seq<TestInfo>>, chosen: set<TestInfo>)
    ensures AllChosen(a + b, chosen) == AllChosen(a, chosen) + AllChosen(b, chosen)
  {
    if a == [] {
      assert a + b == b;
    } else {
      AllChosenOfConcat(a[1..], b, chosen);
      assert (a + b)[1..] == a[1..] + b;
      Associates(Chosen(a[0], chosen), AllChosen(a[1..], chosen), AllChosen(b, chosen));
    }
  }

  lemma AllChosenAppend(lists: seq<seq<TestInfo>>, last: seq<TestInfo>, chosen: set<TestInfo>)
    ensures AllChosen(lists + [last], chosen) == AllChosen(lists, chosen) + Chosen(last, chosen)
  {
    AllChosenOfConcat(lists, [last], chosen);
    assert [last][1..] == [] && Chosen(last, chosen) + [] == Chosen(last, chosen);
  }

  lemma AllChosenTake(lists: seq<seq<TestInfo>>, i: nat, chosen: set<TestInfo>)
    requires i < |lists|
    ensures AllChosen(lists[..i + 1], chosen) == AllChosen(lists[..i], chosen) + Chosen(lists[i], chosen)
  {
    TakeOneMore(lists, i);
    AllChosenAppend(lists[..i], lists[i], chosen);
  }

  lemma AllChosenOfNone(lists: seq<seq<TestInfo>>, chosen: set<TestInfo>)
    ensures AllChosen(lists[..0], chosen) == []
  {
  }

  lemma AllChosenWithout(lists: seq<seq<TestInfo>>, j: nat, chosen: set<TestInfo>)
    requires j < |lists|
    ensures multiset(AllChosen(lists, chosen)) ==
            multiset(Chosen(lists[j], chosen)) + multiset(AllChosen(lists[..j] + lists[j + 1..], chosen))
  {
    var before, after := lists[..j], lists[j + 1..];
    assert lists == before + [lists[j]] + after;
    AllChosenAppend(before, lists[j], chosen);
    AllChosenOfConcat(before + [lists[j]], after, chosen);
    AllChosenOfConcat(before, after, chosen);
  }

  /** The order of the lists does not matter to how often a test is among the chosen ones. */
  lemma {:induction false} AllChosenOfSame(a: seq<seq<TestInfo>>, b: seq<seq<TestInfo>>, chosen: set<TestInfo>)
    requires multiset(a) == multiset(b)
    ensures multiset(AllChosen(a, chosen)) == multiset(AllChosen(b, chosen))
    decreases |a|
  {
    if a == [] {
      assert |multiset(b)| == 0;
    } else {
      var j := SameWithoutOne(a, b);
      AllChosenOfSame(a[1..], b[..j] + b[j + 1..], chosen);
      AllChosenWithout(b, j, chosen);
    }
  }

  /** Each list in the order that its indices give. */
  ghost function InOrder(lists: seq<seq<TestInfo>>, testIndices: seq<seq<int>>): (r: seq<seq<TestInfo>>)
    requires |testIndices| == |lists|
    ensures |r| == |lists|
  {
    seq(|lists|, i requires 0 <= i < |lists| =>
      if Indexes(lists[i], testIndices[i]) then Select(lists[i], testIndices[i]) else [])
  }

  /** The tests started when test cases and their tests run in the order of these indices. */
  ghost function StartOrder(lists: seq<seq<TestInfo>>, testCaseIndices: seq<int>, testIndices: seq<seq<int>>,
                            chosen: set<TestInfo>): seq<TestInfo>
    requires |testIndices| == |lists| && Indexes(lists, testCaseIndices)
  {
    AllChosen(Select(InOrder(lists, testIndices), testCaseIndices), chosen)
  }

  /** The orders after ShuffleTests or without it, from those before and the seed: first the two blocks
      of test cases draw, then the tests of each test case in turn. */
  ghost predicate ShuffledOrNot(shuffle: bool, seed: nat, deaths: nat, before: seq<int>, testsBefore: seq<seq<int>>,
                                after: seq<int>, testsAfter: seq<seq<int>>) {
    if shuffle
    then
      var n := |before|;
      && |testsBefore| == n && BlockPermutation(before, deaths)
      && after == InBlocks(before, deaths, seed)
      && testsAfter == ShuffledInTurn(testsBefore, StateAfter(StateAfter(seed, deaths), n - deaths), n)
    else after == before && testsAfter == testsBefore
  }

  /** The tests of each test case. */
  ghost function Lists(cases: seq<TestCase>): (lists: seq<seq<TestInfo>>)
    reads cases`testInfoList
    ensures |lists| == |cases| && forall i :: 0 <= i < |cases| ==> lists[i] == cases[i].testInfoList
  {
    if cases == [] then [] else [cases[0].testInfoList] + Lists(cases[1..])
  }

  ghost function NamedSuites(cases: seq<TestCase>): (suites: seq<Suite>)
    reads cases`testInfoList
    ensures |suites| == |cases|
  {
    if cases == [] then [] else [cases[0].Named()] + NamedSuites(cases[1..])
  }

  lemma {:induction false} SuiteAt(cases: seq<TestCase>)
    ensures forall i :: 0 <= i < |cases| ==> NamedSuites(cases)[i] == cases[i].Named()
  {
    if cases != [] {
      SuiteAt(cases[1..]);
    }
  }

  /** Where a test case of that name is found or made among suites of the same names. */
  lemma SuitesWith(cases: seq<TestCase>, suites: seq<Suite>, deaths: int, name: string)
    requires DeathTestsFirst(cases, deaths) && |suites| == |cases|
    requires forall i :: 0 <= i < |cases| ==> suites[i].name == cases[i].name
    ensures Find(suites, name) < |suites| <==> exists tc :: tc in cases && tc.name == name
    ensures Deaths(suites) == deaths
  {
    DeathsAre(suites, deaths);
    if Find(suites, name) < |suites| {
      assert cases[Find(suites, name)].name == name;
    }
  }

  lemma {:induction false} SuitesOfConcat(a: seq<TestCase>, b: seq<TestCase>)
    ensures NamedSuites(a + b) == NamedSuites(a) + NamedSuites(b)
  {
    if a == [] {
      assert a + b == b;
    } else {
      SuitesOfConcat(a[1..], b);
      assert (a + b)[0] == a[0] && (a + b)[1..] == a[1..] + b;
      Associates([a[0].Named()], NamedSuites(a[1..]), NamedSuites(b));
    }
  }

  lemma InsertedSuites(cases: seq<TestCase>, at: nat, testCase: TestCase)
    requires at <= |cases| && testCase.testInfoList == []
    ensures NamedSuites(Insert(cases, at, testCase)) == Insert(NamedSuites(cases), at, Suite(testCase.name, []))
  {
    hide NamedSuites, Insert;
    SuitesBetween(cases[..at], testCase, cases[at..]);
    assert cases == cases[..at] + cases[at..];
  }

  lemma SuitesBetween(before: seq<TestCase>, testCase: TestCase, after: seq<TestCase>)
    requires testCase.testInfoList == []
    ensures NamedSuites(Insert(before + after, |before|, testCase)) ==
            Insert(NamedSuites(before + after), |before|, Suite(testCase.name, []))
  {
    hide NamedSuites, Insert;
    var a, one, b := NamedSuites(before), NamedSuites([testCase]), NamedSuites(after);
    SuitesOfConcat(before + [testCase], after);
    SuitesOfConcat(before, [testCase]);
    SuitesOfConcat(before, after);
    SuiteOfEmpty(testCase);
    InsertBetween(before, testCase, after);
    InsertBetween(a, Suite(testCase.name, []), b);
  }

  lemma SuiteOfEmpty(testCase: TestCase)
    requires testCase.testInfoList == []
    ensures NamedSuites([testCase]) == [Suite(testCase.name, [])]
  {
    assert testCase.Named().tests == [];
  }

  lemma AddToFound(suites: seq<Suite>, t: TestName, after: seq<Suite>)
    requires var all, i := WithSuite(suites, t.testCase), Find(WithSuite(suites, t.testCase), t.testCase);
             i < |all| && after == all[i := Suite(t.testCase, all[i].tests + [t.test])]
    ensures after == Add(suites, t)
  {
  }

  ghost function MembersOf(lists: seq<seq<TestInfo>>): (infos: set<TestInfo>)
    ensures forall i, ti :: 0 <= i < |lists| && ti in lists[i] ==> ti in infos
  {
    set i, ti | 0 <= i < |lists| && ti in lists[i] :: ti
  }

  /** lists are the tests of the test cases and chosen those that should run; a test case should run if one
      of its tests should, as FilterTests leaves it. */
  ghost predicate IsSelection(cases: seq<TestCase>, lists: seq<seq<TestInfo>>, chosen: set<TestInfo>)
    reads cases`testInfoList, cases`shouldRun, MembersOf(lists)`shouldRun
  {
    |lists| == |cases| && forall i :: 0 <= i < |cases| ==> IsSelectionAt(cases[i], lists[i], chosen)
  }

  ghost predicate IsSelectionAt(testCase: TestCase, list: seq<TestInfo>, chosen: set<TestInfo>)
    reads testCase`testInfoList, testCase`shouldRun, list`shouldRun
  {
    && testCase.testInfoList == list && (forall ti :: ti in list ==> (ti.shouldRun <==> ti in chosen))
    && forall ti :: ti in list && ti in chosen ==> testCase.shouldRun
  }

  lemma {:induction false} IndicesOf(cases: seq<TestCase>) returns (indices: seq<seq<int>>)
    ensures |indices| == |cases| && forall i :: 0 <= i < |cases| ==> indices[i] == cases[i].testIndices
  {
    if cases == [] {
      indices := [];
    } else {
      var rest := IndicesOf(cases[1..]);
      indices := [cases[0].testIndices] + rest;
    }
  }

  /** The death test cases are exactly the first `deaths`. */
  ghost predicate DeathTestsFirst(testCases: seq<TestCase>, deaths: int) {
    && 0 <= deaths <= |testCases|
    && forall i :: 0 <= i < |testCases| ==> (IsDeathTestCaseName(testCases[i].name) <==> i < deaths)
  }

  ghost predicate DistinctNames(testCases: seq<TestCase>) {
    forall i, j :: 0 <= i < j < |testCases| ==> testCases[i].name != testCases[j].name
  }

  lemma InsertMembers(testCases: seq<TestCase>, at: nat, testCase: TestCase)
    requires at <= |testCases|
    ensures forall tc :: tc in Insert(testCases, at, testCase) <==> tc in testCases || tc == testCase
    ensures at == |testCases| ==> Insert(testCases, at, testCase) == testCases + [testCase]
  {
    assert testCases == testCases[..at] + testCases[at..];
  }

  /** A death test case goes after the last one, any other test case to the end. */
  lemma InsertKeepsOrder(testCases: seq<TestCase>, deaths: int, testCase: TestCase)
    requires DeathTestsFirst(testCases, deaths) && DistinctNames(testCases)
    requires forall tc :: tc in testCases ==> tc.name != testCase.name
    ensures var isDeath := IsDeathTestCaseName(testCase.name);
            var after := Insert(testCases, if isDeath then deaths else |testCases|, testCase);
            DistinctNames(after) && DeathTestsFirst(after, if isDeath then deaths + 1 else deaths)
  {
    var isDeath := IsDeathTestCaseName(testCase.name);
    var at := if isDeath then deaths else |testCases|;
    var after := Insert(testCases, at, testCase);
    forall i | 0 <= i < |after|
      ensures after[i] == if i < at then testCases[i] else if i == at then testCase else testCases[i - 1]
    {
    }
  }

  class UnitTestImpl {
    const random: Random
    var testCases: seq<TestCase>
    var testCaseIndices: seq<int>
    var lastDeathTestCase: int

    ghost predicate Valid()
      reads this, testCases`testIndices, testCases`testInfoList
    {
      && |testCases| == |testCaseIndices| <= MAX_RANGE
      && DistinctNames(testCases) && (forall tc :: tc in testCases ==> tc.Valid())
      && DeathTestsFirst(testCases, lastDeathTestCase + 1)
      && BlockPermutation(testCaseIndices, lastDeathTestCase + 1)
    }

    ghost predicate Unshuffled()
      reads this, testCases`testIndices, testCases`testInfoList
    {
      && testCaseIndices == Identity(|testCases|)
      && forall tc :: tc in testCases ==> tc.testIndices == Identity(|tc.testInfoList|)
    }

    constructor (random: Random)
      ensures Valid() && Unshuffled() && testCases == [] && this.random == random
    {
      this.random := random;
      testCases, testCaseIndices, lastDeathTestCase := [], [], -1;
      IdentityIsBlockPermutation(0, 0);
      assert Identity(0) == [];
    }

    // ----- Registration -----

    /** GetTestCase by name, to be called only while the tests are not shuffled: finds the test case
        or inserts a new one, after the last death test case if it is one itself, else at the end. */
    method GetTestCase(testCaseName: string) returns (testCase: TestCase)
      requires Valid() && Unshuffled() && |testCases| < MAX_RANGE
      modifies this`testCases, this`testCaseIndices, this`lastDeathTestCase
      ensures Valid() && Unshuffled() && testCase in testCases && testCase.name == testCaseName
      ensures if exists tc :: tc in old(testCases) && tc.name == testCaseName
              then testCases == old(testCases)
              else
                var at := if IsDeathTestCaseName(testCaseName) then old(lastDeathTestCase) + 1 else |old(testCases)|;
                && fresh(testCase) && testCases == Insert(old(testCases), at, testCase)
                && testCase.testInfoList == []
    {
      for i := 0 to |testCases|
        invariant forall k :: 0 <= k < i ==> testCases[k].name != testCaseName
      {
        if testCases[i].name == testCaseName {
          return testCases[i];
        }
      }
      testCase := new TestCase(testCaseName);
      InsertTestCase(testCase);
    }

    /** A new test case goes after the last death test case if it is one itself, else to the end. */
    method InsertTestCase(testCase: TestCase)
      requires Valid() && Unshuffled() && |testCases| < MAX_RANGE
      requires testCase.Valid() && testCase.testInfoList == []
      requires forall tc :: tc in testCases ==> tc.name != testCase.name
      modifies this`testCases, this`testCaseIndices, this`lastDeathTestCase
      ensures Valid() && Unshuffled()
      ensures var at := if IsDeathTestCaseName(testCase.name) then old(lastDeathTestCase) + 1 else |old(testCases)|;
              testCases == Insert(old(testCases), at, testCase) && testCase in testCases
    {
      hide BlockPermutation, DistinctNames, IsDeathTestCaseName, SomePatternFits;
      var isDeathTestCase := MatchesFilter(testCase.name, DEATH_TEST_CASE_FILTER);
      DeathTestCaseNames(testCase.name);
      InsertKeepsOrder(testCases, lastDeathTestCase + 1, testCase);
      InsertMembers(testCases, lastDeathTestCase + 1, testCase);
      InsertMembers(testCases, |testCases|, testCase);
      assert Identity(0) == [];
      if isDeathTestCase {
        lastDeathTestCase := lastDeathTestCase + 1;
        testCases := Insert(testCases, lastDeathTestCase, testCase);
      } else {
        testCases := testCases + [testCase];
      }
      testCaseIndices := testCaseIndices + [|testCaseIndices|];
      assert testCaseIndices == Identity(|testCases|);
      IdentityIsBlockPermutation(|testCases|, lastDeathTestCase + 1);
    }

    /** AddTestInfo: finds or makes the test case of the test and adds the test to it. */
    method AddTestInfo(testInfo: TestInfo)
      requires Valid() && Unshuffled() && |testCases| < MAX_RANGE
      requires forall tc :: tc in testCases ==> |tc.testInfoList| < MAX_RANGE && testInfo !in tc.testInfoList
      modifies this`testCases, this`testCaseIndices, this`lastDeathTestCase
      modifies testCases`testInfoList, testCases`testIndices
      ensures Valid() && Unshuffled() && forall tc :: tc in testCases ==> tc in old(testCases) || fresh(tc)
      ensures forall tc, ti :: tc in testCases && ti in tc.testInfoList ==>
                ti == testInfo || (tc in old(testCases) && ti in old(tc.testInfoList))
      ensures NamedSuites(testCases) == Add(old(NamedSuites(testCases)), TestName(testInfo.testCaseName, testInfo.name))
    {
      hide BlockPermutation, DistinctNames, DeathTestsFirst, Distinct, NamedSuites, Add, WithSuite;
      ghost var suites, t := NamedSuites(testCases), TestName(testInfo.testCaseName, testInfo.name);
      var testCase := GetTestCaseOf(testInfo.testCaseName);
      AddTo(testCase, testInfo);
      AddToFound(suites, t, NamedSuites(testCases));
    }

    /** GetTestCase, seen as suites of names. */
    method GetTestCaseOf(testCaseName: string) returns (testCase: TestCase)
      requires Valid() && Unshuffled() && |testCases| < MAX_RANGE
      modifies this`testCases, this`testCaseIndices, this`lastDeathTestCase
      ensures Valid() && Unshuffled() && testCase in testCases && testCase.name == testCaseName
      ensures forall tc :: tc in testCases ==> tc in old(testCases) || (fresh(tc) && tc.testInfoList == [])
      ensures NamedSuites(testCases) == WithSuite(old(NamedSuites(testCases)), testCaseName)
    {
      hide BlockPermutation, Distinct, DistinctNames, DeathTestsFirst, NamedSuites, Insert, Find, Deaths;
      ghost var cases, suites, deaths := testCases, NamedSuites(testCases), lastDeathTestCase + 1;
      SuiteAt(cases);
      SuitesWith(cases, suites, deaths, testCaseName);
      testCase := GetTestCase(testCaseName);
      ghost var at := if IsDeathTestCaseName(testCaseName) then deaths else |cases|;
      if Find(suites, testCaseName) == |suites| {
        InsertMembers(cases, at, testCase);
        InsertedSuites(cases, at, testCase);
      }
    }

    method AddTo(testCase: TestCase, testInfo: TestInfo)
      requires Valid() && Unshuffled() && testCase in testCases && testInfo.testCaseName == testCase.name
      requires |testCase.testInfoList| < MAX_RANGE && testInfo !in testCase.testInfoList
      modifies testCase`testInfoList, testCase`testIndices
      ensures Valid() && Unshuffled() && testCase.testInfoList == old(testCase.testInfoList) + [testInfo]
      ensures var suites, i := old(NamedSuites(testCases)), Find(old(NamedSuites(testCases)), testCase.name);
              && i < |suites|
              && NamedSuites(testCases) == suites[i := Suite(testCase.name, suites[i].tests + [testInfo.name])]
    {
      hide BlockPermutation, DeathTestsFirst, Distinct, NamedSuites;
      ghost var suites := NamedSuites(testCases);
      ghost var j :| 0 <= j < |testCases| && testCases[j] == testCase;
      SuiteAt(testCases);
      assert suites[j].name == testCase.name;
      testCase.AddTestInfo(testInfo);
      SuiteAt(testCases);
      assert testCase.testIndices == Identity(|testCase.testInfoList|);
      assert NamedSuites(testCases) == suites[j := Suite(testCase.name, suites[j].tests + [testInfo.name])];
    }

    // ----- Order of execution -----

    /** GetMutableTestCase: the i-th test case to run. */
    function GetMutableTestCase(i: int): Option<TestCase>
      requires Valid()
      reads this, testCases
    {
      var index := GetElementOr(testCaseIndices, i, -1);
      if index < 0 then None else
      assert index < |testCases| by { BlockPermutationRange(testCaseIndices, lastDeathTestCase + 1, i); }
      Some(testCases[index])
    }

    /** The const GetTestCase(i), which looks the index up but does not use it. */
    function GetTestCaseAt(i: int): Option<TestCase>
      requires Valid()
      reads this, testCases
    {
      var index := GetElementOr(testCaseIndices, i, -1);
      if index < 0 then None else Some(testCases[i])
    }

    /** ShuffleTests. All new orders are determined by the old ones and the state of the generator: first
        the test cases draw, then the tests of each test case in turn. */
    method ShuffleTests() returns (ghost before: seq<seq<int>>)
      requires Valid()
      modifies this`testCaseIndices, testCases`testIndices, random
      ensures Valid()
      ensures testCaseIndices == InBlocks(old(testCaseIndices), lastDeathTestCase + 1, old(random.state))
      ensures |before| == |testCases| && forall i :: 0 <= i < |testCases| ==> before[i] == old(testCases[i].testIndices)
      ensures var deaths, n := lastDeathTestCase + 1, |testCases|;
              var state := StateAfter(StateAfter(old(random.state), deaths), n - deaths);
              HaveIndices(ShuffledInTurn(before, state, n))
    {
      hide BlockPermutation, ShuffledInTurn, InBlocks, StateAfter;
      before := IndicesOf(testCases);
      ghost var deaths, n := lastDeathTestCase + 1, |testCases|;
      ghost var state := StateAfter(StateAfter(random.state, deaths), n - deaths);
      testCaseIndices := ShuffleBlocks(random, testCaseIndices, lastDeathTestCase + 1);
      assert random.state == state;
      ghost var after := ShuffledInTurn(before, state, n);
      ShuffleEach(before, after);
    }

    /** indices are those of the tests in each test case. */
    ghost predicate HaveIndices(indices: seq<seq<int>>)
      reads this`testCases, testCases`testIndices
    {
      |indices| == |testCases| && forall i :: 0 <= i < |testCases| ==> testCases[i].testIndices == indices[i]
    }

    /** The loop over the test cases. */
    method ShuffleEach(ghost before: seq<seq<int>>, ghost after: seq<seq<int>>)
      requires Valid() && HaveIndices(before) && after == ShuffledInTurn(before, random.state, |testCases|)
      modifies testCases`testIndices, random
      ensures Valid() && HaveIndices(after)
    {
      hide BlockPermutation, ShuffledInTurn, Shuffled, StateAt;
      ghost var state := random.state;
      StateAtStep(state, before);
      for i := 0 to |testCases|
        invariant forall tc :: tc in testCases ==> tc.Valid()
        invariant random.state == StateAt(state, before, i)
        invariant forall k :: 0 <= k < |testCases| ==> testCases[k].testIndices == if k < i then after[k] else before[k]
      {
        OthersDiffer(i);
        ShuffledInTurnAt(before, state, |testCases|, i);
        ShuffleOne(testCases[i]);
      }
    }

    method ShuffleOne(testCase: TestCase)
      requires testCase.Valid()
      modifies testCase`testIndices, random
      ensures testCase.Valid() && testCase.testIndices == Shuffled(old(testCase.testIndices), old(random.state))
      ensures random.state == StateAfter(old(random.state), |old(testCase.testIndices)|)
    {
      testCase.ShuffleTests(random);
    }

    lemma OthersDiffer(i: nat)
      requires Valid() && i < |testCases|
      ensures forall k :: 0 <= k < |testCases| && k != i ==> testCases[k] != testCases[i]
    {
    }

    method UnshuffleTests()
      requires Valid()
      modifies this`testCaseIndices, testCases`testIndices
      ensures Valid() && Unshuffled()
    {
      hide BlockPermutation;
      for i := 0 to |testCases|
        invariant |testCaseIndices| == |testCases|
        invariant forall tc :: tc in testCases ==> tc.Valid()
        invariant forall k :: 0 <= k < i ==>
                  testCaseIndices[k] == k && testCases[k].testIndices == Identity(|testCases[k].testInfoList|)
      {
        testCases[i].UnshuffleTests();
        testCaseIndices := testCaseIndices[i := i];
      }
      assert testCaseIndices == Identity(|testCases|);
      IdentityIsBlockPermutation(|testCases|, lastDeathTestCase + 1);
    }

    /** One iteration of RunAllTests, without the events: the order in which test cases run and the tests
        they start, both determined by the seed if they are shuffled. `hasTestsToRun` comes from the filter,
        `fatalFailure` from the global set-up. */
    method RunIteration(shuffle: bool, randomSeed: nat, hasTestsToRun: bool, fatalFailure: bool,
                        ghost before: seq<seq<int>>, ghost lists: seq<seq<TestInfo>>, ghost chosen: set<TestInfo>)
      returns (order: seq<TestCase>, started: seq<TestInfo>, ghost indices: seq<int>, ghost after: seq<seq<int>>)
      requires Valid() && HaveIndices(before) && IsSelection(testCases, lists, chosen)
      modifies this`testCaseIndices, testCases`testIndices, random
      ensures Valid() && Unshuffled()
      ensures !hasTestsToRun || fatalFailure ==> order == [] && started == []
      ensures hasTestsToRun && !fatalFailure ==>
                && multiset(order) == multiset(testCases) && DeathTestsFirst(order, lastDeathTestCase + 1)
                && multiset(started) == multiset(AllChosen(lists, chosen))
                && Indexes(testCases, indices) && order == Select(testCases, indices)
                && |after| == |lists| && Indexes(lists, indices) && started == StartOrder(lists, indices, after, chosen)
      ensures ShuffledOrNot(hasTestsToRun && shuffle, randomSeed, lastDeathTestCase + 1,
                            old(testCaseIndices), before, indices, after)
    {
      hide BlockPermutation, InBlocks, AllChosen, Select, Indexes, DeathTestsFirst, StartOrder, ShuffledOrNot;
      after := ShuffleIf(hasTestsToRun && shuffle, randomSeed, before);
      indices := testCaseIndices;
      order, started := [], [];
      if hasTestsToRun && !fatalFailure {
        order, started := RunTestCases(lists, after, chosen);
      }
      UnshuffleTests();
    }

    method ShuffleIf(shuffle: bool, randomSeed: nat, ghost before: seq<seq<int>>) returns (ghost after: seq<seq<int>>)
      requires Valid() && HaveIndices(before)
      modifies this`testCaseIndices, testCases`testIndices, random
      ensures Valid() && HaveIndices(after)
      ensures ShuffledOrNot(shuffle, randomSeed, lastDeathTestCase + 1,
                            old(testCaseIndices), before, testCaseIndices, after)
    {
      hide BlockPermutation, InBlocks, ShuffledInTurn, StateAfter;
      after := before;
      if shuffle {
        random.Reseed(randomSeed);
        ghost var deaths, n := lastDeathTestCase + 1, |testCases|;
        ghost var before' := ShuffleTests();
        assert before' == before;
        after := ShuffledInTurn(before, StateAfter(StateAfter(randomSeed, deaths), n - deaths), n);
      }
    }

    /** The run loop: TestCase::Run on each test case in turn. Every test that should run is started
        exactly once, and no other. */
    method RunTestCases(ghost lists: seq<seq<TestInfo>>, ghost testIndices: seq<seq<int>>, ghost chosen: set<TestInfo>)
      returns (order: seq<TestCase>, started: seq<TestInfo>)
      requires Valid() && IsSelection(testCases, lists, chosen) && HaveIndices(testIndices)
      ensures multiset(order) == multiset(testCases) && DeathTestsFirst(order, lastDeathTestCase + 1)
      ensures Indexes(testCases, testCaseIndices) && order == Select(testCases, testCaseIndices)
      ensures multiset(started) == multiset(AllChosen(lists, chosen))
      ensures Indexes(lists, testCaseIndices) && started == StartOrder(lists, testCaseIndices, testIndices, chosen)
    {
      hide BlockPermutation, AllChosen, Chosen, Select, InOrder;
      order, started := [], [];
      ghost var visited := VisitedLists(lists, chosen);
      ghost var inTurn := Select(InOrder(lists, testIndices), testCaseIndices);
      AllChosenOfNone(visited, chosen);
      AllChosenOfNone(inTurn, chosen);
      for testIndex := 0 to |testCases|
        invariant |order| == testIndex
        invariant forall i :: 0 <= i < testIndex ==> Some(order[i]) == GetMutableTestCase(i)
        invariant multiset(started) == multiset(AllChosen(visited[..testIndex], chosen))
        invariant started == AllChosen(inTurn[..testIndex], chosen)
      {
        VisitedAt(lists, testIndices, chosen, testIndex);
        var testCase := GetMutableTestCase(testIndex).value;
        var startedNow := RunOne(testCase, visited[testIndex], chosen);
        AllChosenTake(visited, testIndex, chosen);
        AllChosenTake(inTurn, testIndex, chosen);
        order := order + [testCase];
        started := started + startedNow;
      }
      assert visited[..|visited|] == visited && inTurn[..|inTurn|] == inTurn;
      RunOrder(order);
    }

    /** The lists of tests in the order in which the test cases run. */
    lemma VisitedLists(lists: seq<seq<TestInfo>>, chosen: set<TestInfo>) returns (visited: seq<seq<TestInfo>>)
      requires Valid() && IsSelection(testCases, lists, chosen)
      ensures Indexes(lists, testCaseIndices) && visited == Select(lists, testCaseIndices)
      ensures multiset(AllChosen(visited, chosen)) == multiset(AllChosen(lists, chosen))
    {
      PermutationVisitsAll(lists, testCaseIndices, lastDeathTestCase + 1);
      visited := Select(lists, testCaseIndices);
      AllChosenOfSame(visited, lists, chosen);
    }

    lemma VisitedAt(lists: seq<seq<TestInfo>>, testIndices: seq<seq<int>>, chosen: set<TestInfo>, i: nat)
      requires Valid() && IsSelection(testCases, lists, chosen) && HaveIndices(testIndices)
      requires Indexes(lists, testCaseIndices) && i < |testCases|
      ensures GetMutableTestCase(i).Some? && GetMutableTestCase(i).value.Valid()
      ensures var testCase, list := GetMutableTestCase(i).value, Select(lists, testCaseIndices)[i];
              && IsSelectionAt(testCase, list, chosen)
              && (Indexes(list, testCase.testIndices) ==>
                    Select(InOrder(lists, testIndices), testCaseIndices)[i] == Select(list, testCase.testIndices))
    {
      BlockPermutationRange(testCaseIndices, lastDeathTestCase + 1, i);
      var j := testCaseIndices[i];
      assert testCases[j] in testCases && IsSelectionAt(testCases[j], lists[j], chosen);
    }

    /** One round of the run loop. */
    static method RunOne(testCase: TestCase, ghost list: seq<TestInfo>, ghost chosen: set<TestInfo>)
      returns (started: seq<TestInfo>)
      requires testCase.Valid() && IsSelectionAt(testCase, list, chosen)
      ensures multiset(started) == multiset(Chosen(list, chosen))
      ensures Indexes(list, testCase.testIndices) && started == Chosen(Select(list, testCase.testIndices), chosen)
    {
      hide BlockPermutation;
      started := testCase.Run(chosen);
      if !testCase.shouldRun {
        NoneChosen(list, chosen);
        NoneChosen(Select(list, testCase.testIndices), chosen);
      }
    }

    lemma RunOrder(order: seq<TestCase>)
      requires Valid() && |order| == |testCases|
      requires forall i :: 0 <= i < |order| ==> Some(order[i]) == GetMutableTestCase(i)
      ensures multiset(order) == multiset(testCases) && DeathTestsFirst(order, lastDeathTestCase + 1)
      ensures Indexes(testCases, testCaseIndices) && order == Select(testCases, testCaseIndices)
    {
      PermutationVisitsAll(testCases, testCaseIndices, lastDeathTestCase + 1);
      assert order == Select(testCases, testCaseIndices);
      forall i | 0 <= i < |order| ensures IsDeathTestCaseName(order[i].name) <==> i < lastDeathTestCase + 1 {
        BlockPermutationRange(testCaseIndices, lastDeathTestCase + 1, i);
      }
    }

    /** The two ways of asking for the i-th test case agree for every i exactly when the test cases
        are in their original order. */
    lemma GetTestCaseAgrees()
      requires Valid()
      ensures (forall i :: GetTestCaseAt(i) == GetMutableTestCase(i)) <==> testCaseIndices == Identity(|testCases|)
    {
      forall i | 0 <= i < |testCases| ensures GetTestCaseAt(i) == GetMutableTestCase(i) <==> testCaseIndices[i] == i {
        BlockPermutationRange(testCaseIndices, lastDeathTestCase + 1, i);
      }
      if forall i :: GetTestCaseAt(i) == GetMutableTestCase(i) {
        assert forall i :: 0 <= i < |testCases| ==>
                 GetTestCaseAt(i) == GetMutableTestCase(i) ==> testCaseIndices[i] == i;
      }
    }
  }
}
