/** A whole test program: tests are registered, filtered, dealt out to shards and run. */
module TestProgram {
  import opened Wrappers
  import opened Sequences
  import opened Shuffling
  import opened TestFilter
  import opened Registration
  import opened TestRegistry
  import opened Sharding
  import opened FilterTests

  /** The flagged elements, in order. */
  function Picked<E>(xs: seq<E>, flags: seq<bool>): (picked: seq<E>)
    requires |flags| == |xs|
    ensures |picked| == Count(flags, |flags|)
  {
    if xs == [] then [] else
    var n := |xs| - 1;
    CountOfPrefix(flags, n, n);
    Picked(xs[..n], flags[..n]) + (if flags[n] then [xs[n]] else [])
  }

  lemma {:induction false} CountOfPrefix(flags: seq<bool>, n: nat, k: nat)
    requires k <= n <= |flags|
    ensures Count(flags[..n], k) == Count(flags, k)
  {
    if k > 0 {
      CountOfPrefix(flags, n, k - 1);
    }
  }

  function NameOf(ti: TestInfo): TestName {
    TestName(ti.testCaseName, ti.name)
  }

  function NamesOf(tests: seq<TestInfo>): (names: seq<TestName>)
    ensures |names| == |tests|
  {
    seq(|tests|, i requires 0 <= i < |tests| => NameOf(tests[i]))
  }

  function InfosOf(tests: seq<Test>): (infos: seq<TestInfo>)
    ensures |infos| == |tests|
  {
    seq(|tests|, i requires 0 <= i < |tests| => tests[i].info)
  }

  lemma {:induction false} PickedNames(tests: seq<TestInfo>, flags: seq<bool>)
    requires |flags| == |tests|
    ensures NamesOf(Picked(tests, flags)) == Picked(NamesOf(tests), flags)
  {
    if tests != [] {
      var n := |tests| - 1;
      PickedNames(tests[..n], flags[..n]);
      assert NamesOf(tests)[..n] == NamesOf(tests[..n]);
    }
  }

  // ----- The tests of a registry -----

  /** Whether flags let a test of this name run. */
  ghost predicate NameRuns(flags: Flags, t: TestName) {
    && (flags.alsoRunDisabledTests || !(IsDisabledName(t.testCase) || IsDisabledName(t.test)))
    && FilterAccepts(flags.filter, t.testCase + "." + t.test)
  }

  ghost function Runs(flags: Flags, names: seq<TestName>): (r: seq<bool>)
    ensures |r| == |names|
  {
    seq(|names|, k requires 0 <= k < |names| => NameRuns(flags, names[k]))
  }

  lemma NamesOfTests(testCase: TestCase)
    requires testCase.Valid()
    ensures NamesOf(InfosOf(TestsOf(testCase))) == testCase.Named().Names()
  {
    hide BlockPermutation;
    InfosOfTests(testCase);
    var names, infos := testCase.Named().Names(), testCase.testInfoList;
    forall i | 0 <= i < |infos| ensures names[i] == NameOf(infos[i]) {
      assert infos[i] in infos;
    }
  }

  lemma InfosOfTests(testCase: TestCase)
    ensures InfosOf(TestsOf(testCase)) == testCase.testInfoList
  {
  }

  lemma NamesOfConcatenation(a: seq<Test>, b: seq<Test>)
    ensures InfosOf(a + b) == InfosOf(a) + InfosOf(b)
    ensures NamesOf(InfosOf(a + b)) == NamesOf(InfosOf(a)) + NamesOf(InfosOf(b))
  {
  }

  /** All tests of the test cases have the names that the suites list. */
  lemma {:induction false} AllNames(testCases: seq<TestCase>)
    requires forall tc :: tc in testCases ==> tc.Valid()
    ensures NamesOf(InfosOf(AllTests(testCases))) == Names(NamedSuites(testCases))
    decreases |testCases|
  {
    hide NamesOf, InfosOf;
    if testCases == [] {
      assert NamesOf(InfosOf([])) == [];
    } else {
      var n := |testCases| - 1;
      var front, last := testCases[..n], testCases[n];
      AllNames(front);
      SuitesOfConcat(front, [last]);
      assert NamedSuites([last]) == [last.Named()] && testCases == front + [last];
      NamesOfConcat(NamedSuites(front), [last.Named()]);
      assert Names([last.Named()]) == last.Named().Names() + [] == last.Named().Names();
      NamesOfTests(last);
      NamesOfConcatenation(AllTests(front), TestsOf(last));
    }
  }

  /** No test belongs to a registry twice. */
  lemma {:induction false} AllTestsDistinct(testCases: seq<TestCase>)
    requires DistinctNames(testCases) && forall tc :: tc in testCases ==> tc.Valid()
    ensures DistinctInfos(AllTests(testCases))
    ensures forall t :: t in AllTests(testCases) ==> t.testCase in testCases && t.info in t.testCase.testInfoList
    decreases |testCases|
  {
    hide BlockPermutation;
    if testCases != [] {
      var n := |testCases| - 1;
      AllTestsDistinct(testCases[..n]);
      AppendDistinct(AllTests(testCases[..n]), testCases[n]);
    }
  }

  lemma AppendDistinct(tests: seq<Test>, testCase: TestCase)
    requires DistinctInfos(tests) && testCase.Valid()
    requires forall t :: t in tests ==> t.info.testCaseName != testCase.name
    ensures DistinctInfos(tests + TestsOf(testCase))
  {
    hide BlockPermutation;
    var after := tests + TestsOf(testCase);
    forall i, j | 0 <= i < j < |after| ensures after[i].info != after[j].info {
      assert i < |tests| ==> after[i] == tests[i] && tests[i] in tests;
      assert i >= |tests| ==> after[i].info == testCase.testInfoList[i - |tests|];
      assert j >= |tests| ==> after[j].info == testCase.testInfoList[j - |tests|];
    }
  }

  /** The chosen tests of all test cases are those that the flags pick among all tests. */
  lemma {:induction false} ChosenArePicked(testCases: seq<TestCase>, flags: seq<bool>, chosen: set<TestInfo>)
    requires |flags| == |AllTests(testCases)| && PicksChosen(AllTests(testCases), flags, chosen)
    ensures AllChosen(Lists(testCases), chosen) == Picked(InfosOf(AllTests(testCases)), flags)
    decreases |testCases|
  {
    if testCases != [] {
      var n := |testCases| - 1;
      var front, last := testCases[..n], testCases[n];
      var tests := AllTests(front);
      PickedAtEnd(tests, last, flags, chosen);
      ChosenArePicked(front, flags[..|tests|], chosen);
      ListsOfOneMore(front, last);
      assert testCases == front + [last];
      ChosenWithLast(Lists(front), tests, last, flags, chosen);
    }
  }

  lemma ListsOfOneMore(front: seq<TestCase>, last: TestCase)
    ensures Lists(front + [last]) == Lists(front) + [last.testInfoList]
  {
  }

  lemma ChosenWithLast(lists: seq<seq<TestInfo>>, tests: seq<Test>, last: TestCase, flags: seq<bool>,
                       chosen: set<TestInfo>)
    requires |flags| == |tests + TestsOf(last)| && PicksChosen(tests + TestsOf(last), flags, chosen)
    requires AllChosen(lists, chosen) == Picked(InfosOf(tests), flags[..|tests|])
    ensures AllChosen(lists + [last.testInfoList], chosen) == Picked(InfosOf(tests + TestsOf(last)), flags)
  {
    hide AllChosen, Picked, InfosOf;
    var f, g := flags[..|tests|], flags[|tests|..];
    NamesOfConcatenation(tests, TestsOf(last));
    InfosOfTests(last);
    PickedAtEnd(tests, last, flags, chosen);
    MorePicked(lists, InfosOf(tests), f, last.testInfoList, g, chosen);
    assert f + g == flags;
  }

  lemma PickedAtEnd(tests: seq<Test>, last: TestCase, flags: seq<bool>, chosen: set<TestInfo>)
    requires |flags| == |tests + TestsOf(last)| && PicksChosen(tests + TestsOf(last), flags, chosen)
    ensures PicksChosen(tests, flags[..|tests|], chosen)
    ensures forall k :: 0 <= k < |last.testInfoList| ==> (last.testInfoList[k] in chosen <==> flags[|tests|..][k])
  {
    forall k | 0 <= k < |last.testInfoList| ensures last.testInfoList[k] in chosen <==> flags[|tests|..][k] {
      assert (tests + TestsOf(last))[|tests| + k].info == last.testInfoList[k];
    }
    forall k | 0 <= k < |tests| ensures tests[k].info in chosen <==> flags[k] {
      assert (tests + TestsOf(last))[k] == tests[k];
    }
  }

  lemma MorePicked(lists: seq<seq<TestInfo>>, a: seq<TestInfo>, f: seq<bool>, b: seq<TestInfo>, g: seq<bool>,
                   chosen: set<TestInfo>)
    requires |f| == |a| && |g| == |b| && AllChosen(lists, chosen) == Picked(a, f)
    requires forall k :: 0 <= k < |b| ==> (b[k] in chosen <==> g[k])
    ensures AllChosen(lists + [b], chosen) == Picked(a + b, f + g)
  {
    hide AllChosen, Chosen, Picked;
    AllChosenAppend(lists, b, chosen);
    ChosenIsPicked(b, g, chosen);
    PickedOfConcat(a, f, b, g);
  }

  ghost predicate PicksChosen(tests: seq<Test>, flags: seq<bool>, chosen: set<TestInfo>)
    requires |flags| == |tests|
  {
    forall k :: 0 <= k < |tests| ==> (tests[k].info in chosen <==> flags[k])
  }

  lemma {:induction false} ChosenIsPicked(tests: seq<TestInfo>, flags: seq<bool>, chosen: set<TestInfo>)
    requires |flags| == |tests| && forall k :: 0 <= k < |tests| ==> (tests[k] in chosen <==> flags[k])
    ensures Chosen(tests, chosen) == Picked(tests, flags)
  {
    if tests != [] {
      var n := |tests| - 1;
      ChosenIsPicked(tests[..n], flags[..n], chosen);
      ChosenAppend(tests[..n], tests[n], chosen);
      assert tests == tests[..n] + [tests[n]];
    }
  }

  lemma {:induction false} PickedOfConcat<E>(a: seq<E>, f: seq<bool>, b: seq<E>, g: seq<bool>)
    requires |f| == |a| && |g| == |b|
    ensures Picked(a + b, f + g) == Picked(a, f) + Picked(b, g)
    decreases |b|
  {
    if b == [] {
      assert a + b == a && f + g == f;
    } else {
      var n := |b| - 1;
      PickedOfConcat(a, f, b[..n], g[..n]);
      assert (a + b)[..|a| + n] == a + b[..n] && (f + g)[..|a| + n] == f + g[..n];
      assert (a + b)[|a| + n] == b[n] && (f + g)[|a| + n] == g[n];
      Associates(Picked(a, f), Picked(b[..n], g[..n]), if g[n] then [b[n]] else []);
    }
  }

  // ----- Running -----

  const MAX_RANDOM_SEED: nat := 99999

  /** GetRandomSeedFromFlag, in unsigned 32-bit arithmetic; a flag of 0 stands for the time, which then is
      the raw seed. */
  function GetRandomSeedFromFlag(rawSeed: nat): (seed: nat)
    requires rawSeed < UINT32_LIMIT
    ensures 1 <= seed <= 99999 && (1 <= rawSeed <= 99999 ==> seed == rawSeed)
    ensures rawSeed > 0 ==> (rawSeed - seed) % 99999 == 0
  {
    (rawSeed + UINT32_LIMIT - 1) % UINT32_LIMIT % MAX_RANDOM_SEED + 1
  }

  function GetNextRandomSeed(seed: nat): (next: nat)
    requires 1 <= seed <= MAX_RANDOM_SEED
    ensures 1 <= next <= MAX_RANDOM_SEED
  {
    if seed + 1 > MAX_RANDOM_SEED then 1 else seed + 1
  }

  /** The seed of the i-th iteration. */
  function SeedAt(shuffle: bool, rawSeed: nat, i: nat): (seed: nat)
    requires rawSeed < UINT32_LIMIT
    ensures shuffle ==> 1 <= seed <= MAX_RANDOM_SEED
  {
    if !shuffle then 0
    else if i == 0 then GetRandomSeedFromFlag(rawSeed)
    else GetNextRandomSeed(SeedAt(shuffle, rawSeed, i - 1))
  }

  /** The seeds go through 1 to 99999 in turn, so that each of 99999 iterations has its own. */
  lemma {:induction false} SeedInTurn(rawSeed: nat, i: nat)
    requires rawSeed < UINT32_LIMIT
    ensures SeedAt(true, rawSeed, i) == (GetRandomSeedFromFlag(rawSeed) - 1 + i) % 99999 + 1
  {
    if i > 0 {
      SeedInTurn(rawSeed, i - 1);
    }
  }

  lemma SeedsDiffer(rawSeed: nat, i: nat, j: nat)
    requires rawSeed < UINT32_LIMIT && i < j < i + 99999
    ensures SeedAt(true, rawSeed, i) != SeedAt(true, rawSeed, j)
  {
    SeedInTurn(rawSeed, i);
    SeedInTurn(rawSeed, j);
  }

  /** The tests that a run must start. */
  ghost function Due(tests: seq<TestInfo>, flags: Flags, shard: Shard): seq<TestInfo>
    requires shard.Valid()
  {
    Picked(tests, Selection(Runs(flags, NamesOf(tests)), shard))
  }

  /** What the order of a run depends on besides the seed: the tests, those that should run, the number of
      test cases of death tests, and the order before any shuffle. */
  datatype Setting = Setting(lists: seq<seq<TestInfo>>, chosen: set<TestInfo>, deaths: nat,
                             before: seq<int>, testsBefore: seq<seq<int>>, shuffle: bool)

  /** The run is in the order that the seed determines. */
  ghost predicate IsOrder(run: seq<TestInfo>, o: Setting, seed: nat) {
    exists indices, after ::
      && ShuffledOrNot(o.shuffle, seed, o.deaths, o.before, o.testsBefore, indices, after)
      && |after| == |o.lists| && Indexes(o.lists, indices) && run == StartOrder(o.lists, indices, after, o.chosen)
  }

  lemma HasOrder(run: seq<TestInfo>, o: Setting, seed: nat, indices: seq<int>, after: seq<seq<int>>)
    requires ShuffledOrNot(o.shuffle, seed, o.deaths, o.before, o.testsBefore, indices, after)
    requires |after| == |o.lists| && Indexes(o.lists, indices) && run == StartOrder(o.lists, indices, after, o.chosen)
    ensures IsOrder(run, o, seed)
  {
  }

  /** A run starts each chosen test once, unless its set-up fails. */
  ghost predicate IsRun(run: seq<TestInfo>, setUpFails: bool, o: Setting, seed: nat) {
    && multiset(run) == (if setUpFails then multiset{} else multiset(AllChosen(o.lists, o.chosen)))
    && (!setUpFails && AllChosen(o.lists, o.chosen) != [] ==> IsOrder(run, o, seed))
  }

  lemma SameSeedSameRun(run: seq<TestInfo>, run': seq<TestInfo>, o: Setting, seed: nat)
    requires IsRun(run, false, o, seed) && IsRun(run', false, o, seed)
    ensures run == run'
  {
    hide BlockPermutation, StartOrder, InBlocks, ShuffledInTurn, StateAfter, AllChosen;
    if AllChosen(o.lists, o.chosen) == [] {
      assert |multiset(run)| == 0 && |multiset(run')| == 0;
    }
  }

  /** The registry is in its original order. */
  ghost predicate AtRest(impl: UnitTestImpl, o: Setting)
    reads impl, impl.testCases, MembersOf(o.lists)`shouldRun
  {
    && impl.Valid() && impl.Unshuffled() && IsSelection(impl.testCases, o.lists, o.chosen)
    && o.deaths == impl.lastDeathTestCase + 1 && o.before == impl.testCaseIndices && impl.HaveIndices(o.testsBefore)
  }

  /** FilterTests on all test cases: what it leaves makes the run loop start the tests that are due. */
  method Filter(impl: UnitTestImpl, flags: Flags, shard: Shard)
    returns (hasTestsToRun: bool, ghost chosen: set<TestInfo>)
    requires impl.Valid() && shard.Valid()
    modifies impl.testCases`shouldRun, Infos(AllTests(impl.testCases))
    ensures IsSelection(impl.testCases, Lists(impl.testCases), chosen)
    ensures AllChosen(Lists(impl.testCases), chosen) == Due(InfosOf(AllTests(impl.testCases)), flags, shard)
    ensures hasTestsToRun <==> AllChosen(Lists(impl.testCases), chosen) != []
  {
    hide AllChosen, Chosen, Picked, IsSelection, NameRuns, BlockPermutation, DeathTestsFirst, AllTests;
    var testCases := impl.testCases;
    AllTestsDistinct(testCases);
    ghost var tests := AllTests(testCases);
    var numSelectedTests, verdicts, starts := FilterTests.FilterTests(testCases, flags, shard);
    chosen := FilteredIsSelection(testCases, tests, verdicts, starts);
    SelectionsArePicks(tests, verdicts, chosen);
    ChosenArePicked(testCases, Selections(verdicts), chosen);
    SelectedAreDue(tests, flags, shard, verdicts);
    hasTestsToRun := numSelectedTests > 0;
  }

  lemma SelectionsArePicks(tests: seq<Test>, verdicts: seq<Verdict>, chosen: set<TestInfo>)
    requires |verdicts| == |tests| && forall k :: 0 <= k < |tests| ==> Shows(tests[k].info, verdicts[k])
    requires forall ti :: ti in chosen <==> ti in Infos(tests) && ti.shouldRun
    ensures PicksChosen(tests, Selections(verdicts), chosen)
  {
    forall k | 0 <= k < |tests| ensures tests[k].info in chosen <==> verdicts[k].selected {
      assert Shows(tests[k].info, verdicts[k]) && tests[k] in tests;
    }
  }

  lemma SelectedAreDue(tests: seq<Test>, flags: Flags, shard: Shard, verdicts: seq<Verdict>)
    requires shard.Valid() && AreVerdicts(flags, shard, tests, verdicts)
    requires forall t :: t in tests ==> t.info.testCaseName == t.testCase.name
    ensures Picked(InfosOf(tests), Selections(verdicts)) == Due(InfosOf(tests), flags, shard)
  {
    hide Picked, AreVerdicts, Selections;
    var r := Runs(flags, NamesOf(InfosOf(tests)));
    forall k | 0 <= k < |tests| ensures r[k] == IsRunnable(flags, tests[k]) {
      assert tests[k] in tests;
    }
    SelectionIsOfShard(flags, shard, tests, verdicts, r);
  }

  /** One iteration. */
  method Iterate(impl: UnitTestImpl, shuffle: bool, randomSeed: nat, hasTestsToRun: bool, setUpFails: bool,
                 ghost o: Setting)
    returns (started: seq<TestInfo>)
    requires AtRest(impl, o) && o.shuffle == shuffle && (hasTestsToRun <==> AllChosen(o.lists, o.chosen) != [])
    modifies impl`testCaseIndices, impl.testCases`testIndices, impl.random
    ensures AtRest(impl, o) && IsRun(started, setUpFails, o, randomSeed)
  {
    hide BlockPermutation, StartOrder, Select, AllChosen, Indexes, IsOrder, ShuffledOrNot, DistinctNames, Identity;
    var _, run, indices, after := impl.RunIteration(shuffle, randomSeed, hasTestsToRun, setUpFails,
                                                    o.testsBefore, o.lists, o.chosen);
    started := run;
    if hasTestsToRun && !setUpFails {
      HasOrder(started, o, randomSeed, indices, after);
    }
  }

  /** The loop of RunAllTests. */
  method Repeat(impl: UnitTestImpl, shuffle: bool, rawSeed: nat, hasTestsToRun: bool, setUpFails: seq<bool>,
                ghost o: Setting)
    returns (runs: seq<seq<TestInfo>>)
    requires AtRest(impl, o) && o.shuffle == shuffle && (hasTestsToRun <==> AllChosen(o.lists, o.chosen) != [])
    requires rawSeed < UINT32_LIMIT
    modifies impl`testCaseIndices, impl.testCases`testIndices, impl.random
    ensures AtRest(impl, o) && |runs| == |setUpFails|
    ensures forall i :: 0 <= i < |runs| ==> IsRun(runs[i], setUpFails[i], o, SeedAt(shuffle, rawSeed, i))
  {
    hide AtRest, IsRun, AllChosen;
    var randomSeed := if shuffle then GetRandomSeedFromFlag(rawSeed) else 0;
    runs := [];
    for i := 0 to |setUpFails|
      invariant AtRest(impl, o) && |runs| == i && randomSeed == SeedAt(shuffle, rawSeed, i)
      invariant impl.testCases == old(impl.testCases)
      invariant forall j :: 0 <= j < i ==> IsRun(runs[j], setUpFails[j], o, SeedAt(shuffle, rawSeed, j))
    {
      var started := Iterate(impl, shuffle, randomSeed, hasTestsToRun, setUpFails[i], o);
      runs := runs + [started];
      if shuffle {
        randomSeed := GetNextRandomSeed(randomSeed);
      }
    }
  }

  /** RunAllTests, as far as it starts tests, for a number of iterations that is not negative. setUpFails
      says of each iteration whether the global set-up fails. Every iteration starts exactly the tests that
      are due, each once, and those with the same seed start them in the same order. */
  method RunAllTests(impl: UnitTestImpl, flags: Flags, shard: Shard, shuffle: bool, rawSeed: nat,
                     setUpFails: seq<bool>)
    returns (runs: seq<seq<TestInfo>>)
    requires impl.Valid() && impl.Unshuffled() && shard.Valid() && rawSeed < UINT32_LIMIT
    modifies impl`testCaseIndices, impl.testCases`testIndices, impl.random
    modifies impl.testCases`shouldRun, Infos(AllTests(impl.testCases))
    ensures impl.Valid() && impl.Unshuffled() && |runs| == |setUpFails|
    ensures forall i :: 0 <= i < |runs| ==>
              multiset(runs[i]) ==
              if setUpFails[i] then multiset{} else multiset(Due(InfosOf(AllTests(impl.testCases)), flags, shard))
    ensures forall i, j :: 0 <= i < |runs| && 0 <= j < |runs| && !setUpFails[i] && !setUpFails[j] ==>
              SeedAt(shuffle, rawSeed, i) == SeedAt(shuffle, rawSeed, j) ==> runs[i] == runs[j]
  {
    hide BlockPermutation, AllChosen, Due, IsSelection, IsRun, AllTests, DistinctNames;
    var hasTestsToRun, chosen := Filter(impl, flags, shard);
    ghost var testsBefore := IndicesOf(impl.testCases);
    ghost var o := Setting(Lists(impl.testCases), chosen, impl.lastDeathTestCase + 1, impl.testCaseIndices,
                           testsBefore, shuffle);
    runs := Repeat(impl, shuffle, rawSeed, hasTestsToRun, setUpFails, o);
    RunsOf(runs, setUpFails, o, rawSeed);
  }

  lemma RunsOf(runs: seq<seq<TestInfo>>, setUpFails: seq<bool>, o: Setting, rawSeed: nat)
    requires |runs| == |setUpFails| && rawSeed < UINT32_LIMIT
    requires forall i :: 0 <= i < |runs| ==> IsRun(runs[i], setUpFails[i], o, SeedAt(o.shuffle, rawSeed, i))
    ensures forall i :: 0 <= i < |runs| ==>
              multiset(runs[i]) == if setUpFails[i] then multiset{} else multiset(AllChosen(o.lists, o.chosen))
    ensures forall i, j :: 0 <= i < |runs| && 0 <= j < |runs| && !setUpFails[i] && !setUpFails[j] ==>
              SeedAt(o.shuffle, rawSeed, i) == SeedAt(o.shuffle, rawSeed, j) ==> runs[i] == runs[j]
  {
    hide IsOrder, AllChosen;
    forall i, j | 0 <= i < |runs| && 0 <= j < |runs| && !setUpFails[i] && !setUpFails[j] &&
                  SeedAt(o.shuffle, rawSeed, i) == SeedAt(o.shuffle, rawSeed, j)
      ensures runs[i] == runs[j]
    {
      SameSeedSameRun(runs[i], runs[j], o, SeedAt(o.shuffle, rawSeed, i));
    }
  }

  // ----- Programs -----

  /** MakeAndRegisterTestInfo for each test of a program. */
  method RegisterAll(names: seq<TestName>) returns (impl: UnitTestImpl)
    requires |names| <= MAX_RANGE
    ensures fresh(impl) && fresh(impl.random) && impl.Valid() && impl.Unshuffled()
    ensures forall tc :: tc in impl.testCases ==> fresh(tc)
    ensures forall tc, ti :: tc in impl.testCases && ti in tc.testInfoList ==> fresh(ti)
    ensures NamedSuites(impl.testCases) == Registered(names)
  {
    hide BlockPermutation, DistinctNames, DeathTestsFirst, Distinct, NamedSuites, Add;
    var random := new Random(0);
    impl := new UnitTestImpl(random);
    NoSuites(impl.testCases);
    for i := 0 to |names|
      invariant fresh(impl) && fresh(impl.random) && impl.Valid() && impl.Unshuffled()
      invariant forall tc :: tc in impl.testCases ==> fresh(tc)
      invariant forall tc, ti :: tc in impl.testCases && ti in tc.testInfoList ==> fresh(ti)
      invariant NamedSuites(impl.testCases) == Registered(names[..i])
    {
      RoomForOneMore(impl.testCases, names[..i]);
      assert names[..i + 1][..i] == names[..i];
      var testInfo := new TestInfo(names[i].testCase, names[i].test);
      assert forall k :: 0 <= k < |impl.testCases| ==> impl.testCases[k] in impl.testCases;
      impl.AddTestInfo(testInfo);
    }
    assert names[..|names|] == names;
  }

  lemma NoSuites(testCases: seq<TestCase>)
    requires testCases == []
    ensures NamedSuites(testCases) == Registered([])
  {
  }

  lemma RoomForOneMore(testCases: seq<TestCase>, names: seq<TestName>)
    requires NamedSuites(testCases) == Registered(names)
    ensures |testCases| <= |names| && forall tc :: tc in testCases ==> |tc.testInfoList| <= |names|
  {
    RegisteredBounds(names);
    SuiteAt(testCases);
    forall tc | tc in testCases ensures |tc.testInfoList| <= |names| {
      var i :| 0 <= i < |testCases| && testCases[i] == tc;
      assert NamedSuites(testCases)[i] in Registered(names);
    }
  }

  /** The names of the tests that a program with these tests is due to start on a shard. */
  ghost function DueNames(names: seq<TestName>, flags: Flags, shard: Shard): seq<TestName>
    requires shard.Valid()
  {
    var all := Names(Registered(names));
    Picked(all, Selection(Runs(flags, all), shard))
  }

  /** A program from its registrations to the end of RUN_ALL_TESTS. In each iteration it starts the tests due
      on its shard; without shards these are the registered ones that the flags let run, each as often as it
      is registered. */
  method RunProgram(names: seq<TestName>, flags: Flags, shard: Shard, shuffle: bool, rawSeed: nat,
                    setUpFails: seq<bool>)
    returns (runs: seq<seq<TestInfo>>)
    requires |names| <= MAX_RANGE && shard.Valid() && rawSeed < UINT32_LIMIT
    ensures |runs| == |setUpFails|
    ensures forall i :: 0 <= i < |runs| ==>
              if setUpFails[i] then runs[i] == []
              else multiset(NamesOf(runs[i])) == multiset(DueNames(names, flags, shard))
    ensures shard.Everything? ==> forall i, t :: 0 <= i < |runs| && !setUpFails[i] ==>
              multiset(NamesOf(runs[i]))[t] == if NameRuns(flags, t) then multiset(names)[t] else 0
  {
    hide BlockPermutation, DistinctNames, DeathTestsFirst, NamedSuites, Registered, DueNames, Due, NamesOf;
    var impl := RegisterAll(names);
    InfosAre(impl.testCases);
    assert forall k :: 0 <= k < |impl.testCases| ==> impl.testCases[k] in impl.testCases;
    assert forall ti :: ti in Infos(AllTests(impl.testCases)) ==> fresh(ti);
    runs := RunAllTests(impl, flags, shard, shuffle, rawSeed, setUpFails);
    ghost var due := Due(InfosOf(AllTests(impl.testCases)), flags, shard);
    DueAreNamed(impl.testCases, names, flags, shard);
    forall i | 0 <= i < |runs|
      ensures if setUpFails[i] then runs[i] == []
              else multiset(NamesOf(runs[i])) == multiset(DueNames(names, flags, shard))
    {
      if setUpFails[i] {
        assert |multiset(runs[i])| == 0;
      } else {
        NamesOfSame(runs[i], due);
      }
    }
    if shard.Everything? {
      forall t
        ensures multiset(DueNames(names, flags, shard))[t] == if NameRuns(flags, t) then multiset(names)[t] else 0
      {
        DueOnOne(names, flags, t);
      }
    }
  }

  lemma InfosAre(testCases: seq<TestCase>)
    requires DistinctNames(testCases) && forall tc :: tc in testCases ==> tc.Valid()
    ensures forall ti :: ti in Infos(AllTests(testCases)) ==>
              exists tc :: tc in testCases && ti in tc.testInfoList
  {
    AllTestsDistinct(testCases);
  }

  lemma DueAreNamed(testCases: seq<TestCase>, names: seq<TestName>, flags: Flags, shard: Shard)
    requires shard.Valid() && NamedSuites(testCases) == Registered(names)
    requires forall tc :: tc in testCases ==> tc.Valid()
    ensures NamesOf(Due(InfosOf(AllTests(testCases)), flags, shard)) == DueNames(names, flags, shard)
  {
    hide Picked, Selection, Runs, NamesOf, InfosOf, AllTests, NamedSuites, Registered, Names;
    var infos := InfosOf(AllTests(testCases));
    AllNames(testCases);
    PickedNames(infos, Selection(Runs(flags, NamesOf(infos)), shard));
  }

  lemma {:induction false} NamesOfSame(a: seq<TestInfo>, b: seq<TestInfo>)
    requires multiset(a) == multiset(b)
    ensures multiset(NamesOf(a)) == multiset(NamesOf(b))
    decreases |a|
  {
    if a == [] {
      assert |multiset(b)| == 0;
    } else {
      var j := SameWithoutOne(a, b);
      NamesOfSame(a[1..], b[..j] + b[j + 1..]);
      assert NamesOf(a) == [NameOf(a[0])] + NamesOf(a[1..]);
      assert NamesOf(b) == NamesOf(b[..j]) + [NameOf(b[j])] + NamesOf(b[j + 1..]);
      assert NamesOf(b[..j] + b[j + 1..]) == NamesOf(b[..j]) + NamesOf(b[j + 1..]);
    }
  }

  lemma {:induction false} RunsCount(flags: Flags, names: seq<TestName>, t: TestName)
    ensures multiset(Picked(names, Runs(flags, names)))[t] == if NameRuns(flags, t) then multiset(names)[t] else 0
  {
    if names != [] {
      var n := |names| - 1;
      RunsCount(flags, names[..n], t);
      assert names == names[..n] + [names[n]];
      assert Runs(flags, names)[..n] == Runs(flags, names[..n]);
    }
  }

  lemma DueOnOne(names: seq<TestName>, flags: Flags, t: TestName)
    ensures multiset(DueNames(names, flags, Everything))[t] == if NameRuns(flags, t) then multiset(names)[t] else 0
  {
    hide NameRuns;
    var all := Names(Registered(names));
    assert Selection(Runs(flags, all), Everything) == Runs(flags, all);
    RegisteredNames(names);
    RunsCount(flags, all, t);
  }

  // ----- All shards together -----

  /** How often the shards 0 .. upTo together pick x. */
  ghost function OnShards<E>(xs: seq<E>, r: seq<bool>, total: nat, upTo: nat, x: E): nat
    requires upTo <= total && |r| == |xs|
  {
    if upTo == 0 then 0
    else OnShards(xs, r, total, upTo - 1, x) + multiset(Picked(xs, Selection(r, Part(total, upTo - 1))))[x]
  }

  lemma SelectionOfPrefix(r: seq<bool>, n: nat, shard: Shard)
    requires n <= |r| && shard.Valid()
    ensures Selection(r, shard)[..n] == Selection(r[..n], shard)
  {
    forall k | 0 <= k < n ensures Selected(r, shard, k) == Selected(r[..n], shard, k) {
      CountOfPrefix(r, n, k);
    }
  }

  /** The shard that picks the last element; -1 if none does. */
  function LastShard(r: seq<bool>, total: nat): (i: int)
    requires 0 < total && r != []
    ensures -1 <= i < total
  {
    if r[|r| - 1] then Count(r, |r| - 1) % total else -1
  }

  lemma LastSelected(r: seq<bool>, total: nat, i: nat)
    requires i < total && r != []
    ensures Selection(r, Part(total, i))[|r| - 1] <==> LastShard(r, total) == i
  {
  }

  lemma PickedOnShard<E>(xs: seq<E>, r: seq<bool>, total: nat, i: nat, x: E)
    requires i < total && |r| == |xs| && xs != []
    ensures var n, shard := |xs| - 1, Part(total, i);
            multiset(Picked(xs, Selection(r, shard)))[x] ==
            multiset(Picked(xs[..n], Selection(r[..n], shard)))[x] +
            (if LastShard(r, total) == i && xs[n] == x then 1 else 0)
  {
    hide Selection, LastShard, Count;
    SelectionOfPrefix(r, |xs| - 1, Part(total, i));
    LastSelected(r, total, i);
  }

  lemma {:induction false} OnShardsStep<E>(xs: seq<E>, r: seq<bool>, total: nat, upTo: nat, x: E)
    requires upTo <= total && 0 < total && |r| == |xs| && xs != []
    ensures var n := |xs| - 1;
            OnShards(xs, r, total, upTo, x) ==
            OnShards(xs[..n], r[..n], total, upTo, x) +
            (if 0 <= LastShard(r, total) < upTo && xs[n] == x then 1 else 0)
  {
    hide Picked, Selection, LastShard, Count;
    if upTo > 0 {
      OnShardsStep(xs, r, total, upTo - 1, x);
      PickedOnShard(xs, r, total, upTo - 1, x);
    }
  }

  /** The shards together pick what is flagged, each element on one of them. */
  lemma {:induction false} ShardsPickAll<E>(xs: seq<E>, r: seq<bool>, total: nat, x: E)
    requires 0 < total && |r| == |xs|
    ensures OnShards(xs, r, total, total, x) == multiset(Picked(xs, r))[x]
  {
    if xs == [] {
      NothingOnShards(xs, r, total, total, x);
    } else {
      ShardsPickAll(xs[..|xs| - 1], r[..|xs| - 1], total, x);
      OnShardsStep(xs, r, total, total, x);
    }
  }

  lemma {:induction false} NothingOnShards<E>(xs: seq<E>, r: seq<bool>, total: nat, upTo: nat, x: E)
    requires upTo <= total && xs == [] && |r| == |xs|
    ensures OnShards(xs, r, total, upTo, x) == 0
  {
    if upTo > 0 {
      NothingOnShards(xs, r, total, upTo - 1, x);
    }
  }

  /** How often programs with the same tests are due to start t on the shards 0 .. upTo. */
  ghost function DueOnShards(names: seq<TestName>, flags: Flags, total: nat, upTo: nat, t: TestName): nat
    requires upTo <= total
  {
    if upTo == 0 then 0
    else DueOnShards(names, flags, total, upTo - 1, t) + multiset(DueNames(names, flags, Part(total, upTo - 1)))[t]
  }

  lemma {:induction false} DueAreOnShards(names: seq<TestName>, flags: Flags, total: nat, upTo: nat, t: TestName)
    requires upTo <= total
    ensures var all := Names(Registered(names));
            DueOnShards(names, flags, total, upTo, t) == OnShards(all, Runs(flags, all), total, upTo, t)
  {
    hide Picked, Selection, Registered, Names, Runs;
    if upTo > 0 {
      DueAreOnShards(names, flags, total, upTo - 1, t);
    }
  }

  /** All shards together are due to start every registered test that the flags let run, each as often as it is
      registered, and no other. */
  lemma ProgramsOnShards(names: seq<TestName>, flags: Flags, total: nat, t: TestName)
    requires 0 < total
    ensures DueOnShards(names, flags, total, total, t) == if NameRuns(flags, t) then multiset(names)[t] else 0
  {
    var all := Names(Registered(names));
    DueAreOnShards(names, flags, total, total, t);
    ShardsPickAll(all, Runs(flags, all), total, t);
    RegisteredNames(names);
    RunsCount(flags, all, t);
  }
}
