/** FilterTests: which tests run, and how the runnable ones are dealt out to shards. */
module Sharding {

  /** The number of true flags among the first k. */
  function Count(flags: seq<bool>, k: nat): nat
    requires k <= |flags|
  {
    if k == 0 then 0 else Count(flags, k - 1) + (if flags[k - 1] then 1 else 0)
  }

  datatype Shard = Everything | Part(total: int, index: int) {
    predicate Valid() {
      Part? ==> 0 <= index < total
    }
  }

  /** ShouldRunTestOnShard. */
  predicate ShouldRunTestOnShard(totalShards: int, shardIndex: int, testId: int)
    requires totalShards > 0
  {
    testId % totalShards == shardIndex
  }

  /** Whether the k-th test runs: it is runnable, and its number among the runnable ones falls to
      the shard. */
  predicate Selected(flags: seq<bool>, shard: Shard, k: nat)
    requires shard.Valid() && k < |flags|
  {
    flags[k] && (shard.Everything? || ShouldRunTestOnShard(shard.total, shard.index, Count(flags, k)))
  }

  /** Which tests a shard runs. */
  function Selection(flags: seq<bool>, shard: Shard): (selection: seq<bool>)
    requires shard.Valid()
    ensures |selection| == |flags|
  {
    seq(|flags|, k requires 0 <= k < |flags| => Selected(flags, shard, k))
  }

  function CountSelected(flags: seq<bool>, shard: Shard, k: nat): nat
    requires shard.Valid() && k <= |flags|
  {
    Count(Selection(flags, shard), k)
  }

  /** Every runnable test runs on exactly one shard, no other test on any. */
  lemma OneShardEach(flags: seq<bool>, total: int, k: nat)
    requires total > 0 && k < |flags|
    ensures !flags[k] ==> forall i :: 0 <= i < total ==> !Selected(flags, Part(total, i), k)
    ensures flags[k] ==>
              var i := Count(flags, k) % total;
              0 <= i < total && forall j :: 0 <= j < total ==> (Selected(flags, Part(total, j), k) <==> j == i)
  {
  }

  /** How many of the numbers 0 .. r fall to a shard. */
  function Share(r: nat, total: int, index: int): int
    requires 0 <= index < total
  {
    r / total + (if index < r % total then 1 else 0)
  }

  lemma ShareStep(r: nat, total: int, index: int)
    requires 0 <= index < total
    ensures Share(r + 1, total, index) == Share(r, total, index) + (if r % total == index then 1 else 0)
  {
    var q, m := r / total, r % total;
    assert r == total * q + m;
    if m + 1 == total {
      DivMod(r + 1, total, q + 1, 0);
    } else {
      DivMod(r + 1, total, q, m + 1);
    }
  }

  lemma Multiple(d: int, e: int)
    requires d > 0
    ensures e >= 1 ==> d * e >= d
    ensures e <= -1 ==> d * e <= -d
  {
  }

  lemma DivMod(x: int, d: int, q: int, m: int)
    requires 0 <= m < d && x == d * q + m
    ensures x / d == q && x % d == m
  {
    var e := x / d - q;
    assert d * e == d * (x / d) - d * q;
    Multiple(d, e);
  }

  lemma {:induction false} SelectedShare(flags: seq<bool>, total: int, index: int, k: nat)
    requires 0 <= index < total && k <= |flags|
    ensures CountSelected(flags, Part(total, index), k) == Share(Count(flags, k), total, index)
  {
    if k == 0 {
      DivMod(0, total, 0, 0);
    } else {
      SelectedShare(flags, total, index, k - 1);
      ShareStep(Count(flags, k - 1), total, index);
    }
  }

  lemma {:induction false} SelectedEverything(flags: seq<bool>, k: nat)
    requires k <= |flags|
    ensures CountSelected(flags, Everything, k) == Count(flags, k)
  {
    if k > 0 {
      SelectedEverything(flags, k - 1);
    }
  }

  /** The tests selected on the shards 0 .. upTo together. */
  function SumOverShards(flags: seq<bool>, total: int, upTo: nat): int
    requires upTo <= total
  {
    if upTo == 0 then 0
    else SumOverShards(flags, total, upTo - 1) + CountSelected(flags, Part(total, upTo - 1), |flags|)
  }

  lemma {:induction false} SumOfShares(flags: seq<bool>, total: int, upTo: nat)
    requires upTo <= total && total > 0
    ensures var r := Count(flags, |flags|);
            SumOverShards(flags, total, upTo) == upTo * (r / total) + (if upTo <= r % total then upTo else r % total)
  {
    if upTo > 0 {
      SumOfShares(flags, total, upTo - 1);
      SelectedShare(flags, total, upTo - 1, |flags|);
      var q := Count(flags, |flags|) / total;
      assert upTo * q == (upTo - 1) * q + q;
    }
  }

  /** The shards together run every runnable test, and no two of them differ by more than one. */
  lemma ShardsShareAll(flags: seq<bool>, total: int)
    requires total > 0
    ensures SumOverShards(flags, total, total) == Count(flags, |flags|)
    ensures forall i, j :: 0 <= i < total && 0 <= j < total ==>
              CountSelected(flags, Part(total, i), |flags|) <= CountSelected(flags, Part(total, j), |flags|) + 1
  {
    SumOfShares(flags, total, total);
    forall i | 0 <= i < total
      ensures CountSelected(flags, Part(total, i), |flags|) == Share(Count(flags, |flags|), total, i)
    {
      SelectedShare(flags, total, i, |flags|);
    }
  }
}

module FilterTests {
  import opened TestFilter
  import opened TestRegistry
  import opened Sharding

  /** The --gtest_filter flag and --gtest_also_run_disabled_tests. */
  datatype Flags = Flags(filter: string, alsoRunDisabledTests: bool)

  /** A test with the test case it belongs to. */
  datatype Test = Test(testCase: TestCase, info: TestInfo)

  ghost predicate IsDisabled(t: Test) {
    IsDisabledName(t.testCase.name) || IsDisabledName(t.info.name)
  }

  ghost predicate PassesFilter(flags: Flags, t: Test) {
    FilterAccepts(flags.filter, t.testCase.name + "." + t.info.name)
  }

  /** All tests, test case by test case. */
  ghost function AllTests(testCases: seq<TestCase>): seq<Test>
    reads testCases`testInfoList
  {
    if testCases == [] then []
    else AllTests(testCases[..|testCases| - 1]) + TestsOf(testCases[|testCases| - 1])
  }

  ghost function TestsOf(testCase: TestCase): (tests: seq<Test>)
    reads testCase`testInfoList
    ensures |tests| == |testCase.testInfoList|
    ensures forall j :: 0 <= j < |tests| ==> tests[j] == Test(testCase, testCase.testInfoList[j])
  {
    var infos := testCase.testInfoList;
    seq(|infos|, j requires 0 <= j < |infos| => Test(testCase, infos[j]))
  }

  ghost predicate IsRunnable(flags: Flags, t: Test) {
    (flags.alsoRunDisabledTests || !IsDisabled(t)) && PassesFilter(flags, t)
  }

  /** What FilterTests finds out about one test. */
  datatype Verdict = Verdict(disabled: bool, matches: bool, runnable: bool, selected: bool)

  function Runnables(verdicts: seq<Verdict>): (r: seq<bool>)
    ensures |r| == |verdicts|
  {
    seq(|verdicts|, k requires 0 <= k < |verdicts| => verdicts[k].runnable)
  }

  function Selections(verdicts: seq<Verdict>): (r: seq<bool>)
    ensures |r| == |verdicts|
  {
    seq(|verdicts|, k requires 0 <= k < |verdicts| => verdicts[k].selected)
  }

  /** The verdict on the k-th test is what the flags and the shard say. */
  ghost predicate IsVerdict(flags: Flags, shard: Shard, tests: seq<Test>, verdicts: seq<Verdict>, k: nat)
    requires shard.Valid() && k < |tests| == |verdicts|
  {
    var v := verdicts[k];
    && v.disabled == IsDisabled(tests[k]) && v.matches == PassesFilter(flags, tests[k])
    && v.runnable == IsRunnable(flags, tests[k])
    && v.selected == Selected(Runnables(verdicts), shard, k)
  }

  ghost predicate AreVerdicts(flags: Flags, shard: Shard, tests: seq<Test>, verdicts: seq<Verdict>)
    requires shard.Valid()
  {
    && |verdicts| == |tests|
    && forall k {:trigger IsVerdict(flags, shard, tests, verdicts, k)} :: 0 <= k < |tests| ==>
       IsVerdict(flags, shard, tests, verdicts, k)
  }

  ghost predicate DistinctCases(testCases: seq<TestCase>) {
    forall i, j :: 0 <= i < j < |testCases| ==> testCases[i] != testCases[j]
  }

  ghost predicate DistinctInfos(tests: seq<Test>) {
    forall i, j :: 0 <= i < j < |tests| ==> tests[i].info != tests[j].info
  }

  /** What is recorded about a test. */
  ghost predicate Shows(info: TestInfo, v: Verdict)
    reads info
  {
    info.isDisabled == v.disabled && info.matchesFilter == v.matches && info.shouldRun == v.selected
  }

  ghost predicate SomeSelected(verdicts: seq<Verdict>, from: nat, to: nat)
    requires to <= |verdicts|
  {
    exists k :: from <= k < to && verdicts[k].selected
  }

  lemma NextVerdict(verdicts: seq<Verdict>, start: nat, n: nat)
    requires start <= n < |verdicts|
    ensures Count(Runnables(verdicts), n + 1) == Count(Runnables(verdicts), n) + (if verdicts[n].runnable then 1 else 0)
    ensures Count(Selections(verdicts), n + 1) ==
            Count(Selections(verdicts), n) + (if verdicts[n].selected then 1 else 0)
    ensures SomeSelected(verdicts, start, n + 1) == (SomeSelected(verdicts, start, n) || verdicts[n].selected)
  {
  }

  /** starts[i] is where the tests of the i-th test case begin. */
  ghost predicate IsLayout(testCases: seq<TestCase>, tests: seq<Test>, starts: seq<nat>)
    reads testCases`testInfoList
  {
    && |starts| == |testCases| + 1 && starts[0] == 0 && starts[|testCases|] == |tests|
    && forall i :: 0 <= i < |testCases| ==> IsLayoutAt(testCases[i], tests, starts, i)
  }

  ghost predicate IsLayoutAt(testCase: TestCase, tests: seq<Test>, starts: seq<nat>, i: nat)
    requires i + 1 < |starts|
    reads testCase`testInfoList
  {
    starts[i] + |testCase.testInfoList| == starts[i + 1] && HoldsTests(testCase, tests, starts[i])
  }

  ghost predicate HoldsTests(testCase: TestCase, tests: seq<Test>, start: nat)
    reads testCase`testInfoList
  {
    && start + |testCase.testInfoList| <= |tests|
    && forall k :: start <= k < start + |testCase.testInfoList| ==>
       tests[k] == Test(testCase, testCase.testInfoList[k - start])
  }

  lemma {:induction false} LayoutOf(testCases: seq<TestCase>) returns (starts: seq<nat>)
    ensures IsLayout(testCases, AllTests(testCases), starts)
    decreases |testCases|
  {
    starts := [0];
    if testCases != [] {
      var front, tests := testCases[..|testCases| - 1], AllTests(testCases);
      var before := LayoutOf(front);
      starts := before + [|tests|];
      forall i | 0 <= i < |front| ensures IsLayoutAt(testCases[i], tests, starts, i) {
        assert IsLayoutAt(front[i], AllTests(front), before, i);
      }
    }
  }

  lemma {:induction false} VerdictsExist(flags: Flags, shard: Shard, tests: seq<Test>) returns (verdicts: seq<Verdict>)
    requires shard.Valid()
    ensures AreVerdicts(flags, shard, tests, verdicts)
  {
    var r := seq(|tests|, k requires 0 <= k < |tests| => IsRunnable(flags, tests[k]));
    verdicts := seq(|tests|, k requires 0 <= k < |tests| =>
      Verdict(IsDisabled(tests[k]), PassesFilter(flags, tests[k]), r[k], Selected(r, shard, k)));
    assert Runnables(verdicts) == r;
  }

  /** The test case shows whether one of its tests, those from `from` to `to`, is selected. */
  ghost predicate Marked(testCase: TestCase, verdicts: seq<Verdict>, from: nat, to: nat)
    reads testCase`shouldRun
  {
    to <= |verdicts| && testCase.shouldRun == SomeSelected(verdicts, from, to)
  }

  /** FilterTests. Part is HONOR_SHARDING_PROTOCOL with the shard from the environment. */
  method FilterTests(testCases: seq<TestCase>, flags: Flags, shard: Shard)
    returns (numSelectedTests: nat, ghost verdicts: seq<Verdict>, ghost starts: seq<nat>)
    requires DistinctCases(testCases) && DistinctInfos(AllTests(testCases)) && shard.Valid()
    modifies testCases`shouldRun, Infos(AllTests(testCases))
    ensures AllTests(testCases) == old(AllTests(testCases)) && IsLayout(testCases, AllTests(testCases), starts)
    ensures AreVerdicts(flags, shard, AllTests(testCases), verdicts)
    ensures numSelectedTests == Count(Selections(verdicts), |verdicts|)
    ensures forall k :: 0 <= k < |AllTests(testCases)| ==> Shows(AllTests(testCases)[k].info, verdicts[k])
    ensures forall i, j :: 0 <= i && j == i + 1 && j <= |testCases| ==>
            Marked(testCases[i], verdicts, starts[i], starts[j])
  {
    ghost var tests := AllTests(testCases);
    verdicts := VerdictsExist(flags, shard, tests);
    starts := LayoutOf(testCases);
    numSelectedTests := FilterAll(testCases, flags, shard, tests, verdicts, starts);
  }

  lemma InfosApart(testCase: TestCase, tests: seq<Test>, start: nat)
    requires DistinctInfos(tests) && HoldsTests(testCase, tests, start)
    ensures forall ti :: ti in testCase.testInfoList ==> ti in Infos(tests)
    ensures forall k :: 0 <= k < start ==> tests[k].info !in testCase.testInfoList
  {
    forall ti | ti in testCase.testInfoList
      ensures ti in Infos(tests) && forall k :: 0 <= k < start ==> tests[k].info != ti
    {
      var j :| 0 <= j < |testCase.testInfoList| && testCase.testInfoList[j] == ti;
      assert tests[start + j] == Test(testCase, ti) && tests[start + j] in tests;
    }
  }

  ghost function Infos(tests: seq<Test>): set<TestInfo> {
    set t | t in tests :: t.info
  }

  /** The outer loop. */
  method FilterAll(testCases: seq<TestCase>, flags: Flags, shard: Shard,
                   ghost tests: seq<Test>, ghost verdicts: seq<Verdict>, ghost starts: seq<nat>)
    returns (numSelectedTests: nat)
    requires shard.Valid() && AreVerdicts(flags, shard, tests, verdicts)
    requires DistinctCases(testCases) && DistinctInfos(tests) && IsLayout(testCases, tests, starts)
    modifies testCases`shouldRun, Infos(tests)
    ensures numSelectedTests == Count(Selections(verdicts), |verdicts|)
    ensures forall k :: 0 <= k < |tests| ==> Shows(tests[k].info, verdicts[k])
    ensures forall i, j :: 0 <= i && j == i + 1 && j <= |testCases| ==>
            Marked(testCases[i], verdicts, starts[i], starts[j])
  {
    hide Runnables, Selections, IsVerdict, SomeSelected;
    var numRunnableTests := 0;
    numSelectedTests := 0;
    ghost var n := 0;
    for i := 0 to |testCases|
      invariant IsLayout(testCases, tests, starts) && n == starts[i] <= |tests|
      invariant numRunnableTests == Count(Runnables(verdicts), n) && numSelectedTests == Count(Selections(verdicts), n)
      invariant forall k :: 0 <= k < n ==> Shows(tests[k].info, verdicts[k])
      invariant forall c, d :: 0 <= c && d == c + 1 && d <= i ==> Marked(testCases[c], verdicts, starts[c], starts[d])
    {
      assert IsLayoutAt(testCases[i], tests, starts, i);
      InfosApart(testCases[i], tests, n);
      numRunnableTests, numSelectedTests :=
        FilterTestCase(testCases[i], flags, shard, numRunnableTests, numSelectedTests,
                       tests, verdicts, n, starts[i + 1]);
      n := starts[i + 1];
    }
  }

  lemma InfoIsNew(tests: seq<Test>, n: nat)
    requires DistinctInfos(tests) && n < |tests|
    ensures forall k :: 0 <= k < n ==> tests[k].info != tests[n].info
  {
  }

  /** The inner loop, over the tests of one test case, those from `start` to `end`. */
  method FilterTestCase(testCase: TestCase, flags: Flags, shard: Shard, runnableBefore: nat, selectedBefore: nat,
                        ghost tests: seq<Test>, ghost verdicts: seq<Verdict>, ghost start: nat, ghost end: nat)
    returns (numRunnableTests: nat, numSelectedTests: nat)
    requires end == start + |testCase.testInfoList|
    requires shard.Valid() && AreVerdicts(flags, shard, tests, verdicts)
    requires DistinctInfos(tests) && HoldsTests(testCase, tests, start)
    requires runnableBefore == Count(Runnables(verdicts), start) && selectedBefore == Count(Selections(verdicts), start)
    modifies testCase`shouldRun, testCase.testInfoList
    ensures numRunnableTests == Count(Runnables(verdicts), end) && numSelectedTests == Count(Selections(verdicts), end)
    ensures forall k :: start <= k < end ==> Shows(tests[k].info, verdicts[k])
    ensures Marked(testCase, verdicts, start, end)
  {
    hide Count, Runnables, Selections, IsVerdict;
    numRunnableTests, numSelectedTests := runnableBefore, selectedBefore;
    testCase.shouldRun := false;
    ghost var n := start;
    for j := 0 to |testCase.testInfoList|
      invariant n == start + j <= end <= |verdicts|
      invariant numRunnableTests == Count(Runnables(verdicts), n) && numSelectedTests == Count(Selections(verdicts), n)
      invariant forall k :: start <= k < n ==> Shows(tests[k].info, verdicts[k])
      invariant testCase.shouldRun == SomeSelected(verdicts, start, n)
    {
      var testInfo := testCase.testInfoList[j];
      assert tests[n] == Test(testCase, testInfo);
      InfoIsNew(tests, n);
      NextVerdict(verdicts, start, n);
      var isRunnable, isSelected := FilterTest(testCase, testInfo, flags, shard, numRunnableTests, tests, verdicts, n);
      numRunnableTests := numRunnableTests + (if isRunnable then 1 else 0);
      numSelectedTests := numSelectedTests + (if isSelected then 1 else 0);
      testCase.shouldRun := testCase.shouldRun || isSelected;
      n := n + 1;
    }
  }

  /** What the loops do to one test. */
  method FilterTest(testCase: TestCase, testInfo: TestInfo, flags: Flags, shard: Shard, numRunnableTests: nat,
                    ghost tests: seq<Test>, ghost verdicts: seq<Verdict>, ghost k: nat)
    returns (isRunnable: bool, isSelected: bool)
    requires shard.Valid() && k < |tests| && tests[k] == Test(testCase, testInfo)
    requires AreVerdicts(flags, shard, tests, verdicts) && numRunnableTests == Count(Runnables(verdicts), k)
    modifies testInfo
    ensures Shows(testInfo, verdicts[k]) && isRunnable == verdicts[k].runnable && isSelected == verdicts[k].selected
  {
    assert IsVerdict(flags, shard, tests, verdicts, k);
    var caseDisabled := MatchesFilter(testCase.name, DISABLE_TEST_FILTER);
    var testDisabled := MatchesFilter(testInfo.name, DISABLE_TEST_FILTER);
    DisabledNames(testCase.name);
    DisabledNames(testInfo.name);
    var isDisabled := caseDisabled || testDisabled;
    testInfo.isDisabled := isDisabled;
    var matchesFilter := FilterMatchesTest(testCase.name, testInfo.name, flags.filter);
    testInfo.matchesFilter := matchesFilter;
    isRunnable := (flags.alsoRunDisabledTests || !isDisabled) && matchesFilter;
    isSelected := isRunnable && (shard.Everything? || ShouldRunTestOnShard(shard.total, shard.index, numRunnableTests));
    testInfo.shouldRun := isSelected;
  }

  // ----- Running what was filtered -----

  /** FilterTests leaves what the run loop asks for: a test case should run if one of its tests should. */
  lemma FilteredIsSelection(testCases: seq<TestCase>, tests: seq<Test>, verdicts: seq<Verdict>, starts: seq<nat>)
    returns (chosen: set<TestInfo>)
    requires IsLayout(testCases, tests, starts) && |verdicts| == |tests|
    requires forall k :: 0 <= k < |tests| ==> Shows(tests[k].info, verdicts[k])
    requires forall i, j :: 0 <= i && j == i + 1 && j <= |testCases| ==>
             Marked(testCases[i], verdicts, starts[i], starts[j])
    ensures IsSelection(testCases, Lists(testCases), chosen)
    ensures forall ti :: ti in chosen <==> ti in Infos(tests) && ti.shouldRun
  {
    chosen := set ti | ti in Infos(tests) && ti.shouldRun;
    forall i | 0 <= i < |testCases| ensures IsSelectionAt(testCases[i], Lists(testCases)[i], chosen) {
      FilteredCase(testCases[i], tests, verdicts, starts[i], starts[i + 1], chosen);
    }
  }

  lemma FilteredCase(testCase: TestCase, tests: seq<Test>, verdicts: seq<Verdict>, start: nat, end: nat,
                     chosen: set<TestInfo>)
    requires end == start + |testCase.testInfoList| && HoldsTests(testCase, tests, start) && |verdicts| == |tests|
    requires forall k :: 0 <= k < |tests| ==> Shows(tests[k].info, verdicts[k])
    requires Marked(testCase, verdicts, start, end)
    requires forall ti :: ti in chosen <==> ti in Infos(tests) && ti.shouldRun
    ensures IsSelectionAt(testCase, testCase.testInfoList, chosen)
  {
    forall ti | ti in testCase.testInfoList
      ensures (ti.shouldRun <==> ti in chosen) && (ti in chosen ==> testCase.shouldRun)
    {
      var j :| 0 <= j < |testCase.testInfoList| && testCase.testInfoList[j] == ti;
      var k := start + j;
      assert tests[k] == Test(testCase, ti) && tests[k] in tests;
      assert Shows(tests[k].info, verdicts[k]);
      assert ti.shouldRun ==> verdicts[k].selected;
    }
  }

  // ----- All shards together -----

  function SumOfSelected(runs: seq<seq<Verdict>>): nat {
    if runs == [] then 0
    else SumOfSelected(runs[..|runs| - 1]) + Count(Selections(runs[|runs| - 1]), |runs[|runs| - 1]|)
  }

  lemma SelectionIsOfShard(flags: Flags, shard: Shard, tests: seq<Test>, verdicts: seq<Verdict>, r: seq<bool>)
    requires shard.Valid() && AreVerdicts(flags, shard, tests, verdicts)
    requires |r| == |tests| && forall k :: 0 <= k < |tests| ==> r[k] == IsRunnable(flags, tests[k])
    ensures Selections(verdicts) == Selection(r, shard)
  {
    assert Runnables(verdicts) == r by {
      forall k | 0 <= k < |tests| ensures verdicts[k].runnable == r[k] {
        assert IsVerdict(flags, shard, tests, verdicts, k);
      }
    }
    forall k | 0 <= k < |tests| ensures verdicts[k].selected == Selected(r, shard, k) {
      assert IsVerdict(flags, shard, tests, verdicts, k);
    }
  }

  lemma {:induction false} SumOfRuns(r: seq<bool>, total: nat, runs: seq<seq<Verdict>>)
    requires |runs| <= total && forall i :: 0 <= i < |runs| ==> Selections(runs[i]) == Selection(r, Part(total, i))
    ensures SumOfSelected(runs) == SumOverShards(r, total, |runs|)
  {
    if runs != [] {
      SumOfRuns(r, total, runs[..|runs| - 1]);
      assert |Selections(runs[|runs| - 1])| == |r|;
    }
  }

  /** The runs that filter the same tests for each of the shards. */
  ghost predicate AreShardRuns(flags: Flags, tests: seq<Test>, runs: seq<seq<Verdict>>) {
    runs != [] && forall i :: 0 <= i < |runs| ==> AreVerdicts(flags, Part(|runs|, i), tests, runs[i])
  }

  /** Test k is selected on shard i and on no other. */
  ghost predicate SelectedOnlyOn(runs: seq<seq<Verdict>>, k: nat, i: nat) {
    i < |runs| && forall j :: 0 <= j < |runs| ==> k < |runs[j]| && (runs[j][k].selected <==> j == i)
  }

  /** Every runnable test is selected on exactly one shard, and no other test on any. */
  lemma EachOnOneShard(flags: Flags, tests: seq<Test>, runs: seq<seq<Verdict>>, k: nat)
    requires AreShardRuns(flags, tests, runs) && k < |tests|
    ensures IsRunnable(flags, tests[k]) ==> exists i :: SelectedOnlyOn(runs, k, i)
    ensures !IsRunnable(flags, tests[k]) ==> forall i :: 0 <= i < |runs| ==> k < |runs[i]| && !runs[i][k].selected
  {
    var r := seq(|tests|, k requires 0 <= k < |tests| => IsRunnable(flags, tests[k]));
    OneShardEach(r, |runs|, k);
    forall i | 0 <= i < |runs| ensures k < |runs[i]| && runs[i][k].selected == Selected(r, Part(|runs|, i), k) {
      SelectionIsOfShard(flags, Part(|runs|, i), tests, runs[i], r);
      assert Selections(runs[i])[k] == runs[i][k].selected;
    }
    if r[k] {
      assert SelectedOnlyOn(runs, k, Count(r, k) % |runs|);
    }
  }

  /** The counts the runs return add up to the number of runnable tests and differ by at most one. */
  lemma ShardCounts(flags: Flags, tests: seq<Test>, runs: seq<seq<Verdict>>)
    requires AreShardRuns(flags, tests, runs)
    ensures SumOfSelected(runs) == Count(Runnables(runs[0]), |runs[0]|)
    ensures forall i, j :: 0 <= i < |runs| && 0 <= j < |runs| ==>
              Count(Selections(runs[i]), |runs[i]|) <= Count(Selections(runs[j]), |runs[j]|) + 1
  {
    var total := |runs|;
    var r := seq(|tests|, k requires 0 <= k < |tests| => IsRunnable(flags, tests[k]));
    forall i | 0 <= i < total ensures |runs[i]| == |r| && Selections(runs[i]) == Selection(r, Part(total, i)) {
      SelectionIsOfShard(flags, Part(total, i), tests, runs[i], r);
    }
    SumOfRuns(r, total, runs);
    ShardsShareAll(r, total);
    forall k | 0 <= k < |tests| ensures runs[0][k].runnable == r[k] {
      assert IsVerdict(flags, Part(total, 0), tests, runs[0], k);
    }
    assert Runnables(runs[0]) == r;
    forall i, j | 0 <= i < total && 0 <= j < total
      ensures Count(Selections(runs[i]), |runs[i]|) <= Count(Selections(runs[j]), |runs[j]|) + 1
    {
      assert CountSelected(r, Part(total, i), |r|) <= CountSelected(r, Part(total, j), |r|) + 1;
    }
  }
}
