/** What registering tests builds: named suites of tests, those of death tests first. */
module Registration {
  import opened Sequences
  import opened TestFilter

  /** A test and the test case it is declared in. */
  datatype TestName = TestName(testCase: string, test: string)

  datatype Suite = Suite(name: string, tests: seq<string>) {
    function Names(): (names: seq<TestName>)
      ensures |names| == |tests|
    {
      seq(|tests|, i requires 0 <= i < |tests| => TestName(name, tests[i]))
    }
  }

  /** The first suite of that name; their number if there is none. */
  function Find(suites: seq<Suite>, name: string): (i: nat)
    ensures i <= |suites| && forall k :: 0 <= k < i ==> suites[k].name != name
    ensures i < |suites| ==> suites[i].name == name
  {
    if suites == [] || suites[0].name == name then 0 else 1 + Find(suites[1..], name)
  }

  ghost function Deaths(suites: seq<Suite>): (n: nat)
    ensures n <= |suites|
  {
    if suites == [] then 0 else (if IsDeathTestCaseName(suites[0].name) then 1 else 0) + Deaths(suites[1..])
  }

  lemma {:induction false} DeathsAre(suites: seq<Suite>, n: nat)
    requires n <= |suites| && forall i :: 0 <= i < |suites| ==> (IsDeathTestCaseName(suites[i].name) <==> i < n)
    ensures Deaths(suites) == n
  {
    if suites != [] {
      var rest := suites[1..];
      assert forall i :: 0 <= i < |rest| ==> rest[i] == suites[i + 1];
      DeathsAre(rest, if n == 0 then 0 else n - 1);
    }
  }

  /** The suite of that name, made if there is none: after the last one of death tests or at the end. */
  ghost function WithSuite(suites: seq<Suite>, name: string): seq<Suite> {
    if Find(suites, name) < |suites| then suites
    else Insert(suites, if IsDeathTestCaseName(name) then Deaths(suites) else |suites|, Suite(name, []))
  }

  /** A test is added to the end of its suite. */
  ghost function Add(suites: seq<Suite>, t: TestName): seq<Suite> {
    var all := WithSuite(suites, t.testCase);
    var i := Find(all, t.testCase);
    if i == |all| then all else all[i := Suite(t.testCase, all[i].tests + [t.test])]
  }

  /** The suites after tests have been registered in this order. */
  ghost function Registered(names: seq<TestName>): seq<Suite> {
    if names == [] then [] else Add(Registered(names[..|names| - 1]), names[|names| - 1])
  }

  function Names(suites: seq<Suite>): seq<TestName> {
    if suites == [] then [] else suites[0].Names() + Names(suites[1..])
  }

  lemma {:induction false} NamesOfConcat(a: seq<Suite>, b: seq<Suite>)
    ensures Names(a + b) == Names(a) + Names(b)
  {
    if a == [] {
      assert a + b == b;
    } else {
      NamesOfConcat(a[1..], b);
      assert (a + b)[0] == a[0] && (a + b)[1..] == a[1..] + b;
      Associates(a[0].Names(), Names(a[1..]), Names(b));
    }
  }

  lemma NamesOfThree(a: seq<Suite>, s: Suite, b: seq<Suite>)
    ensures Names(a + [s] + b) == Names(a) + s.Names() + Names(b)
  {
    NamesOfConcat(a + [s], b);
    NamesOfConcat(a, [s]);
    assert Names([s]) == s.Names() + [] == s.Names();
  }

  lemma WithSuiteKeepsNames(suites: seq<Suite>, name: string)
    ensures Names(WithSuite(suites, name)) == Names(suites)
    ensures Find(WithSuite(suites, name), name) < |WithSuite(suites, name)|
  {
    hide Names, IsDeathTestCaseName;
    if Find(suites, name) == |suites| {
      var at := if IsDeathTestCaseName(name) then Deaths(suites) else |suites|;
      var before, after, empty := suites[..at], suites[at..], Suite(name, []);
      NamesOfThree(before, empty, after);
      NamesOfConcat(before, after);
      assert before + after == suites && empty.Names() == [];
      assert Insert(suites, at, empty)[at].name == name;
    }
  }

  /** Adding a test adds its name and no other. */
  lemma AddAddsName(suites: seq<Suite>, t: TestName)
    ensures multiset(Names(Add(suites, t))) == multiset(Names(suites)) + multiset{t}
  {
    hide WithSuite, Names, Find;
    WithSuiteKeepsNames(suites, t.testCase);
    var all := WithSuite(suites, t.testCase);
    OneMoreTest(all, Find(all, t.testCase), t);
  }

  lemma OneMoreTest(all: seq<Suite>, i: nat, t: TestName)
    requires i < |all| && all[i].name == t.testCase
    ensures multiset(Names(all[i := Suite(t.testCase, all[i].tests + [t.test])])) == multiset(Names(all)) + multiset{t}
  {
    hide Names;
    var before, s, after := all[..i], all[i], all[i + 1..];
    var s' := Suite(t.testCase, s.tests + [t.test]);
    NamesOfThree(before, s, after);
    NamesOfThree(before, s', after);
    assert s'.Names() == s.Names() + [t];
    assert all == before + [s] + after;
    assert all[i := s'] == before + [s'] + after;
  }

  /** Every registration is stored, and nothing else. */
  lemma {:induction false} RegisteredNames(names: seq<TestName>)
    ensures multiset(Names(Registered(names))) == multiset(names)
  {
    if names != [] {
      var n := |names| - 1;
      RegisteredNames(names[..n]);
      AddAddsName(Registered(names[..n]), names[n]);
      assert names == names[..n] + [names[n]];
    }
  }

  /** No more suites and no more tests in one than registrations. */
  lemma {:induction false} RegisteredBounds(names: seq<TestName>)
    ensures |Registered(names)| <= |names|
    ensures forall s :: s in Registered(names) ==> |s.tests| <= |names|
  {
    if names != [] {
      var n := |names| - 1;
      RegisteredBounds(names[..n]);
      AddBounds(Registered(names[..n]), names[n], n);
    }
  }

  lemma AddBounds(suites: seq<Suite>, t: TestName, n: nat)
    requires |suites| <= n && forall s :: s in suites ==> |s.tests| <= n
    ensures |Add(suites, t)| <= n + 1 && forall s :: s in Add(suites, t) ==> |s.tests| <= n + 1
  {
    hide IsDeathTestCaseName, Find;
    var all := WithSuite(suites, t.testCase);
    assert forall s :: s in all ==> |s.tests| <= n;
  }

  // ----- Order -----

  /** The tests registered for one test case, in order. */
  function TestsFor(names: seq<TestName>, testCase: string): seq<string> {
    if names == [] then []
    else
      var n := |names| - 1;
      TestsFor(names[..n], testCase) + (if names[n].testCase == testCase then [names[n].test] else [])
  }

  ghost predicate DistinctSuites(suites: seq<Suite>) {
    forall i, j :: 0 <= i < j < |suites| ==> suites[i].name != suites[j].name
  }

  ghost predicate DeathsFirst(suites: seq<Suite>) {
    forall i, j :: 0 <= i < j < |suites| && IsDeathTestCaseName(suites[j].name) ==> IsDeathTestCaseName(suites[i].name)
  }

  ghost predicate HasSuite(suites: seq<Suite>, name: string) {
    exists i :: 0 <= i < |suites| && suites[i].name == name
  }

  /** Every suite holds the tests of its test case in the order of registration, and none is missing. */
  ghost predicate HoldInOrder(suites: seq<Suite>, names: seq<TestName>) {
    && (forall i :: 0 <= i < |suites| ==> suites[i].tests == TestsFor(names, suites[i].name))
    && forall testCase :: !HasSuite(suites, testCase) ==> TestsFor(names, testCase) == []
  }

  /** Each test case has one suite, which holds its tests in the order of registration, and the suites of
      death tests come first. */
  lemma {:induction false} RegisteredInOrder(names: seq<TestName>)
    ensures var suites := Registered(names);
            DistinctSuites(suites) && DeathsFirst(suites) && HoldInOrder(suites, names)
  {
    if names != [] {
      hide DistinctSuites, DeathsFirst, HoldInOrder, Add, TestsFor;
      var n := |names| - 1;
      RegisteredInOrder(names[..n]);
      AddInOrder(Registered(names[..n]), names[..n], names[n]);
      assert names == names[..n] + [names[n]];
    }
  }

  lemma {:induction false} DeathsAreFirst(suites: seq<Suite>)
    requires DeathsFirst(suites)
    ensures forall i :: 0 <= i < |suites| ==> (IsDeathTestCaseName(suites[i].name) <==> i < Deaths(suites))
  {
    hide IsDeathTestCaseName;
    if suites != [] {
      var rest := suites[1..];
      assert forall i :: 0 <= i < |rest| ==> rest[i] == suites[i + 1];
      DeathsAreFirst(rest);
      assert Deaths(rest) > 0 ==> IsDeathTestCaseName(rest[0].name);
    }
  }

  lemma AddInOrder(suites: seq<Suite>, names: seq<TestName>, t: TestName)
    requires DistinctSuites(suites) && DeathsFirst(suites) && HoldInOrder(suites, names)
    ensures var after := Add(suites, t);
            DistinctSuites(after) && DeathsFirst(after) && HoldInOrder(after, names + [t])
  {
    hide IsDeathTestCaseName, WithSuite, DeathsFirst, HoldInOrder, Find;
    var all := WithSuite(suites, t.testCase);
    WithSuiteInOrder(suites, names, t.testCase);
    WithSuiteKeepsNames(suites, t.testCase);
    var i := Find(all, t.testCase);
    SameNamesDeathsFirst(all, all[i := Suite(t.testCase, all[i].tests + [t.test])]);
    OneMoreHeld(all, i, names, t);
  }

  lemma OneMoreHeld(all: seq<Suite>, i: nat, names: seq<TestName>, t: TestName)
    requires DistinctSuites(all) && HoldInOrder(all, names) && i < |all| && all[i].name == t.testCase
    ensures HoldInOrder(all[i := Suite(t.testCase, all[i].tests + [t.test])], names + [t])
  {
    hide TestsFor, HasSuite;
    var after := all[i := Suite(t.testCase, all[i].tests + [t.test])];
    forall k | 0 <= k < |after| ensures after[k].tests == TestsFor(names + [t], after[k].name) {
      TestsForOneMore(names, t, after[k].name);
    }
    forall testCase | !HasSuite(after, testCase) ensures TestsFor(names + [t], testCase) == [] {
      SameNamesSuites(all, after, testCase);
      NoneHasName(after, testCase);
      assert after[i].name != testCase;
      TestsForOneMore(names, t, testCase);
    }
  }

  lemma TestsForOneMore(names: seq<TestName>, t: TestName, testCase: string)
    ensures TestsFor(names + [t], testCase) ==
            TestsFor(names, testCase) + (if t.testCase == testCase then [t.test] else [])
  {
    assert (names + [t])[..|names|] == names;
  }

  lemma SameNamesSuites(a: seq<Suite>, b: seq<Suite>, name: string)
    requires |b| == |a| && forall i :: 0 <= i < |a| ==> b[i].name == a[i].name
    ensures HasSuite(a, name) ==> HasSuite(b, name)
  {
    if i :| 0 <= i < |a| && a[i].name == name {
      assert b[i].name == name;
    }
  }

  lemma SameNamesDeathsFirst(a: seq<Suite>, b: seq<Suite>)
    requires DeathsFirst(a) && |b| == |a| && forall i :: 0 <= i < |a| ==> b[i].name == a[i].name
    ensures DeathsFirst(b)
  {
    hide IsDeathTestCaseName;
  }

  lemma WithSuiteInOrder(suites: seq<Suite>, names: seq<TestName>, name: string)
    requires DistinctSuites(suites) && DeathsFirst(suites) && HoldInOrder(suites, names)
    ensures var all := WithSuite(suites, name);
            DistinctSuites(all) && DeathsFirst(all) && HoldInOrder(all, names)
  {
    hide IsDeathTestCaseName, TestsFor;
    if Find(suites, name) == |suites| {
      var at := if IsDeathTestCaseName(name) then Deaths(suites) else |suites|;
      DeathsAreFirst(suites);
      assert !HasSuite(suites, name);
      InsertInOrder(suites, names, name, at);
    }
  }

  lemma InsertInOrder(suites: seq<Suite>, names: seq<TestName>, name: string, at: nat)
    requires DistinctSuites(suites) && HoldInOrder(suites, names) && !HasSuite(suites, name) && at <= |suites|
    requires forall i :: 0 <= i < |suites| ==> (IsDeathTestCaseName(suites[i].name) <==> i < Deaths(suites))
    requires at == if IsDeathTestCaseName(name) then Deaths(suites) else |suites|
    ensures var all := Insert(suites, at, Suite(name, []));
            DistinctSuites(all) && DeathsFirst(all) && HoldInOrder(all, names)
  {
    hide IsDeathTestCaseName, TestsFor, Deaths, Insert, HasSuite;
    var empty := Suite(name, []);
    var all := Insert(suites, at, empty);
    NoneHasName(suites, name);
    forall i, j | 0 <= i < j < |all|
      ensures all[i].name != all[j].name
      ensures IsDeathTestCaseName(all[j].name) ==> IsDeathTestCaseName(all[i].name)
    {
      InsertAt(suites, at, empty, i);
      InsertAt(suites, at, empty, j);
    }
    forall i | 0 <= i < |all| ensures all[i].tests == TestsFor(names, all[i].name) {
      InsertAt(suites, at, empty, i);
    }
    forall testCase | !HasSuite(all, testCase) ensures TestsFor(names, testCase) == [] {
      if HasSuite(suites, testCase) {
        SuitesStay(suites, at, empty, testCase);
      }
    }
  }

  lemma NoneHasName(suites: seq<Suite>, name: string)
    requires !HasSuite(suites, name)
    ensures forall i :: 0 <= i < |suites| ==> suites[i].name != name
  {
  }

  lemma SuitesStay(suites: seq<Suite>, at: nat, suite: Suite, name: string)
    requires at <= |suites| && HasSuite(suites, name)
    ensures HasSuite(Insert(suites, at, suite), name)
  {
    var i :| 0 <= i < |suites| && suites[i].name == name;
    var k := if i < at then i else i + 1;
    InsertAt(suites, at, suite, k);
    assert Insert(suites, at, suite)[k].name == name;
  }
}
