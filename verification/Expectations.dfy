/** Google Mock's expectations as a graph of prerequisites: retiring, the satisfaction query, the
    pruned search for unsatisfied prerequisites, and the invariant every run of expectations and
    calls keeps. */
module Expectations {

  // ----- Cardinalities -----

  datatype Cardinality = Cardinality(min: nat, max: nat) {
    predicate Valid() {
      min <= max
    }

    predicate IsSatisfiedByCallCount(callCount: nat) {
      min <= callCount <= max
    }

    predicate IsSaturatedByCallCount(callCount: nat) {
      callCount >= max
    }
  }

  /** Between(min, max): bounds out of order are repaired after the failure is reported. */
  function Between(min: int, max: int): (c: Cardinality)
    ensures c.Valid() && (0 <= min <= max ==> c.min == min && c.max == max)
  {
    var low := if min >= 0 then min else 0;
    Cardinality(low, if max >= low then max else low)
  }

  // ----- Expectations -----

  class ExpectationBase {
    /** Position in the order of creation. */
    const id: nat
    const cardinality: Cardinality
    const retiresOnSaturation: bool
    var immediatePrerequisites: set<ExpectationBase>
    var callCount: nat
    var retired: bool

    constructor (id: nat, cardinality: Cardinality, retiresOnSaturation: bool)
      ensures this.id == id && this.cardinality == cardinality && this.retiresOnSaturation == retiresOnSaturation
      ensures immediatePrerequisites == {} && callCount == 0 && !retired
    {
      this.id := id;
      this.cardinality := cardinality;
      this.retiresOnSaturation := retiresOnSaturation;
      immediatePrerequisites, callCount, retired := {}, 0, false;
    }

    predicate IsSatisfied()
      reads this`callCount
    {
      cardinality.IsSatisfiedByCallCount(callCount)
    }

    predicate IsSaturated()
      reads this`callCount
    {
      cardinality.IsSaturatedByCallCount(callCount)
    }

    /** Retires when its maximum, which is not 0, is reached. */
    predicate NeverExceeds() {
      retiresOnSaturation && cardinality.max > 0
    }

    predicate WithinBounds(retired: bool)
      reads this`callCount
    {
      NeverExceeds() ==> callCount < cardinality.max || (callCount == cardinality.max && retired)
    }

    /** AllPrerequisitesAreSatisfied; g holds every expectation. */
    predicate AllPrerequisitesAreSatisfied(ghost g: set<ExpectationBase>)
      requires this in g && Acyclic(g)
      reads g`immediatePrerequisites, g`callCount
      decreases id
    {
      forall p :: p in immediatePrerequisites ==> p.IsSatisfied() && p.AllPrerequisitesAreSatisfied(g)
    }

    /** RetireAllPreRequisites. The early return loses nothing because the retired expectations are
        closed under prerequisites, before, after and in between. */
    method RetireAllPreRequisites(ghost g: set<ExpectationBase>)
      requires this in g && Acyclic(g) && RetiredClosed(g)
      modifies g`retired
      ensures RetiredClosed(g)
      ensures Retired(g) == old(Retired(g)) + Prerequisites(g, this)
      decreases id
    {
      hide RetiredClosed, Acyclic, Prerequisites;
      if retired {
        RetiredHoldsPrerequisites(g, this);
        return;
      }
      var rest := immediatePrerequisites;
      while rest != {}
        invariant rest <= immediatePrerequisites
        invariant RetiredClosed(g)
        invariant old(Retired(g)) <= Retired(g) <= old(Retired(g)) + Prerequisites(g, this)
        invariant immediatePrerequisites - rest <= Retired(g)
      {
        var prerequisite :| prerequisite in rest;
        rest := rest - {prerequisite};
        ImmediateIsPrerequisite(g, this, prerequisite);
        if !prerequisite.retired {
          prerequisite.RetireAllPreRequisites(g);
          prerequisite.Retire(g);
        }
      }
      assert immediatePrerequisites - rest == immediatePrerequisites;
      RetiredGathers(g, this);
    }

    /** Retire, once all prerequisites are retired. */
    method Retire(ghost g: set<ExpectationBase>)
      requires this in g && Acyclic(g) && RetiredClosed(g) && Prerequisites(g, this) <= Retired(g)
      modifies this`retired
      ensures RetiredClosed(g) && retired && Retired(g) == old(Retired(g)) + {this}
      ensures old(Settled(g)) ==> Settled(g)
    {
      ghost var gone := Retired(g);
      assert immediatePrerequisites <= gone;
      retired := true;
      assert Retired(g) == gone + {this};
    }

    /** GetActionForArguments, as far as it changes expectations: an excessive call is only counted. */
    method GetActionForArguments(ghost g: set<ExpectationBase>)
      requires this in g && RunInvariant(g) && !retired && AllSatisfied(Prerequisites(g, this))
      modifies this`callCount, g`retired
      ensures RunInvariant(g) && callCount == old(callCount) + 1
      ensures Retired(g) == old(Retired(g)) +
                (if old(IsSaturated()) then {}
                 else Prerequisites(g, this) + (if retiresOnSaturation && IsSaturated() then {this} else {}))
    {
      hide Acyclic, RetiredClosed, Settled, SettledBut, Bounded, BoundedBut, Reached, Prerequisites;
      ghost var before := Retired(g);
      BoundedAt(g, this);
      if IsSaturated() {
        if cardinality.max > 0 {
          SettledAt(g, this);
        }
        IncrementCallCount(g);
        SettledAfterCall(g, this, before);
        BoundedAfterCall(g, this, before);
        return;
      }
      IncrementCallCount(g);
      RetireAllPreRequisites(g);
      SettledAfterCall(g, this, before);
      if retiresOnSaturation && IsSaturated() {
        Retire(g);
      }
      BoundedAfterCall(g, this, before);
    }

    /** IncrementCallCount. Everything but this expectation and what depends on it stays settled. */
    method IncrementCallCount(ghost g: set<ExpectationBase>)
      requires this in g && RunInvariant(g) && !retired && AllSatisfied(Prerequisites(g, this))
      modifies this`callCount
      ensures callCount == old(callCount) + 1
      ensures AllSatisfied(Prerequisites(g, this)) && SettledBut(g, this, Retired(g)) && Reached(g)
      ensures BoundedBut(g, this, Retired(g))
    {
      hide Prerequisites, Acyclic, RetiredClosed;
      ghost var gone := Retired(g);
      PrerequisitesAreOlder(g, this);
      assert SettledBut(g, this, gone);
      callCount := callCount + 1;
      assert forall e :: e in g && e in gone ==> e != this;
    }

    /** FindUnsatisfiedPrerequisites: adds to result. */
    method FindUnsatisfiedPrerequisites(ghost g: set<ExpectationBase>, result: set<ExpectationBase>)
      returns (result': set<ExpectationBase>)
      requires this in g && Acyclic(g)
      ensures result' == result + PrunedUnsatisfied(g, this)
      ensures Explains(g, this, result, result')
      decreases id, 0
    {
      result' := result;
      var rest := immediatePrerequisites;
      while rest != {}
        invariant rest <= immediatePrerequisites
        invariant result' == result + PrunedOver(g, immediatePrerequisites - rest)
      {
        var it :| it in rest;
        ghost var done := immediatePrerequisites - rest;
        rest := rest - {it};
        result' := it.AddUnsatisfied(g, result');
        assert immediatePrerequisites - rest == done + {it};
        PrunedOverOneMore(g, done, it);
      }
      assert immediatePrerequisites - rest == immediatePrerequisites;
      PrunedExplains(g, this, result, result');
    }

    /** What the search does for one prerequisite. */
    method AddUnsatisfied(ghost g: set<ExpectationBase>, result: set<ExpectationBase>)
      returns (result': set<ExpectationBase>)
      requires this in g && Acyclic(g)
      ensures result' == result + PrunedAt(g, this)
      decreases id, 1
    {
      result' := result;
      if IsSatisfied() {
        if callCount == 0 {
          result' := FindUnsatisfiedPrerequisites(g, result');
        }
      } else {
        result' := result' + {this};
      }
    }
  }

  // ----- The graph -----

  /** Prerequisites are among the expectations and older than what needs them. */
  ghost predicate Acyclic(g: set<ExpectationBase>)
    reads g`immediatePrerequisites
  {
    forall e, p :: e in g && p in e.immediatePrerequisites ==> p in g && p.id < e.id
  }

  /** The transitive prerequisites of an expectation. */
  ghost function Prerequisites(g: set<ExpectationBase>, e: ExpectationBase): set<ExpectationBase>
    requires e in g && Acyclic(g)
    reads g`immediatePrerequisites
    ensures Prerequisites(g, e) <= g
    decreases e.id
  {
    e.immediatePrerequisites + set p, q | p in e.immediatePrerequisites && q in Prerequisites(g, p) :: q
  }

  ghost function Retired(g: set<ExpectationBase>): set<ExpectationBase>
    reads g`retired
  {
    set e | e in g && e.retired
  }

  ghost predicate RetiredClosed(g: set<ExpectationBase>)
    reads g`retired, g`immediatePrerequisites
  {
    forall e, p :: e in g && e.retired && p in e.immediatePrerequisites && p in g ==> p.retired
  }

  lemma {:induction false} RetiredHoldsPrerequisites(g: set<ExpectationBase>, e: ExpectationBase)
    requires e in g && Acyclic(g) && RetiredClosed(g) && e.retired
    ensures Prerequisites(g, e) <= Retired(g)
    decreases e.id
  {
    forall p | p in e.immediatePrerequisites ensures Prerequisites(g, p) <= Retired(g) {
      RetiredHoldsPrerequisites(g, p);
    }
  }

  lemma ImmediateIsPrerequisite(g: set<ExpectationBase>, e: ExpectationBase, p: ExpectationBase)
    requires e in g && Acyclic(g) && p in e.immediatePrerequisites
    ensures p in g && p.id < e.id && Prerequisites(g, p) + {p} <= Prerequisites(g, e)
  {
  }

  lemma RetiredGathers(g: set<ExpectationBase>, e: ExpectationBase)
    requires e in g && Acyclic(g) && RetiredClosed(g) && e.immediatePrerequisites <= Retired(g)
    ensures Prerequisites(g, e) <= Retired(g)
  {
    forall p | p in e.immediatePrerequisites ensures Prerequisites(g, p) <= Retired(g) {
      RetiredHoldsPrerequisites(g, p);
    }
  }

  lemma {:induction false} PrerequisitesAreOlder(g: set<ExpectationBase>, e: ExpectationBase)
    requires e in g && Acyclic(g)
    ensures forall a :: a in Prerequisites(g, e) ==> a in g && a.id < e.id && Prerequisites(g, a) <= Prerequisites(g, e)
    decreases e.id
  {
    forall p | p in e.immediatePrerequisites
      ensures forall a :: a in Prerequisites(g, p) ==>
              a in g && a.id < p.id && Prerequisites(g, a) <= Prerequisites(g, p)
    {
      PrerequisitesAreOlder(g, p);
    }
    forall a | a in Prerequisites(g, e) ensures a in g && a.id < e.id && Prerequisites(g, a) <= Prerequisites(g, e) {
      if a !in e.immediatePrerequisites {
        var p :| p in e.immediatePrerequisites && a in Prerequisites(g, p);
      }
    }
  }

  // ----- Satisfied and unsatisfied prerequisites -----

  ghost predicate AllSatisfied(s: set<ExpectationBase>)
    reads s`callCount
  {
    forall e :: e in s ==> e.IsSatisfied()
  }

  lemma {:induction false} SatisfiedThroughout(g: set<ExpectationBase>, e: ExpectationBase)
    requires e in g && Acyclic(g)
    ensures e.AllPrerequisitesAreSatisfied(g) <==> AllSatisfied(Prerequisites(g, e))
    decreases e.id
  {
    forall p | p in e.immediatePrerequisites
      ensures p.AllPrerequisitesAreSatisfied(g) <==> AllSatisfied(Prerequisites(g, p))
    {
      SatisfiedThroughout(g, p);
    }
    if AllSatisfied(Prerequisites(g, e)) {
      assert forall p :: p in e.immediatePrerequisites ==> AllSatisfied(Prerequisites(g, p));
    }
  }

  /** What FindUnsatisfiedPrerequisites adds: it looks below a satisfied prerequisite only while
      that has never been called. */
  ghost function PrunedUnsatisfied(g: set<ExpectationBase>, e: ExpectationBase): set<ExpectationBase>
    requires e in g && Acyclic(g)
    reads g`immediatePrerequisites, g`callCount
    decreases e.id, 0
  {
    set p, q | p in e.immediatePrerequisites && q in PrunedAt(g, p) :: q
  }

  ghost function PrunedOver(g: set<ExpectationBase>, ps: set<ExpectationBase>): set<ExpectationBase>
    requires ps <= g && Acyclic(g)
    reads g`immediatePrerequisites, g`callCount
  {
    set p, q | p in ps && q in PrunedAt(g, p) :: q
  }

  lemma PrunedOverOneMore(g: set<ExpectationBase>, done: set<ExpectationBase>, it: ExpectationBase)
    requires done + {it} <= g && Acyclic(g)
    ensures PrunedOver(g, done + {it}) == PrunedOver(g, done) + PrunedAt(g, it)
  {
  }

  ghost function PrunedAt(g: set<ExpectationBase>, p: ExpectationBase): set<ExpectationBase>
    requires p in g && Acyclic(g)
    reads g`immediatePrerequisites, g`callCount
    decreases p.id, 1
  {
    if !p.IsSatisfied() then {p} else if p.callCount == 0 then PrunedUnsatisfied(g, p) else {}
  }

  lemma {:induction false} PrunedAreUnsatisfied(g: set<ExpectationBase>, e: ExpectationBase)
    requires e in g && Acyclic(g)
    ensures forall u :: u in PrunedUnsatisfied(g, e) ==> u in Prerequisites(g, e) && !u.IsSatisfied()
    decreases e.id
  {
    forall p | p in e.immediatePrerequisites
      ensures forall u :: u in PrunedUnsatisfied(g, p) ==> u in Prerequisites(g, p) && !u.IsSatisfied()
    {
      PrunedAreUnsatisfied(g, p);
    }
    forall u | u in PrunedUnsatisfied(g, e) ensures u in Prerequisites(g, e) && !u.IsSatisfied() {
      var p :| p in e.immediatePrerequisites && u in PrunedAt(g, p);
      if u != p {
        assert u in PrunedUnsatisfied(g, p);
      }
    }
  }

  /** A satisfied expectation that has been called has all its prerequisites satisfied. An expectation for
      no calls that was called all the same need not, but it is unsatisfied, and the search stops at it. */
  ghost predicate CalledIsReady(g: set<ExpectationBase>)
    requires Acyclic(g)
    reads g`immediatePrerequisites, g`callCount
  {
    forall e :: e in g && e.callCount > 0 && e.IsSatisfied() ==> AllSatisfied(Prerequisites(g, e))
  }

  /** The pruning is harmless: nothing is found exactly when nothing is unsatisfied. */
  lemma {:induction false} PruningIsExact(g: set<ExpectationBase>, e: ExpectationBase)
    requires e in g && Acyclic(g) && CalledIsReady(g)
    ensures PrunedUnsatisfied(g, e) == {} <==> e.AllPrerequisitesAreSatisfied(g)
    decreases e.id
  {
    forall p | p in e.immediatePrerequisites
      ensures PrunedAt(g, p) == {} <==> p.IsSatisfied() && p.AllPrerequisitesAreSatisfied(g)
    {
      PruningIsExact(g, p);
      SatisfiedThroughout(g, p);
    }
    assert forall p, q :: p in e.immediatePrerequisites && q in PrunedAt(g, p) ==> q in PrunedUnsatisfied(g, e);
    if PrunedUnsatisfied(g, e) == {} {
      forall p | p in e.immediatePrerequisites ensures PrunedAt(g, p) == {} {
      }
    }
  }

  /** All that is new is an unsatisfied prerequisite of e, and nothing is new exactly when there is none. */
  ghost predicate Explains(g: set<ExpectationBase>, e: ExpectationBase, result: set<ExpectationBase>,
                           result': set<ExpectationBase>)
    requires e in g && Acyclic(g)
    reads g`immediatePrerequisites, g`callCount
  {
    && (forall u :: u in result' && u !in result ==> u in Prerequisites(g, e) && !u.IsSatisfied())
    && (CalledIsReady(g) && result !! Prerequisites(g, e) ==>
          (result' == result <==> e.AllPrerequisitesAreSatisfied(g)))
  }

  lemma PrunedExplains(g: set<ExpectationBase>, e: ExpectationBase, result: set<ExpectationBase>,
                       result': set<ExpectationBase>)
    requires e in g && Acyclic(g) && result' == result + PrunedUnsatisfied(g, e)
    ensures Explains(g, e, result, result')
  {
    PrunedAreUnsatisfied(g, e);
    if CalledIsReady(g) {
      PruningIsExact(g, e);
    }
    assert result !! Prerequisites(g, e) && result' == result ==> PrunedUnsatisfied(g, e) == {} by {
      assert forall u :: u in PrunedUnsatisfied(g, e) ==> u in result';
    }
  }

  // ----- Runs -----

  /** What every reachable state satisfies: prerequisites of an expectation that has been called, and is
      not one for no calls, are satisfied for good, being retired. */
  ghost predicate Settled(g: set<ExpectationBase>)
    requires Acyclic(g)
    reads g`immediatePrerequisites, g`callCount, g`retired
  {
    forall e :: e in g && e.callCount > 0 && e.cardinality.max > 0 ==>
                  AllSatisfied(Prerequisites(g, e)) && Prerequisites(g, e) <= Retired(g)
  }

  lemma SettledIsReady(g: set<ExpectationBase>)
    requires Acyclic(g) && Settled(g)
    ensures CalledIsReady(g)
  {
  }

  ghost predicate RunInvariant(g: set<ExpectationBase>)
    reads g`immediatePrerequisites, g`callCount, g`retired
  {
    Acyclic(g) && RetiredClosed(g) && Settled(g) && Bounded(g) && Reached(g)
  }

  /** An expectation that retires on saturation takes no excessive call, unless it expects no calls at all. */
  ghost predicate Bounded(g: set<ExpectationBase>)
    reads g`callCount, g`retired
  {
    forall e :: e in g ==> e.WithinBounds(e.retired)
  }

  /** Prerequisites of an expectation that has been called have been called often enough. */
  ghost predicate Reached(g: set<ExpectationBase>)
    requires Acyclic(g)
    reads g`immediatePrerequisites, g`callCount
  {
    forall e, p :: e in g && e.callCount > 0 && p in Prerequisites(g, e) ==> p.callCount >= p.cardinality.min
  }

  /** In every reachable state a prerequisite of a called expectation is satisfied, but for one case: the
      expectation is for no calls, and nothing keeps the prerequisite from taking excessive calls. */
  lemma PrerequisiteOfCalled(g: set<ExpectationBase>, e: ExpectationBase, p: ExpectationBase)
    requires RunInvariant(g) && e in g && e.callCount > 0 && p in Prerequisites(g, e)
    requires e.cardinality.max > 0 || p.NeverExceeds()
    ensures p.IsSatisfied()
  {
    PrerequisitesAreOlder(g, e);
  }

  /** Prerequisites do not depend on younger expectations. */
  lemma {:induction false} PrerequisitesInLarger(g: set<ExpectationBase>, larger: set<ExpectationBase>,
                                                 e: ExpectationBase)
    requires e in g && g <= larger && Acyclic(g) && Acyclic(larger)
    ensures Prerequisites(larger, e) == Prerequisites(g, e)
    decreases e.id
  {
    forall p | p in e.immediatePrerequisites ensures Prerequisites(larger, p) == Prerequisites(g, p) {
      PrerequisitesInLarger(g, larger, p);
    }
  }

  /** Whether the invariant holds does not depend on the youngest expectation before its first call. */
  lemma RunInvariantYoungest(others: set<ExpectationBase>, e: ExpectationBase)
    requires e !in others && e.callCount == 0 && !e.retired && e.immediatePrerequisites <= others
    requires forall x :: x in others ==> x.id < e.id && e !in x.immediatePrerequisites
    ensures RunInvariant(others + {e}) <==> RunInvariant(others)
  {
    var g := others + {e};
    assert Acyclic(g) <==> Acyclic(others);
    if Acyclic(g) {
      forall x | x in others ensures Prerequisites(g, x) == Prerequisites(others, x) {
        PrerequisitesInLarger(others, g, x);
      }
      assert RetiredClosed(g) <==> RetiredClosed(others);
      forall x | x in others
        ensures Prerequisites(g, x) <= Retired(g) <==> Prerequisites(others, x) <= Retired(others)
      {
      }
    }
  }

  /** All expectations set so far, in the order of their EXPECT_CALL statements. */
  class Registry {
    var expectations: seq<ExpectationBase>

    ghost function All(): set<ExpectationBase>
      reads this`expectations
    {
      set e | e in expectations
    }

    ghost predicate Valid()
      reads this`expectations, All()`immediatePrerequisites, All()`callCount, All()`retired
    {
      && (forall i :: 0 <= i < |expectations| ==> expectations[i].id == i)
      && RunInvariant(All())
    }

    /** The expectation whose statement is being executed: the youngest, not called yet. */
    ghost predicate Current(e: ExpectationBase)
      reads this`expectations, e`callCount, e`retired
    {
      |expectations| > 0 && e == expectations[|expectations| - 1] && e.callCount == 0 && !e.retired
    }

    constructor ()
      ensures Valid() && expectations == []
    {
      expectations := [];
    }

    /** AddNewExpectation: a new expectation, added to the implicit sequence if there is one. */
    method AddNewExpectation(cardinality: Cardinality, retiresOnSaturation: bool, implicitSequence: Sequence?)
      returns (e: ExpectationBase)
      requires Valid()
      requires implicitSequence != null ==>
                 implicitSequence.Valid() && forall m :: m in implicitSequence.members ==> m in All()
      modifies this, implicitSequence
      ensures Valid() && Current(e) && fresh(e) && expectations == old(expectations) + [e]
      ensures e.cardinality == cardinality && e.retiresOnSaturation == retiresOnSaturation
      ensures implicitSequence == null ==> e.immediatePrerequisites == {}
      ensures implicitSequence != null ==>
                && implicitSequence.Valid() && implicitSequence.members == old(implicitSequence.members) + [e]
                && e.immediatePrerequisites == LastOf(old(implicitSequence.members))
    {
      e := AddAlone(cardinality, retiresOnSaturation);
      if implicitSequence != null {
        implicitSequence.AddExpectation(this, e);
      }
    }

    /** The new expectation by itself. */
    method AddAlone(cardinality: Cardinality, retiresOnSaturation: bool) returns (e: ExpectationBase)
      requires Valid()
      modifies this
      ensures Valid() && Current(e) && fresh(e) && expectations == old(expectations) + [e]
      ensures e.cardinality == cardinality && e.retiresOnSaturation == retiresOnSaturation
      ensures e.immediatePrerequisites == {}
    {
      e := new ExpectationBase(|expectations|, cardinality, retiresOnSaturation);
      ghost var g := All();
      expectations := expectations + [e];
      assert All() == g + {e};
      RunInvariantYoungest(g, e);
    }

    /** The .After() clause, and the step of Sequence.AddExpectation. */
    method After(e: ExpectationBase, older: set<ExpectationBase>)
      requires Valid() && Current(e) && older <= All() - {e}
      modifies e`immediatePrerequisites
      ensures Valid() && Current(e)
      ensures e.immediatePrerequisites == old(e.immediatePrerequisites) + older
    {
      ghost var others := All() - {e};
      assert All() == others + {e};
      assert forall x :: x in others ==> x.id < e.id;
      RunInvariantYoungest(others, e);
      e.immediatePrerequisites := e.immediatePrerequisites + older;
      RunInvariantYoungest(others, e);
    }

    /** FindMatchingExpectationLocked over the expectations of one mock function, youngest first. */
    method FindMatchingExpectation(candidates: seq<ExpectationBase>, matching: set<ExpectationBase>)
      returns (exp: ExpectationBase?)
      requires Valid() && forall c :: c in candidates ==> c in All()
      ensures exists i :: -1 <= i < |candidates| && IsTaker(candidates, matching, i) &&
                          exp == if i < 0 then null else candidates[i]
      ensures exp != null ==>
                exp in candidates && exp in matching && !exp.retired && AllSatisfied(Prerequisites(All(), exp))
      ensures forall j :: 0 <= j < |candidates| && MayTake(candidates[j], matching) ==>
                            exp != null && exp in candidates[j..]
    {
      for i := |candidates| downto 0
        invariant forall j :: i <= j < |candidates| ==> !ShouldHandle(candidates[j], matching)
      {
        var c := candidates[i];
        if !c.retired && c.AllPrerequisitesAreSatisfied(All()) && c in matching {
          assert IsTaker(candidates, matching, i);
          TakerIsYoungest(candidates, matching, i);
          return c;
        }
      }
      assert IsTaker(candidates, matching, -1);
      TakerIsYoungest(candidates, matching, -1);
      return null;
    }

    lemma TakerIsYoungest(candidates: seq<ExpectationBase>, matching: set<ExpectationBase>, i: int)
      requires Valid() && forall c :: c in candidates ==> c in All()
      requires -1 <= i && IsTaker(candidates, matching, i)
      ensures i >= 0 ==>
                candidates[i] in matching && !candidates[i].retired && AllSatisfied(Prerequisites(All(), candidates[i]))
      ensures forall j :: 0 <= j < |candidates| && MayTake(candidates[j], matching) ==> j <= i
    {
      hide Prerequisites, Acyclic, RunInvariant;
      forall j | 0 <= j < |candidates|
        ensures MayTake(candidates[j], matching) <==> ShouldHandle(candidates[j], matching)
      {
        MayTakeIsShouldHandle(candidates[j], matching);
      }
    }

    lemma MayTakeIsShouldHandle(e: ExpectationBase, matching: set<ExpectationBase>)
      requires Valid() && e in All()
      ensures MayTake(e, matching) <==> ShouldHandle(e, matching)
    {
      SatisfiedThroughout(All(), e);
    }

    /** The expectation is active, matches and has all its prerequisites satisfied. */
    ghost predicate MayTake(e: ExpectationBase, matching: set<ExpectationBase>)
      requires Valid() && e in All()
      reads this, All()
    {
      e in matching && e !in Retired(All()) && AllSatisfied(Prerequisites(All(), e))
    }

    ghost predicate ShouldHandle(e: ExpectationBase, matching: set<ExpectationBase>)
      requires Valid() && e in All()
      reads this, All()
    {
      !e.retired && e.AllPrerequisitesAreSatisfied(All()) && e in matching
    }

    /** The i-th candidate is the youngest that should handle the call; -1 stands for none. */
    ghost predicate IsTaker(candidates: seq<ExpectationBase>, matching: set<ExpectationBase>, i: int)
      requires Valid() && forall c :: c in candidates ==> c in All()
      reads this, All()
    {
      && i < |candidates| && (i >= 0 ==> ShouldHandle(candidates[i], matching))
      && forall j :: 0 <= j < |candidates| && i < j ==> !ShouldHandle(candidates[j], matching)
    }

    /** One call of a mock function: UntypedFindMatchingExpectation with GetActionForArguments. The
        expectation that takes it is active with all its prerequisites satisfied; unless the call is
        excessive these are retired, so that they never take a call again. */
    method HandleCall(candidates: seq<ExpectationBase>, matching: set<ExpectationBase>)
      returns (exp: ExpectationBase?, isExcessive: bool)
      requires Valid() && forall c :: c in candidates ==> c in All()
      modifies All()`callCount, All()`retired
      ensures Valid() && expectations == old(expectations)
      ensures exists i :: -1 <= i < |candidates| && old(IsTaker(candidates, matching, i)) &&
                          exp == if i < 0 then null else candidates[i]
      ensures forall j :: 0 <= j < |candidates| && old(MayTake(candidates[j], matching)) ==>
                            exp != null && exp in candidates[j..]
      ensures exp == null ==> forall e :: e in All() ==> e.callCount == old(e.callCount) && e.retired == old(e.retired)
      ensures exp != null ==>
                && exp in candidates && exp in All() && exp in matching
                && old(AllSatisfied(Prerequisites(All(), exp))) && exp !in old(Retired(All()))
                && exp.callCount == old(exp.callCount) + 1
                && (forall e :: e in All() && e != exp ==> e.callCount == old(e.callCount))
                && (isExcessive <==> old(exp.callCount) >= exp.cardinality.max)
                && Retired(All()) == old(Retired(All())) +
                     (if isExcessive then {} else Prerequisites(All(), exp)) +
                     (if exp.retiresOnSaturation && exp.callCount == exp.cardinality.max then {exp} else {})
    {
      hide Acyclic, RetiredClosed, Settled, Bounded, Reached, Prerequisites, MayTake, IsTaker, ShouldHandle;
      exp := FindMatchingExpectation(candidates, matching);
      isExcessive := false;
      if exp == null {
        return;
      }
      isExcessive := exp.IsSaturated();
      SatisfiedThroughout(All(), exp);
      exp.GetActionForArguments(All());
    }
  }

  /** In every reachable state the explanation of a mismatch names something exactly when some
      prerequisite is unsatisfied, and names only unsatisfied prerequisites. */
  lemma ExplanationIsExact(g: set<ExpectationBase>, e: ExpectationBase)
    requires e in g && RunInvariant(g)
    ensures PrunedUnsatisfied(g, e) == {} <==> e.AllPrerequisitesAreSatisfied(g)
    ensures forall u :: u in PrunedUnsatisfied(g, e) ==> u in Prerequisites(g, e) && !u.IsSatisfied()
  {
    SettledIsReady(g);
    PruningIsExact(g, e);
    PrunedAreUnsatisfied(g, e);
  }

  // ----- Sequences -----

  class Sequence {
    var lastExpectation: ExpectationBase?
    /** The expectations added so far. */
    ghost var members: seq<ExpectationBase>

    ghost predicate Valid()
      reads this, members`immediatePrerequisites
    {
      && lastExpectation == (if members == [] then null else members[|members| - 1])
      && Chained(members)
    }

    constructor ()
      ensures Valid() && members == []
    {
      lastExpectation, members := null, [];
    }

    method AddExpectation(registry: Registry, e: ExpectationBase)
      requires Valid() && registry.Valid() && registry.Current(e)
      requires forall m :: m in members ==> m in registry.All()
      modifies this, e`immediatePrerequisites
      ensures Valid() && registry.Valid() && registry.Current(e)
      ensures members == if e in old(members) then old(members) else old(members) + [e]
      ensures e.immediatePrerequisites ==
              old(e.immediatePrerequisites) + (if e in old(members) then {} else LastOf(old(members)))
    {
      ChainIsOld(registry.All(), members);
      assert e in members ==> e == lastExpectation;
      if lastExpectation != e {
        Append(registry, e);
      }
    }

    method Append(registry: Registry, e: ExpectationBase)
      requires Valid() && registry.Valid() && registry.Current(e) && e !in members
      requires forall m :: m in members ==> m in registry.All()
      modifies this, e`immediatePrerequisites
      ensures Valid() && registry.Valid() && registry.Current(e)
      ensures members == old(members) + [e]
      ensures e.immediatePrerequisites == old(e.immediatePrerequisites) + LastOf(old(members))
    {
      Follow(registry, e);
      ghost var longer := members + [e];
      ChainGrows(members, e);
      lastExpectation, members := e, longer;
      assert registry.Valid() && registry.Current(e) && Chained(longer);
    }

    /** The last expectation, if any, becomes a prerequisite of e. */
    method Follow(registry: Registry, e: ExpectationBase)
      requires Valid() && registry.Valid() && registry.Current(e) && e !in members
      requires forall m :: m in members ==> m in registry.All()
      modifies e`immediatePrerequisites
      ensures Chained(members) && registry.Valid() && registry.Current(e)
      ensures e.immediatePrerequisites ==
              old(e.immediatePrerequisites) + LastOf(members)
    {
      if lastExpectation != null {
        registry.After(e, {lastExpectation});
      }
    }
  }

  function LastOf(members: seq<ExpectationBase>): set<ExpectationBase> {
    if members == [] then {} else {members[|members| - 1]}
  }

  ghost predicate Chained(members: seq<ExpectationBase>)
    reads members`immediatePrerequisites
  {
    forall i, j :: 0 <= i && j == i + 1 && j < |members| ==> members[i] in members[j].immediatePrerequisites
  }

  lemma ChainGrows(members: seq<ExpectationBase>, e: ExpectationBase)
    requires Chained(members) && (members == [] || members[|members| - 1] in e.immediatePrerequisites)
    ensures Chained(members + [e])
  {
  }

  /** An expectation comes after all earlier members of its sequences. */
  lemma {:induction false} SequenceOrders(g: set<ExpectationBase>, members: seq<ExpectationBase>, i: nat, j: nat)
    requires Acyclic(g) && Chained(members) && forall m :: m in members ==> m in g
    requires i < j < |members|
    ensures members[i] in Prerequisites(g, members[j])
    decreases j
  {
    if i < j - 1 {
      SequenceOrders(g, members, i, j - 1);
    }
  }

  lemma MemberIsOlder(g: set<ExpectationBase>, members: seq<ExpectationBase>, i: nat)
    requires Acyclic(g) && Chained(members) && forall m :: m in members ==> m in g
    requires i < |members| - 1
    ensures members[i].id < members[|members| - 1].id
  {
    SequenceOrders(g, members, i, |members| - 1);
    PrerequisitesAreOlder(g, members[|members| - 1]);
  }

  lemma ChainIsOld(g: set<ExpectationBase>, members: seq<ExpectationBase>)
    requires Acyclic(g) && Chained(members) && forall m :: m in members ==> m in g
    ensures forall i :: 0 <= i < |members| - 1 ==> members[i].id < members[|members| - 1].id
  {
    forall i | 0 <= i < |members| - 1 ensures members[i].id < members[|members| - 1].id {
      MemberIsOlder(g, members, i);
    }
  }

  /** Settled, apart from exp, by prerequisites that were retired already. */
  ghost predicate SettledBut(g: set<ExpectationBase>, exp: ExpectationBase, gone: set<ExpectationBase>)
    requires Acyclic(g)
    reads g`immediatePrerequisites, g`callCount
  {
    forall e :: e in g && e != exp && e.callCount > 0 && e.cardinality.max > 0 ==>
                  AllSatisfied(Prerequisites(g, e)) && Prerequisites(g, e) <= gone
  }

  lemma SettledAt(g: set<ExpectationBase>, e: ExpectationBase)
    requires e in g && Acyclic(g) && Settled(g) && e.callCount > 0 && e.cardinality.max > 0
    ensures Prerequisites(g, e) <= Retired(g)
  {
  }

  lemma SettledAfterCall(g: set<ExpectationBase>, exp: ExpectationBase, gone: set<ExpectationBase>)
    requires exp in g && Acyclic(g) && SettledBut(g, exp, gone) && gone <= Retired(g)
    requires exp.cardinality.max > 0 ==> AllSatisfied(Prerequisites(g, exp)) && Prerequisites(g, exp) <= Retired(g)
    ensures Settled(g)
  {
  }

  /** Bounded, apart from exp, by what was retired already. */
  ghost predicate BoundedBut(g: set<ExpectationBase>, exp: ExpectationBase, gone: set<ExpectationBase>)
    reads g`callCount
  {
    forall e :: e in g && e != exp ==> e.WithinBounds(e in gone)
  }

  lemma BoundedAt(g: set<ExpectationBase>, e: ExpectationBase)
    requires e in g && Bounded(g)
    ensures e.WithinBounds(e.retired)
  {
  }

  lemma BoundedAfterCall(g: set<ExpectationBase>, exp: ExpectationBase, gone: set<ExpectationBase>)
    requires exp in g && BoundedBut(g, exp, gone) && gone <= Retired(g) && exp.WithinBounds(exp.retired)
    ensures Bounded(g)
  {
  }

  // ----- Expectations for no calls -----

  /** A call that only x can take: x is called once more, and nothing is retired if x has no
      prerequisites or the call is excessive. */
  method CallOnly(registry: Registry, x: ExpectationBase)
    requires registry.Valid() && x in registry.All() && !x.retired && (!x.retiresOnSaturation || x.IsSaturated())
    requires AllSatisfied(Prerequisites(registry.All(), x))
    requires Prerequisites(registry.All(), x) == {} || x.IsSaturated()
    modifies registry.All()`callCount, registry.All()`retired
    ensures registry.Valid() && registry.expectations == old(registry.expectations)
    ensures x.callCount == old(x.callCount) + 1
    ensures forall e :: e in registry.All() ==>
            e.retired == old(e.retired) && (e != x ==> e.callCount == old(e.callCount))
  {
    SatisfiedThroughout(registry.All(), x);
    assert registry.ShouldHandle(x, {x});
    assert [x][0] == x;
    var exp, isExcessive := registry.HandleCall([x], {x});
    assert forall e :: e in registry.All() ==> (e.retired <==> e in Retired(registry.All()));
  }

  /** Two expectations, e after p, none retired. */
  ghost predicate IsPair(registry: Registry, p: ExpectationBase, e: ExpectationBase)
    reads registry, registry.All()
  {
    && registry.Valid() && registry.All() == {p, e} && p != e && !p.retired && !e.retired
    && !p.NeverExceeds() && !e.retiresOnSaturation
    && p.immediatePrerequisites == {} && e.immediatePrerequisites == {p}
  }

  method CallFirst(registry: Registry, p: ExpectationBase, e: ExpectationBase, n: nat)
    requires IsPair(registry, p, e)
    modifies registry.All()`callCount, registry.All()`retired
    ensures IsPair(registry, p, e) && p.callCount == old(p.callCount) + n && e.callCount == old(e.callCount)
  {
    for i := 0 to n
      invariant IsPair(registry, p, e) && p.callCount == old(p.callCount) + i && e.callCount == old(e.callCount)
    {
      assert Prerequisites(registry.All(), p) == {};
      CallOnly(registry, p);
    }
  }

  method CallSecond(registry: Registry, p: ExpectationBase, e: ExpectationBase)
    requires IsPair(registry, p, e) && p.IsSatisfied() && e.IsSaturated()
    modifies registry.All()`callCount, registry.All()`retired
    ensures IsPair(registry, p, e) && p.callCount == old(p.callCount) && e.callCount == old(e.callCount) + 1
  {
    assert Prerequisites(registry.All(), p) == {} && Prerequisites(registry.All(), e) == {p};
    CallOnly(registry, e);
  }

  lemma AllOfTwo(registry: Registry, p: ExpectationBase, e: ExpectationBase)
    requires registry.expectations == [p] + [e]
    ensures registry.All() == {p, e}
  {
  }

  method ExpectOneAfter(cardinality: Cardinality, retires: bool, later: Cardinality)
    returns (registry: Registry, p: ExpectationBase, e: ExpectationBase)
    requires !(retires && cardinality.max > 0)
    ensures fresh(registry) && fresh(p) && fresh(e) && IsPair(registry, p, e)
    ensures p.cardinality == cardinality && p.retiresOnSaturation == retires
    ensures e.cardinality == later && p.callCount == e.callCount == 0
  {
    registry := new Registry();
    p := registry.AddAlone(cardinality, retires);
    e := registry.AddAlone(later, false);
    AllOfTwo(registry, p, e);
    registry.After(e, {p});
  }

  /** PrerequisiteOfCalled must leave out that case: for every prerequisite that can take excessive calls,
      some run calls an expectation for no calls and ends with the prerequisite unsatisfied. */
  method CallNeverExpected(cardinality: Cardinality, retires: bool)
    returns (registry: Registry, p: ExpectationBase, e: ExpectationBase)
    requires cardinality.Valid() && !(retires && cardinality.max > 0)
    ensures registry.Valid() && p in registry.All() && e in registry.All()
    ensures p.cardinality == cardinality && p.retiresOnSaturation == retires && e.cardinality == Between(0, 0)
    ensures p in Prerequisites(registry.All(), e) && e.callCount > 0 && !p.IsSatisfied()
  {
    registry, p, e := ExpectOneAfter(cardinality, retires, Between(0, 0));
    CallFirst(registry, p, e, cardinality.min);
    CallSecond(registry, p, e);
    CallFirst(registry, p, e, cardinality.max + 1 - cardinality.min);
  }
}
