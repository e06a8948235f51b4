/** The Fisher-Yates shuffle of part of a vector, and permutations that keep two blocks apart. */
module Shuffling {

  const MAX_RANGE: nat := 0x8000_0000

  const UINT32_LIMIT: nat := 0x1_0000_0000

  /** What an unsigned 32-bit operation leaves of n. */
  function Wrapped(n: nat): nat {
    n % UINT32_LIMIT
  }

  /** The wrap-around at 2^32 changes nothing modulo 2^31. */
  lemma WrapAround(n: nat, k: nat)
    ensures Wrapped(Wrapped(n) + k) % MAX_RANGE == (n + k) % MAX_RANGE
  {
    var q := n / UINT32_LIMIT;
    assert n == UINT32_LIMIT * q + Wrapped(n);
    var m := Wrapped(n) + k;
    var p := m / UINT32_LIMIT;
    assert m == UINT32_LIMIT * p + Wrapped(m);
    assert n + k == MAX_RANGE * (2 * q + 2 * p) + Wrapped(m);
    ModuloOfMultiple(2 * q + 2 * p, Wrapped(m));
  }

  lemma {:induction false} ModuloOfMultiple(q: nat, n: nat)
    ensures (MAX_RANGE * q + n) % MAX_RANGE == n % MAX_RANGE
  {
    if q > 0 {
      ModuloOfMultiple(q - 1, n);
      assert MAX_RANGE * q + n == MAX_RANGE + (MAX_RANGE * (q - 1) + n);
    }
  }

  /** One step of the linear congruential generator, as a number. */
  function NextState(state: nat): nat {
    (1103515245 * state + 12345) % MAX_RANGE
  }

  function Draw(state: nat, range: nat): (r: nat)
    requires range > 0
    ensures r < range
  {
    NextState(state) % range
  }

  class Random {
    var state: nat

    constructor (seed: nat)
      ensures state == seed
    {
      state := seed;
    }

    method Reseed(seed: nat)
      modifies this
      ensures state == seed
    {
      state := seed;
    }

    /** Generate, in unsigned 32-bit arithmetic: the step is the exact one modulo 2^31, and the number
        drawn is below the range. */
    method Generate(range: nat) returns (r: nat)
      requires 0 < range <= MAX_RANGE
      modifies this
      ensures state == (1103515245 * old(state) + 12345) % 0x8000_0000 && r == state % range
      ensures state == NextState(old(state)) && r == Draw(old(state), range) < range
    {
      WrapAround(1103515245 * state, 12345);
      state := Wrapped(Wrapped(1103515245 * state) + 12345) % MAX_RANGE;
      r := state % range;
    }
  }

  /** The numbers drawn to shuffle `width` elements, and the state of the generator afterwards. */
  function Draws(state: nat, width: nat): (choices: seq<nat>)
    ensures |choices| == (if width < 2 then 0 else width - 1) && AreChoices(choices)
    decreases width
  {
    if width < 2 then [] else [Draw(state, width)] + Draws(NextState(state), width - 1)
  }

  function StateAfter(state: nat, width: nat): nat
    decreases width
  {
    if width < 2 then state else StateAfter(NextState(state), width - 1)
  }

  /** The n-th state after a state. */
  function Steps(state: nat, n: nat): nat
    decreases n
  {
    if n == 0 then state else Steps((1103515245 * state + 12345) % 0x8000_0000, n - 1)
  }

  /** Each number drawn is the next state of the generator, cut down to the number of elements not yet
      placed: to all of them first, to two of them last. */
  lemma {:induction false} DrawsAt(state: nat, width: nat, i: nat)
    requires i + 1 < width
    ensures Draws(state, width)[i] == Steps(state, i + 1) % (width - i)
    decreases width
  {
    if i > 0 {
      DrawsAt(NextState(state), width - 1, i - 1);
    }
  }

  lemma {:induction false} StateAfterSteps(state: nat, width: nat)
    ensures StateAfter(state, width) == Steps(state, if width < 2 then 0 else width - 1)
    decreases width
  {
    if width >= 2 {
      StateAfterSteps(NextState(state), width - 1);
    }
  }

  /** The state of the generator when it comes to the i-th of several vectors shuffled in turn. */
  function StateAt<E>(state: nat, vectors: seq<seq<E>>, i: nat): nat
    requires i <= |vectors|
  {
    if i == 0 then state else StateAfter(StateAt(state, vectors, i - 1), |vectors[i - 1]|)
  }

  lemma StateAtStep<E>(state: nat, vectors: seq<seq<E>>)
    ensures StateAt(state, vectors, 0) == state
    ensures forall i :: 0 <= i < |vectors| ==>
            StateAt(state, vectors, i + 1) == StateAfter(StateAt(state, vectors, i), |vectors[i]|)
  {
  }

  /** Each choice is among the elements not yet placed, of which there is one more than choices. */
  predicate AreChoices(choices: seq<nat>) {
    forall i :: 0 <= i < |choices| ==> choices[i] <= |choices| - i
  }

  function Swapped<E>(v: seq<E>, i: nat, j: nat): (v': seq<E>)
    requires i < |v| && j < |v|
    ensures |v'| == |v|
  {
    v[i := v[j]][j := v[i]]
  }

  lemma SwappedAt<E>(v: seq<E>, i: nat, j: nat, k: nat)
    requires i < |v| && j < |v| && k < |v|
    ensures Swapped(v, i, j)[k] == if k == i then v[j] else if k == j then v[i] else v[k]
  {
  }

  /** The Fisher-Yates shuffle: the first choice goes to the last place, and so on downward. */
  function FisherYates<E>(v: seq<E>, begin: nat, choices: seq<nat>): (v': seq<E>)
    requires AreChoices(choices) && (choices != [] ==> begin + |choices| < |v|)
    ensures |v'| == |v|
    decreases |choices|
  {
    if choices == [] then v
    else FisherYates(Swapped(v, begin + choices[0], begin + |choices|), begin, choices[1..])
  }

  lemma FirstChoice<E>(v: seq<E>, begin: nat, i: nat, rest: seq<nat>)
    requires AreChoices(rest) && i <= |rest| + 1 && begin + |rest| + 1 < |v|
    ensures AreChoices([i] + rest)
    ensures FisherYates(v, begin, [i] + rest) == FisherYates(Swapped(v, begin + i, begin + |rest| + 1), begin, rest)
  {
    var choices := [i] + rest;
    assert choices[1..] == rest;
    assert AreChoices(choices) by {
      forall k | 0 <= k < |choices| ensures choices[k] <= |choices| - k {
        assert k > 0 ==> choices[k] == rest[k - 1];
      }
    }
  }

  /** The whole of v shuffled. */
  function Shuffled<E>(v: seq<E>, state: nat): (v': seq<E>)
    ensures |v'| == |v|
  {
    FisherYates(v, 0, Draws(state, |v|))
  }

  /** The first n of several vectors, each shuffled with the numbers that the generator draws next. */
  function ShuffledInTurn<E>(vectors: seq<seq<E>>, state: nat, n: nat): (shuffled: seq<seq<E>>)
    requires n <= |vectors|
    ensures |shuffled| == n
  {
    if n == 0 then []
    else ShuffledInTurn(vectors, state, n - 1) + [Shuffled(vectors[n - 1], StateAt(state, vectors, n - 1))]
  }

  lemma {:induction false} ShuffledInTurnAt<E>(vectors: seq<seq<E>>, state: nat, n: nat, i: nat)
    requires i < n <= |vectors|
    ensures ShuffledInTurn(vectors, state, n)[i] == Shuffled(vectors[i], StateAt(state, vectors, i))
  {
    if i < n - 1 {
      ShuffledInTurnAt(vectors, state, n - 1, i);
    }
  }

  /** v rearranged within [begin, end). */
  ghost predicate Rearranged<E>(v: seq<E>, v': seq<E>, begin: nat, end: nat)
    requires begin <= end <= |v|
  {
    && |v'| == |v| && v'[..begin] == v[..begin] && v'[end..] == v[end..]
    && multiset(v'[begin..end]) == multiset(v[begin..end])
  }

  lemma SwapRearranges<E>(v: seq<E>, begin: nat, end: nat, i: nat, j: nat)
    requires begin <= i <= j < end <= |v|
    ensures Rearranged(v, Swapped(v, i, j), begin, end)
  {
    var v' := Swapped(v, i, j);
    var part := v[begin..end];
    assert v'[begin..end] == part[i - begin := part[j - begin]][j - begin := part[i - begin]];
    assert v'[..begin] == v[..begin] && v'[end..] == v[end..];
  }

  lemma RearrangedInside<E>(v: seq<E>, v': seq<E>, begin: nat, end: nat)
    requires begin < end <= |v| && Rearranged(v, v', begin, end - 1)
    ensures Rearranged(v, v', begin, end)
  {
    assert v'[end - 1..][0] == v[end - 1..][0];
    assert v[begin..end] == v[begin..end - 1] + [v[end - 1]] && v'[begin..end] == v'[begin..end - 1] + [v'[end - 1]];
    assert v'[end..] == v'[end - 1..][1..] && v[end..] == v[end - 1..][1..];
  }

  /** Whatever is drawn, the range is rearranged and nothing else moves. */
  lemma {:induction false} ShuffleRearranges<E>(v: seq<E>, begin: nat, choices: seq<nat>)
    requires AreChoices(choices) && begin + |choices| < |v|
    ensures Rearranged(v, FisherYates(v, begin, choices), begin, begin + |choices| + 1)
    decreases |choices|
  {
    if choices != [] {
      var end := begin + |choices| + 1;
      var u := Swapped(v, begin + choices[0], end - 1);
      SwapRearranges(v, begin, end, begin + choices[0], end - 1);
      ShuffleRearranges(u, begin, choices[1..]);
      RearrangedInside(u, FisherYates(v, begin, choices), begin, end);
    }
  }

  lemma OneElement<E>(v: seq<E>, v': seq<E>, begin: nat)
    requires begin < |v| && Rearranged(v, v', begin, begin + 1)
    ensures v' == v
  {
    var end := begin + 1;
    assert v[begin..end] == [v[begin]] && v'[begin..end] == [v'[begin]];
    assert v'[begin] in multiset(v'[begin..end]);
    assert v == v[..begin] + v[begin..end] + v[end..] && v' == v'[..begin] + v'[begin..end] + v'[end..];
  }

  lemma PlaceOf<E>(v: seq<E>, v': seq<E>, begin: nat, end: nat) returns (i: nat)
    requires begin < end <= |v| && Rearranged(v, v', begin, end)
    ensures i < end - begin && v[begin + i] == v'[end - 1]
  {
    assert v'[begin..end][end - 1 - begin] in multiset(v[begin..end]);
    i :| 0 <= i < end - begin && v[begin..end][i] == v'[end - 1];
  }

  lemma RearrangedBack<E>(v: seq<E>, u: seq<E>, v': seq<E>, begin: nat, end: nat)
    requires begin <= end <= |v| && Rearranged(v, u, begin, end) && Rearranged(v, v', begin, end)
    ensures Rearranged(u, v', begin, end)
  {
  }

  /** The element that is to be last can be swapped there. */
  lemma PlaceLast<E>(v: seq<E>, v': seq<E>, begin: nat, end: nat) returns (i: nat)
    requires begin < end <= |v| && Rearranged(v, v', begin, end)
    ensures i < end - begin && Rearranged(Swapped(v, begin + i, end - 1), v', begin, end - 1)
  {
    i := PlaceOf(v, v', begin, end);
    var u := Swapped(v, begin + i, end - 1);
    assert u[end - 1] == v'[end - 1];
    assert Rearranged(u, v', begin, end) by {
      SwapRearranges(v, begin, end, begin + i, end - 1);
      RearrangedBack(v, u, v', begin, end);
    }
    SameLast(u, v', begin, end);
  }

  lemma OneMoreChoice<E>(v: seq<E>, v': seq<E>, begin: nat, i: nat, rest: seq<nat>) returns (choices: seq<nat>)
    requires AreChoices(rest) && i <= |rest| + 1 && begin + |rest| + 1 < |v|
    requires FisherYates(Swapped(v, begin + i, begin + |rest| + 1), begin, rest) == v'
    ensures |choices| == |rest| + 1 && AreChoices(choices) && FisherYates(v, begin, choices) == v'
  {
    FirstChoice(v, begin, i, rest);
    choices := [i] + rest;
  }

  /** Every order of the range comes from some choices. */
  lemma {:induction false} EveryOrderIsDrawn<E>(v: seq<E>, v': seq<E>, begin: nat, end: nat) returns (choices: seq<nat>)
    requires begin < end <= |v| && Rearranged(v, v', begin, end)
    ensures |choices| == end - begin - 1 && AreChoices(choices) && FisherYates(v, begin, choices) == v'
    decreases end - begin
  {
    if end - begin == 1 {
      OneElement(v, v', begin);
      choices := [];
    } else {
      choices := DrawnFromLast(v, v', begin, end);
    }
  }

  lemma DrawnFromLast<E>(v: seq<E>, v': seq<E>, begin: nat, end: nat) returns (choices: seq<nat>)
    requires begin + 1 < end <= |v| && Rearranged(v, v', begin, end)
    ensures |choices| == end - begin - 1 && AreChoices(choices) && FisherYates(v, begin, choices) == v'
    decreases end - begin, 0
  {
    var i := PlaceLast(v, v', begin, end);
    var rest := EveryOrderIsDrawn(Swapped(v, begin + i, end - 1), v', begin, end - 1);
    choices := OneMoreChoice(v, v', begin, i, rest);
  }

  lemma SameLast<E>(u: seq<E>, v': seq<E>, begin: nat, end: nat)
    requires begin < end <= |u| && Rearranged(u, v', begin, end) && u[end - 1] == v'[end - 1]
    ensures Rearranged(u, v', begin, end - 1)
  {
    BagWithoutLast(u, begin, end);
    BagWithoutLast(v', begin, end);
    assert u[end - 1..] == [u[end - 1]] + u[end..] && v'[end - 1..] == [v'[end - 1]] + v'[end..];
  }

  lemma BagWithoutLast<E>(u: seq<E>, begin: nat, end: nat)
    requires begin < end <= |u|
    ensures multiset(u[begin..end - 1]) == multiset(u[begin..end]) - multiset{u[end - 1]}
  {
    assert u[begin..end] == u[begin..end - 1] + [u[end - 1]];
  }

  predicate Distinct<E(==)>(v: seq<E>) {
    forall i, j :: 0 <= i < j < |v| ==> v[i] != v[j]
  }

  lemma {:induction false} ShuffleLeaves<E>(v: seq<E>, begin: nat, choices: seq<nat>, k: nat)
    requires AreChoices(choices) && begin + |choices| < k < |v|
    ensures FisherYates(v, begin, choices)[k] == v[k]
    decreases |choices|
  {
    if choices != [] {
      ShuffleLeaves(Swapped(v, begin + choices[0], begin + |choices|), begin, choices[1..], k);
    }
  }

  lemma FirstChoiceIsLast<E>(v: seq<E>, begin: nat, c: seq<nat>)
    requires c != [] && AreChoices(c) && begin + |c| < |v|
    ensures FisherYates(v, begin, c)[begin + |c|] == v[begin + c[0]]
  {
    ShuffleLeaves(Swapped(v, begin + c[0], begin + |c|), begin, c[1..], begin + |c|);
  }

  lemma DistinctIndex<E>(v: seq<E>, i: nat, j: nat)
    requires Distinct(v) && i < |v| && j < |v| && v[i] == v[j]
    ensures i == j
  {
  }

  lemma DistinctSwapped<E>(v: seq<E>, i: nat, j: nat)
    requires Distinct(v) && i < |v| && j < |v|
    ensures Distinct(Swapped(v, i, j))
  {
  }

  /** Different choices give different orders of distinct elements. With EveryOrderIsDrawn: each order
      comes from exactly one sequence of choices. */
  lemma {:induction false} ChoicesAreUnique<E>(v: seq<E>, begin: nat, c: seq<nat>, d: seq<nat>)
    requires Distinct(v) && AreChoices(c) && AreChoices(d) && |c| == |d| && (c != [] ==> begin + |c| < |v|)
    requires FisherYates(v, begin, c) == FisherYates(v, begin, d)
    ensures c == d
    decreases |c|
  {
    if c != [] {
      var last := begin + |c|;
      FirstChoiceIsLast(v, begin, c);
      FirstChoiceIsLast(v, begin, d);
      DistinctIndex(v, begin + c[0], begin + d[0]);
      DistinctSwapped(v, begin + c[0], last);
      ChoicesAreUnique(Swapped(v, begin + c[0], last), begin, c[1..], d[1..]);
      assert c == [c[0]] + c[1..] && d == [d[0]] + d[1..];
    }
  }

  lemma DrawnRearranges<E>(v: seq<E>, begin: nat, end: nat, state: nat)
    requires begin <= end <= |v|
    ensures Rearranged(v, FisherYates(v, begin, Draws(state, end - begin)), begin, end)
  {
    if end - begin >= 2 {
      ShuffleRearranges(v, begin, Draws(state, end - begin));
    }
  }

  /** ShuffleRange. */
  method ShuffleRange<E>(random: Random, begin: nat, end: nat, v: seq<E>) returns (v': seq<E>)
    requires begin <= end <= |v| <= MAX_RANGE
    modifies random
    ensures v' == FisherYates(v, begin, Draws(old(random.state), end - begin))
    ensures random.state == StateAfter(old(random.state), end - begin)
    ensures Rearranged(v, v', begin, end)
  {
    v' := v;
    ghost var shuffled := FisherYates(v, begin, Draws(random.state, end - begin));
    ghost var last := StateAfter(random.state, end - begin);
    var rangeWidth: int := end - begin;
    while rangeWidth >= 2
      invariant 0 <= rangeWidth <= end - begin && |v'| == |v|
      invariant shuffled == FisherYates(v', begin, Draws(random.state, rangeWidth))
      invariant last == StateAfter(random.state, rangeWidth)
    {
      FirstChoice(v', begin, Draw(random.state, rangeWidth), Draws(NextState(random.state), rangeWidth - 1));
      var lastInRange := begin + rangeWidth - 1;
      var offset := random.Generate(rangeWidth);
      var selected := begin + offset;
      v' := v'[selected := v'[lastInRange]][lastInRange := v'[selected]];
      rangeWidth := rangeWidth - 1;
    }
    DrawnRearranges(v, begin, end, old(random.state));
  }

  // ----- Permutations of 0 .. n in two blocks -----

  function Identity(n: nat): seq<int> {
    seq(n, i => i)
  }

  /** A permutation of 0 .. |v| that maps [0, d) to itself. */
  ghost predicate BlockPermutation(v: seq<int>, d: nat) {
    && d <= |v|
    && multiset(v[..d]) == multiset(Identity(|v|)[..d])
    && multiset(v[d..]) == multiset(Identity(|v|)[d..])
  }

  lemma IdentityIsBlockPermutation(n: nat, d: nat)
    requires d <= n
    ensures BlockPermutation(Identity(n), d)
  {
  }

  lemma OneMoreIndex(v: seq<int>)
    requires BlockPermutation(v, 0)
    ensures BlockPermutation(v + [|v|], 0)
  {
    var n := |v|;
    assert v[0..] == v && (v + [n])[0..] == v + [n];
    assert Identity(n)[0..] == Identity(n) && Identity(n + 1)[0..] == Identity(n) + [n];
  }

  lemma BlockPermutationRange(v: seq<int>, d: nat, i: nat)
    requires BlockPermutation(v, d) && i < |v|
    ensures 0 <= v[i] < |v| && (v[i] < d <==> i < d)
  {
    var id := Identity(|v|);
    if i < d {
      assert v[..d][i] in multiset(id[..d]);
      var k :| 0 <= k < d && id[..d][k] == v[i];
    } else {
      assert v[d..][i - d] in multiset(id[d..]);
      var k :| 0 <= k < |v| - d && id[d..][k] == v[i];
    }
  }

  lemma BlockPermutationWhole(v: seq<int>, d: nat)
    requires BlockPermutation(v, d)
    ensures multiset(v) == multiset(Identity(|v|))
  {
    var id := Identity(|v|);
    assert v == v[..d] + v[d..] && id == id[..d] + id[d..];
  }

  lemma ShuffledBlocks(v: seq<int>, v': seq<int>, v'': seq<int>, d: nat)
    requires BlockPermutation(v, d) && Rearranged(v, v', 0, d) && Rearranged(v', v'', d, |v'|)
    ensures BlockPermutation(v'', d)
  {
    assert v'[0..d] == v'[..d] && v[0..d] == v[..d] && v'[d..|v'|] == v'[d..] && v''[d..|v''|] == v''[d..];
  }

  /** The first d elements shuffled among themselves, then the others. */
  function InBlocks<E>(v: seq<E>, d: nat, state: nat): (v': seq<E>)
    requires d <= |v|
    ensures |v'| == |v|
  {
    FisherYates(FisherYates(v, 0, Draws(state, d)), d, Draws(StateAfter(state, d), |v| - d))
  }

  /** Every order that keeps the blocks comes from some choices, first for the one and then for the other. */
  lemma EveryBlockOrderIsDrawn<E>(v: seq<E>, v': seq<E>, d: nat) returns (first: seq<nat>, others: seq<nat>)
    requires d <= |v| == |v'|
    requires multiset(v'[..d]) == multiset(v[..d]) && multiset(v'[d..]) == multiset(v[d..])
    ensures |first| == (if d < 2 then 0 else d - 1) && AreChoices(first)
    ensures |others| == (if |v| - d < 2 then 0 else |v| - d - 1) && AreChoices(others)
    ensures FisherYates(FisherYates(v, 0, first), d, others) == v'
  {
    var mid := v'[..d] + v[d..];
    first, others := [], [];
    assert v[..d] + v[d..] == v && v'[..d] + v'[d..] == v';
    if d > 0 {
      assert mid[0..d] == v'[..d] && v[0..d] == v[..d] && mid[d..] == v[d..];
      first := EveryOrderIsDrawn(v, mid, 0, d);
    } else {
      assert mid == v;
    }
    if d < |v| {
      assert mid[d..|v|] == v[d..] && v'[d..|v|] == v'[d..] && mid[..d] == v'[..d];
      others := EveryOrderIsDrawn(mid, v', d, |v|);
    } else {
      assert mid == v';
    }
  }

  /** The two calls that shuffle test cases. */
  method ShuffleBlocks(random: Random, v: seq<int>, d: nat) returns (v': seq<int>)
    requires |v| <= MAX_RANGE && BlockPermutation(v, d)
    modifies random
    ensures v' == FisherYates(FisherYates(v, 0, Draws(old(random.state), d)), d,
                              Draws(StateAfter(old(random.state), d), |v| - d))
    ensures v' == InBlocks(v, d, old(random.state)) && BlockPermutation(v', d)
    ensures random.state == StateAfter(StateAfter(old(random.state), d), |v| - d)
  {
    var first := ShuffleRange(random, 0, d, v);
    v' := ShuffleRange(random, d, |v|, first);
    ShuffledBlocks(v, first, v', d);
  }

  /** The elements of xs in the order of v. */
  function Select<E>(xs: seq<E>, v: seq<int>): (r: seq<E>)
    requires Indexes(xs, v)
    ensures |r| == |v|
  {
    seq(|v|, i requires 0 <= i < |v| => xs[v[i]])
  }

  predicate Indexes<E>(xs: seq<E>, v: seq<int>) {
    forall i :: 0 <= i < |v| ==> 0 <= v[i] < |xs|
  }

  lemma SelectRemove<E>(xs: seq<E>, w: seq<int>, j: nat)
    requires Indexes(xs, w) && j < |w|
    ensures multiset(Select(xs, w)) == multiset{xs[w[j]]} + multiset(Select(xs, w[..j] + w[j + 1..]))
  {
    var a, b := w[..j], w[j + 1..];
    assert Select(xs, w) == Select(xs, a) + [xs[w[j]]] + Select(xs, b);
    assert Select(xs, a + b) == Select(xs, a) + Select(xs, b);
  }

  lemma WithoutOne<E>(v: seq<E>, j: nat)
    requires j < |v|
    ensures multiset(v[..j] + v[j + 1..]) == multiset(v) - multiset{v[j]}
  {
    assert v == v[..j] + [v[j]] + v[j + 1..];
  }

  lemma SameWithoutOne<E>(v: seq<E>, w: seq<E>) returns (j: nat)
    requires v != [] && multiset(v) == multiset(w)
    ensures j < |w| && w[j] == v[0]
    ensures multiset(v[1..]) == multiset(w[..j] + w[j + 1..])
  {
    assert v[0] in multiset(w);
    j :| 0 <= j < |w| && w[j] == v[0];
    WithoutOne(w, j);
    WithoutFirst(v);
  }

  lemma WithoutFirst<E>(v: seq<E>)
    requires v != []
    ensures multiset(v[1..]) == multiset(v) - multiset{v[0]}
  {
    assert v == [v[0]] + v[1..];
  }

  lemma {:induction false} SelectMultiset<E>(xs: seq<E>, v: seq<int>, w: seq<int>)
    requires multiset(v) == multiset(w) && Indexes(xs, v) && Indexes(xs, w)
    ensures multiset(Select(xs, v)) == multiset(Select(xs, w))
    decreases |v|
  {
    if v == [] {
      assert |multiset(w)| == 0;
    } else {
      var j := SameWithoutOne(v, w);
      SelectMultiset(xs, v[1..], w[..j] + w[j + 1..]);
      SelectRemove(xs, w, j);
      assert Select(xs, v) == [xs[v[0]]] + Select(xs, v[1..]);
    }
  }

  /** Following a permutation visits everything exactly once. */
  lemma PermutationVisitsAll<E>(xs: seq<E>, v: seq<int>, d: nat)
    requires |v| == |xs| && BlockPermutation(v, d)
    ensures Indexes(xs, v) && multiset(Select(xs, v)) == multiset(xs)
  {
    forall i | 0 <= i < |v| ensures 0 <= v[i] < |xs| {
      BlockPermutationRange(v, d, i);
    }
    BlockPermutationWhole(v, d);
    SelectMultiset(xs, v, Identity(|xs|));
    assert Select(xs, Identity(|xs|)) == xs;
  }
}
