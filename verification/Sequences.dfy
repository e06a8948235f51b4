/** Facts about sequences that the solver is better told than left to find. */
module Sequences {
  lemma Associates<T>(a: seq<T>, b: seq<T>, c: seq<T>)
    ensures a + (b + c) == a + b + c
  {
  }

  lemma TakeOneMore<T>(s: seq<T>, i: nat)
    requires i < |s|
    ensures s[..i + 1] == s[..i] + [s[i]]
  {
  }

  function Insert<T>(xs: seq<T>, at: nat, x: T): (r: seq<T>)
    requires at <= |xs|
    ensures |r| == |xs| + 1 && r[at] == x
  {
    xs[..at] + [x] + xs[at..]
  }

  lemma InsertAt<T>(xs: seq<T>, at: nat, x: T, i: nat)
    requires at <= |xs| && i <= |xs|
    ensures Insert(xs, at, x)[i] == if i < at then xs[i] else if i == at then x else xs[i - 1]
  {
  }

  lemma InsertBetween<T>(a: seq<T>, x: T, b: seq<T>)
    ensures Insert(a + b, |a|, x) == a + [x] + b
  {
    assert (a + b)[..|a|] == a && (a + b)[|a|..] == b;
  }
}
