/** Splitting a string at a delimiter character, as strchr loops and SplitString do it. */
module Splitting {

  /** strchr and string::find: the first index of ch, or |s|. */
  function IndexOf(s: string, ch: char): (i: nat)
    ensures i <= |s| && (forall m :: 0 <= m < i ==> s[m] != ch) && (i < |s| ==> s[i] == ch)
  {
    if s == "" || s[0] == ch then 0 else IndexOf(s[1..], ch) + 1
  }

  lemma IndexOfUnique(s: string, ch: char, i: nat)
    requires i <= |s| && (forall m :: 0 <= m < i ==> s[m] != ch) && (i < |s| ==> s[i] == ch)
    ensures IndexOf(s, ch) == i
  {
  }

  function Join(fields: seq<string>, delimiter: char): string
    requires fields != []
  {
    if |fields| == 1 then fields[0] else fields[0] + [delimiter] + Join(fields[1..], delimiter)
  }

  /** The fields of s: they join back to s, and none contains the delimiter (see SplitUnique). */
  function Split(s: string, delimiter: char): (fields: seq<string>)
    ensures fields != []
    decreases |s|
  {
    var i := IndexOf(s, delimiter);
    if i == |s| then [s] else [s[..i]] + Split(s[i + 1..], delimiter)
  }

  /** The first field and the others. */
  lemma SplitFirst(s: string, delimiter: char)
    ensures var i := IndexOf(s, delimiter);
            Split(s, delimiter) == if i == |s| then [s] else [s[..i]] + Split(s[i + 1..], delimiter)
  {
    hide IndexOf;
  }

  lemma {:induction false} SplitJoins(s: string, delimiter: char)
    ensures Join(Split(s, delimiter), delimiter) == s
    ensures forall f :: f in Split(s, delimiter) ==> delimiter !in f
    decreases |s|
  {
    var i := IndexOf(s, delimiter);
    if i < |s| {
      SplitJoins(s[i + 1..], delimiter);
      var rest := Split(s[i + 1..], delimiter);
      assert ([s[..i]] + rest)[1..] == rest;
      assert s == s[..i] + [delimiter] + s[i + 1..];
    }
  }

  lemma SplitAtFirst(first: string, rest: string, delimiter: char)
    requires delimiter !in first
    ensures Split(first + [delimiter] + rest, delimiter) == [first] + Split(rest, delimiter)
  {
    var s := first + [delimiter] + rest;
    assert forall m :: 0 <= m < |first| ==> s[m] == first[m];
    assert s[..|first|] == first && s[|first|] == delimiter && s[|first| + 1..] == rest;
    IndexOfUnique(s, delimiter, |first|);
    assert Split(s, delimiter) == [s[..|first|]] + Split(s[|first| + 1..], delimiter);
  }

  lemma {:induction false} SplitOfJoin(fields: seq<string>, delimiter: char)
    requires fields != [] && forall f :: f in fields ==> delimiter !in f
    ensures Split(Join(fields, delimiter), delimiter) == fields
  {
    var first := fields[0];
    assert first in fields;
    if |fields| == 1 {
      IndexOfUnique(first, delimiter, |first|);
      assert fields == [first];
    } else {
      SplitOfJoin(fields[1..], delimiter);
      SplitAtFirst(first, Join(fields[1..], delimiter), delimiter);
      assert fields == [first] + fields[1..];
    }
  }

  /** Split is the only way to cut s at every delimiter. */
  lemma SplitUnique(s: string, delimiter: char, fields: seq<string>)
    ensures fields == Split(s, delimiter) <==>
            fields != [] && (forall f :: f in fields ==> delimiter !in f) && Join(fields, delimiter) == s
  {
    SplitJoins(s, delimiter);
    if fields != [] && (forall f :: f in fields ==> delimiter !in f) {
      SplitOfJoin(fields, delimiter);
    }
  }
}
