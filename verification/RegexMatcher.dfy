/** The meaning of a simple regular expression as a set of strings, and the backtracking matcher
    proved to decide it. */
module RegexMatcher {
  import opened Wrappers
  import opened RegexSyntax

  const SIZE_MAX: nat := 0xFFFF_FFFF_FFFF_FFFF

  // ----- Denotation -----

  predicate CountAllowed(q: Quantifier, n: nat) {
    match q
    case One => n == 1
    case ZeroOrOne => n <= 1
    case ZeroOrMore => true
    case OneOrMore => n >= 1
  }

  ghost predicate InItem(item: Item, s: string) {
    && CountAllowed(item.quantifier, |s|)
    && forall i :: 0 <= i < |s| ==> AtomMatchesChar(item.escaped, item.c, s[i])
  }

  /** How often each quantifier lets the atom match. */
  lemma QuantifierLaws(escaped: bool, c: char, s: string)
    ensures InItem(Item(escaped, c, One), s) <==> |s| == 1 && AtomMatchesChar(escaped, c, s[0])
    ensures InItem(Item(escaped, c, ZeroOrOne), s) <==> s == "" || InItem(Item(escaped, c, One), s)
    ensures InItem(Item(escaped, c, ZeroOrMore), s) <==>
            s == "" || (AtomMatchesChar(escaped, c, s[0]) && InItem(Item(escaped, c, ZeroOrMore), s[1..]))
    ensures InItem(Item(escaped, c, OneOrMore), s) <==>
            s != "" && AtomMatchesChar(escaped, c, s[0]) && InItem(Item(escaped, c, ZeroOrMore), s[1..])
  {
    if s != "" && AtomMatchesChar(escaped, c, s[0]) && InItem(Item(escaped, c, ZeroOrMore), s[1..]) {
      assert forall i :: 1 <= i < |s| ==> s[i] == s[1..][i - 1];
    }
  }

  /** s splits into consecutive pieces, one for each item. */
  ghost predicate InLanguage(items: seq<Item>, s: string) {
    if items == [] then s == ""
    else exists k :: 0 <= k <= |s| && InItem(items[0], s[..k]) && InLanguage(items[1..], s[k..])
  }

  /** Some substring of s is in the language of r, where its anchors allow. */
  ghost predicate Accepts(r: Regex, s: string) {
    exists i, j :: 0 <= i <= j <= |s| && AcceptsAt(r, s, i, j)
  }

  ghost predicate AcceptsAt(r: Regex, s: string, i: int, j: int)
    requires 0 <= i <= j <= |s|
  {
    InLanguage(r.items, s[i..j]) && (r.caret ==> i == 0) && (r.dollar ==> j == |s|)
  }

  /** What the anchors do. */
  lemma AnchorsMean(items: seq<Item>, s: string)
    ensures Accepts(Regex(true, items, true), s) <==> InLanguage(items, s)
    ensures Accepts(Regex(true, items, false), s) <==> exists j :: 0 <= j <= |s| && InLanguage(items, s[..j])
    ensures Accepts(Regex(false, items, true), s) <==> exists i :: 0 <= i <= |s| && InLanguage(items, s[i..])
  {
    hide InLanguage;
    assert s[0..|s|] == s;
    assert forall j :: 0 <= j <= |s| ==> s[0..j] == s[..j];
    assert forall i :: 0 <= i <= |s| ==> s[i..|s|] == s[i..];
    if InLanguage(items, s) {
      assert AcceptsAt(Regex(true, items, true), s, 0, |s|);
    }
    if j :| 0 <= j <= |s| && InLanguage(items, s[..j]) {
      assert AcceptsAt(Regex(true, items, false), s, 0, j);
    }
    if i :| 0 <= i <= |s| && InLanguage(items, s[i..]) {
      assert AcceptsAt(Regex(false, items, true), s, i, |s|);
    }
  }

  /** Some prefix of s (all of s, with an end anchor) is in the language of the tail. */
  ghost predicate AcceptsHead(t: Tail, s: string) {
    exists j :: 0 <= j <= |s| && InLanguage(t.items, s[..j]) && (t.dollar ==> j == |s|)
  }

  lemma AcceptsHeadSplit(item: Item, rest: Tail, s: string, k: nat)
    requires k <= |s| && InItem(item, s[..k]) && AcceptsHead(rest, s[k..])
    ensures AcceptsHead(Tail([item] + rest.items, rest.dollar), s)
  {
    var j :| 0 <= j <= |s[k..]| && InLanguage(rest.items, s[k..][..j]) && (rest.dollar ==> j == |s[k..]|);
    var whole := s[..k + j];
    assert whole[..k] == s[..k] && whole[k..] == s[k..][..j];
    assert ([item] + rest.items)[1..] == rest.items;
    assert InLanguage([item] + rest.items, whole);
  }

  lemma AcceptsHeadUnsplit(item: Item, rest: Tail, s: string) returns (k: nat)
    requires AcceptsHead(Tail([item] + rest.items, rest.dollar), s)
    ensures k <= |s| && InItem(item, s[..k]) && AcceptsHead(rest, s[k..])
    ensures forall m :: 0 <= m < k ==> AtomMatchesChar(item.escaped, item.c, s[m])
  {
    var items := [item] + rest.items;
    var j :| 0 <= j <= |s| && InLanguage(items, s[..j]) && (rest.dollar ==> j == |s|);
    assert items[1..] == rest.items;
    k :| 0 <= k <= j && InItem(items[0], s[..j][..k]) && InLanguage(items[1..], s[..j][k..]);
    assert s[..j][..k] == s[..k] && s[..j][k..] == s[k..][..j - k];
    assert forall m :: 0 <= m < k ==> s[..k][m] == s[m];
  }

  // ----- The matcher -----

  /** MatchRegexAtHead: whether the tail matches a prefix of str. */
  method MatchRegexAtHead(regex: string, str: string) returns (b: bool)
    requires CString(regex) && CString(str) && |str| < SIZE_MAX
    requires ParseTail(regex).Some?
    ensures b <==> AcceptsHead(ParseTail(regex).value, str)
    decreases |regex|, 1
  {
    if At(regex, 0) == '\0' {
      assert InLanguage([], str[..0]);
      return true;
    }
    if At(regex, 0) == '$' {
      assert InLanguage([], str[..0]);
      return At(str, 0) == '\0';
    }
    ghost var item := FirstItem(regex);
    ghost var itemLength := |ItemText(item)|;
    ghost var rest := ParseTail(regex[itemLength..]).value;
    var escaped := At(regex, 0) == '\\';
    var atom := if escaped then regex[1..] else regex;
    if IsRepeat(At(atom, 1)) {
      assert atom[2..] == regex[itemLength..];
      b := MatchRepetitionAndRegexAtHead(escaped, atom[0], atom[1], atom[2..], str);
    } else {
      assert atom[1..] == regex[itemLength..];
      b := At(str, 0) != '\0' && AtomMatchesChar(escaped, atom[0], At(str, 0));
      if b {
        b := MatchRegexAtHead(atom[1..], str[1..]);
      }
      if b {
        AcceptsHeadSplit(item, rest, str, 1);
      } else if AcceptsHead(ParseTail(regex).value, str) {
        var k := AcceptsHeadUnsplit(item, rest, str);
      }
    }
  }

  /** MatchRepetitionAndRegexAtHead: an atom under a repetition character, then the rest. */
  method MatchRepetitionAndRegexAtHead(escaped: bool, c: char, repeat: char, regex: string, str: string)
    returns (b: bool)
    requires CString(regex) && CString(str) && |str| < SIZE_MAX
    requires IsRepeat(repeat) && ParseTail(regex).Some?
    ensures var rest := ParseTail(regex).value;
            b <==> AcceptsHead(Tail([Item(escaped, c, QuantifierOf(repeat))] + rest.items, rest.dollar), str)
    decreases |regex|, 2
  {
    ghost var item := Item(escaped, c, QuantifierOf(repeat));
    ghost var rest := ParseTail(regex).value;
    var minCount := if repeat == '+' then 1 else 0;
    var maxCount := if repeat == '?' then 1 else SIZE_MAX - 1;
    var i := 0;
    while i <= maxCount
      invariant 0 <= i <= maxCount + 1 && i <= |str|
      invariant forall k :: 0 <= k < i ==> AtomMatchesChar(escaped, c, str[k])
      invariant forall k :: 0 <= k < i && CountAllowed(item.quantifier, k) ==> !AcceptsHead(rest, str[k..])
    {
      if i >= minCount {
        var headMatches := MatchRegexAtHead(regex, str[i..]);
        if headMatches {
          AcceptsHeadSplit(item, rest, str, i);
          return true;
        }
      }
      if At(str, i) == '\0' || !AtomMatchesChar(escaped, c, str[i]) {
        if AcceptsHead(Tail([item] + rest.items, rest.dollar), str) {
          var k := AcceptsHeadUnsplit(item, rest, str);
        }
        return false;
      }
      i := i + 1;
    }
    if AcceptsHead(Tail([item] + rest.items, rest.dollar), str) {
      var k := AcceptsHeadUnsplit(item, rest, str);
    }
    return false;
  }

  /** A substring match is a head match of some suffix. */
  lemma AcceptsViaHead(r: Regex, s: string)
    ensures Accepts(r, s) <==>
            exists i :: 0 <= i <= |s| && (r.caret ==> i == 0) && AcceptsHead(Tail(r.items, r.dollar), s[i..])
  {
    if Accepts(r, s) {
      var i, j :| 0 <= i <= j <= |s| && AcceptsAt(r, s, i, j);
      assert s[i..][..j - i] == s[i..j];
      assert AcceptsHead(Tail(r.items, r.dollar), s[i..]);
    }
    if i :| 0 <= i <= |s| && (r.caret ==> i == 0) && AcceptsHead(Tail(r.items, r.dollar), s[i..]) {
      var j :| 0 <= j <= |s[i..]| && InLanguage(r.items, s[i..][..j]) && (r.dollar ==> j == |s[i..]|);
      assert s[i..][..j] == s[i..i + j];
      assert AcceptsAt(r, s, i, i + j);
    }
  }

  /** MatchRegexAnywhere: whether a valid regex matches a substring of str. */
  method MatchRegexAnywhere(regex: Option<string>, str: Option<string>) returns (b: bool)
    requires regex.Some? ==> CString(regex.value) && Parse(regex.value).Some?
    requires str.Some? ==> CString(str.value) && |str.value| < SIZE_MAX
    ensures b <==> regex.Some? && str.Some? && Accepts(Parse(regex.value).value, str.value)
  {
    if regex.None? || str.None? {
      return false;
    }
    var s := str.value;
    ghost var r := Parse(regex.value).value;
    AcceptsViaHead(r, s);
    if At(regex.value, 0) == '^' {
      assert s[0..] == s;
      b := MatchRegexAtHead(regex.value[1..], s);
      return b;
    }
    var i := 0;
    while true
      invariant 0 <= i <= |s|
      invariant forall k :: 0 <= k < i ==> !AcceptsHead(Tail(r.items, r.dollar), s[k..])
      decreases |s| - i
    {
      b := MatchRegexAtHead(regex.value, s[i..]);
      if b {
        return true;
      }
      if At(s, i) == '\0' {
        break;
      }
      i := i + 1;
    }
    return false;
  }

  // ----- The full-match pattern -----

  /** What RE::Init turns a valid regex into. */
  function FullPatternOf(regex: string): string {
    (if At(regex, 0) == '^' then "" else "^") + regex +
    (if regex == "" || regex[|regex| - 1] != '$' then "$" else "")
  }

  predicate EndsInEscapedDollar(r: Regex) {
    !r.dollar && r.items != [] && r.items[|r.items| - 1] == Item(true, '$', One)
  }

  predicate EndsInDollar(text: string) {
    text != "" && text[|text| - 1] == '$'
  }

  lemma ItemTextLast(item: Item)
    requires ValidItem(item)
    ensures EndsInDollar(ItemText(item)) <==> item == Item(true, '$', One)
  {
    assert QuantifierText(item.quantifier) == "" <==> item.quantifier == One;
  }

  lemma {:induction false} TailTextLast(items: seq<Item>, dollar: bool)
    requires forall i :: 0 <= i < |items| ==> ValidItem(items[i])
    ensures EndsInDollar(TailText(items, dollar)) <==> dollar || EndsInEscapedDollar(Regex(false, items, dollar))
  {
    if items != [] {
      var rest := TailText(items[1..], dollar);
      TailTextLast(items[1..], dollar);
      if items[1..] == [] {
        ItemTextLast(items[0]);
      } else {
        assert items[1..][|items[1..]| - 1] == items[|items| - 1];
        assert |rest| >= |ItemText(items[1])| > 0;
      }
    }
  }

  lemma {:induction false} TailTextDollar(items: seq<Item>)
    ensures TailText(items, true) == TailText(items, false) + "$"
  {
    if items != [] {
      TailTextDollar(items[1..]);
    }
  }

  lemma RegexTextEnds(r: Regex)
    requires ValidRegex(r)
    ensures At(RegexText(r), 0) == '^' <==> r.caret
    ensures EndsInDollar(RegexText(r)) <==> r.dollar || EndsInEscapedDollar(r)
  {
    TailDoesNotStartWithRepeat(r.items, r.dollar);
    TailTextLast(r.items, r.dollar);
    var text, body := RegexText(r), TailText(r.items, r.dollar);
    if body == "" {
    } else {
      assert text[|text| - 1] == body[|body| - 1];
    }
  }

  function Anchored(r: Regex): Regex {
    Regex(true, r.items, !EndsInEscapedDollar(r))
  }

  lemma AnchoredText(r: Regex)
    requires ValidRegex(r)
    ensures RegexText(Anchored(r)) == FullPatternOf(RegexText(r))
  {
    var text, bare := RegexText(r), TailText(r.items, false);
    RegexTextEnds(r);
    assert TailText(r.items, r.dollar) == bare + (if r.dollar then "$" else "") by {
      TailTextDollar(r.items);
    }
    assert TailText(r.items, true) == bare + "$" by { TailTextDollar(r.items); }
    AnchorEnds(text, bare, r.caret, r.dollar, EndsInEscapedDollar(r));
  }

  lemma AnchorEnds(text: string, bare: string, caret: bool, dollar: bool, escapedDollar: bool)
    requires text == (if caret then "^" else "") + (bare + (if dollar then "$" else ""))
    requires At(text, 0) == '^' <==> caret
    requires text != "" && text[|text| - 1] == '$' <==> dollar || escapedDollar
    requires !(dollar && escapedDollar)
    ensures FullPatternOf(text) == "^" + (if escapedDollar then bare else bare + "$")
  {
  }

  /** The full pattern is anchored at the start, and at the end unless the regex ends in the
      escape `\$`, whose last character is mistaken for the anchor. */
  lemma FullPatternParse(regex: string)
    requires Parse(regex).Some?
    ensures Parse(FullPatternOf(regex)) == Some(Anchored(Parse(regex).value))
  {
    var r := Parse(regex).value;
    ParseCharacterises(regex, r);
    AnchoredText(r);
    ParseCharacterises(FullPatternOf(regex), Anchored(r));
  }

  /** memcpy into a buffer with room for the text. */
  method CopyAt(buffer: array<char>, start: nat, text: string)
    requires start + |text| <= buffer.Length
    modifies buffer
    ensures buffer[..start] == old(buffer[..start]) && buffer[start..start + |text|] == text
  {
    for k := 0 to |text|
      invariant buffer[..start] == old(buffer[..start])
      invariant buffer[start..start + k] == text[..k]
    {
      buffer[start + k] := text[k];
    }
  }

  /** The part of RE::Init that fills the buffer of the full pattern. */
  method FillFullPattern(regex: string) returns (buffer: array<char>, full: string)
    requires CString(regex)
    ensures full == FullPatternOf(regex) && CString(full)
    ensures |full| < buffer.Length && buffer[..|full|] == full && buffer[|full|] == '\0'
  {
    var len := |regex|;
    buffer := new char[len + 3];
    var end := 0;
    if At(regex, 0) != '^' {
      buffer[end] := '^';
      end := end + 1;
    }
    ghost var prefix := buffer[..end];
    CopyAt(buffer, end, regex);
    end := end + len;
    assert buffer[..end] == prefix + regex;
    if len == 0 || regex[len - 1] != '$' {
      buffer[end] := '$';
      end := end + 1;
      assert buffer[..end] == prefix + regex + "$";
    }
    ghost var filled := buffer[..end];
    buffer[end] := '\0';
    assert buffer[..end] == filled;
    full := buffer[..end];
  }

  /** The regular expression object: RE::Init with FullMatch and PartialMatch. */
  class RE {
    var pattern: Option<string>
    var fullPattern: Option<string>
    var isValid: bool

    ghost predicate Valid()
      reads this
    {
      && (pattern.Some? ==> CString(pattern.value))
      && (isValid <==> pattern.Some? && Parse(pattern.value).Some?)
      && (isValid ==> fullPattern == Some(FullPatternOf(pattern.value)))
    }

    constructor Init(regex: Option<string>)
      requires regex.Some? ==> CString(regex.value) && |regex.value| < SIZE_MAX
      ensures Valid() && pattern == regex && fresh(this)
    {
      pattern := regex;
      fullPattern := None;
      isValid := false;
      new;
      isValid := ValidateRegex(regex);
      if !isValid {
        return;
      }
      var _, full := FillFullPattern(regex.value);
      fullPattern := Some(full);
    }

    /** On a regex ending in the escape `\$` a full match only looks for a prefix. */
    static method FullMatch(str: Option<string>, re: RE) returns (b: bool)
      requires re.Valid()
      requires str.Some? ==> CString(str.value) && |str.value| < SIZE_MAX
      ensures b <==> re.isValid && str.Some? && FullyAccepts(Parse(re.pattern.value).value, str.value)
    {
      if !re.isValid {
        return false;
      }
      FullPatternParse(re.pattern.value);
      assert CString(re.fullPattern.value);
      b := MatchRegexAnywhere(re.fullPattern, str);
      if str.Some? {
        FullPatternAccepts(Parse(re.pattern.value).value, str.value);
      }
    }

    static method PartialMatch(str: Option<string>, re: RE) returns (b: bool)
      requires re.Valid()
      requires str.Some? ==> CString(str.value) && |str.value| < SIZE_MAX
      ensures b <==> re.isValid && str.Some? && Accepts(Parse(re.pattern.value).value, str.value)
    {
      if !re.isValid {
        return false;
      }
      b := MatchRegexAnywhere(re.pattern, str);
    }
  }

  // ----- When a full match is a match of the whole string -----

  ghost predicate FullyAccepts(r: Regex, s: string) {
    if EndsInEscapedDollar(r) then exists j :: 0 <= j <= |s| && InLanguage(r.items, s[..j])
    else InLanguage(r.items, s)
  }

  lemma FullPatternAccepts(r: Regex, s: string)
    ensures Accepts(Anchored(r), s) <==> FullyAccepts(r, s)
  {
    var full := Anchored(r);
    assert s[0..|s|] == s;
    if Accepts(full, s) {
      var i, j :| 0 <= i <= j <= |s| && AcceptsAt(full, s, i, j);
      assert s[i..j] == s[..j];
    }
    if EndsInEscapedDollar(r) {
      if j :| 0 <= j <= |s| && InLanguage(r.items, s[..j]) {
        assert s[0..j] == s[..j];
        assert AcceptsAt(full, s, 0, j);
      }
    } else if InLanguage(r.items, s) {
      assert AcceptsAt(full, s, 0, |s|);
    }
  }

  /** A character, other than NUL, that a valid atom matches. */
  function Sample(item: Item): char {
    if item.escaped then EscapeSample(item.c) else item.c
  }

  lemma SampleMatches(item: Item)
    requires ValidItem(item)
    ensures AtomMatchesChar(item.escaped, item.c, Sample(item)) && Sample(item) != '\0'
  {
    hide IsValidEscape, EscapeSample;
    if item.escaped {
      EscapeSampleMatches(item.c);
    }
  }

  lemma SampleFits(item: Item)
    requires ValidItem(item)
    ensures InItem(item, [Sample(item)]) && Sample(item) != '\0'
  {
    hide AtomMatchesChar, Sample, ValidItem;
    SampleMatches(item);
  }

  lemma InLanguageOfFirst(items: seq<Item>, first: string, rest: string)
    requires items != [] && InItem(items[0], first) && InLanguage(items[1..], rest)
    ensures InLanguage(items, first + rest)
  {
    var s, k := first + rest, |first|;
    assert s[..k] == first && s[k..] == rest;
    assert InItem(items[0], s[..k]) && InLanguage(items[1..], s[k..]);
  }

  lemma {:induction false} LanguageInhabited(items: seq<Item>) returns (s: string)
    requires forall i :: 0 <= i < |items| ==> ValidItem(items[i])
    ensures InLanguage(items, s) && CString(s) && |s| == |items|
  {
    if items == [] {
      s := "";
    } else {
      var rest := LanguageInhabited(items[1..]);
      SampleFits(items[0]);
      InLanguageOfFirst(items, [Sample(items[0])], rest);
      s := [Sample(items[0])] + rest;
    }
  }

  lemma {:induction false} LanguageEnd(items: seq<Item>, s: string)
    requires items != [] && items[|items| - 1] == Item(true, '$', One) && InLanguage(items, s)
    ensures s != "" && s[|s| - 1] == '$'
  {
    var k :| 0 <= k <= |s| && InItem(items[0], s[..k]) && InLanguage(items[1..], s[k..]);
    if |items| == 1 {
      assert s[k..] == "";
      assert s[..k] == s;
    } else {
      LanguageEnd(items[1..], s[k..]);
    }
  }

  lemma LongerIsAccepted(r: Regex, s: string)
    requires EndsInEscapedDollar(r) && InLanguage(r.items, s)
    ensures FullyAccepts(r, s + "x") && !InLanguage(r.items, s + "x")
  {
    var longer := s + "x";
    assert longer[..|s|] == s;
    if InLanguage(r.items, longer) {
      LanguageEnd(r.items, longer);
    }
  }

  /** FullMatch means "the whole string is in the language", for every string, exactly when the
      regex does not end in the escape `\$`. */
  lemma FullMatchIsWholeMatch(r: Regex)
    requires ValidRegex(r)
    ensures !EndsInEscapedDollar(r) <==> forall s | CString(s) :: FullyAccepts(r, s) <==> InLanguage(r.items, s)
  {
    if EndsInEscapedDollar(r) {
      var s := LanguageInhabited(r.items);
      LongerIsAccepted(r, s);
      assert CString(s + "x");
    }
  }
}
