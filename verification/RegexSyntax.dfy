/** The simple regular expressions of Google Test: concrete and abstract syntax, parser, validator.

    A C string is a `string` without NUL; `At` reads the terminator one past the end. */
module RegexSyntax {
  import opened Wrappers

  // ----- Characters -----

  function At(s: string, i: nat): char {
    if i < |s| then s[i] else '\0'
  }

  ghost predicate CString(s: string) {
    '\0' !in s
  }

  const FORM_FEED: char := '\U{000C}'
  const VERTICAL_TAB: char := '\U{000B}'

  predicate IsAsciiDigit(ch: char) {
    '0' <= ch <= '9'
  }

  predicate IsAsciiPunct(ch: char) {
    ch in "^-!\"#$%&'()*+,./:;<=>?@[\\]_`{|}~"
  }

  predicate IsRepeat(ch: char) {
    ch in "?*+"
  }

  predicate IsAsciiWhiteSpace(ch: char) {
    ch in [' ', FORM_FEED, '\n', '\r', '\t', VERTICAL_TAB]
  }

  predicate IsAsciiWordChar(ch: char) {
    'a' <= ch <= 'z' || 'A' <= ch <= 'Z' || '0' <= ch <= '9' || ch == '_'
  }

  predicate IsValidEscape(c: char) {
    IsAsciiPunct(c) || c in "dDfnrsStvwW"
  }

  predicate AtomMatchesChar(escaped: bool, patternChar: char, ch: char) {
    if escaped then
      match patternChar
      case 'd' => IsAsciiDigit(ch)
      case 'D' => !IsAsciiDigit(ch)
      case 'f' => ch == FORM_FEED
      case 'n' => ch == '\n'
      case 'r' => ch == '\r'
      case 's' => IsAsciiWhiteSpace(ch)
      case 'S' => !IsAsciiWhiteSpace(ch)
      case 't' => ch == '\t'
      case 'v' => ch == VERTICAL_TAB
      case 'w' => IsAsciiWordChar(ch)
      case 'W' => !IsAsciiWordChar(ch)
      case _ => IsAsciiPunct(patternChar) && patternChar == ch
    else
      (patternChar == '.' && ch != '\n') || patternChar == ch
  }

  lemma PunctuationIsGraphic(ch: char)
    ensures IsAsciiPunct(ch) <==> '!' <= ch <= '~' && (ch == '_' || !IsAsciiWordChar(ch))
    ensures IsAsciiPunct(ch) <==>
            || 0x21 <= ch as int <= 0x2F || 0x3A <= ch as int <= 0x40
            || 0x5B <= ch as int <= 0x60 || 0x7B <= ch as int <= 0x7E
  {
  }

  /** What the character classes hold, character by character. */
  lemma ClassMembers(ch: char)
    ensures AtomMatchesChar(true, 'd', ch) <==> ch in "0123456789"
    ensures AtomMatchesChar(true, 's', ch) <==> ch == ' ' || 9 <= ch as int <= 13
    ensures AtomMatchesChar(true, 'w', ch) <==>
            || 0x30 <= ch as int <= 0x39 || 0x41 <= ch as int <= 0x5A
            || 0x61 <= ch as int <= 0x7A || ch as int == 0x5F
  {
  }

  /** Each capital letter stands for the complement. */
  lemma ClassComplements(ch: char)
    ensures AtomMatchesChar(true, 'D', ch) <==> !AtomMatchesChar(true, 'd', ch)
    ensures AtomMatchesChar(true, 'S', ch) <==> !AtomMatchesChar(true, 's', ch)
    ensures AtomMatchesChar(true, 'W', ch) <==> !AtomMatchesChar(true, 'w', ch)
  {
  }

  /** The escapes for one character, and the dot, which matches all characters but the newline. */
  lemma ControlEscapes(ch: char)
    ensures AtomMatchesChar(true, 't', ch) <==> ch as int == 9
    ensures AtomMatchesChar(true, 'n', ch) <==> ch as int == 10
    ensures AtomMatchesChar(true, 'v', ch) <==> ch as int == 11
    ensures AtomMatchesChar(true, 'f', ch) <==> ch as int == 12
    ensures AtomMatchesChar(true, 'r', ch) <==> ch as int == 13
    ensures AtomMatchesChar(false, '.', ch) <==> ch as int != 10
  {
  }

  /** An escape is supported exactly when there is something that it matches. */
  lemma EscapeMatchesSomething(c: char)
    ensures IsValidEscape(c) <==> exists ch :: AtomMatchesChar(true, c, ch)
  {
    hide IsAsciiPunct, IsAsciiDigit, IsAsciiWhiteSpace, IsAsciiWordChar;
    if IsValidEscape(c) {
      EscapeSampleMatches(c);
    }
  }

  /** A character, other than NUL, that a supported escape matches. */
  function EscapeSample(c: char): char {
    match c
    case 'd' => '0'
    case 'D' => 'a'
    case 'f' => FORM_FEED
    case 'n' => '\n'
    case 'r' => '\r'
    case 's' => ' '
    case 'S' => 'a'
    case 't' => '\t'
    case 'v' => VERTICAL_TAB
    case 'w' => 'a'
    case 'W' => ' '
    case _ => c
  }

  lemma EscapeSampleMatches(c: char)
    requires IsValidEscape(c)
    ensures AtomMatchesChar(true, c, EscapeSample(c)) && EscapeSample(c) != '\0'
  {
  }

  /** An escaped punctuation mark and any plain character but the dot match only themselves. */
  lemma AtomIsLiteral(escaped: bool, patternChar: char, ch: char)
    requires if escaped then IsAsciiPunct(patternChar) else patternChar != '.'
    ensures AtomMatchesChar(escaped, patternChar, ch) <==> ch == patternChar
  {
    PunctuationIsGraphic(patternChar);
  }

  // ----- Abstract syntax and its text -----

  datatype Quantifier = One | ZeroOrOne | ZeroOrMore | OneOrMore

  datatype Item = Item(escaped: bool, c: char, quantifier: Quantifier)

  datatype Regex = Regex(caret: bool, items: seq<Item>, dollar: bool)

  predicate ValidItem(item: Item) {
    if item.escaped then IsValidEscape(item.c) else item.c != '\0' && item.c !in "\\^$()[]{}|?*+"
  }

  ghost predicate ValidRegex(r: Regex) {
    forall i :: 0 <= i < |r.items| ==> ValidItem(r.items[i])
  }

  function QuantifierText(q: Quantifier): string {
    match q
    case One => ""
    case ZeroOrOne => "?"
    case ZeroOrMore => "*"
    case OneOrMore => "+"
  }

  function ItemText(item: Item): string {
    (if item.escaped then "\\" else "") + [item.c] + QuantifierText(item.quantifier)
  }

  function TailText(items: seq<Item>, dollar: bool): string {
    if items == [] then if dollar then "$" else ""
    else ItemText(items[0]) + TailText(items[1..], dollar)
  }

  function RegexText(r: Regex): string {
    (if r.caret then "^" else "") + TailText(r.items, r.dollar)
  }

  // ----- Parsing: the inverse of RegexText -----

  datatype Tail = Tail(items: seq<Item>, dollar: bool)

  function QuantifierOf(ch: char): Quantifier {
    match ch
    case '?' => ZeroOrOne
    case '*' => ZeroOrMore
    case '+' => OneOrMore
    case _ => One
  }

  /** The first item of a nonempty tail that is not just the end anchor. */
  function FirstItem(text: string): Item {
    var escaped := At(text, 0) == '\\';
    var skip := if escaped then 1 else 0;
    Item(escaped, At(text, skip), QuantifierOf(At(text, skip + 1)))
  }

  function ParseTail(text: string): (t: Option<Tail>)
    decreases |text|
  {
    if text == "" then Some(Tail([], false))
    else if text == "$" then Some(Tail([], true))
    else
      var item := FirstItem(text);
      var n := |ItemText(item)|;
      if ValidItem(item) && n <= |text| then
        match ParseTail(text[n..])
        case Some(rest) => Some(Tail([item] + rest.items, rest.dollar))
        case None => None
      else None
  }

  function Parse(text: string): Option<Regex> {
    var caret := At(text, 0) == '^';
    match ParseTail(if caret && text != "" then text[1..] else text)
    case Some(t) => Some(Regex(caret, t.items, t.dollar))
    case None => None
  }

  lemma ItemTextRead(item: Item, rest: string)
    requires ValidItem(item)
    requires item.quantifier == One ==> !IsRepeat(At(rest, 0))
    ensures FirstItem(ItemText(item) + rest) == item
    ensures ItemText(item) + rest != "$"
  {
    var text := ItemText(item) + rest;
    var skip := if item.escaped then 1 else 0;
    assert text[skip] == item.c;
    assert At(text, skip + 1) == if item.quantifier == One then At(rest, 0) else QuantifierText(item.quantifier)[0];
  }

  lemma TailDoesNotStartWithRepeat(items: seq<Item>, dollar: bool)
    requires items != [] ==> ValidItem(items[0])
    ensures !IsRepeat(At(TailText(items, dollar), 0))
    ensures At(TailText(items, dollar), 0) != '^'
  {
    if items != [] {
      assert At(TailText(items, dollar), 0) == ItemText(items[0])[0];
    }
  }

  lemma {:induction false} ParseTailComplete(items: seq<Item>, dollar: bool)
    requires forall i :: 0 <= i < |items| ==> ValidItem(items[i])
    ensures ParseTail(TailText(items, dollar)) == Some(Tail(items, dollar))
  {
    if items != [] {
      var rest := TailText(items[1..], dollar);
      TailDoesNotStartWithRepeat(items[1..], dollar);
      ItemTextRead(items[0], rest);
      ParseTailComplete(items[1..], dollar);
      var text := ItemText(items[0]) + rest;
      assert text[|ItemText(items[0])|..] == rest;
      assert [items[0]] + items[1..] == items;
    }
  }

  lemma QuantifierRead(ch: char)
    ensures QuantifierText(QuantifierOf(ch)) == "" || QuantifierText(QuantifierOf(ch)) == [ch]
  {
  }

  lemma FirstItemText(text: string)
    requires text != "" && |ItemText(FirstItem(text))| <= |text| && ValidItem(FirstItem(text))
    ensures text == ItemText(FirstItem(text)) + text[|ItemText(FirstItem(text))|..]
  {
    hide QuantifierText, QuantifierOf, ValidItem;
    var skip := if At(text, 0) == '\\' then 1 else 0;
    QuantifierRead(At(text, skip + 1));
    var n := |ItemText(FirstItem(text))|;
    assert ItemText(FirstItem(text)) == text[..n];
  }

  lemma {:induction false} ParseTailSound(text: string)
    requires ParseTail(text).Some?
    ensures var t := ParseTail(text).value;
            TailText(t.items, t.dollar) == text
            && forall i :: 0 <= i < |t.items| ==> ValidItem(t.items[i])
    decreases |text|
  {
    if text == "" || text == "$" {
    } else {
      FirstItemText(text);
      ParseTailSound(text[|ItemText(FirstItem(text))|..]);
    }
  }

  /** The grammar is unambiguous and Parse decides it: a text parses exactly when it is the text
      of a valid regex, and then it is the text of no other. */
  lemma ParseCharacterises(text: string, r: Regex)
    ensures Parse(text) == Some(r) <==> ValidRegex(r) && RegexText(r) == text
  {
    var body := if At(text, 0) == '^' && text != "" then text[1..] else text;
    if Parse(text) == Some(r) {
      ParseTailSound(body);
      assert text == (if r.caret then "^" else "") + body;
    }
    if ValidRegex(r) && RegexText(r) == text {
      ParseTailComplete(r.items, r.dollar);
      TailDoesNotStartWithRepeat(r.items, r.dollar);
      assert body == TailText(r.items, r.dollar);
    }
  }

  // ----- The validator -----

  /** What one pass over the characters accepts: `first` at index 0, `repeatable` when ?, * or +
      may follow the previous token. */
  ghost predicate ScanAccepts(text: string, first: bool, repeatable: bool)
    decreases |text|
  {
    if text == "" then true
    else if text[0] == '\\' then |text| >= 2 && IsValidEscape(text[1]) && ScanAccepts(text[2..], false, true)
    else
      && (text[0] == '^' ==> first)
      && (text[0] == '$' ==> |text| == 1)
      && text[0] !in "()[]{}|"
      && (IsRepeat(text[0]) ==> repeatable)
      && ScanAccepts(text[1..], false, text[0] !in "^$?*+")
  }

  lemma {:induction false} ScanIsParse(text: string, repeatable: bool)
    requires CString(text)
    ensures ScanAccepts(text, false, repeatable) <==>
            if repeatable && text != "" && IsRepeat(text[0]) then ParseTail(text[1..]).Some?
            else ParseTail(text).Some?
    decreases |text|
  {
    if text == "" {
    } else if text[0] == '\\' {
      if |text| >= 2 {
        ScanIsParse(text[2..], true);
        ScanSplitsItem(text, 2);
      }
    } else {
      ScanIsParse(text[1..], text[0] !in "^$?*+");
      if text == "$" {
      } else {
        ScanSplitsItem(text, 1);
      }
    }
  }

  /** ParseTail of a text whose first atom ends at n, in terms of the text after that atom. */
  lemma ScanSplitsItem(text: string, n: nat)
    requires CString(text) && text != "" && text != "$"
    requires n == (if text[0] == '\\' then 2 else 1) <= |text|
    ensures ParseTail(text).Some? <==>
            && ValidItem(FirstItem(text))
            && ParseTail(if IsRepeat(At(text, n)) then text[n..][1..] else text[n..]).Some?
  {
    if IsRepeat(At(text, n)) {
      assert text[n..][1..] == text[n + 1..];
    }
  }

  lemma ScanEscape(text: string, i: nat, repeatable: bool)
    requires i < |text| && text[i] == '\\'
    ensures ScanAccepts(text[i..], i == 0, repeatable) <==>
            i + 1 < |text| && IsValidEscape(text[i + 1]) && ScanAccepts(text[i + 2..], false, true)
  {
    assert i + 1 < |text| ==> text[i..][2..] == text[i + 2..];
  }

  /** What the validator checks of a character that starts no escape. */
  predicate CharacterFits(text: string, i: nat, repeatable: bool)
    requires i < |text|
  {
    && (text[i] == '^' ==> i == 0) && (text[i] == '$' ==> i + 1 == |text|) && text[i] !in "()[]{}|"
    && (IsRepeat(text[i]) ==> repeatable)
  }

  lemma ScanStep(text: string, i: nat, repeatable: bool)
    requires i < |text| && text[i] != '\\'
    ensures ScanAccepts(text[i..], i == 0, repeatable) <==>
            CharacterFits(text, i, repeatable) && ScanAccepts(text[i + 1..], false, text[i] !in "^$?*+")
  {
    assert text[i..][1..] == text[i + 1..];
  }

  /** ValidateRegex: every syntax error is reported and scanning goes on, except for a trailing
      backslash, which ends the scan. */
  method ValidateRegex(regex: Option<string>) returns (isValid: bool)
    requires regex.Some? ==> CString(regex.value)
    ensures isValid <==> regex.Some? && exists r :: ValidRegex(r) && RegexText(r) == regex.value
    ensures isValid <==> regex.Some? && Parse(regex.value).Some?
  {
    if regex.None? {
      return false;
    }
    var text := regex.value;
    isValid := true;
    var prevRepeatable := false;
    var i := 0;
    assert text[0..] == text;
    ghost var accepted := ScanAccepts(text, true, false);
    while i < |text|
      invariant 0 <= i <= |text|
      invariant accepted <==> isValid && ScanAccepts(text[i..], i == 0, prevRepeatable)
    {
      if text[i] == '\\' {
        ScanEscape(text, i, prevRepeatable);
        i := i + 1;
        if i == |text| {
          ValidTextIsParse(text);
          return false;
        }
        if !IsValidEscape(text[i]) {
          isValid := false;
        }
        prevRepeatable := true;
      } else {
        ScanStep(text, i, prevRepeatable);
        ghost var fits := isValid && CharacterFits(text, i, prevRepeatable);
        var ch := text[i];
        if ch == '^' && i > 0 {
          isValid := false;
        } else if ch == '$' && At(text, i + 1) != '\0' {
          isValid := false;
        } else if ch in "()[]{}|" {
          isValid := false;
        } else if IsRepeat(ch) && !prevRepeatable {
          isValid := false;
        }
        assert isValid <==> fits;
        prevRepeatable := ch !in "^$?*+";
      }
      i := i + 1;
    }
    ValidTextIsParse(text);
  }

  lemma ValidTextIsParse(text: string)
    requires CString(text)
    ensures ScanAccepts(text, true, false) <==> Parse(text).Some?
    ensures Parse(text).Some? <==> exists r :: ValidRegex(r) && RegexText(r) == text
  {
    if text != "" && text[0] == '^' {
      ScanIsParse(text[1..], false);
    } else {
      ScanIsParse(text, false);
      if text != "" && text[0] != '\\' {
        assert ScanAccepts(text, true, false) == ScanAccepts(text, false, false);
      }
    }
    if Parse(text).Some? {
      ParseCharacterises(text, Parse(text).value);
    }
    forall r | ValidRegex(r) && RegexText(r) == text ensures Parse(text) == Some(r) {
      ParseCharacterises(text, r);
    }
  }

  /** Which single characters are regexes: all but brackets, the bar, quantifiers and the backslash. */
  lemma SingleCharacters(c: char)
    requires c != '\0'
    ensures Parse([c]).Some? <==>
            c !in ['(', ')', '[', ']', '{', '}', '|', '?', '*', '+', '\\']
  {
    if c == '^' {
      assert [c][1..] == "";
    } else if c != '$' {
      var item := FirstItem([c]);
      assert c != '\\' ==> |ItemText(item)| == 1 && [c][1..] == "";
      assert c != '\\' && ValidItem(item) ==> ParseTail([c]) == Some(Tail([item] + [], false));
    }
  }

  /** What a quantifier after a plain character stands for. */
  lemma QuantifierSymbols(c: char)
    requires ValidItem(Item(false, c, One))
    ensures Parse([c]) == Some(Regex(false, [Item(false, c, One)], false))
    ensures Parse([c, '?']) == Some(Regex(false, [Item(false, c, ZeroOrOne)], false))
    ensures Parse([c, '*']) == Some(Regex(false, [Item(false, c, ZeroOrMore)], false))
    ensures Parse([c, '+']) == Some(Regex(false, [Item(false, c, OneOrMore)], false))
  {
    OneItem(Item(false, c, One));
    OneItem(Item(false, c, ZeroOrOne));
    OneItem(Item(false, c, ZeroOrMore));
    OneItem(Item(false, c, OneOrMore));
    var bare := "" + [c];
    assert bare + "" == [c] && bare + "?" == [c, '?'] && bare + "*" == [c, '*'] && bare + "+" == [c, '+'];
  }

  lemma OneItem(item: Item)
    requires ValidItem(item)
    ensures Parse(ItemText(item)) == Some(Regex(false, [item], false))
  {
    var r := Regex(false, [item], false);
    assert TailText([item][1..], false) == "" && RegexText(r) == ItemText(item);
    ParseCharacterises(ItemText(item), r);
  }
}
