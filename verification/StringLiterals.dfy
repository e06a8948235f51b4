/** How Google Test prints characters as C string literals, and how C++ reads such text back. */
module StringLiterals {
  import opened Wrappers
  import opened Numerals
  import opened Sequences

  /** A character code: of an unsigned char, or of a wide character taken as unsigned. */
  type Code = nat

  datatype CharFormat = AsIs | HexEscape | SpecialEscape

  // ----- Printing -----

  predicate IsPrintableAscii(c: Code) {
    0x20 <= c <= 0x7E
  }

  function SimpleEscape(c: Code): Option<char> {
    if c == 0 then Some('0')
    else if c == 39 then Some('\'')
    else if c == 92 then Some('\\')
    else if c == 7 then Some('a')
    else if c == 8 then Some('b')
    else if c == 12 then Some('f')
    else if c == 10 then Some('n')
    else if c == 13 then Some('r')
    else if c == 9 then Some('t')
    else if c == 11 then Some('v')
    else None
  }

  /** PrintAsCharLiteralTo: the text written and the format returned. */
  function CharLiteral(c: Code): (string, CharFormat) {
    match SimpleEscape(c)
    case Some(e) => (['\\', e], SpecialEscape)
    case None =>
      if IsPrintableAscii(c) then ([c as char], AsIs)
      else (['\\', 'x'] + Numeral(c, 16), HexEscape)
  }

  /** PrintAsWideStringLiteralTo. */
  function StringChar(c: Code): (string, CharFormat) {
    if c == 39 then ("'", AsIs)
    else if c == 34 then ("\\\"", SpecialEscape)
    else CharLiteral(c)
  }

  predicate IsXDigit(c: Code) {
    48 <= c <= 57 || 65 <= c <= 70 || 97 <= c <= 102
  }

  /** What stands between the quotes, after a character printed in hexadecimal or not. */
  function Body(prefix: string, codes: seq<Code>, isPreviousHex: bool): string {
    if codes == [] then ""
    else
      var c := codes[0];
      (if isPreviousHex && IsXDigit(c) then "\" " + prefix + "\"" else "") +
      StringChar(c).0 + Body(prefix, codes[1..], StringChar(c).1 == HexEscape)
  }

  lemma BodyStep(os: string, prefix: string, codes: seq<Code>, index: nat, isPreviousHex: bool)
    requires index < |codes|
    ensures var c := codes[index];
            var broken := if isPreviousHex && IsXDigit(c) then os + ("\" " + prefix + "\"") else os;
            os + Body(prefix, codes[index..], isPreviousHex) ==
            broken + StringChar(c).0 + Body(prefix, codes[index + 1..], StringChar(c).1 == HexEscape)
  {
    var c := codes[index];
    var separator := if isPreviousHex && IsXDigit(c) then "\" " + prefix + "\"" else "";
    var tail := Body(prefix, codes[index + 1..], StringChar(c).1 == HexEscape);
    assert codes[index..][1..] == codes[index + 1..];
    assert Body(prefix, codes[index..], isPreviousHex) == separator + StringChar(c).0 + tail;
    Associates(os, separator + StringChar(c).0, tail);
    Associates(os, separator, StringChar(c).0);
    assert os + "" == os;
  }

  /** PrintCharsAsStringTo with an empty prefix, PrintWideCharsAsStringTo with the prefix L. */
  method PrintCharsAsStringTo(prefix: string, begin: seq<Code>) returns (os: string)
    requires prefix == "" || prefix == "L"
    ensures os == prefix + "\"" + Body(prefix, begin, false) + "\""
    ensures forall limit: nat :: limit >= 256 && AllBelow(begin, limit) ==>
              (ReadLiterals(prefix, limit, os) == Some(begin) <==> !HasNulBeforeOctal(begin))
  {
    os := prefix + "\"";
    var isPreviousHex := false;
    for index := 0 to |begin|
      invariant os + Body(prefix, begin[index..], isPreviousHex) == prefix + "\"" + Body(prefix, begin, false)
    {
      var cur := begin[index];
      BodyStep(os, prefix, begin, index, isPreviousHex);
      if isPreviousHex && IsXDigit(cur) {
        os := os + ("\" " + prefix + "\"");
      }
      var (text, format) := StringChar(cur);
      os := os + text;
      isPreviousHex := format == HexEscape;
    }
    assert os + "" == os;
    os := os + "\"";
    forall limit: nat | limit >= 256 && AllBelow(begin, limit)
      ensures ReadLiterals(prefix, limit, os) == Some(begin) <==> !HasNulBeforeOctal(begin)
    {
      PrintedReadsBack(prefix, limit, begin);
    }
  }

  // ----- Reading: sections 2.14.3 and 2.14.5 of ISO C++11, without trigraphs -----

  predicate IsOctal(ch: char) {
    '0' <= ch <= '7'
  }

  function OctalDigit(ch: char): nat
    requires IsOctal(ch)
  {
    ch as int - '0' as int
  }

  /** An octal escape takes up to three digits. */
  function OctalLength(s: string): nat {
    if s == "" || !IsOctal(s[0]) then 0
    else if |s| == 1 || !IsOctal(s[1]) then 1
    else if |s| == 2 || !IsOctal(s[2]) then 2
    else 3
  }

  function SimpleEscapeValue(ch: char): Option<Code> {
    match ch
    case '\'' => Some(39)
    case '"' => Some(34)
    case '?' => Some(63)
    case '\\' => Some(92)
    case 'a' => Some(7)
    case 'b' => Some(8)
    case 'f' => Some(12)
    case 'n' => Some(10)
    case 'r' => Some(13)
    case 't' => Some(9)
    case 'v' => Some(11)
    case _ => None
  }

  /** The value of the escape sequence after a backslash and its length. A hexadecimal escape takes
      all the digits there are; its value must fit a character. */
  function ReadEscape(limit: nat, s: string): (r: Option<(Code, nat)>)
    ensures r.Some? ==> 1 <= r.value.1 <= |s|
  {
    if s == "" then None
    else if IsOctal(s[0]) then
      match OctalLength(s)
      case 1 => Some((OctalDigit(s[0]), 1))
      case 2 => Some((8 * OctalDigit(s[0]) + OctalDigit(s[1]), 2))
      case _ => Some((64 * OctalDigit(s[0]) + 8 * OctalDigit(s[1]) + OctalDigit(s[2]), 3))
    else if s[0] == 'x' then
      var n := DigitsAtHead(s[1..], 16);
      var value := Value(s[1..][..n], 16);
      if n == 0 || value >= limit then None else Some((value, n + 1))
    else
      match SimpleEscapeValue(s[0])
      case Some(v) => Some((v, 1))
      case None => None
  }

  function Prepend(c: Code, r: Option<seq<Code>>): Option<seq<Code>> {
    match r
    case Some(codes) => Some([c] + codes)
    case None => None
  }

  /** The rest of a literal, and the literals adjacent to it. */
  function ReadInside(prefix: string, limit: nat, s: string): Option<seq<Code>>
    decreases |s|
  {
    if s == "" || s[0] == '\n' then None
    else if s[0] == '"' then ReadBetween(prefix, limit, s[1..])
    else if s[0] == '\\' then
      match ReadEscape(limit, s[1..])
      case Some((value, n)) => Prepend(value, ReadInside(prefix, limit, s[1 + n..]))
      case None => None
    else Prepend(s[0] as int, ReadInside(prefix, limit, s[1..]))
  }

  function ReadBetween(prefix: string, limit: nat, s: string): Option<seq<Code>>
    decreases |s|
  {
    if s == "" then Some([])
    else if s[0] == ' ' then ReadBetween(prefix, limit, s[1..])
    else if prefix + "\"" <= s then ReadInside(prefix, limit, s[|prefix| + 1..])
    else None
  }

  function ReadLiterals(prefix: string, limit: nat, s: string): Option<seq<Code>> {
    if prefix + "\"" <= s then ReadInside(prefix, limit, s[|prefix| + 1..]) else None
  }

  // ----- What is read back -----

  predicate IsOctalCode(c: Code) {
    48 <= c <= 55
  }

  /** The codes as read back: a NUL swallows up to two octal digits that follow it. */
  function Merged(codes: seq<Code>): seq<Code> {
    if codes == [] then []
    else if codes[0] != 0 || |codes| == 1 || !IsOctalCode(codes[1]) then [codes[0]] + Merged(codes[1..])
    else if |codes| == 2 || !IsOctalCode(codes[2]) then [codes[1] - 48] + Merged(codes[2..])
    else [8 * (codes[1] - 48) + (codes[2] - 48)] + Merged(codes[3..])
  }

  ghost predicate HasNulBeforeOctal(codes: seq<Code>) {
    exists i, j :: 0 <= i && j == i + 1 && j < |codes| && codes[i] == 0 && IsOctalCode(codes[j])
  }

  lemma {:induction false} MergedIsSame(codes: seq<Code>)
    ensures |Merged(codes)| <= |codes|
    ensures Merged(codes) == codes <==> !HasNulBeforeOctal(codes)
    decreases |codes|
  {
    if codes != [] {
      MergedIsSame(codes[1..]);
      if codes[0] == 0 && |codes| > 1 && IsOctalCode(codes[1]) {
        MergedIsSame(codes[2..]);
        if |codes| > 2 {
          MergedIsSame(codes[3..]);
        }
        assert |Merged(codes)| < |codes|;
      } else {
        assert codes == [codes[0]] + codes[1..];
        assert forall i, j :: 1 <= i && j == i + 1 && j < |codes| ==>
               codes[i] == codes[1..][i - 1] && codes[j] == codes[1..][j - 1];
        if HasNulBeforeOctal(codes[1..]) {
          var i, j :| 0 <= i && j == i + 1 && j < |codes[1..]| && codes[1..][i] == 0 && IsOctalCode(codes[1..][j]);
          assert codes[i + 1] == 0 && IsOctalCode(codes[j + 1]);
        }
        assert Merged(codes)[1..] == Merged(codes[1..]);
      }
    }
  }

  predicate AllBelow(codes: seq<Code>, limit: nat) {
    forall i :: 0 <= i < |codes| ==> codes[i] < limit
  }

  /** The body with the closing quote. */
  function Closed(prefix: string, codes: seq<Code>, isPreviousHex: bool): (s: string)
    ensures s != ""
  {
    Body(prefix, codes, isPreviousHex) + "\""
  }

  lemma ClosedStep(prefix: string, codes: seq<Code>, isPreviousHex: bool)
    requires codes != []
    ensures Closed(prefix, codes, isPreviousHex) ==
            (if isPreviousHex && IsXDigit(codes[0]) then "\" " + prefix + "\"" else "") +
            (StringChar(codes[0]).0 + Closed(prefix, codes[1..], StringChar(codes[0]).1 == HexEscape))
  {
    var separator := if isPreviousHex && IsXDigit(codes[0]) then "\" " + prefix + "\"" else "";
    var text, rest := StringChar(codes[0]).0, Body(prefix, codes[1..], StringChar(codes[0]).1 == HexEscape);
    assert Body(prefix, codes, isPreviousHex) == separator + text + rest;
    assert (separator + text + rest) + "\"" == separator + (text + (rest + "\""));
  }

  /** After a character in hexadecimal no digit follows; after NUL, an octal digit only if one was meant. */
  lemma ClosedStart(prefix: string, codes: seq<Code>)
    ensures DigitValue(Closed(prefix, codes, true)[0]) >= 16
    ensures codes == [] || !IsOctalCode(codes[0]) ==> !IsOctal(Closed(prefix, codes, false)[0])
    ensures codes != [] && IsOctalCode(codes[0]) ==>
            Closed(prefix, codes, false) == [codes[0] as char] + Closed(prefix, codes[1..], false)
  {
    if codes != [] {
      ClosedStep(prefix, codes, true);
      ClosedStep(prefix, codes, false);
    }
  }

  lemma ReadAcrossBreak(prefix: string, limit: nat, s: string)
    requires prefix == "" || prefix == "L"
    ensures ReadInside(prefix, limit, "\" " + prefix + "\"" + s) == ReadInside(prefix, limit, s)
  {
    var open := prefix + "\"" + s;
    var spaced, whole := " " + open, "\" " + prefix + "\"" + s;
    assert open[|prefix| + 1..] == s && prefix + "\"" <= open;
    assert ReadBetween(prefix, limit, open) == ReadInside(prefix, limit, s);
    assert spaced[1..] == open;
    assert ReadBetween(prefix, limit, spaced) == ReadBetween(prefix, limit, open);
    assert whole[1..] == spaced && whole[0] == '"';
  }

  lemma ReadNumeral(limit: nat, c: Code, rest: string)
    requires c < limit && rest != "" && DigitValue(rest[0]) >= 16
    ensures ReadEscape(limit, ['x'] + Numeral(c, 16) + rest) == Some((c, 1 + |Numeral(c, 16)|))
  {
    var digits := Numeral(c, 16);
    var s := ['x'] + digits + rest;
    assert s[1..] == digits + rest;
    DigitsBefore(digits, rest, 16);
    assert s[1..][..|digits|] == digits;
    NumeralValue(c, 16);
  }

  /** A character that is not NUL reads back as itself. */
  lemma ReadStringChar(prefix: string, limit: nat, c: Code, rest: string)
    requires c < limit && limit >= 256 && c != 0 && rest != ""
    requires StringChar(c).1 == HexEscape ==> DigitValue(rest[0]) >= 16
    ensures ReadInside(prefix, limit, StringChar(c).0 + rest) == Prepend(c, ReadInside(prefix, limit, rest))
  {
    var text := StringChar(c).0;
    var s := text + rest;
    if StringChar(c).1 == HexEscape {
      ReadNumeral(limit, c, rest);
      assert s[1..] == ['x'] + Numeral(c, 16) + rest;
      assert s[1 + (1 + |Numeral(c, 16)|)..] == rest;
    } else if |text| == 2 {
      assert s[1..] == [text[1]] + rest && s[2..] == rest;
      assert ReadEscape(limit, s[1..]) == Some((c, 1));
    } else {
      assert s[1..] == rest;
    }
  }

  lemma {:induction false} ReadBody(prefix: string, limit: nat, codes: seq<Code>, isPreviousHex: bool)
    requires prefix == "" || prefix == "L"
    requires AllBelow(codes, limit) && limit >= 256
    ensures ReadInside(prefix, limit, Closed(prefix, codes, isPreviousHex)) == Some(Merged(codes))
    decreases |codes|, if isPreviousHex then 2 else 1
  {
    if codes == [] {
      assert Closed(prefix, codes, isPreviousHex) == "\"";
      assert "\""[1..] == "";
    } else if isPreviousHex && IsXDigit(codes[0]) {
      ReadBody(prefix, limit, codes, false);
      BreakRead(prefix, limit, codes);
    } else if codes[0] == 0 {
      ReadNul(prefix, limit, codes, isPreviousHex);
    } else {
      ReadBody(prefix, limit, codes[1..], StringChar(codes[0]).1 == HexEscape);
      FirstRead(prefix, limit, codes, isPreviousHex);
    }
  }

  lemma BreakRead(prefix: string, limit: nat, codes: seq<Code>)
    requires prefix == "" || prefix == "L"
    requires codes != [] && IsXDigit(codes[0])
    ensures ReadInside(prefix, limit, Closed(prefix, codes, true)) ==
            ReadInside(prefix, limit, Closed(prefix, codes, false))
  {
    ClosedAfterBreak(prefix, codes);
    ReadAcrossBreak(prefix, limit, Closed(prefix, codes, false));
  }

  lemma ClosedAfterBreak(prefix: string, codes: seq<Code>)
    requires codes != [] && IsXDigit(codes[0])
    ensures Closed(prefix, codes, true) == "\" " + prefix + "\"" + Closed(prefix, codes, false)
  {
    ClosedStep(prefix, codes, true);
    ClosedStep(prefix, codes, false);
    var rest := StringChar(codes[0]).0 + Closed(prefix, codes[1..], StringChar(codes[0]).1 == HexEscape);
    assert "" + rest == rest;
  }

  lemma FirstRead(prefix: string, limit: nat, codes: seq<Code>, isPreviousHex: bool)
    requires codes != [] && codes[0] != 0 && codes[0] < limit && limit >= 256 && !(isPreviousHex && IsXDigit(codes[0]))
    ensures ReadInside(prefix, limit, Closed(prefix, codes, isPreviousHex)) ==
            Prepend(codes[0],
                    ReadInside(prefix, limit, Closed(prefix, codes[1..], StringChar(codes[0]).1 == HexEscape)))
  {
    var rest := Closed(prefix, codes[1..], StringChar(codes[0]).1 == HexEscape);
    ClosedStep(prefix, codes, isPreviousHex);
    ClosedStart(prefix, codes[1..]);
    assert Closed(prefix, codes, isPreviousHex) == StringChar(codes[0]).0 + rest;
    ReadStringChar(prefix, limit, codes[0], rest);
  }

  /** How many octal digits a NUL swallows. */
  function Swallowed(codes: seq<Code>): nat
    requires codes != []
  {
    if |codes| == 1 || !IsOctalCode(codes[1]) then 0 else if |codes| == 2 || !IsOctalCode(codes[2]) then 1 else 2
  }

  function OctalText(codes: seq<Code>, taken: nat): string
    requires taken < |codes| && taken <= 2
    requires (taken >= 1 ==> IsOctalCode(codes[1])) && (taken == 2 ==> IsOctalCode(codes[2]))
  {
    if taken == 0 then "" else if taken == 1 then [codes[1] as char] else [codes[1] as char, codes[2] as char]
  }

  lemma AfterNul(prefix: string, codes: seq<Code>)
    requires codes != []
    ensures Closed(prefix, codes[1..], false) ==
            OctalText(codes, Swallowed(codes)) + Closed(prefix, codes[1 + Swallowed(codes)..], false)
    ensures Swallowed(codes) < 2 ==> !IsOctal(Closed(prefix, codes[1 + Swallowed(codes)..], false)[0])
  {
    ClosedStart(prefix, codes[1..]);
    if Swallowed(codes) > 0 {
      ClosedStart(prefix, codes[2..]);
      assert codes[1..][1..] == codes[2..];
      if Swallowed(codes) == 2 {
        assert codes[2..][1..] == codes[3..];
        Associates([codes[1] as char], [codes[2] as char], Closed(prefix, codes[3..], false));
      }
    }
  }

  function OctalValue(octal: string): Code
    requires |octal| <= 2 && forall i :: 0 <= i < |octal| ==> IsOctal(octal[i])
  {
    if |octal| == 0 then 0
    else if |octal| == 1 then OctalDigit(octal[0])
    else 8 * OctalDigit(octal[0]) + OctalDigit(octal[1])
  }

  lemma OctalTextIsOctal(codes: seq<Code>, taken: nat)
    requires codes != [] && taken == Swallowed(codes)
    ensures var octal := OctalText(codes, taken);
            && |octal| == taken && OctalValue(octal) == NulValue(codes)
            && forall i :: 0 <= i < |octal| ==> IsOctal(octal[i])
  {
  }

  lemma ReadNulEscape(prefix: string, limit: nat, octal: string, after: string)
    requires |octal| <= 2 && after != "" && (|octal| < 2 ==> !IsOctal(after[0]))
    requires forall i :: 0 <= i < |octal| ==> IsOctal(octal[i])
    ensures ReadInside(prefix, limit, "\\0" + octal + after) ==
            Prepend(OctalValue(octal), ReadInside(prefix, limit, after))
  {
    var s := "\\0" + octal + after;
    assert s[1..] == "0" + octal + after;
    assert forall i :: 0 <= i < |octal| ==> s[1..][i + 1] == octal[i];
    assert s[1..][|octal| + 1] == after[0];
    assert OctalLength(s[1..]) == |octal| + 1;
    assert s[1 + (1 + |octal|)..] == after;
  }

  lemma NulRead(prefix: string, limit: nat, codes: seq<Code>, isPreviousHex: bool)
    requires codes != [] && codes[0] == 0
    ensures ReadInside(prefix, limit, Closed(prefix, codes, isPreviousHex)) ==
            Prepend(NulValue(codes), ReadInside(prefix, limit, Closed(prefix, codes[1 + Swallowed(codes)..], false)))
  {
    var taken := Swallowed(codes);
    var octal, after := OctalText(codes, taken), Closed(prefix, codes[1 + taken..], false);
    AfterNul(prefix, codes);
    OctalTextIsOctal(codes, taken);
    ClosedStep(prefix, codes, isPreviousHex);
    assert Closed(prefix, codes, isPreviousHex) == "" + ("\\0" + (octal + after)) == "\\0" + (octal + after);
    Associates("\\0", octal, after);
    ReadNulEscape(prefix, limit, octal, after);
  }

  function NulValue(codes: seq<Code>): Code
    requires codes != []
  {
    match Swallowed(codes)
    case 0 => 0
    case 1 => codes[1] - 48
    case _ => 8 * (codes[1] - 48) + (codes[2] - 48)
  }

  lemma {:induction false} ReadNul(prefix: string, limit: nat, codes: seq<Code>, isPreviousHex: bool)
    requires prefix == "" || prefix == "L"
    requires AllBelow(codes, limit) && limit >= 256 && codes != [] && codes[0] == 0
    ensures ReadInside(prefix, limit, Closed(prefix, codes, isPreviousHex)) == Some(Merged(codes))
    decreases |codes|, 0
  {
    NulRead(prefix, limit, codes, isPreviousHex);
    ReadBody(prefix, limit, codes[1 + Swallowed(codes)..], false);
    assert Merged(codes) == [NulValue(codes)] + Merged(codes[1 + Swallowed(codes)..]);
  }

  /** Reading back what was printed gives the codes with each NUL merged with the octal digits that
      follow it; so it gives back the codes exactly when no NUL is followed by an octal digit. */
  lemma PrintedReadsBack(prefix: string, limit: nat, codes: seq<Code>)
    requires prefix == "" || prefix == "L"
    requires AllBelow(codes, limit) && limit >= 256
    ensures ReadLiterals(prefix, limit, prefix + "\"" + Body(prefix, codes, false) + "\"") == Some(Merged(codes))
    ensures ReadLiterals(prefix, limit, prefix + "\"" + Body(prefix, codes, false) + "\"") == Some(codes) <==>
            !HasNulBeforeOctal(codes)
  {
    var closed, s := Closed(prefix, codes, false), prefix + "\"" + Body(prefix, codes, false) + "\"";
    assert s == prefix + "\"" + closed && s[|prefix| + 1..] == closed && prefix + "\"" <= s;
    ReadBody(prefix, limit, codes, false);
    MergedIsSame(codes);
  }

  // ----- How characters are written -----

  /** A character stands for itself exactly if it is printable ASCII other than the double quote and the
      backslash. */
  lemma StandsForItself(c: Code)
    ensures StringChar(c).1 == AsIs <==> 0x20 <= c <= 0x7E && c != 0x22 && c != 0x5C
    ensures StringChar(c).1 == AsIs ==> StringChar(c).0 == [c as char]
    ensures StringChar(c).1 != AsIs ==> |StringChar(c).0| >= 2 && StringChar(c).0[0] == '\\'
  {
  }

  /** The characters that have an escape of their own; all others are written in hexadecimal. */
  lemma NamedEscapes(c: Code)
    ensures StringChar(0x22).0 == "\\\"" && StringChar(0x5C).0 == "\\\\" && StringChar(0).0 == "\\0"
    ensures StringChar(7).0 == "\\a" && StringChar(8).0 == "\\b" && StringChar(9).0 == "\\t"
    ensures StringChar(10).0 == "\\n" && StringChar(11).0 == "\\v" && StringChar(12).0 == "\\f"
    ensures StringChar(13).0 == "\\r"
    ensures StringChar(c).1 == HexEscape <==> (0 < c < 7 || 13 < c < 0x20 || 0x7E < c)
    ensures StringChar(c).1 == HexEscape ==> StringChar(c).0 == "\\x" + Numeral(c, 16)
  {
    assert ['\\', 'x'] == "\\x";
  }

  /** The literal is broken only where the next character would be read as a further digit. */
  lemma BrokenOnlyBeforeDigits(c: Code)
    ensures IsXDigit(c) <==> c < 0x80 && IsDigit(c as char, 16)
  {
  }

  /** Where the literal is broken it is closed and, after a space, opened again with the same prefix. */
  lemma BreakText(prefix: string, c: Code, codes: seq<Code>)
    requires IsXDigit(c)
    ensures Body(prefix, [c] + codes, true) == "\" " + prefix + "\"" + Body(prefix, [c] + codes, false)
  {
    var text, rest := StringChar(c).0, Body(prefix, codes, StringChar(c).1 == HexEscape);
    assert ([c] + codes)[1..] == codes;
    Associates("\" " + prefix + "\"", text, rest);
    assert "" + text == text;
  }

  /** What is printed is printable ASCII only. */
  lemma {:induction false} PrintedIsPrintable(prefix: string, codes: seq<Code>, isPreviousHex: bool)
    requires prefix == "" || prefix == "L"
    ensures var body := Body(prefix, codes, isPreviousHex); forall i :: 0 <= i < |body| ==> ' ' <= body[i] <= '~'
  {
    if codes != [] {
      hide StringChar;
      PrintedIsPrintable(prefix, codes[1..], StringChar(codes[0]).1 == HexEscape);
      CharIsPrintable(codes[0]);
      var separator := if isPreviousHex && IsXDigit(codes[0]) then "\" " + prefix + "\"" else "";
      assert forall i :: 0 <= i < |separator| ==> ' ' <= separator[i] <= '~';
      assert Body(prefix, codes, isPreviousHex) ==
             separator + StringChar(codes[0]).0 + Body(prefix, codes[1..], StringChar(codes[0]).1 == HexEscape);
    }
  }

  lemma CharIsPrintable(c: Code)
    ensures forall i :: 0 <= i < |StringChar(c).0| ==> ' ' <= StringChar(c).0[i] <= '~'
  {
    var digits := Numeral(c, 16);
    assert forall i :: 0 <= i < |digits| ==> IsDigit(digits[i], 16);
  }
}
