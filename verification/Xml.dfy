/** The XML that Google Test's report printer writes, and how an XML 1.0 processor reads it back from a
    document that declares UTF-8. Characters are bytes; charIsSigned says whether char is a signed type. */
module Xml {
  import opened Numerals
  import opened Sequences
  import opened Wrappers
  import opened XmlEncoding

  // ----- Writing -----

  predicate IsNormalizableWhitespace(ch: char) {
    ch == '\t' || ch == '\n' || ch == '\r'
  }

  /** A signed char from 0x80 up is negative, so it is not at least 0x20. */
  predicate IsValidXmlCharacter(ch: char, charIsSigned: bool) {
    IsNormalizableWhitespace(ch) || (0x20 <= ch as int && (charIsSigned ==> ch as int < 0x80))
  }

  /** The characters of s that the writer keeps. */
  function Kept(s: string, charIsSigned: bool): string {
    if s == "" then ""
    else (if IsValidXmlCharacter(s[0], charIsSigned) then [s[0]] else "") + Kept(s[1..], charIsSigned)
  }

  function EscapedChar(ch: char, isAttribute: bool, charIsSigned: bool): string {
    match ch
    case '<' => "&lt;"
    case '>' => "&gt;"
    case '&' => "&amp;"
    case '\'' => if isAttribute then "&apos;" else "'"
    case '"' => if isAttribute then "&quot;" else "\""
    case _ =>
      if !IsValidXmlCharacter(ch, charIsSigned) then ""
      else if isAttribute && IsNormalizableWhitespace(ch) then "&#x0" + [DigitChar(ch as nat)] + ";"
      else [ch]
  }

  function Escaped(s: string, isAttribute: bool, charIsSigned: bool): string {
    if s == "" then ""
    else EscapedChar(s[0], isAttribute, charIsSigned) + Escaped(s[1..], isAttribute, charIsSigned)
  }

  /** Nothing is escaped but markup characters and, in an attribute value, quotes and white space. */
  lemma OnlyTheseAreEscaped(ch: char, isAttribute: bool, charIsSigned: bool)
    requires !IsLost(ch, charIsSigned)
    ensures EscapedChar(ch, isAttribute, charIsSigned) == [ch] <==>
            ch !in ['<', '>', '&'] && (isAttribute ==> ch !in ['\'', '"', '\t', '\n', '\r'])
  {
  }

  /** What is written for them. */
  lemma WrittenReferences(charIsSigned: bool)
    ensures forall isAttribute ::
              && EscapedChar('<', isAttribute, charIsSigned) == "&lt;"
              && EscapedChar('>', isAttribute, charIsSigned) == "&gt;"
              && EscapedChar('&', isAttribute, charIsSigned) == "&amp;"
    ensures EscapedChar('\'', true, charIsSigned) == "&apos;" && EscapedChar('"', true, charIsSigned) == "&quot;"
    ensures EscapedChar('\t', true, charIsSigned) == "&#x09;"
    ensures EscapedChar('\n', true, charIsSigned) == "&#x0A;"
    ensures EscapedChar('\r', true, charIsSigned) == "&#x0D;"
  {
    assert "&#x0" + ['9'] + ";" == "&#x09;" && "&#x0" + ['A'] + ";" == "&#x0A;" && "&#x0" + ['D'] + ";" == "&#x0D;";
  }

  lemma EscapedStep(m: string, s: string, src: nat, isAttribute: bool, charIsSigned: bool)
    requires src < |s|
    ensures m + Escaped(s[src..], isAttribute, charIsSigned) ==
            m + EscapedChar(s[src], isAttribute, charIsSigned) + Escaped(s[src + 1..], isAttribute, charIsSigned)
  {
    assert s[src..][1..] == s[src + 1..];
  }

  /** Quoted as an attribute value, m is read as value whatever text follows. */
  ghost predicate ReadsAsAttribute(m: string, value: string) {
    forall quote, rest :: IsQuote(quote) && IsXmlText(rest) ==> AttributeBefore(m, value, quote, rest)
  }

  ghost predicate AttributeBefore(m: string, value: string, quote: char, rest: string) {
    AttributeValue(m + [quote] + rest, quote) == Some((value, WithLineFeeds(rest)))
  }

  /** Before other markup, m is read as value. */
  ghost predicate ReadsAsContent(m: string, value: string) {
    forall rest :: MarkupFollows(rest) && IsXmlText(rest) ==> ContentBefore(m, value, rest)
  }

  ghost predicate ContentBefore(m: string, value: string, rest: string) {
    Content(m + rest) == Some((value, WithLineFeeds(rest)))
  }

  /** EscapeXml. As an attribute value the result is read as the kept characters exactly if these are
      well-formed, as they always are when char is signed; as text, exactly if moreover there is no
      carriage return, which a reader turns into a line feed. */
  method EscapeXml(str: Option<string>, isAttribute: bool, charIsSigned: bool) returns (m: string)
    ensures str.None? ==> m == ""
    ensures str.Some? ==> m == Escaped(str.value, isAttribute, charIsSigned)
    ensures str.Some? && charIsSigned ==> IsXmlText(Kept(str.value, charIsSigned))
    ensures str.Some? && isAttribute ==>
              (ReadsAsAttribute(m, Kept(str.value, charIsSigned)) <==> IsXmlText(Kept(str.value, charIsSigned)))
    ensures str.Some? && !isAttribute ==>
              (ReadsAsContent(m, Kept(str.value, charIsSigned)) <==>
               IsXmlText(Kept(str.value, charIsSigned)) && '\r' !in str.value)
    ensures str.Some? && IsXmlText(str.value) && (charIsSigned ==> AllAscii(str.value)) ==>
              Kept(str.value, charIsSigned) == str.value
  {
    m := "";
    match str
    case None =>
    case Some(s) =>
      for src := 0 to |s|
        invariant m + Escaped(s[src..], isAttribute, charIsSigned) == Escaped(s, isAttribute, charIsSigned)
      {
        var escape := "";
        match s[src] {
          case '<' => escape := "&lt;";
          case '>' => escape := "&gt;";
          case '&' => escape := "&amp;";
          case '\'' => escape := if isAttribute then "&apos;" else "'";
          case '"' => escape := if isAttribute then "&quot;" else "\"";
          case _ =>
            if IsValidXmlCharacter(s[src], charIsSigned) {
              if isAttribute && IsNormalizableWhitespace(s[src]) {
                escape := "&#x0" + [DigitChar(s[src] as nat)] + ";";
              } else {
                escape := [s[src]];
              }
            }
        }
        assert escape == EscapedChar(s[src], isAttribute, charIsSigned);
        EscapedStep(m, s, src, isAttribute, charIsSigned);
        m := m + escape;
      }
      assert m + "" == m;
      KeptIsXmlText(s, charIsSigned);
      if IsXmlText(s) && (charIsSigned ==> AllAscii(s)) {
        XmlTextIsKept(s, charIsSigned);
      }
      if isAttribute {
        AttributeReadsBack(s, charIsSigned);
      } else {
        TextReadsBack(s, charIsSigned);
      }
  }

  lemma KeptStep(output: string, str: string, it: nat, charIsSigned: bool)
    requires it < |str|
    ensures output + Kept(str[it..], charIsSigned) ==
            (if IsValidXmlCharacter(str[it], charIsSigned) then output + [str[it]] else output) +
              Kept(str[it + 1..], charIsSigned)
  {
    assert str[it..][1..] == str[it + 1..];
    Associates(output, [str[it]], Kept(str[it + 1..], charIsSigned));
    assert "" + Kept(str[it + 1..], charIsSigned) == Kept(str[it + 1..], charIsSigned);
  }

  /** RemoveInvalidXmlCharacters. What is left may stand in an XML document if char is signed or the
      input was UTF-8 with no flaw but control characters. */
  method RemoveInvalidXmlCharacters(str: string, charIsSigned: bool) returns (output: string)
    ensures output == Kept(str, charIsSigned)
    ensures charIsSigned || IsUtf8WithControls(str) ==> IsXmlText(output)
    ensures IsXmlText(str) && (charIsSigned ==> AllAscii(str)) ==> output == str
  {
    output := "";
    for it := 0 to |str|
      invariant output + Kept(str[it..], charIsSigned) == Kept(str, charIsSigned)
    {
      KeptStep(output, str, it, charIsSigned);
      if IsValidXmlCharacter(str[it], charIsSigned) {
        output := output + [str[it]];
      }
    }
    assert output + "" == output;
    KeptIsXmlText(str, charIsSigned);
    if IsXmlText(str) && (charIsSigned ==> AllAscii(str)) {
      XmlTextIsKept(str, charIsSigned);
    }
  }

  const OPEN := "<![CDATA["
  const CLOSE := "]]>"
  /** What is written for "]]>" in the data. */
  const DIVIDER := CLOSE + "]]&gt;" + OPEN

  lemma WrittenMarkers()
    ensures OPEN == "<![CDATA[" && CLOSE == "]]>" && DIVIDER == "]]>]]&gt;<![CDATA["
  {
  }

  predicate AtClose(x: string) {
    |x| >= 3 && x[0] == ']' && x[1] == ']' && x[2] == '>'
  }

  /** strstr: the first place from start on where sub occurs in s. */
  function StrStr(s: string, sub: string, start: nat): (r: Option<nat>)
    requires start <= |s|
    ensures r.Some? ==> start <= r.value <= |s| && sub <= s[r.value..]
    ensures forall i :: start <= i <= |s| && (r.Some? ==> i < r.value) ==> !(sub <= s[i..])
    decreases |s| - start
  {
    if sub <= s[start..] then Some(start) else if start == |s| then None else StrStr(s, sub, start + 1)
  }

  /** The data with every "]]>" replaced by DIVIDER, which takes it out of the CDATA section. */
  function Divided(data: string): string {
    if data == "" then ""
    else if AtClose(data) then DIVIDER + Divided(data[3..])
    else [data[0]] + Divided(data[1..])
  }

  lemma PrefixIsClose(x: string)
    ensures forall i :: 0 <= i <= |x| ==> (CLOSE <= x[i..] <==> AtClose(x[i..]))
  {
  }

  lemma {:induction false} DividedAtFirst(data: string, i: nat)
    requires i <= |data| && forall j :: 0 <= j < i ==> !AtClose(data[j..])
    ensures Divided(data) == data[..i] + Divided(data[i..])
  {
    if i > 0 {
      assert !AtClose(data[0..]) && data[0..] == data;
      forall j | 0 <= j < i - 1
        ensures !AtClose(data[1..][j..])
      {
        assert !AtClose(data[j + 1..]) && data[1..][j..] == data[j + 1..];
      }
      DividedAtFirst(data[1..], i - 1);
      assert data[1..][i - 1..] == data[i..] && data[..i] == [data[0]] + data[1..][..i - 1];
      Associates([data[0]], data[1..][..i - 1], Divided(data[i..]));
    }
  }

  lemma DividedAtClose(os: string, data: string, i: nat)
    requires i <= |data| && AtClose(data[i..]) && forall j :: 0 <= j < i ==> !AtClose(data[j..])
    ensures os + Divided(data) == os + data[..i] + DIVIDER + Divided(data[i + 3..])
  {
    DividedAtFirst(data, i);
    assert data[i..][3..] == data[i + 3..];
    assert Divided(data[i..]) == DIVIDER + Divided(data[i + 3..]);
    Associates(os, data[..i], Divided(data[i..]));
    Associates(os + data[..i], DIVIDER, Divided(data[i + 3..]));
  }

  /** OutputXmlCDataSection. A reader gets the data back, up to the line ends it normalizes, exactly when
      the data is well-formed text of characters that XML allows. */
  method OutputXmlCDataSection(stream: string, data: string) returns (os: string)
    ensures os == stream + OPEN + Divided(data) + CLOSE
    ensures ReadsAsContent(os[|stream|..], WithLineFeeds(data)) <==> IsXmlText(data)
    ensures ReadsAsContent(os[|stream|..], data) <==> IsXmlText(data) && '\r' !in data
  {
    var segment := data;
    os := stream + OPEN;
    while true
      invariant os + Divided(segment) == stream + OPEN + Divided(data)
      decreases |segment|
    {
      var nextSegment := StrStr(segment, CLOSE, 0);
      PrefixIsClose(segment);
      if nextSegment.Some? {
        var i := nextSegment.value;
        DividedAtClose(os, segment, i);
        os := os + segment[..i] + DIVIDER;
        segment := segment[i + |CLOSE|..];
      } else {
        DividedAtFirst(segment, |segment|);
        os := os + segment;
        break;
      }
    }
    os := os + CLOSE;
    Associates(stream, OPEN, Divided(data) + CLOSE);
    Associates(OPEN, Divided(data), CLOSE);
    Associates(stream + OPEN, Divided(data), CLOSE);
    assert os == stream + (OPEN + Divided(data) + CLOSE);
    CDataReadsBack(data);
  }

  // ----- Reading -----

  /** Section 2.11 of XML 1.0: line ends become line feeds before anything else is done. */
  function WithLineFeeds(x: string): string {
    LineFeeds(x, false)
  }

  /** What becomes of a character, after a carriage return or not. */
  function LineFeed(ch: char, afterReturn: bool): string {
    if ch == '\r' then "\n" else if ch == '\n' && afterReturn then "" else [ch]
  }

  function LineFeeds(x: string, afterReturn: bool): string {
    if x == "" then "" else LineFeed(x[0], afterReturn) + LineFeeds(x[1..], x[0] == '\r')
  }

  /** Production [3]. */
  predicate IsSpace(ch: char) {
    ch as int == 0x20 || ch as int == 0x9 || ch as int == 0xD || ch as int == 0xA
  }

  /** The beginning of a CDATA section, production [19]; its end is AtClose, production [21]. */
  const CDATA_START := "<![CDATA["

  predicate IsQuote(ch: char) {
    ch == '"' || ch == '\''
  }

  /** The character that the reference at the head of x stands for, and the length of the reference
      (sections 4.1 and 4.6; decimal references and those beyond ASCII are not written and not read). */
  function Reference(x: string): (r: Option<(char, nat)>)
    ensures r.Some? ==> 1 <= r.value.1 <= |x| && IsAscii(r.value.0)
  {
    if "&lt;" <= x then Some(('<', 4))
    else if "&gt;" <= x then Some(('>', 4))
    else if "&amp;" <= x then Some(('&', 5))
    else if "&apos;" <= x then Some(('\'', 6))
    else if "&quot;" <= x then Some(('"', 6))
    else if "&#x" <= x then HexReference(x)
    else None
  }

  function HexReference(x: string): (r: Option<(char, nat)>)
    requires "&#x" <= x
    ensures r.Some? ==> 1 <= r.value.1 <= |x| && IsAscii(r.value.0)
  {
    var n := DigitsAtHead(x[3..], 16);
    if n == 0 || 3 + n == |x| || x[3 + n] != ';' then None
    else
      var code := Value(x[3..][..n], 16);
      if code < 0x80 && IsXmlCodePoint(code) then Some((code as char, 4 + n)) else None
  }

  function Prepend(ch: char, r: Option<(string, string)>): Option<(string, string)> {
    match r
    case None => None
    case Some((value, rest)) => Some(([ch] + value, rest))
  }

  /** Section 3.3.3: the value of an attribute up to the closing quote, and what follows it. White space
      becomes a space unless a reference stands for it. */
  function ReadAttribute(x: string, quote: char): Option<(string, string)> {
    if x == "" || x[0] == '<' then None
    else if x[0] == quote then Some(("", x[1..]))
    else if x[0] == '&' then
      match Reference(x)
      case None => None
      case Some((ch, n)) => Prepend(ch, ReadAttribute(x[n..], quote))
    else Prepend(if IsSpace(x[0]) then ' ' else x[0], ReadAttribute(x[1..], quote))
  }

  ghost function AttributeValue(x: string, quote: char): Option<(string, string)> {
    if IsXmlText(x) then ReadAttribute(WithLineFeeds(x), quote) else None
  }

  /** Sections 2.4 and 2.7: character data, references and CDATA sections up to other markup, and that
      markup. Character data must not contain "]]>"; a CDATA section ends at the first one. */
  function ReadContent(x: string): Option<(string, string)>
    decreases |x|
  {
    if x == "" then Some(("", ""))
    else if CDATA_START <= x then ReadSection(x[|CDATA_START|..])
    else if x[0] == '<' then Some(("", x))
    else if x[0] == '&' then
      match Reference(x)
      case None => None
      case Some((ch, n)) => Prepend(ch, ReadContent(x[n..]))
    else if AtClose(x) then None
    else Prepend(x[0], ReadContent(x[1..]))
  }

  function ReadSection(x: string): Option<(string, string)>
    decreases |x|
  {
    if AtClose(x) then ReadContent(x[3..])
    else if x == "" then None
    else Prepend(x[0], ReadSection(x[1..]))
  }

  ghost function Content(x: string): Option<(string, string)> {
    if IsXmlText(x) then ReadContent(WithLineFeeds(x)) else None
  }

  /** Markup other than a CDATA section, or the end of the text. */
  predicate MarkupFollows(rest: string) {
    rest == "" || (rest[0] == '<' && !(CDATA_START <= rest))
  }

  // ----- Attribute values -----

  lemma {:induction false} ReturnsAreKept(s: string, charIsSigned: bool)
    ensures '\r' in s <==> '\r' in Kept(s, charIsSigned)
  {
    if s != "" {
      ReturnsAreKept(s[1..], charIsSigned);
      assert s == [s[0]] + s[1..];
    }
  }

  lemma HexWhitespace(ch: char, y: string)
    requires IsNormalizableWhitespace(ch)
    ensures Reference("&#x0" + [DigitChar(ch as nat)] + ";" + y) == Some((ch, 6))
  {
    var digits := "0" + [DigitChar(ch as nat)];
    var x := "&#x0" + [DigitChar(ch as nat)] + ";" + y;
    assert x[3..] == digits + (";" + y);
    assert AllDigits(digits, 16);
    DigitsBefore(digits, ";" + y, 16);
    assert x[3..][..2] == digits && digits[..1] == "0" && digits[..1][..0] == "";
    assert Value(digits[..1][..0], 16) == 0;
    assert Value(digits[..1], 16) == 0;
    assert Value(digits, 16) == ch as nat;
    assert x[5] == ';' && x[2] == 'x' && x[1] == '#' && x[0] == '&';
    assert "&#x" <= x;
  }

  lemma ReferenceReads(ch: char, y: string)
    requires ch in "<>&'\""
    ensures var e := EscapedChar(ch, true, true); e[0] == '&' && Reference(e + y) == Some((ch, |e|))
  {
    var e := EscapedChar(ch, true, true);
    assert e <= e + y && (e + y)[1] == e[1] && (e + y)[2] == e[2];
  }

  lemma ReadsReference(ch: char, n: nat, x: string, quote: char)
    requires IsQuote(quote) && x != "" && x[0] == '&' && Reference(x) == Some((ch, n)) && n <= |x|
    ensures ReadAttribute(x, quote) == Prepend(ch, ReadAttribute(x[n..], quote))
  {
  }

  lemma AttributeStep(ch: char, charIsSigned: bool, y: string, quote: char)
    requires IsQuote(quote)
    ensures ReadAttribute(EscapedChar(ch, true, charIsSigned) + y, quote) ==
            if IsValidXmlCharacter(ch, charIsSigned) then Prepend(ch, ReadAttribute(y, quote))
            else ReadAttribute(y, quote)
  {
    var e := EscapedChar(ch, true, charIsSigned);
    var x := e + y;
    assert x[|e|..] == y;
    if ch in "<>&'\"" {
      ReferenceReads(ch, y);
      ReadsReference(ch, |e|, x, quote);
    } else if !IsValidXmlCharacter(ch, charIsSigned) {
      assert x == y;
    } else if IsNormalizableWhitespace(ch) {
      HexWhitespace(ch, y);
      ReadsReference(ch, |e|, x, quote);
    } else {
      assert e == [ch] && x[0] == ch;
    }
  }

  lemma {:induction false} EscapedReads(s: string, charIsSigned: bool, quote: char, rest: string)
    requires IsQuote(quote)
    ensures ReadAttribute(Escaped(s, true, charIsSigned) + ([quote] + rest), quote) ==
            Some((Kept(s, charIsSigned), rest))
  {
    if s == "" {
      assert Escaped(s, true, charIsSigned) + ([quote] + rest) == [quote] + rest && ([quote] + rest)[1..] == rest;
    } else {
      var y := Escaped(s[1..], true, charIsSigned) + ([quote] + rest);
      assert Escaped(s, true, charIsSigned) + ([quote] + rest) == EscapedChar(s[0], true, charIsSigned) + y;
      AttributeStep(s[0], charIsSigned, y, quote);
      EscapedReads(s[1..], charIsSigned, quote, rest);
      assert "" + Kept(s[1..], charIsSigned) == Kept(s[1..], charIsSigned);
    }
  }

  predicate IsSafeInAttribute(ch: char) {
    ch !in ['<', '>', '"', '\'', '\t', '\n', '\r']
  }

  /** An attribute value holds no raw quote, angle bracket, tab or line end. */
  lemma {:induction false} AttributeIsSafe(s: string, charIsSigned: bool)
    ensures forall i :: 0 <= i < |Escaped(s, true, charIsSigned)| ==>
            IsSafeInAttribute(Escaped(s, true, charIsSigned)[i])
  {
    if s != "" {
      AttributeIsSafe(s[1..], charIsSigned);
      var e := EscapedChar(s[0], true, charIsSigned);
      assert forall i :: 0 <= i < |e| ==> IsSafeInAttribute(e[i]);
    }
  }

  lemma LineFeedsStep(ch: char, y: string, afterReturn: bool)
    ensures LineFeeds([ch] + y, afterReturn) == LineFeed(ch, afterReturn) + LineFeeds(y, ch == '\r')
  {
    assert ([ch] + y)[1..] == y;
  }

  lemma {:induction false} LineFeedsAfter(a: string, b: string, afterReturn: bool)
    requires a != "" && '\r' !in a && (afterReturn ==> a[0] != '\n')
    ensures LineFeeds(a + b, afterReturn) == a + LineFeeds(b, false)
  {
    var rest := a[1..];
    assert a == [a[0]] + rest;
    Associates([a[0]], rest, b);
    LineFeedsStep(a[0], rest + b, afterReturn);
    if rest == "" {
      assert rest + b == b;
    } else {
      LineFeedsAfter(rest, b, false);
      Associates([a[0]], rest, LineFeeds(b, false));
    }
  }

  lemma AttributeEncoding(s: string, charIsSigned: bool, quote: char, rest: string)
    requires IsQuote(quote) && IsXmlText(rest)
    ensures IsXmlText(Escaped(s, true, charIsSigned) + [quote] + rest) <==> IsXmlText(Kept(s, charIsSigned))
  {
    var e := Escaped(s, true, charIsSigned);
    EscapedKeepsEncoding("", s, true, charIsSigned);
    assert "" + e == e && "" + Kept(s, charIsSigned) == Kept(s, charIsSigned);
    Associates(e, [quote], rest);
    CutAtAscii(e, [quote] + rest);
    AsciiHead(quote, rest);
  }

  lemma AttributeReads(s: string, charIsSigned: bool, quote: char, rest: string)
    requires IsQuote(quote) && IsXmlText(rest)
    ensures if IsXmlText(Kept(s, charIsSigned))
            then AttributeBefore(Escaped(s, true, charIsSigned), Kept(s, charIsSigned), quote, rest)
            else AttributeValue(Escaped(s, true, charIsSigned) + [quote] + rest, quote) == None
  {
    var e := Escaped(s, true, charIsSigned);
    AttributeEncoding(s, charIsSigned, quote, rest);
    AttributeIsSafe(s, charIsSigned);
    assert '\r' !in e && '\r' !in [quote];
    LineFeedsAfter(e + [quote], rest, false);
    Associates(e, [quote], WithLineFeeds(rest));
    EscapedReads(s, charIsSigned, quote, WithLineFeeds(rest));
  }

  lemma AttributeReadsBack(s: string, charIsSigned: bool)
    ensures ReadsAsAttribute(Escaped(s, true, charIsSigned), Kept(s, charIsSigned)) <==>
            IsXmlText(Kept(s, charIsSigned))
  {
    var e, k := Escaped(s, true, charIsSigned), Kept(s, charIsSigned);
    if IsXmlText(k) {
      forall quote, rest | IsQuote(quote) && IsXmlText(rest) ensures AttributeBefore(e, k, quote, rest) {
        AttributeReads(s, charIsSigned, quote, rest);
      }
    } else {
      EmptyIsXmlText();
      AttributeReads(s, charIsSigned, '"', "");
      assert IsQuote('"') && !AttributeBefore(e, k, '"', "");
    }
  }

  // ----- Encoding -----

  lemma EscapedCharIsAscii(ch: char, isAttribute: bool, charIsSigned: bool)
    requires IsAscii(ch) && IsValidXmlCharacter(ch, charIsSigned)
    ensures var e := EscapedChar(ch, isAttribute, charIsSigned);
            e != "" && IsPlain(e)
  {
  }

  /** An ASCII text, not empty and of allowed characters, may be put for another before any text. */
  lemma SwapAscii(p: string, e: string, ch: char, y: string, z: string)
    requires e != "" && IsPlain(e)
    requires IsAscii(ch) && IsXmlCodePoint(ch as int) && (IsXmlText(y) <==> IsXmlText(z))
    ensures IsXmlText(p + (e + y)) <==> IsXmlText(p + ([ch] + z))
  {
    CutAtAscii(p, e + y);
    CutAtAscii(p, [ch] + z);
    AsciiInFront(e, y);
    AsciiHead(ch, z);
  }

  /** In any context, the escaped text is well-formed exactly when the kept characters are. */
  lemma {:induction false} EscapedKeepsEncoding(p: string, s: string, isAttribute: bool, charIsSigned: bool)
    ensures IsXmlText(p + Escaped(s, isAttribute, charIsSigned)) <==> IsXmlText(p + Kept(s, charIsSigned))
    decreases |s|
  {
    hide IsXmlText;
    if s != "" {
      var ch, e, k := s[0], Escaped(s[1..], isAttribute, charIsSigned), Kept(s[1..], charIsSigned);
      if !IsValidXmlCharacter(ch, charIsSigned) {
        EscapedKeepsEncoding(p, s[1..], isAttribute, charIsSigned);
        assert "" + e == e && "" + k == k;
      } else if IsAscii(ch) {
        EscapedKeepsEncoding("", s[1..], isAttribute, charIsSigned);
        assert "" + e == e && "" + k == k;
        EscapedCharIsAscii(ch, isAttribute, charIsSigned);
        SwapAscii(p, EscapedChar(ch, isAttribute, charIsSigned), ch, e, k);
      } else {
        EscapedKeepsEncoding(p + [ch], s[1..], isAttribute, charIsSigned);
        Associates(p, [ch], e);
        Associates(p, [ch], k);
      }
    }
  }

  /** An unsigned char lets through bytes that are no UTF-8. */
  lemma IllFormedIsKept()
    ensures Kept("\U{FF}", false) == "\U{FF}" && !IsXmlText("\U{FF}")
  {
    var bytes := Octets("\U{FF}");
    assert bytes == [0xFF];
    assert Kept("\U{FF}"[1..], false) == "";
  }

  lemma {:induction false} SignedKeptIsAscii(s: string)
    ensures IsXmlText(Kept(s, true))
  {
    if s == "" {
      EmptyIsXmlText();
    } else {
      SignedKeptIsAscii(s[1..]);
      assert "" + Kept(s[1..], true) == Kept(s[1..], true);
      if IsValidXmlCharacter(s[0], true) {
        AsciiHead(s[0], Kept(s[1..], true));
      }
    }
  }

  lemma {:induction false} KeptOfRun(s: string, n: nat)
    requires n <= |s| && forall i :: 0 <= i < n ==> !IsAscii(s[i])
    ensures Kept(s, false) == s[..n] + Kept(s[n..], false)
  {
    if n > 0 {
      KeptOfRun(s[1..], n - 1);
      assert s[1..][n - 1..] == s[n..] && s[..n] == [s[0]] + s[1..][..n - 1];
      Associates([s[0]], s[1..][..n - 1], Kept(s[n..], false));
    }
  }

  /** Stripping the control characters of UTF-8 text leaves well-formed text. */
  lemma {:induction false} StrippedIsXmlText(s: string)
    requires IsUtf8WithControls(s)
    ensures IsXmlText(Kept(s, false))
    decreases |s|
  {
    if s == "" {
      EmptyIsXmlText();
    } else {
      var n := FirstCharacter(s);
      StrippedIsXmlText(s[n..]);
      var k := Kept(s[n..], false);
      if IsAscii(s[0]) {
        assert "" + k == k;
        if IsValidXmlCharacter(s[0], false) {
          AsciiHead(s[0], k);
        }
      } else {
        KeptOfRun(s, n);
        CharacterInFront(s, n, k);
      }
    }
  }

  lemma KeptIsXmlText(s: string, charIsSigned: bool)
    ensures charIsSigned || IsUtf8WithControls(s) ==> IsXmlText(Kept(s, charIsSigned))
  {
    if charIsSigned {
      SignedKeptIsAscii(s);
    } else if IsUtf8WithControls(s) {
      StrippedIsXmlText(s);
    }
  }

  predicate AllAscii(s: string) {
    forall i :: 0 <= i < |s| ==> IsAscii(s[i])
  }

  /** Text that XML allows loses nothing; with a signed char, if it is ASCII. */
  lemma {:induction false} XmlTextIsKept(s: string, charIsSigned: bool)
    requires IsXmlText(s) && (charIsSigned ==> AllAscii(s))
    ensures Kept(s, charIsSigned) == s
    decreases |s|
  {
    hide IsXmlText, IsUtf8WithControls, Octets;
    if s != "" {
      NoFlaw(s);
      var n := FirstCharacter(s);
      XmlTextIsKept(s[n..], charIsSigned);
      assert s == s[..n] + s[n..];
      if IsAscii(s[0]) {
        AsciiIsKept(s, charIsSigned);
      } else {
        KeptOfRun(s, n);
      }
    }
  }

  lemma NoFlaw(s: string)
    requires IsXmlText(s)
    ensures IsUtf8WithControls(s)
  {
  }

  lemma AsciiIsKept(s: string, charIsSigned: bool)
    requires s != "" && IsAscii(s[0]) && IsXmlText(s)
    ensures Kept(s, charIsSigned) == [s[0]] + Kept(s[1..], charIsSigned)
  {
    hide IsXmlText;
    assert s == [s[0]] + s[1..];
    AsciiHead(s[0], s[1..]);
  }

  /** Which bytes are lost: below 0x20 all but tab, line feed and carriage return, and from 0x80 up all
      if char is signed. */
  predicate IsLost(ch: char, charIsSigned: bool) {
    (ch as int < 0x20 && ch as int !in {0x9, 0xA, 0xD}) || (charIsSigned && ch as int >= 0x80)
  }

  /** No other byte is lost. */
  lemma {:induction false} LostBytes(s: string, charIsSigned: bool, ch: char)
    ensures multiset(Kept(s, charIsSigned))[ch] == if IsLost(ch, charIsSigned) then 0 else multiset(s)[ch]
  {
    if s != "" {
      hide IsValidXmlCharacter, IsLost, Kept;
      var rest := Kept(s[1..], charIsSigned);
      LostBytes(s[1..], charIsSigned, ch);
      LostAreInvalid(s[0], charIsSigned);
      KeptFirst(s, charIsSigned);
      assert s == [s[0]] + s[1..];
      CountInBoth([s[0]], s[1..], ch);
      CountInBoth([s[0]], rest, ch);
      assert "" + rest == rest && multiset([s[0]])[ch] == if s[0] == ch then 1 else 0;
    }
  }

  lemma KeptFirst(s: string, charIsSigned: bool)
    requires s != ""
    ensures Kept(s, charIsSigned) ==
            (if IsValidXmlCharacter(s[0], charIsSigned) then [s[0]] else "") + Kept(s[1..], charIsSigned)
  {
  }

  lemma CountInBoth(a: string, b: string, ch: char)
    ensures multiset(a + b)[ch] == multiset(a)[ch] + multiset(b)[ch]
  {
  }

  lemma LostAreInvalid(ch: char, charIsSigned: bool)
    ensures IsLost(ch, charIsSigned) <==> !IsValidXmlCharacter(ch, charIsSigned)
  {
  }

  lemma MarkersArePlain()
    ensures IsPlain(OPEN) && IsPlain(CLOSE) && IsPlain(DIVIDER)
  {
  }

  lemma CloseKeepsEncoding(p: string, data: string)
    requires AtClose(data) && (IsXmlText(Divided(data[3..])) <==> IsXmlText(data[3..]))
    ensures IsXmlText(p + Divided(data)) <==> IsXmlText(p + data)
  {
    assert data == CLOSE + data[3..];
    MarkersArePlain();
    CutAtAscii(p, CLOSE + data[3..]);
    CutAtAscii(p, DIVIDER + Divided(data[3..]));
    AsciiInFront(CLOSE, data[3..]);
    AsciiInFront(DIVIDER, Divided(data[3..]));
  }

  lemma {:induction false} DividedKeepsEncoding(p: string, data: string)
    ensures IsXmlText(p + Divided(data)) <==> IsXmlText(p + data)
    decreases |data|
  {
    if data == "" {
    } else if AtClose(data) {
      DividedKeepsEncoding("", data[3..]);
      assert "" + Divided(data[3..]) == Divided(data[3..]) && "" + data[3..] == data[3..];
      CloseKeepsEncoding(p, data);
    } else {
      var d, rest := Divided(data[1..]), data[1..];
      assert data == [data[0]] + rest;
      if IsAscii(data[0]) {
        DividedKeepsEncoding("", rest);
        assert "" + d == d && "" + rest == rest;
        CutAtAscii(p, [data[0]] + d);
        CutAtAscii(p, data);
        AsciiHead(data[0], d);
        AsciiHead(data[0], rest);
      } else {
        DividedKeepsEncoding(p + [data[0]], rest);
        Associates(p, [data[0]], d);
        Associates(p, [data[0]], rest);
      }
    }
  }

  // ----- Text and CDATA sections -----

  /** Line ends do not touch a prefix that has none. */
  lemma {:induction false} PrefixWithoutLineEnds(p: string, x: string, afterReturn: bool)
    requires '\r' !in p && '\n' !in p
    requires afterReturn ==> x != "" && x[0] != '\n'
    ensures p <= LineFeeds(x, afterReturn) <==> p <= x
  {
    if p != "" && x != "" {
      assert p == [p[0]] + p[1..];
      assert p <= x <==> p[0] == x[0] && p[1..] <= x[1..];
      var y := LineFeeds(x, afterReturn);
      if x[0] == '\r' {
        assert y[0] == '\n';
      } else {
        PrefixWithoutLineEnds(p[1..], x[1..], false);
        assert y[0] == x[0] && y[1..] == LineFeeds(x[1..], false);
        assert p <= y <==> p[0] == y[0] && p[1..] <= y[1..];
      }
    }
  }

  lemma MarkupStillFollows(rest: string)
    requires MarkupFollows(rest)
    ensures MarkupFollows(WithLineFeeds(rest))
  {
    PrefixWithoutLineEnds(OPEN, rest, false);
  }

  /** Text in which '<', '>' and '&' are references is read character by character. */
  lemma TextStep(ch: char, y: string)
    requires !AtClose(TextChar(ch) + y)
    ensures ReadContent(TextChar(ch) + y) == Prepend(ch, ReadContent(y))
  {
    var t := TextChar(ch);
    var x := t + y;
    assert x[|t|..] == y && x[0] == t[0];
    if ch in "<>&" {
      assert t <= x && x[1] == t[1];
      assert Reference(x) == Some((ch, |t|));
    }
  }

  lemma OpenReads(y: string)
    ensures ReadContent(OPEN + y) == ReadSection(y)
  {
    assert OPEN <= OPEN + y && (OPEN + y)[|OPEN|..] == y;
  }

  lemma DividerParts(y: string)
    ensures DIVIDER + y == CLOSE + ("]" + ("]" + ("&gt;" + (OPEN + y))))
  {
  }

  /** The text written in place of "]]>" is read as "]]>". */
  lemma DividerReads(y: string)
    ensures ReadSection(DIVIDER + y) == Prepend(']', Prepend(']', Prepend('>', ReadSection(y))))
  {
    DividerParts(y);
    var greater := "&gt;" + (OPEN + y);
    assert greater[0] == '&';
    OpenReads(y);
    TextStep('>', OPEN + y);
    TextStep(']', greater);
    assert ("]" + greater)[1] == '&';
    TextStep(']', "]" + greater);
    var x := "]" + ("]" + greater);
    assert AtClose(CLOSE + x) && (CLOSE + x)[|CLOSE|..] == x;
  }

  lemma CloseThen(data: string)
    requires AtClose(data)
    ensures data == [']'] + ([']'] + (['>'] + data[3..]))
  {
  }

  /** Dividing brings no "]]>" forward: what follows starts as the data does. */
  lemma DividedStarts(data: string, z: string)
    ensures var x := Divided(data) + (CLOSE + z);
            |x| > 0 && x[0] == if data == "" then ']' else data[0]
  {
  }

  lemma NoNewClose(data: string, z: string)
    requires data != "" && !AtClose(data)
    ensures !AtClose([data[0]] + (Divided(data[1..]) + (CLOSE + z)))
  {
    var y := Divided(data[1..]) + (CLOSE + z);
    DividedStarts(data[1..], z);
    if AtClose([data[0]] + y) {
      assert ([data[0]] + y)[1] == y[0] == ']' && ([data[0]] + y)[2] == y[1] == '>';
      var d := data[1..];
      if d != "" && !AtClose(d) {
        DividedStarts(d[1..], z);
      }
    }
  }

  lemma {:induction false} DividedReads(data: string, rest: string)
    requires MarkupFollows(rest)
    ensures ReadSection(Divided(data) + (CLOSE + rest)) == Some((data, rest))
    decreases |data|
  {
    var x := Divided(data) + (CLOSE + rest);
    if data == "" {
      assert x == CLOSE + rest && x[|CLOSE|..] == rest;
    } else if AtClose(data) {
      var y := Divided(data[3..]) + (CLOSE + rest);
      Associates(DIVIDER, Divided(data[3..]), CLOSE + rest);
      DividerReads(y);
      DividedReads(data[3..], rest);
      CloseThen(data);
    } else {
      var y := Divided(data[1..]) + (CLOSE + rest);
      Associates([data[0]], Divided(data[1..]), CLOSE + rest);
      assert x[1..] == y;
      NoNewClose(data, rest);
      DividedReads(data[1..], rest);
      assert [data[0]] + data[1..] == data;
    }
  }

  /** A line feed that can follow a carriage return starts nothing but the text. */
  lemma SameLineFeeds(z: string)
    requires z == "" || z[0] != '\n'
    ensures LineFeeds(z, true) == LineFeeds(z, false)
  {
  }

  lemma LineFeedsOfDivider(y: string, afterReturn: bool)
    ensures LineFeeds(DIVIDER + y, afterReturn) == DIVIDER + LineFeeds(y, false)
  {
    LineFeedsAfter(DIVIDER, y, afterReturn);
  }

  lemma LineFeedsAtClose(data: string, afterReturn: bool)
    requires AtClose(data)
    ensures Divided(LineFeeds(data, afterReturn)) == DIVIDER + Divided(LineFeeds(data[3..], false))
  {
    var rest := LineFeeds(data[3..], false);
    assert data == CLOSE + data[3..];
    LineFeedsAfter(CLOSE, data[3..], afterReturn);
    assert AtClose(CLOSE + rest) && (CLOSE + rest)[3..] == rest;
  }

  lemma NoCloseAfter(data: string, afterReturn: bool)
    requires data != "" && !AtClose(data) && LineFeed(data[0], afterReturn) != ""
    ensures !AtClose(LineFeeds(data, afterReturn))
  {
    var y := LineFeeds(data, afterReturn);
    PrefixWithoutLineEnds(CLOSE, data, afterReturn);
    PrefixIsClose(data);
    PrefixIsClose(y);
    assert data[0..] == data && y[0..] == y;
  }

  lemma LineFeedsElsewhere(data: string, afterReturn: bool)
    requires data != "" && !AtClose(data)
    ensures Divided(LineFeeds(data, afterReturn)) ==
            LineFeed(data[0], afterReturn) + Divided(LineFeeds(data[1..], data[0] == '\r'))
  {
    var first, rest := LineFeed(data[0], afterReturn), LineFeeds(data[1..], data[0] == '\r');
    if first != "" {
      NoCloseAfter(data, afterReturn);
      assert (first + rest)[0] == first[0] && (first + rest)[1..] == rest && first == [first[0]];
    } else {
      assert first + rest == rest;
    }
  }

  /** Normalizing the line ends of a divided text is dividing the normalized text. */
  lemma {:induction false} LineFeedsOfDivided(data: string, z: string, afterReturn: bool)
    requires z != "" && z[0] != '\n'
    ensures LineFeeds(Divided(data) + z, afterReturn) == Divided(LineFeeds(data, afterReturn)) + WithLineFeeds(z)
    decreases |data|
  {
    if data == "" {
      assert Divided(data) + z == z && Divided("") + WithLineFeeds(z) == WithLineFeeds(z);
      SameLineFeeds(z);
    } else if AtClose(data) {
      var rest := data[3..];
      LineFeedsOfDivided(rest, z, false);
      LineFeedsAtClose(data, afterReturn);
      Associates(DIVIDER, Divided(rest), z);
      LineFeedsOfDivider(Divided(rest) + z, afterReturn);
      Associates(DIVIDER, Divided(LineFeeds(rest, false)), WithLineFeeds(z));
    } else {
      var rest, isReturn := data[1..], data[0] == '\r';
      LineFeedsOfDivided(rest, z, isReturn);
      LineFeedsElsewhere(data, afterReturn);
      Associates([data[0]], Divided(rest), z);
      LineFeedsStep(data[0], Divided(rest) + z, afterReturn);
      Associates(LineFeed(data[0], afterReturn), Divided(LineFeeds(rest, isReturn)), WithLineFeeds(z));
    }
  }

  lemma {:induction false} NoReturnsLeft(x: string, afterReturn: bool)
    ensures '\r' !in LineFeeds(x, afterReturn)
  {
    if x != "" {
      NoReturnsLeft(x[1..], x[0] == '\r');
    }
  }

  lemma LineFeedsChangeOnlyReturns(x: string)
    ensures WithLineFeeds(x) == x <==> '\r' !in x
  {
    NoReturnsLeft(x, false);
    if '\r' !in x && x != "" {
      LineFeedsAfter(x, "", false);
      assert x + "" == x;
    }
  }

  lemma SectionReads(data: string, rest: string)
    requires MarkupFollows(rest) && IsXmlText(rest)
    ensures Content(OPEN + Divided(data) + CLOSE + rest) ==
            if IsXmlText(data) then Some((WithLineFeeds(data), WithLineFeeds(rest))) else None
  {
    var z := CLOSE + rest;
    assert OPEN + Divided(data) + CLOSE + rest == OPEN + (Divided(data) + z);
    SectionEncoding(data, rest);
    LineFeedsAfter(OPEN, Divided(data) + z, false);
    LineFeedsOfDivided(data, z, false);
    LineFeedsAfter(CLOSE, rest, false);
    MarkupStillFollows(rest);
    OpenReads(Divided(WithLineFeeds(data)) + (CLOSE + WithLineFeeds(rest)));
    DividedReads(WithLineFeeds(data), WithLineFeeds(rest));
  }

  lemma SectionEncoding(data: string, rest: string)
    requires IsXmlText(rest)
    ensures IsXmlText(OPEN + (Divided(data) + (CLOSE + rest))) <==> IsXmlText(data)
  {
    MarkersArePlain();
    AsciiInFront(OPEN, Divided(data) + (CLOSE + rest));
    CutAtAscii(Divided(data), CLOSE + rest);
    AsciiInFront(CLOSE, rest);
    DividedKeepsEncoding("", data);
    assert "" + Divided(data) == Divided(data) && "" + data == data;
  }

  /** What OutputXmlCDataSection writes is read as the data, exactly when that is well-formed text of
      characters that XML allows. */
  lemma CDataReadsBack(data: string)
    ensures var m := OPEN + Divided(data) + CLOSE;
            && (ReadsAsContent(m, WithLineFeeds(data)) <==> IsXmlText(data))
            && (ReadsAsContent(m, data) <==> IsXmlText(data) && '\r' !in data)
  {
    var m := OPEN + Divided(data) + CLOSE;
    LineFeedsChangeOnlyReturns(data);
    forall rest | MarkupFollows(rest) && IsXmlText(rest)
      ensures ContentBefore(m, WithLineFeeds(data), rest) <==> IsXmlText(data)
    {
      SectionReads(data, rest);
    }
    EmptyIsXmlText();
    SectionReads(data, "");
    ReadsAsOneValue(m);
  }

  /** Content of one text before the end is one value, or none. */
  lemma ReadsAsOneValue(m: string)
    ensures forall value :: ReadsAsContent(m, value) ==> Content(m) == Some((value, ""))
  {
    EmptyIsXmlText();
    assert MarkupFollows("") && m + "" == m;
    forall value | ReadsAsContent(m, value) ensures Content(m) == Some((value, "")) {
      assert ContentBefore(m, value, "");
    }
  }

  function TextChar(ch: char): string {
    match ch
    case '<' => "&lt;"
    case '>' => "&gt;"
    case '&' => "&amp;"
    case _ => [ch]
  }

  /** EscapeXml as text, on characters that are all kept. */
  function Text(s: string): string {
    if s == "" then "" else TextChar(s[0]) + Text(s[1..])
  }

  lemma {:induction false} EscapedIsTextOfKept(s: string, charIsSigned: bool)
    ensures Escaped(s, false, charIsSigned) == Text(Kept(s, charIsSigned))
  {
    if s != "" {
      EscapedIsTextOfKept(s[1..], charIsSigned);
      var k, rest := Kept(s, charIsSigned), Kept(s[1..], charIsSigned);
      if IsValidXmlCharacter(s[0], charIsSigned) {
        assert k == [s[0]] + rest && k[1..] == rest;
        EscapedCharOfText(s[0], charIsSigned);
      } else {
        assert k == rest && EscapedChar(s[0], false, charIsSigned) == "";
      }
    }
  }

  lemma EscapedCharOfText(ch: char, charIsSigned: bool)
    requires IsValidXmlCharacter(ch, charIsSigned)
    ensures EscapedChar(ch, false, charIsSigned) == TextChar(ch)
  {
  }

  lemma {:induction false} TextHasNoClose(s: string, rest: string)
    requires MarkupFollows(rest)
    ensures !AtClose(Text(s) + rest)
  {
    NoGreaterInText(s);
  }

  lemma {:induction false} NoGreaterInText(s: string)
    ensures '>' !in Text(s)
  {
    if s != "" {
      NoGreaterInText(s[1..]);
    }
  }

  lemma {:induction false} TextReads(s: string, rest: string)
    requires MarkupFollows(rest)
    ensures ReadContent(Text(s) + rest) == Some((s, rest))
  {
    if s == "" {
      assert Text(s) + rest == rest;
    } else {
      Associates(TextChar(s[0]), Text(s[1..]), rest);
      TextReads(s[1..], rest);
      TextHasNoClose(s, rest);
      TextStep(s[0], Text(s[1..]) + rest);
      assert s == [s[0]] + s[1..];
    }
  }

  lemma TextOfOne(ch: char, rest: string)
    ensures Text([ch]) == TextChar(ch)
    ensures Text([ch] + rest) == Text([ch]) + Text(rest)
  {
    assert [ch][1..] == "" && ([ch] + rest)[1..] == rest;
    assert TextChar(ch) + "" == TextChar(ch);
  }

  lemma EmptyText()
    ensures Text("") == ""
  {
  }

  lemma TextOfLineFeeds(s: string, afterReturn: bool)
    requires s != ""
    ensures Text(LineFeeds(s, afterReturn)) ==
            Text(LineFeed(s[0], afterReturn)) + Text(LineFeeds(s[1..], s[0] == '\r'))
  {
    hide Text;
    var first, rest := LineFeed(s[0], afterReturn), LineFeeds(s[1..], s[0] == '\r');
    EmptyText();
    if first != "" {
      assert first == [first[0]];
      TextOfOne(first[0], rest);
    } else {
      assert first + rest == rest && "" + Text(rest) == Text(rest);
    }
  }

  lemma LineFeedsOfReference(ch: char, y: string, afterReturn: bool)
    requires ch == '<' || ch == '>' || ch == '&'
    ensures LineFeeds(TextChar(ch) + y, afterReturn) == TextChar(ch) + LineFeeds(y, false)
  {
    LineFeedsAfter(TextChar(ch), y, afterReturn);
  }

  lemma LineFeedsOfTextChar(ch: char, y: string, afterReturn: bool)
    ensures LineFeeds(TextChar(ch) + y, afterReturn) == Text(LineFeed(ch, afterReturn)) + LineFeeds(y, ch == '\r')
  {
    TextOfOne(ch, "");
    TextOfOne('\n', "");
    if ch == '<' || ch == '>' || ch == '&' {
      LineFeedsOfReference(ch, y, afterReturn);
    } else {
      assert TextChar(ch) == [ch];
      LineFeedsStep(ch, y, afterReturn);
    }
  }

  lemma {:induction false} LineFeedsOfText(s: string, z: string, afterReturn: bool)
    requires z == "" || z[0] != '\n'
    ensures LineFeeds(Text(s) + z, afterReturn) == Text(LineFeeds(s, afterReturn)) + WithLineFeeds(z)
  {
    if s == "" {
      assert Text(s) + z == z && Text("") + WithLineFeeds(z) == WithLineFeeds(z);
      SameLineFeeds(z);
    } else {
      var rest, isReturn := s[1..], s[0] == '\r';
      LineFeedsOfText(rest, z, isReturn);
      TextOfLineFeeds(s, afterReturn);
      Associates(TextChar(s[0]), Text(rest), z);
      LineFeedsOfTextChar(s[0], Text(rest) + z, afterReturn);
      Associates(Text(LineFeed(s[0], afterReturn)), Text(LineFeeds(rest, isReturn)), WithLineFeeds(z));
    }
  }

  lemma TextReadsContent(s: string, charIsSigned: bool, rest: string)
    requires MarkupFollows(rest) && IsXmlText(rest)
    ensures Content(Escaped(s, false, charIsSigned) + rest) ==
            if IsXmlText(Kept(s, charIsSigned)) then Some((WithLineFeeds(Kept(s, charIsSigned)), WithLineFeeds(rest)))
            else None
  {
    var e, k := Escaped(s, false, charIsSigned), Kept(s, charIsSigned);
    EscapedKeepsEncoding("", s, false, charIsSigned);
    assert "" + e == e && "" + k == k;
    CutAtAscii(e, rest);
    EscapedIsTextOfKept(s, charIsSigned);
    LineFeedsOfText(k, rest, false);
    MarkupStillFollows(rest);
    TextReads(WithLineFeeds(k), WithLineFeeds(rest));
  }

  lemma TextReadsBack(s: string, charIsSigned: bool)
    ensures var e, k := Escaped(s, false, charIsSigned), Kept(s, charIsSigned);
            && (ReadsAsContent(e, WithLineFeeds(k)) <==> IsXmlText(k))
            && (ReadsAsContent(e, k) <==> IsXmlText(k) && '\r' !in s)
  {
    var e, k := Escaped(s, false, charIsSigned), Kept(s, charIsSigned);
    ReturnsAreKept(s, charIsSigned);
    LineFeedsChangeOnlyReturns(k);
    forall rest | MarkupFollows(rest) && IsXmlText(rest)
      ensures ContentBefore(e, WithLineFeeds(k), rest) <==> IsXmlText(k)
    {
      TextReadsContent(s, charIsSigned, rest);
    }
    EmptyIsXmlText();
    TextReadsContent(s, charIsSigned, "");
    ReadsAsOneValue(e);
  }
}
