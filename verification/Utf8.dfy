/** Google Test's conversion of wide strings to UTF-8, judged by the decoder of section 3 of RFC 3629
    (carried on to 21 bits) and the UTF-16 encoder of section 2.1 of RFC 2781.

    Bit patterns are numbers here: masking the n lowest bits is the remainder by 2^n, shifting right
    is division, and an OR of patterns without common bits is a sum. */
module Utf8 {
  import opened Wrappers
  import opened Numerals
  import opened Sequences

  type Byte = b: int | 0 <= b < 0x100

  /** A value of type UInt32. */
  type UInt32 = c: int | 0 <= c < 0x1_0000_0000

  const MAX_CODE_POINT1 := 0x7F      // 7 bits
  const MAX_CODE_POINT2 := 0x7FF     // 5 + 6 bits
  const MAX_CODE_POINT3 := 0xFFFF    // 4 + 2 * 6 bits
  const MAX_CODE_POINT4 := 0x1FFFFF  // 3 + 3 * 6 bits

  function Chars(s: string): seq<Byte>
    requires forall i :: 0 <= i < |s| ==> s[i] < '\U{80}'
  {
    seq(|s|, i requires 0 <= i < |s| => s[i] as int)
  }

  /** "(Invalid Unicode 0x%X)". */
  function InvalidText(c: UInt32): seq<Byte> {
    Chars("(Invalid Unicode 0x") + HexBytes(c) + Chars(")")
  }

  function HexBytes(c: UInt32): seq<Byte> {
    var digits := Numeral(c, 16);
    assert forall i :: 0 <= i < |digits| ==> IsDigit(digits[i], 16);
    Chars(digits)
  }

  /** The bytes for one code point: its UTF-8 encoding up to 21 bits, else a message. */
  function Bytes(c: UInt32): seq<Byte> {
    if c <= MAX_CODE_POINT1 then [c]
    else if c <= MAX_CODE_POINT2 then [0xC0 + c / 64, 0x80 + c % 64]
    else if c <= MAX_CODE_POINT3 then [0xE0 + c / 64 / 64, 0x80 + c / 64 % 64, 0x80 + c % 64]
    else if c <= MAX_CODE_POINT4 then
      [0xF0 + c / 64 / 64 / 64, 0x80 + c / 64 / 64 % 64, 0x80 + c / 64 % 64, 0x80 + c % 64]
    else InvalidText(c)
  }

  function AllBytes(cs: seq<UInt32>): seq<Byte> {
    if cs == [] then [] else Bytes(cs[0]) + AllBytes(cs[1..])
  }

  // ----- Decoding -----

  predicate IsContinuation(b: Byte) {
    0x80 <= b < 0xC0
  }

  /** The six bits a continuation byte carries. */
  function Low(b: Byte): int {
    b - 0x80
  }

  /** The first code point of a byte stream and its length; overlong forms are refused. */
  function DecodeFirst(s: seq<Byte>): (r: Option<(UInt32, nat)>)
    requires s != []
    ensures r.Some? ==> 1 <= r.value.1 <= |s|
  {
    var b: int := s[0];
    if b < 0x80 then Some((b, 1))
    else if 0xC0 <= b < 0xE0 && |s| >= 2 && IsContinuation(s[1]) then
      var c: int := (b - 0xC0) * 0x40 + Low(s[1]);
      if c >= 0x80 then Some((c, 2)) else None
    else if 0xE0 <= b < 0xF0 && |s| >= 3 && IsContinuation(s[1]) && IsContinuation(s[2]) then
      var c: int := (b - 0xE0) * 0x1000 + Low(s[1]) * 0x40 + Low(s[2]);
      if c >= 0x800 then Some((c, 3)) else None
    else if 0xF0 <= b < 0xF8 && |s| >= 4 && IsContinuation(s[1]) && IsContinuation(s[2]) && IsContinuation(s[3]) then
      var c: int := (b - 0xF0) * 0x40000 + Low(s[1]) * 0x1000 + Low(s[2]) * 0x40 + Low(s[3]);
      if c >= 0x10000 then Some((c, 4)) else None
    else None
  }

  function Decode(s: seq<Byte>): Option<seq<UInt32>>
    decreases |s|
  {
    if s == [] then Some([])
    else
      match DecodeFirst(s)
      case None => None
      case Some((c, n)) =>
        match Decode(s[n..])
        case None => None
        case Some(cs) => Some([c] + cs)
  }

  lemma DecodeTakesFirst(s: seq<Byte>)
    requires s != [] && Decode(s).Some?
    ensures DecodeFirst(s).Some?
    ensures var (c, n) := DecodeFirst(s).value;
            && Decode(s[n..]).Some? && Decode(s).value == [c] + Decode(s[n..]).value
            && (s[0] < 0x80 ==> n == 1 && c == s[0])
            && (s[0] >= 0x80 ==> c >= 0x80 && forall i :: 0 <= i < n ==> s[i] >= 0x80)
  {
  }

  /** What is decoded first depends only on the bytes it takes. */
  lemma DecodeFirstOfSame(s: seq<Byte>, t: seq<Byte>, n: nat)
    requires s != [] && t != [] && DecodeFirst(s).Some? && DecodeFirst(s).value.1 == n
    requires n <= |t| && forall i :: 0 <= i < n ==> s[i] == t[i]
    ensures DecodeFirst(t) == DecodeFirst(s)
  {
    assert s[0] == t[0];
    assert n > 1 ==> s[1] == t[1];
    assert n > 2 ==> s[2] == t[2];
    assert n > 3 ==> s[3] == t[3];
  }

  /** No code point reaches from one stream into another that is empty or begins in ASCII. */
  lemma FirstStopsAtAscii(a: seq<Byte>, b: seq<Byte>)
    requires a != [] && (b == [] || b[0] < 0x80)
    ensures DecodeFirst(a + b) == DecodeFirst(a)
  {
    var s := a + b;
    assert forall i :: 0 <= i < |a| ==> s[i] == a[i];
    assert b != [] ==> s[|a|] == b[0];
  }

  lemma {:induction false} DecodeCut(a: seq<Byte>, b: seq<Byte>)
    requires b == [] || b[0] < 0x80
    ensures Decode(a + b) ==
            if Decode(a).None? || Decode(b).None? then None else Some(Decode(a).value + Decode(b).value)
    decreases |a|
  {
    if a == [] {
      assert a + b == b;
      if Decode(b).Some? {
        assert [] + Decode(b).value == Decode(b).value;
      }
    } else {
      FirstStopsAtAscii(a, b);
      if DecodeFirst(a).Some? {
        var (c, n) := DecodeFirst(a).value;
        assert (a + b)[n..] == a[n..] + b;
        DecodeCut(a[n..], b);
        if Decode(a[n..]).Some? && Decode(b).Some? {
          Associates([c], Decode(a[n..]).value, Decode(b).value);
        }
      }
    }
  }

  /** What is written for a number of more than 21 bits: the number itself, in capital hexadecimal digits. */
  lemma InvalidTextShows(c: UInt32)
    requires c >= 0x20_0000
    ensures exists digits: string ::
              && AllDigits(digits, 16) && (forall i :: 0 <= i < |digits| ==> digits[i] !in "abcdef")
              && Value(digits, 16) == c
              && Bytes(c) == Chars("(Invalid Unicode 0x") + Chars(digits) + Chars(")")
  {
    var digits := Numeral(c, 16);
    NumeralValue(c, 16);
    CapitalDigits(c, 16);
    assert forall i :: 0 <= i < |digits| ==> IsDigit(digits[i], 16);
    assert HexBytes(c) == Chars(digits);
  }

  lemma DecodeOne(c: UInt32, rest: seq<Byte>)
    requires c <= MAX_CODE_POINT4
    ensures DecodeFirst(Bytes(c) + rest) == Some((c, |Bytes(c)|))
    ensures c != 0 ==> forall i :: 0 <= i < |Bytes(c)| ==> Bytes(c)[i] != 0
  {
    var s := Bytes(c) + rest;
    assert forall i :: 0 <= i < |Bytes(c)| ==> s[i] == Bytes(c)[i];
  }

  lemma DecodeStep(c: UInt32, rest: seq<Byte>)
    requires c <= MAX_CODE_POINT4
    ensures Decode(Bytes(c) + rest) == match Decode(rest) case None => None case Some(cs) => Some([c] + cs)
  {
    DecodeOne(c, rest);
    assert (Bytes(c) + rest)[|Bytes(c)|..] == rest;
  }

  lemma InvalidTextStart(c: UInt32)
    ensures |InvalidText(c)| > 0 && InvalidText(c)[0] == 0x28
  {
    assert "(Invalid Unicode 0x"[0] == '(';
  }

  predicate AllEncodable(cs: seq<UInt32>) {
    forall i :: 0 <= i < |cs| ==> cs[i] < 0x20_0000
  }

  /** The stream decodes to the code points it was made from exactly when none has more than 21 bits. */
  lemma {:induction false} StreamDecodes(cs: seq<UInt32>)
    ensures Decode(AllBytes(cs)) == Some(cs) <==> AllEncodable(cs)
  {
    if cs != [] {
      var c, rest := cs[0], AllBytes(cs[1..]);
      if c <= MAX_CODE_POINT4 {
        DecodeStep(c, rest);
        StreamDecodes(cs[1..]);
        assert [c] + cs[1..] == cs;
        assert AllEncodable(cs) <==> AllEncodable(cs[1..]);
      } else {
        InvalidTextStart(c);
        var s := AllBytes(cs);
        assert s[0] == InvalidText(c)[0];
        assert DecodeFirst(s) == Some((0x28, 1));
      }
    }
  }

  // ----- The methods -----

  /** The bytes of a buffer up to its first NUL. */
  function CString(s: seq<Byte>): seq<Byte> {
    if s == [] || s[0] == 0 then [] else [s[0]] + CString(s[1..])
  }

  lemma {:induction false} CStringOf(s: seq<Byte>, n: nat)
    requires n < |s| && s[n] == 0 && forall i :: 0 <= i < n ==> s[i] != 0
    ensures CString(s) == s[..n]
  {
    if n > 0 {
      CStringOf(s[1..], n - 1);
      assert s[..n] == [s[0]] + s[1..][..n - 1];
    }
  }

  function Power16(k: nat): nat {
    if k == 0 then 1 else 16 * Power16(k - 1)
  }

  lemma {:induction false} NumeralLength(n: nat, k: nat)
    requires k >= 1 && n < Power16(k)
    ensures |Numeral(n, 16)| <= k
  {
    if n >= 16 {
      NumeralLength(n / 16, k - 1);
    }
  }

  /** The message fits the 32 bytes of the buffer and has no NUL in it. */
  lemma InvalidTextFits(c: UInt32)
    ensures |InvalidText(c)| <= 28 && forall i :: 0 <= i < |InvalidText(c)| ==> InvalidText(c)[i] != 0
  {
    assert Power16(8) == 0x1_0000_0000;
    NumeralLength(c, 8);
    var digits := Numeral(c, 16);
    assert forall i :: 0 <= i < |digits| ==> IsDigit(digits[i], 16);
  }

  /** ChopLowBits with n == 6: what it returns and what it leaves. */
  method ChopLowBits(bits: UInt32) returns (lowBits: UInt32, rest: UInt32)
    ensures lowBits == bits % 64 && rest == bits / 64
  {
    lowBits := bits % 64;
    rest := bits / 64;
  }

  /** CodePointToUtf8. */
  method CodePointToUtf8(codePoint: UInt32, str: array<Byte>)
    requires str.Length >= 32
    modifies str
    ensures CString(str[..]) == if codePoint == 0 then [] else Bytes(codePoint)
  {
    ghost var n := |Bytes(codePoint)|;
    if codePoint <= MAX_CODE_POINT4 {
      WriteEncoding(codePoint, str);
      DecodeOne(codePoint, []);
    } else {
      InvalidTextFits(codePoint);
      CopyText(InvalidText(codePoint), str);
    }
    if codePoint != 0 {
      CStringOf(str[..], n);
    }
  }

  /** strncpy of a text shorter than the buffer. */
  method CopyText(text: seq<Byte>, str: array<Byte>)
    requires |text| < 32 <= str.Length
    modifies str
    ensures str[..|text|] == text && str[|text|] == 0
  {
    for i := 0 to 32
      invariant forall k :: 0 <= k < i ==> str[k] == if k < |text| then text[k] else 0
    {
      str[i] := if i < |text| then text[i] else 0;
    }
  }

  /** The branches of CodePointToUtf8 for at most 21 bits. */
  method WriteEncoding(codePoint: UInt32, str: array<Byte>)
    requires str.Length >= 32 && codePoint <= MAX_CODE_POINT4
    modifies str
    ensures var n := |Bytes(codePoint)|; n < 32 && str[..n] == Bytes(codePoint) && str[n] == 0
  {
    var rest, low := codePoint, 0;
    if codePoint <= MAX_CODE_POINT1 {
      str[1] := 0;
      str[0] := codePoint;
    } else if codePoint <= MAX_CODE_POINT2 {
      str[2] := 0;
      low, rest := ChopLowBits(rest);
      str[1] := 0x80 + low;
      str[0] := 0xC0 + rest;
    } else if codePoint <= MAX_CODE_POINT3 {
      str[3] := 0;
      low, rest := ChopLowBits(rest);
      str[2] := 0x80 + low;
      low, rest := ChopLowBits(rest);
      str[1] := 0x80 + low;
      str[0] := 0xE0 + rest;
    } else {
      str[4] := 0;
      low, rest := ChopLowBits(rest);
      str[3] := 0x80 + low;
      low, rest := ChopLowBits(rest);
      str[2] := 0x80 + low;
      low, rest := ChopLowBits(rest);
      str[1] := 0x80 + low;
      str[0] := 0xF0 + rest;
    }
  }

  // ----- Wide strings -----

  /** IsUtf16SurrogatePair, when wchar_t has 16 bits. */
  predicate IsSurrogatePair(first: UInt32, second: UInt32) {
    0xD800 <= first < 0xDC00 && 0xDC00 <= second < 0xE000
  }

  /** CreateCodePointFromUtf16SurrogatePair. */
  function FromSurrogates(first: UInt32, second: UInt32): UInt32 {
    first % 0x400 * 0x400 + second % 0x400 + 0x10000
  }

  /** The code points of a wide string up to its first NUL. */
  function CodePoints(units: seq<UInt32>, utf16: bool): seq<UInt32> {
    if units == [] || units[0] == 0 then []
    else if utf16 && |units| > 1 && IsSurrogatePair(units[0], units[1]) then
      [FromSurrogates(units[0], units[1])] + CodePoints(units[2..], utf16)
    else [units[0]] + CodePoints(units[1..], utf16)
  }

  /** The units a length stands for: -1 for all up to the NUL, none for other negative ones. */
  function TakenUnits(str: seq<UInt32>, numChars: int): seq<UInt32> {
    if numChars == -1 || numChars > |str| then str else if numChars < 0 then [] else str[..numChars]
  }

  lemma NulAhead(str: seq<UInt32>, i: nat)
    requires i < |str| && str[i] != 0
    ensures 0 in str[i..] ==> i + 1 < |str| && 0 in str[i + 1..]
    ensures 0 in str[i..] && i + 1 < |str| && str[i + 1] != 0 ==> i + 2 < |str| && 0 in str[i + 2..]
  {
    assert str[i..] == [str[i]] + str[i + 1..];
    if i + 1 < |str| {
      assert str[i + 1..] == [str[i + 1]] + str[i + 2..];
    }
  }

  /** WideStringToUtf8; utf16 says that wchar_t has 16 bits. A length of -1 means up to the NUL. */
  method WideStringToUtf8(str: seq<UInt32>, numChars: int, utf16: bool) returns (result: seq<Byte>)
    requires numChars == -1 || numChars > |str| ==> 0 in str
    requires utf16 ==> forall i :: 0 <= i < |str| ==> str[i] <= 0xFFFF
    ensures numChars == -1 ==> result == AllBytes(CodePoints(str, utf16))
    ensures numChars < -1 ==> result == []
    ensures numChars >= 0 ==> result == AllBytes(CodePoints(if numChars > |str| then str else str[..numChars], utf16))
  {
    hide CodePoints, AllBytes, Bytes;
    var n := numChars;
    if numChars == -1 {
      n := WcsLen(str);
      CodePointsToNul(str, n, utf16);
    }
    if n < 0 {
      StreamEnd([], 0, utf16, []);
      return [];
    }
    ghost var units := TakenUnits(str, n);
    ghost var whole := AllBytes(CodePoints(units, utf16));
    result := [];
    var i := 0;
    assert units[0..] == units;
    while i < n
      invariant 0 <= i <= n && i <= |str| && (n > |str| ==> 0 in str[i..])
      invariant whole == result + AllBytes(CodePoints(units[i..], utf16))
      decreases n - i
    {
      if str[i] == 0 {
        StreamEnd(units, i, utf16, result);
        return result;
      }
      NulAhead(str, i);
      ghost var start := i;
      var codePoint;
      if i + 1 < n && utf16 && IsSurrogatePair(str[i], str[i + 1]) {
        codePoint := FromSurrogates(str[i], str[i + 1]);
        i := i + 1;
      } else {
        codePoint := str[i];
      }
      StreamStep(units, start, i + 1, codePoint, utf16, result);
      var text := Utf8Text(codePoint);
      result := result + text;
      i := i + 1;
    }
    StreamEnd(units, i, utf16, result);
  }

  lemma {:induction false} PairsAreEncodable(units: seq<UInt32>)
    requires forall i :: 0 <= i < |units| ==> units[i] <= 0xFFFF
    ensures AllEncodable(CodePoints(units, true))
  {
    if units != [] && units[0] != 0 {
      var isPair := |units| > 1 && IsSurrogatePair(units[0], units[1]);
      var c := if isPair then FromSurrogates(units[0], units[1]) else units[0];
      assert c <= MAX_CODE_POINT4;
      PairsAreEncodable(units[if isPair then 2 else 1..]);
    }
  }

  /** What WideStringToUtf8 writes decodes to the code points: always with 16-bit units, and otherwise
      exactly when none has more than 21 bits. */
  lemma WideTextDecodes(units: seq<UInt32>, utf16: bool)
    requires utf16 ==> forall i :: 0 <= i < |units| ==> units[i] <= 0xFFFF
    ensures var cs := CodePoints(units, utf16);
            Decode(AllBytes(cs)) == Some(cs) <==> utf16 || AllEncodable(cs)
  {
    StreamDecodes(CodePoints(units, utf16));
    if utf16 {
      PairsAreEncodable(units);
    }
  }

  /** What streaming the buffer filled by CodePointToUtf8 adds. */
  method Utf8Text(codePoint: UInt32) returns (text: seq<Byte>)
    requires codePoint != 0
    ensures text == Bytes(codePoint)
  {
    var buffer := new Byte[32];
    CodePointToUtf8(codePoint, buffer);
    text := CString(buffer[..]);
  }

  lemma StreamEnd(units: seq<UInt32>, i: nat, utf16: bool, result: seq<Byte>)
    requires i == |units| || (i < |units| && units[i] == 0)
    ensures result + AllBytes(CodePoints(units[i..], utf16)) == result
  {
  }

  lemma StreamStep(units: seq<UInt32>, i: nat, next: nat, codePoint: UInt32, utf16: bool, result: seq<Byte>)
    requires i < |units| && units[i] != 0
    requires if i + 1 < |units| && utf16 && IsSurrogatePair(units[i], units[i + 1])
             then next == i + 2 && codePoint == FromSurrogates(units[i], units[i + 1])
             else next == i + 1 && codePoint == units[i]
    ensures result + AllBytes(CodePoints(units[i..], utf16)) ==
            (result + Bytes(codePoint)) + AllBytes(CodePoints(units[next..], utf16))
  {
    var rest, tail := units[i..], CodePoints(units[next..], utf16);
    assert rest[next - i..] == units[next..];
    assert CodePoints(rest, utf16) == [codePoint] + tail;
    assert ([codePoint] + tail)[1..] == tail;
    Associates(result, Bytes(codePoint), AllBytes(tail));
  }

  method WcsLen(str: seq<UInt32>) returns (n: nat)
    requires 0 in str
    ensures n < |str| && str[n] == 0 && forall i :: 0 <= i < n ==> str[i] != 0
  {
    n := 0;
    while str[n] != 0
      invariant n < |str| && 0 in str[n..]
      invariant forall i :: 0 <= i < n ==> str[i] != 0
      decreases |str| - n
    {
      assert str[n..] == [str[n]] + str[n + 1..];
      n := n + 1;
    }
  }

  lemma {:induction false} CodePointsToNul(units: seq<UInt32>, n: nat, utf16: bool)
    requires n < |units| && units[n] == 0
    ensures CodePoints(units, utf16) == CodePoints(units[..n], utf16)
    decreases n
  {
    if n > 0 && units[0] != 0 {
      assert units[..n][1..] == units[1..][..n - 1];
      CodePointsToNul(units[1..], n - 1, utf16);
      if n > 1 {
        assert units[..n][2..] == units[2..][..n - 2];
        CodePointsToNul(units[2..], n - 2, utf16);
      } else {
        assert !IsSurrogatePair(units[0], units[1]);
      }
    }
  }

  /** Where wide characters have 32 bits they are the code points. */
  lemma {:induction false} WideUnitsAreCodePoints(units: seq<UInt32>)
    requires 0 !in units
    ensures CodePoints(units, false) == units
  {
    if units != [] {
      assert units == [units[0]] + units[1..];
      WideUnitsAreCodePoints(units[1..]);
    }
  }

  /** So are 16-bit ones as long as there is no surrogate pair among them. */
  lemma {:induction false} UnpairedUnitsAreCodePoints(units: seq<UInt32>)
    requires 0 !in units && !HasLooseSurrogates(units)
    ensures CodePoints(units, true) == units
  {
    if units != [] {
      LooseSurrogatesStep(units);
      assert units == [units[0]] + units[1..];
      UnpairedUnitsAreCodePoints(units[1..]);
    }
  }

  // ----- UTF-16 (RFC 2781) -----

  /** Section 2.1: a code point below 0x10000 is one unit, another is a surrogate pair. */
  function Units(c: UInt32): seq<UInt32>
    requires c <= 0x10FFFF
  {
    if c < 0x10000 then [c]
    else [0xD800 + (c - 0x10000) / 0x400, 0xDC00 + (c - 0x10000) % 0x400]
  }

  function AllUnits(cs: seq<UInt32>): seq<UInt32>
    requires forall i :: 0 <= i < |cs| ==> cs[i] <= 0x10FFFF
  {
    if cs == [] then [] else Units(cs[0]) + AllUnits(cs[1..])
  }

  lemma PairOf(c: UInt32)
    requires 0x10000 <= c <= 0x10FFFF
    ensures var u := Units(c);
            && IsSurrogatePair(u[0], u[1]) && FromSurrogates(u[0], u[1]) == c
            && u[0] <= 0xFFFF && u[1] <= 0xFFFF && u[0] < 0xDC00
  {
  }

  /** Code points that are surrogates, a high one and a low one. */
  predicate IsLoosePair(first: UInt32, second: UInt32) {
    0xD800 <= first <= 0xDBFF && 0xDC00 <= second <= 0xDFFF
  }

  /** Two surrogates that stand for themselves, next to each other in the order of a pair. */
  ghost predicate HasLooseSurrogates(cs: seq<UInt32>) {
    exists i, j :: 0 <= i && j == i + 1 && j < |cs| && IsLoosePair(cs[i], cs[j])
  }

  lemma PairInFront(c: UInt32, later: seq<UInt32>)
    requires 0x10000 <= c <= 0x10FFFF
    ensures CodePoints(Units(c) + later, true) == [c] + CodePoints(later, true)
  {
    PairOf(c);
    assert (Units(c) + later)[2..] == later;
  }

  lemma UnitInFront(c: UInt32, later: seq<UInt32>)
    requires c != 0
    ensures CodePoints([c] + later, true) ==
            if later != [] && IsSurrogatePair(c, later[0])
            then [FromSurrogates(c, later[0])] + CodePoints(later[1..], true)
            else [c] + CodePoints(later, true)
  {
    var units := [c] + later;
    assert units[1..] == later;
    assert later != [] ==> units[1] == later[0] && units[2..] == later[1..];
  }

  /** The first unit of what is written for a text. */
  lemma FirstUnit(cs: seq<UInt32>)
    requires cs != [] && forall i :: 0 <= i < |cs| ==> 0 < cs[i] <= 0x10FFFF
    ensures AllUnits(cs) != [] && AllUnits(cs)[0] == Units(cs[0])[0]
    ensures cs[0] >= 0x10000 ==> AllUnits(cs)[0] < 0xDC00
    ensures cs[0] < 0x10000 ==> AllUnits(cs)[0] == cs[0] && AllUnits(cs)[1..] == AllUnits(cs[1..])
  {
    if cs[0] >= 0x10000 {
      PairOf(cs[0]);
    } else {
      assert AllUnits(cs) == [cs[0]] + AllUnits(cs[1..]);
    }
  }

  lemma {:induction false} UnitsReadBack(cs: seq<UInt32>)
    requires forall i :: 0 <= i < |cs| ==> 0 < cs[i] <= 0x10FFFF
    ensures |CodePoints(AllUnits(cs), true)| <= |cs|
    ensures CodePoints(AllUnits(cs), true) == cs <==> !HasLooseSurrogates(cs)
    decreases |cs|
  {
    if cs != [] {
      var c, rest := cs[0], cs[1..];
      UnitsReadBack(rest);
      assert cs == [c] + rest;
      LooseSurrogatesStep(cs);
      if c >= 0x10000 {
        PairInFront(c, AllUnits(rest));
      } else {
        UnitInFront(c, AllUnits(rest));
        if rest != [] {
          FirstUnit(rest);
          UnitsReadBack(rest[1..]);
        }
      }
    }
  }

  lemma LooseSurrogatesStep(cs: seq<UInt32>)
    requires cs != []
    ensures HasLooseSurrogates(cs) <==>
            HasLooseSurrogates(cs[1..]) || (|cs| > 1 && IsLoosePair(cs[0], cs[1]))
  {
    var rest := cs[1..];
    if HasLooseSurrogates(rest) {
      var i, j :| 0 <= i && j == i + 1 && j < |rest| && IsLoosePair(rest[i], rest[j]);
      assert cs[i + 1] == rest[i] && cs[j + 1] == rest[j];
    }
    if HasLooseSurrogates(cs) {
      var i, j :| 0 <= i && j == i + 1 && j < |cs| && IsLoosePair(cs[i], cs[j]);
      if i > 0 {
        assert rest[i - 1] == cs[i] && rest[j - 1] == cs[j];
      }
    }
  }

  /** Code points written as UTF-16, converted to UTF-8 and decoded come back exactly when no two of them
      make a surrogate pair by standing next to each other, so always when none is a surrogate. */
  lemma Utf16RoundTrip(cs: seq<UInt32>)
    requires forall i :: 0 <= i < |cs| ==> 0 < cs[i] <= 0x10FFFF
    ensures Decode(AllBytes(CodePoints(AllUnits(cs), true))) == Some(cs) <==> !HasLooseSurrogates(cs)
  {
    UnitsReadBack(cs);
    UnitsHave16Bits(cs);
    PairsAreEncodable(AllUnits(cs));
    StreamDecodes(CodePoints(AllUnits(cs), true));
  }

  lemma {:induction false} UnitsHave16Bits(cs: seq<UInt32>)
    requires forall i :: 0 <= i < |cs| ==> cs[i] <= 0x10FFFF
    ensures forall i :: 0 <= i < |AllUnits(cs)| ==> AllUnits(cs)[i] <= 0xFFFF
  {
    if cs != [] {
      UnitsHave16Bits(cs[1..]);
    }
  }
}
