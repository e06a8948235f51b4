/** Which texts of bytes an XML 1.0 processor accepts in a document that declares UTF-8. */
module XmlEncoding {
  import opened Sequences
  import opened Utf8
  import opened Wrappers

  /** A string stands for the bytes its characters number. */
  predicate AreBytes(x: string) {
    forall i :: 0 <= i < |x| ==> x[i] as int < 0x100
  }

  function Octets(x: string): (bytes: seq<Byte>)
    requires AreBytes(x)
    ensures |bytes| == |x|
  {
    seq(|x|, i requires 0 <= i < |x| => x[i] as int)
  }

  /** Production [2]. */
  predicate IsXmlCodePoint(c: int) {
    || c == 0x9 || c == 0xA || c == 0xD
    || 0x20 <= c <= 0xD7FF || 0xE000 <= c <= 0xFFFD || 0x10000 <= c <= 0x10FFFF
  }

  predicate IsAscii(ch: char) {
    ch as int < 0x80
  }

  /** Well-formed UTF-8 of characters that XML allows. */
  ghost predicate IsXmlText(x: string) {
    AreBytes(x) && Decode(Octets(x)).Some? && forall c :: c in Decode(Octets(x)).value ==> IsXmlCodePoint(c)
  }

  /** The same, except that control characters may occur. */
  ghost predicate IsUtf8WithControls(x: string) {
    AreBytes(x) && Decode(Octets(x)).Some? && forall c :: c in Decode(Octets(x)).value ==> c < 0x20 || IsXmlCodePoint(c)
  }

  lemma AreBytesOfBoth(a: string, b: string)
    ensures AreBytes(a + b) <==> AreBytes(a) && AreBytes(b)
    ensures AreBytes(a + b) ==> Octets(a + b) == Octets(a) + Octets(b)
  {
    assert forall i :: 0 <= i < |a| ==> (a + b)[i] == a[i];
    assert forall i :: 0 <= i < |b| ==> (a + b)[|a| + i] == b[i];
  }

  /** A text can be cut before an ASCII character. */
  lemma CutAtAscii(a: string, b: string)
    requires b == "" || IsAscii(b[0])
    ensures IsXmlText(a + b) <==> IsXmlText(a) && IsXmlText(b)
  {
    AreBytesOfBoth(a, b);
    if AreBytes(a + b) {
      DecodeCut(Octets(a), Octets(b));
      if Decode(Octets(a)).Some? && Decode(Octets(b)).Some? {
        var u, v := Decode(Octets(a)).value, Decode(Octets(b)).value;
        assert forall c :: c in u + v <==> c in u || c in v;
      }
    }
  }

  lemma EmptyIsXmlText()
    ensures IsXmlText("")
  {
    assert Octets("") == [];
  }

  lemma OneAscii(ch: char)
    requires IsAscii(ch)
    ensures IsXmlText([ch]) <==> IsXmlCodePoint(ch as int)
  {
    var bytes := Octets([ch]);
    assert bytes == [ch as int] && bytes[1..] == [];
    assert Decode([]) == Some([]) && [ch as int] + [] == [ch as int];
    assert Decode(bytes) == Some([ch as int]);
    assert [ch as int][0] == ch as int;
  }

  /** Every character is ASCII and allowed. */
  predicate IsPlain(e: string) {
    forall i :: 0 <= i < |e| ==> IsAscii(e[i]) && IsXmlCodePoint(e[i] as int)
  }

  /** ASCII text in front does no harm exactly when XML allows all of it. */
  lemma {:induction false} AsciiInFront(e: string, y: string)
    requires IsPlain(e)
    ensures IsXmlText(e + y) <==> IsXmlText(y)
    ensures IsXmlText(e)
  {
    if e == "" {
      EmptyIsXmlText();
      assert e + y == y;
    } else {
      var rest := e[1..];
      AsciiInFront(rest, y);
      OneAscii(e[0]);
      AsciiHead(e[0], rest + y);
      AsciiHead(e[0], rest);
      Associates([e[0]], rest, y);
      assert e == [e[0]] + rest;
    }
  }

  lemma AsciiHead(ch: char, y: string)
    requires IsAscii(ch)
    ensures IsXmlText([ch] + y) <==> IsXmlCodePoint(ch as int) && IsXmlText(y)
  {
    OneAscii(ch);
    AreBytesOfBoth([ch], y);
    if AreBytes([ch] + y) {
      var bytes := Octets([ch] + y);
      assert bytes[1..] == Octets(y);
      assert DecodeFirst(bytes) == Some((ch as int, 1));
      if Decode(Octets(y)).Some? {
        var cs := Decode(Octets(y)).value;
        assert Decode(bytes) == Some([ch as int] + cs);
        assert forall c :: c in [ch as int] + cs <==> c == ch as int || c in cs;
      }
    }
  }

  /** The length of the first character of a text in UTF-8; the rest is in UTF-8 too. */
  lemma FirstCharacter(x: string) returns (n: nat)
    requires x != "" && IsUtf8WithControls(x)
    ensures 1 <= n <= |x| && IsUtf8WithControls(x[n..]) && (IsXmlText(x) ==> IsXmlText(x[n..]))
    ensures DecodeFirst(Octets(x)).Some? && DecodeFirst(Octets(x)).value.1 == n
    ensures IsAscii(x[0]) ==> n == 1
    ensures !IsAscii(x[0]) ==> IsXmlCodePoint(DecodeFirst(Octets(x)).value.0)
    ensures !IsAscii(x[0]) ==> forall i :: 0 <= i < n ==> !IsAscii(x[i])
  {
    var bytes := Octets(x);
    DecodeTakesFirst(bytes);
    var c := DecodeFirst(bytes).value.0;
    n := DecodeFirst(bytes).value.1;
    assert Octets(x[n..]) == bytes[n..];
    var cs := Decode(bytes[n..]).value;
    assert c in [c] + cs && forall d :: d in cs ==> d in [c] + cs;
    assert forall i :: 0 <= i < n ==> bytes[i] == x[i] as int;
  }

  /** An allowed character in front of a text. */
  lemma CharacterInFront(x: string, n: nat, y: string)
    requires AreBytes(x) && 1 <= n <= |x| && DecodeFirst(Octets(x)).Some? && DecodeFirst(Octets(x)).value.1 == n
    requires IsXmlCodePoint(DecodeFirst(Octets(x)).value.0) && IsXmlText(y)
    ensures IsXmlText(x[..n] + y)
  {
    var z := x[..n] + y;
    AreBytesOfBoth(x[..n], y);
    DecodeFirstOfSame(Octets(x), Octets(z), n);
    assert Octets(z)[n..] == Octets(y);
    var c, cs := DecodeFirst(Octets(x)).value.0, Decode(Octets(y)).value;
    assert Decode(Octets(z)) == Some([c] + cs);
    assert forall d :: d in [c] + cs <==> d == c || d in cs;
  }
}
