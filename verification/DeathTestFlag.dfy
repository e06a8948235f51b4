/** The --gtest_internal_run_death_test flag: the text a parent process builds and what its child
    makes of it. */
module DeathTestFlag {
  import opened Wrappers
  import opened Sequences
  import opened Splitting
  import opened Numerals

  const INT_LIMIT: int := 0x8000_0000
  const ULL_LIMIT: int := 0x1_0000_0000_0000_0000

  /** %d. */
  function Decimal(n: int): string {
    if n < 0 then "-" + Numeral(-n, 10) else Numeral(n, 10)
  }

  datatype InternalRunDeathTestFlag =
    InternalRunDeathTestFlag(file: string, line: int, index: int, writeFd: int)
  {
    /** The four values are of type int. */
    predicate Fits() {
      -INT_LIMIT <= line < INT_LIMIT && -INT_LIMIT <= index < INT_LIMIT && -INT_LIMIT <= writeFd < INT_LIMIT
    }
  }

  /** The value ExecDeathTest::AssumeRole gives the flag, within the limit of String::Format. */
  function FlagText(f: InternalRunDeathTestFlag): string {
    f.file + "|" + Decimal(f.line) + "|" + Decimal(f.index) + "|" + Decimal(f.writeFd)
  }

  lemma SplitStep(str: string, pos: nat, colon: nat, delimiter: char)
    requires pos <= colon < |str| && colon == pos + IndexOf(str[pos..], delimiter)
    ensures Split(str[pos..], delimiter) == [str[pos..colon]] + Split(str[colon + 1..], delimiter)
  {
    hide Split;
    var rest, i := str[pos..], colon - pos;
    assert rest[..i] == str[pos..colon] && rest[i + 1..] == str[colon + 1..];
    SplitFirst(rest, delimiter);
  }

  /** SplitString. */
  method SplitString(str: string, delimiter: char) returns (dest: seq<string>)
    ensures dest == Split(str, delimiter)
  {
    hide Split;
    var parsed: seq<string> := [];
    var pos := 0;
    assert str[0..] == str;
    while true
      invariant pos <= |str|
      invariant Split(str, delimiter) == parsed + Split(str[pos..], delimiter)
      decreases |str| - pos
    {
      var colon := pos + IndexOf(str[pos..], delimiter);
      if colon == |str| {
        SplitFirst(str[pos..], delimiter);
        parsed := parsed + [str[pos..]];
        break;
      } else {
        SplitStep(str, pos, colon, delimiter);
        Associates(parsed, [str[pos..colon]], Split(str[colon + 1..], delimiter));
        parsed := parsed + [str[pos..colon]];
        pos := colon + 1;
      }
    }
    dest := parsed;
  }

  /** strtoull on a text that begins with a digit: the value of the leading digits and where they
      end; None for ERANGE. */
  function StrToULL(s: string): Option<(nat, nat)> {
    var end := DigitsAtHead(s, 10);
    var value := Value(s[..end], 10);
    if value < ULL_LIMIT then Some((value, end)) else None
  }

  /** static_cast<int> of an unsigned long long, and back. */
  function ToInt(v: int): int {
    var low := v % (2 * INT_LIMIT);
    if low < INT_LIMIT then low else low - 2 * INT_LIMIT
  }

  function ToULL(n: int): int {
    n % ULL_LIMIT
  }

  /** ParseNaturalNumber for an int. */
  function ParseNaturalNumber(str: string): Option<int> {
    if str == "" || !IsDigit(str[0], 10) then None
    else
      match StrToULL(str)
      case None => None
      case Some((parsed, end)) =>
        var result := ToInt(parsed);
        if (end == |str| || str[end] == '\0') && ToULL(result) == parsed then Some(result) else None
  }

  /** What c_str() shows of a string: the text up to its first NUL. */
  function CStr(s: string): (text: string)
    ensures text <= s && (|text| < |s| ==> s[|text|] == '\0')
    ensures forall i :: 0 <= i < |text| ==> text[i] != '\0'
  {
    if s == "" || s[0] == '\0' then "" else [s[0]] + CStr(s[1..])
  }

  lemma {:induction false} CStrOf(s: string, n: nat)
    requires n <= |s| && (forall i :: 0 <= i < n ==> s[i] != '\0') && (n < |s| ==> s[n] == '\0')
    ensures CStr(s) == s[..n]
  {
    if n > 0 {
      CStrOf(s[1..], n - 1);
      assert s[..n] == [s[0]] + s[1..][..n - 1];
    }
  }

  lemma CStrOfDigits(s: string)
    requires AllDigits(s, 10)
    ensures CStr(s) == s
  {
    CStrOf(s, |s|);
    assert s[..|s|] == s;
  }

  /** Which texts are accepted: digits only up to the first NUL, with a value that is an int or, against the name of
      the function, 2^64 minus at most 2^31, which reads as a negative int. */
  lemma ParseNaturalNumberAccepts(str: string)
    ensures ParseNaturalNumber(str).Some? <==>
            && CStr(str) != "" && AllDigits(CStr(str), 10)
            && (Value(CStr(str), 10) < INT_LIMIT || ULL_LIMIT - INT_LIMIT <= Value(CStr(str), 10) < ULL_LIMIT)
    ensures ParseNaturalNumber(str).Some? ==>
              ParseNaturalNumber(str).value ==
              if Value(CStr(str), 10) < INT_LIMIT then Value(CStr(str), 10) else Value(CStr(str), 10) - ULL_LIMIT
  {
    var end, text := DigitsAtHead(str, 10), CStr(str);
    if end == |str| || str[end] == '\0' {
      CStrOf(str, end);
      if Value(text, 10) < ULL_LIMIT {
        IntRoundTrip(Value(text, 10));
      }
    } else {
      assert text == str[..|text|];
      assert end < |text| ==> !IsDigit(text[end], 10);
    }
  }

  lemma IntRoundTrip(v: nat)
    requires v < ULL_LIMIT
    ensures ToULL(ToInt(v)) == v <==> v < INT_LIMIT || ULL_LIMIT - INT_LIMIT <= v
    ensures v < INT_LIMIT ==> ToInt(v) == v
    ensures ULL_LIMIT - INT_LIMIT <= v ==> ToInt(v) == v - ULL_LIMIT
  {
  }

  lemma ParseDecimal(n: int)
    requires -INT_LIMIT <= n < INT_LIMIT
    ensures ParseNaturalNumber(Decimal(n)) == if n < 0 then None else Some(n)
  {
    if n < 0 {
      assert Decimal(n)[0] == '-';
    } else {
      NumeralValue(n, 10);
      CStrOfDigits(Decimal(n));
      ParseNaturalNumberAccepts(Decimal(n));
    }
  }

  /** What ParseInternalRunDeathTestFlag returns; Abort when it ends the process. */
  datatype Parsed = NoFlag | Abort | Parsed(flag: InternalRunDeathTestFlag)

  function ParsedFields(fields: seq<string>): Parsed {
    if |fields| != 4 then Abort
    else
      var line, index := ParseNaturalNumber(fields[1]), ParseNaturalNumber(fields[2]);
      var writeFd := ParseNaturalNumber(fields[3]);
      if line.None? || index.None? || writeFd.None? then Abort
      else Parsed(InternalRunDeathTestFlag(fields[0], line.value, index.value, writeFd.value))
  }

  /** ParseInternalRunDeathTestFlag, on systems other than Windows. */
  method ParseInternalRunDeathTestFlag(text: string) returns (parsed: Parsed)
    ensures parsed == if text == "" then NoFlag else ParsedFields(Split(text, '|'))
    ensures forall f: InternalRunDeathTestFlag :: f.Fits() && text == FlagText(f) ==>
              (parsed == Parsed(f) <==> '|' !in f.file && f.line >= 0 && f.index >= 0 && f.writeFd >= 0)
  {
    forall f: InternalRunDeathTestFlag | f.Fits() && text == FlagText(f)
      ensures text != ""
      ensures ParsedFields(Split(text, '|')) == Parsed(f) <==>
              '|' !in f.file && f.line >= 0 && f.index >= 0 && f.writeFd >= 0
    {
      FlagRoundTrip(f);
    }
    if text == "" {
      return NoFlag;
    }
    var fields := SplitString(text, '|');
    parsed := ParsedFields(fields);
  }

  /** The usual decimal text: a minus sign if the number is negative, and no leading zero. */
  lemma DecimalIsUsual(n: int)
    ensures var digits := if n < 0 then Decimal(n)[1..] else Decimal(n);
            && (n < 0 ==> Decimal(n)[0] == '-')
            && AllDigits(digits, 10) && Value(digits, 10) == (if n < 0 then -n else n)
            && (|digits| > 1 ==> digits[0] != '0')
  {
    var m := if n < 0 then -n else n;
    NumeralValue(m, 10);
    CapitalDigits(m, 10);
    assert n < 0 ==> Decimal(n)[1..] == Numeral(m, 10);
  }

  lemma DecimalHasNoBar(n: int)
    ensures '|' !in Decimal(n)
  {
    var digits := Numeral(if n < 0 then -n else n, 10);
    assert forall i :: 0 <= i < |digits| ==> IsDigit(digits[i], 10);
    assert !IsDigit('|', 10);
  }

  lemma {:induction false} JoinConcat(f: seq<string>, g: seq<string>, delimiter: char)
    requires f != [] && g != []
    ensures Join(f + g, delimiter) == Join(f, delimiter) + [delimiter] + Join(g, delimiter)
  {
    if |f| == 1 {
      assert (f + g)[1..] == g;
    } else {
      assert (f + g)[1..] == f[1..] + g;
      JoinConcat(f[1..], g, delimiter);
    }
  }

  lemma SplitConcat(s: string, text: string, delimiter: char)
    ensures Split(s + [delimiter] + text, delimiter) == Split(s, delimiter) + Split(text, delimiter)
  {
    var f, g := Split(s, delimiter), Split(text, delimiter);
    SplitJoins(s, delimiter);
    SplitJoins(text, delimiter);
    JoinConcat(f, g, delimiter);
    SplitOfJoin(f + g, delimiter);
  }

  lemma SplitFour(a: string, b: string, c: string, d: string, delimiter: char)
    requires delimiter !in b && delimiter !in c && delimiter !in d
    ensures Split(a + [delimiter] + b + [delimiter] + c + [delimiter] + d, delimiter) == Split(a, delimiter) + [b, c, d]
  {
    SplitOfJoin([b], delimiter);
    SplitOfJoin([c], delimiter);
    SplitOfJoin([d], delimiter);
    SplitConcat(a, b, delimiter);
    SplitConcat(a + [delimiter] + b, c, delimiter);
    SplitConcat(a + [delimiter] + b + [delimiter] + c, d, delimiter);
  }

  /** The child reads back exactly what the parent wrote if and only if the file name has no bar and
      none of the numbers is negative. */
  lemma FlagRoundTrip(f: InternalRunDeathTestFlag)
    requires f.Fits()
    ensures FlagText(f) != ""
    ensures '|' !in f.file ==>
              Split(FlagText(f), '|') == [f.file, Decimal(f.line), Decimal(f.index), Decimal(f.writeFd)]
    ensures ParsedFields(Split(FlagText(f), '|')) == Parsed(f) <==>
            '|' !in f.file && f.line >= 0 && f.index >= 0 && f.writeFd >= 0
  {
    DecimalHasNoBar(f.line);
    DecimalHasNoBar(f.index);
    DecimalHasNoBar(f.writeFd);
    SplitFour(f.file, Decimal(f.line), Decimal(f.index), Decimal(f.writeFd), '|');
    SplitJoins(f.file, '|');
    ParseDecimal(f.line);
    ParseDecimal(f.index);
    ParseDecimal(f.writeFd);
    if '|' !in f.file {
      SplitOfJoin([f.file], '|');
    } else {
      assert |Split(f.file, '|')| > 1;
    }
  }
}
