/** Numbers written in a base, as the %d and %X conversions and strtoull do. */
module Numerals {

  function DigitChar(d: nat): char
    requires d < 16
  {
    if d < 10 then ('0' as int + d) as char else ('A' as int + (d - 10)) as char
  }

  /** The value of a digit in any base up to 16, or 16 for anything else. */
  function DigitValue(ch: char): nat {
    if '0' <= ch <= '9' then ch as int - '0' as int
    else if 'A' <= ch <= 'F' then ch as int - 'A' as int + 10
    else if 'a' <= ch <= 'f' then ch as int - 'a' as int + 10
    else 16
  }

  /** The digits are the usual ones, capital where they are letters; small letters are read too. */
  lemma DigitsAreUsual(d: nat)
    requires d < 16
    ensures DigitChar(d) == "0123456789ABCDEF"[d]
    ensures DigitValue("0123456789ABCDEF"[d]) == DigitValue("0123456789abcdef"[d]) == d
  {
  }

  predicate IsDigit(ch: char, base: nat) {
    DigitValue(ch) < base
  }

  predicate AllDigits(s: string, base: nat) {
    forall i :: 0 <= i < |s| ==> IsDigit(s[i], base)
  }

  predicate IsBase(base: nat) {
    base == 10 || base == 16
  }

  function Quotient(n: nat, base: nat): nat
    requires IsBase(base)
  {
    if base == 10 then n / 10 else n / 16
  }

  function Remainder(n: nat, base: nat): nat
    requires IsBase(base)
  {
    if base == 10 then n % 10 else n % 16
  }

  function Append(v: nat, digit: nat, base: nat): nat
    requires IsBase(base)
  {
    if base == 10 then 10 * v + digit else 16 * v + digit
  }

  function Numeral(n: nat, base: nat): (s: string)
    requires IsBase(base)
    ensures s != "" && AllDigits(s, base)
  {
    if n < base then [DigitChar(n)] else Numeral(Quotient(n, base), base) + [DigitChar(Remainder(n, base))]
  }

  function Value(s: string, base: nat): nat
    requires IsBase(base) && AllDigits(s, base)
  {
    if s == "" then 0 else Append(Value(s[..|s| - 1], base), DigitValue(s[|s| - 1]), base)
  }

  lemma {:induction false} NumeralValue(n: nat, base: nat)
    requires IsBase(base)
    ensures Value(Numeral(n, base), base) == n
  {
    var s := Numeral(n, base);
    if n < base {
      assert s[..|s| - 1] == "";
    } else {
      NumeralValue(Quotient(n, base), base);
      assert s[..|s| - 1] == Numeral(Quotient(n, base), base);
    }
  }

  /** Each further digit multiplies by the base. */
  lemma ValueOfOneMore(s: string, ch: char, base: nat)
    requires IsBase(base) && AllDigits(s, base) && IsDigit(ch, base)
    ensures AllDigits(s + [ch], base)
    ensures base == 10 ==> Value(s + [ch], base) == 10 * Value(s, base) + DigitValue(ch)
    ensures base == 16 ==> Value(s + [ch], base) == 16 * Value(s, base) + DigitValue(ch)
  {
    assert (s + [ch])[..|s|] == s;
  }

  lemma {:induction false} CapitalDigits(n: nat, base: nat)
    requires IsBase(base)
    ensures forall i :: 0 <= i < |Numeral(n, base)| ==> Numeral(n, base)[i] !in "abcdef"
    ensures |Numeral(n, base)| > 1 ==> Numeral(n, base)[0] != '0'
    decreases n
  {
    if n >= base {
      CapitalDigits(Quotient(n, base), base);
    }
  }

  /** The length of the longest prefix of digits. */
  function DigitsAtHead(s: string, base: nat): (n: nat)
    ensures n <= |s| && AllDigits(s[..n], base) && (n < |s| ==> !IsDigit(s[n], base))
    ensures forall m :: 0 <= m < n ==> IsDigit(s[m], base)
  {
    if s == "" || !IsDigit(s[0], base) then 0 else 1 + DigitsAtHead(s[1..], base)
  }

  lemma DigitsBefore(digits: string, rest: string, base: nat)
    requires AllDigits(digits, base) && (rest != "" ==> !IsDigit(rest[0], base))
    ensures DigitsAtHead(digits + rest, base) == |digits|
  {
    var s := digits + rest;
    assert forall m :: 0 <= m < |digits| ==> IsDigit(s[m], base);
    assert rest != "" ==> s[|digits|] == rest[0];
  }
}
