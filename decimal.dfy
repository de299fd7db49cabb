/** Decimal rendering of identifiers in channel names ('chat.' . $id) and
    PHP's `(int)` cast of a string, which the channel authorization applies
    to the identifier taken from the channel name. */
module Decimal {

  predicate IsDigit(c: char) {
    '0' <= c <= '9'
  }

  predicate AllDigits(s: string) {
    forall i :: 0 <= i < |s| ==> IsDigit(s[i])
  }

  function DigitChar(d: nat): (c: char)
    requires d < 10
    ensures IsDigit(c) && c as int - '0' as int == d
  {
    ('0' as int + d) as char
  }

  /** The value of a string of decimal digits (most significant first). */
  function DigitsValue(s: string): nat
    requires AllDigits(s)
  {
    if s == [] then 0
    else DigitsValue(s[..|s| - 1]) * 10 + (s[|s| - 1] as int - '0' as int)
  }

  /** PHP's string conversion of a non-negative integer. */
  function NatToDecimal(n: nat): (s: string)
    ensures |s| > 0 && AllDigits(s)
    ensures |s| > 1 ==> s[0] != '0'
  {
    if n < 10 then [DigitChar(n)] else NatToDecimal(n / 10) + [DigitChar(n % 10)]
  }

  lemma {:induction false} DecimalValue(n: nat)
    ensures DigitsValue(NatToDecimal(n)) == n
  {
    if n >= 10 {
      var s := NatToDecimal(n);
      assert s[..|s| - 1] == NatToDecimal(n / 10);
      DecimalValue(n / 10);
    }
  }

  /** Distinct identifiers render to distinct strings. */
  lemma DecimalInjective(a: nat, b: nat)
    ensures NatToDecimal(a) == NatToDecimal(b) <==> a == b
  {
    DecimalValue(a);
    DecimalValue(b);
  }

  predicate IsPhpSpace(c: char) {
    c == ' ' || c == '\t' || c == '\n' || c == '\r' || c == '\U{B}' || c == '\U{C}'
  }

  /** The longest prefix of `s` made of digits. */
  function LeadingDigits(s: string): (r: string)
    ensures AllDigits(r) && r <= s
    ensures |r| < |s| ==> !IsDigit(s[|r|])
  {
    if s != [] && IsDigit(s[0]) then [s[0]] + LeadingDigits(s[1..]) else []
  }

  /** PHP's `(int) $s` for a numeric-leading string: leading white space is
      skipped, an optional sign is read, then the longest run of digits; a
      string with no such run converts to 0. */
  function PhpIntCast(s: string): (r: int)
    ensures AllDigits(s) ==> r == DigitsValue(s)
    ensures s != [] && s[0] == '-' ==> r <= 0
    ensures s == [] || !(IsPhpSpace(s[0]) || IsDigit(s[0]) || s[0] == '-' || s[0] == '+') ==> r == 0
    decreases |s|
  {
    assert AllDigits(s) ==> LeadingDigits(s) == s by {
      if AllDigits(s) {
        LeadingDigitsOfDigits(s);
      }
    }
    if s != [] && IsPhpSpace(s[0]) then PhpIntCast(s[1..])
    else if s != [] && s[0] == '-' then -(DigitsValue(LeadingDigits(s[1..])) as int)
    else if s != [] && s[0] == '+' then DigitsValue(LeadingDigits(s[1..]))
    else DigitsValue(LeadingDigits(s))
  }

  lemma {:induction false} LeadingDigitsOfDigits(s: string)
    requires AllDigits(s)
    ensures LeadingDigits(s) == s
  {
    if s != [] {
      LeadingDigitsOfDigits(s[1..]);
    }
  }

  /** Casting the rendering of an identifier back gives the identifier. */
  lemma CastOfDecimal(n: nat)
    ensures PhpIntCast(NatToDecimal(n)) == n
  {
    LeadingDigitsOfDigits(NatToDecimal(n));
    DecimalValue(n);
  }

  /** Leading zeros are ignored by the cast. */
  lemma CastIgnoresLeadingZeros(n: nat)
    ensures PhpIntCast("0" + NatToDecimal(n)) == n
  {
    var s := "0" + NatToDecimal(n);
    LeadingDigitsOfDigits(s);
    assert s[..|s| - 1] == "0" + NatToDecimal(n)[..|s| - 2];
    ZeroPrefix(NatToDecimal(n));
    DecimalValue(n);
  }

  lemma {:induction false} ZeroPrefix(s: string)
    requires AllDigits(s)
    ensures DigitsValue("0" + s) == DigitsValue(s)
  {
    if s != [] {
      var t := "0" + s;
      assert t[..|t| - 1] == "0" + s[..|s| - 1];
      ZeroPrefix(s[..|s| - 1]);
    }
  }
}
