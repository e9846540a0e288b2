/**
 * Decimal rendering of a Long, as Java's string concatenation `"..." + id`
 * produces it (Long.toString), together with its inverse. The inverse is
 * what makes an error message such as "Id not found 1000" identify the id
 * it was built from.
 */
module Decimal {
  import opened Values

  predicate IsDigit(c: char) {
    '0' <= c <= '9'
  }

  predicate AllDigits(s: string) {
    forall i :: 0 <= i < |s| ==> IsDigit(s[i])
  }

  function DigitChar(d: nat): (c: char)
    requires d < 10
    ensures IsDigit(c) && c as int - '0' as int == d
  {
    (d + '0' as int) as char
  }

  function DigitValue(c: char): (d: nat)
    requires IsDigit(c)
    ensures d < 10 && DigitChar(d) == c
  {
    c as int - '0' as int
  }

  /** The shortest decimal numeral of n: at least one digit, no leading zero. */
  function NatToString(n: nat): (s: string)
    ensures |s| >= 1 && AllDigits(s)
    ensures s[0] == '0' ==> n == 0
    ensures |s| == 1 <==> n < 10
    decreases n
  {
    if n < 10 then [DigitChar(n)] else NatToString(n / 10) + [DigitChar(n % 10)]
  }

  /** Long.toString: a minus sign before the digits of a negative value. */
  function LongToString(n: int): (s: string)
    ensures |s| >= 1
    ensures n < 0 <==> s[0] == '-'
    ensures n >= 0 ==> AllDigits(s) && (s[0] == '0' ==> n == 0)
    ensures n == 0 ==> s == "0"
    ensures n < 0 ==> |s| >= 2 && AllDigits(s[1..]) && s[1] != '0'
  {
    if n < 0 then "-" + NatToString(-n) else NatToString(n)
  }

  function ParseNat(s: string): nat
    requires |s| >= 1 && AllDigits(s)
    decreases |s|
  {
    if |s| == 1 then DigitValue(s[0])
    else 10 * ParseNat(s[..|s| - 1]) + DigitValue(s[|s| - 1])
  }

  /** Reads back an optionally signed decimal numeral; None for anything else. */
  function ParseLong(s: string): Option<int> {
    if |s| >= 2 && s[0] == '-' && AllDigits(s[1..]) then Some(-(ParseNat(s[1..]) as int))
    else if |s| >= 1 && AllDigits(s) then Some(ParseNat(s))
    else None
  }

  lemma {:induction false} ParseNatToString(n: nat)
    ensures ParseNat(NatToString(n)) == n
    decreases n
  {
    if n >= 10 {
      var s := NatToString(n);
      ParseNatToString(n / 10);
      assert s[..|s| - 1] == NatToString(n / 10);
    }
  }

  /** A minus sign before a numeral is read as the negated numeral. */
  lemma ParseSigned(digits: string)
    requires |digits| >= 1 && AllDigits(digits)
    ensures ParseLong("-" + digits) == Some(-(ParseNat(digits) as int))
  {
    var s := "-" + digits;
    assert s[1..] == digits;
  }

  lemma ParseNegative(n: int)
    requires n < 0
    ensures ParseLong(LongToString(n)) == Some(n)
  {
    var digits := NatToString(-n);
    ParseSigned(digits);
    ParseNatToString(-n);
  }

  lemma ParseNonNegative(n: int)
    requires n >= 0
    ensures ParseLong(LongToString(n)) == Some(n)
  {
    var s := LongToString(n);
    assert s[0] != '-' by { assert IsDigit(s[0]); }
    ParseNatToString(n);
  }

  /** Parsing the rendering of any Long gives that Long back. */
  lemma ParseLongToString(n: int)
    ensures ParseLong(LongToString(n)) == Some(n)
  {
    if n < 0 {
      ParseNegative(n);
    } else {
      ParseNonNegative(n);
    }
  }

  /** Distinct Longs are rendered as distinct strings. */
  lemma LongToStringInjective(a: int, b: int)
    ensures LongToString(a) == LongToString(b) ==> a == b
  {
    ParseLongToString(a);
    ParseLongToString(b);
  }
}
