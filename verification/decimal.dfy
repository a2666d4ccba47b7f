/**
 Python's `str` of an integer, as used by the f-string `f'{years} ...'`:
 an optional minus sign followed by the decimal digits, without leading zeros.
 A parser is given as the inverse, so that the text is known to denote the number.
 */
module Decimal {
  import opened Wrappers

  predicate IsDigit(c: char) {
    '0' <= c <= '9'
  }

  function DigitChar(d: int): (c: char)
    requires 0 <= d < 10
    ensures IsDigit(c) && DigitValue(c) == d
  {
    (d + '0' as int) as char
  }

  function DigitValue(c: char): int
    requires IsDigit(c)
  {
    c as int - '0' as int
  }

  predicate AllDigits(s: string) {
    forall i :: 0 <= i < |s| ==> IsDigit(s[i])
  }

  /** Decimal digits of a natural number, most significant first. */
  function NatText(n: nat): (s: string)
    ensures |s| >= 1 && AllDigits(s)
    ensures s[0] == '0' <==> n == 0
    ensures s[0] == '0' ==> s == "0"
  {
    if n < 10 then [DigitChar(n)]
    else NatText(n / 10) + [DigitChar(n % 10)]
  }

  /** Decimal text of an integer: a minus sign for negative values, then the digits. */
  function IntText(n: int): (s: string)
    ensures |s| >= 1
    ensures s[0] == '-' <==> n < 0
    ensures forall i :: (if n < 0 then 1 else 0) <= i < |s| ==> IsDigit(s[i])
  {
    if n < 0 then "-" + NatText(-n) else NatText(n)
  }

  /** Reads a non-empty string of decimal digits without a leading zero (other than "0" itself). */
  function ParseNat(s: string): Option<nat>
  {
    if |s| == 0 || !IsDigit(s[|s| - 1]) || (|s| > 1 && s[0] == '0') then None
    else if |s| == 1 then Some(DigitValue(s[0]))
    else
      match ParseNat(s[..|s| - 1])
      case None => None
      case Some(v) => Some(10 * v + DigitValue(s[|s| - 1]))
  }

  /** Reads an optionally negative decimal integer; "-0" is not a number's text. */
  function ParseInt(s: string): Option<int>
  {
    if |s| > 0 && s[0] == '-' then
      match ParseNat(s[1..])
      case None => None
      case Some(v) => if v == 0 then None else Some(-(v as int))
    else
      match ParseNat(s)
      case None => None
      case Some(v) => Some(v as int)
  }

  lemma {:induction false} NatTextRoundTrip(n: nat)
    ensures ParseNat(NatText(n)) == Some(n)
  {
    if n >= 10 {
      NatTextRoundTrip(n / 10);
      var s := NatText(n);
      assert s[..|s| - 1] == NatText(n / 10);
    }
  }

  /** The printed text of every integer reads back as that integer. */
  lemma IntTextRoundTrip(n: int)
    ensures ParseInt(IntText(n)) == Some(n)
  {
    NatTextRoundTrip(if n < 0 then -n else n);
    if n < 0 {
      assert IntText(n)[1..] == NatText(-n);
    }
  }

  /** The only digit string that reads as `n` is the digits of `n`. */
  lemma {:induction false} ParseNatCanonical(s: string, n: nat)
    requires ParseNat(s) == Some(n)
    ensures s == NatText(n)
    decreases |s|
  {
    if |s| > 1 {
      var init := s[..|s| - 1];
      var v :| ParseNat(init) == Some(v);
      ParseNatCanonical(init, v);
      assert init[0] == s[0];
      assert v != 0;
      assert n == 10 * v + DigitValue(s[|s| - 1]);
      assert s == init + [s[|s| - 1]];
    } else {
      assert s == [DigitChar(n)];
    }
  }

  /** The only text that reads as `n` is the printed text of `n`: printing is the parser's inverse. */
  lemma ParseIntCanonical(s: string, n: int)
    requires ParseInt(s) == Some(n)
    ensures s == IntText(n)
  {
    if |s| > 0 && s[0] == '-' {
      var v :| ParseNat(s[1..]) == Some(v);
      ParseNatCanonical(s[1..], v);
      assert s == "-" + s[1..];
    } else {
      ParseNatCanonical(s, n);
    }
  }

  /** Distinct integers are printed as distinct texts. */
  lemma IntTextInjective(a: int, b: int)
    requires IntText(a) == IntText(b)
    ensures a == b
  {
    IntTextRoundTrip(a);
    IntTextRoundTrip(b);
  }

}
