/**
  Decimal notation of natural numbers, as Python's `str` writes a
  non-negative `int`: the digits without leading zeros, and `"0"` for zero.
  The order text writes every pizza count this way; only positive counts
  are ever written.
 */
module Decimal {

  predicate IsDigit(c: char)
  {
    '0' <= c <= '9'
  }

  predicate AllDigits(s: string)
  {
    forall i :: 0 <= i < |s| ==> IsDigit(s[i])
  }

  /** The way `str` writes a natural number: at least one digit, and no
      leading zero unless the number is zero itself. */
  predicate Canonical(s: string)
  {
    && 0 < |s|
    && AllDigits(s)
    && (s[0] == '0' ==> s == "0")
  }

  function DigitChar(d: nat): (c: char)
    requires d < 10
    ensures IsDigit(c)
    ensures c as int - '0' as int == d
  {
    ('0' as int + d) as char
  }

  function DigitValue(c: char): (d: nat)
    requires IsDigit(c)
    ensures d < 10
  {
    c as int - '0' as int
  }

  /** The decimal digits of a natural number, most significant first. */
  function NatToString(n: nat): (s: string)
    ensures Canonical(s)
    ensures n == 0 <==> s == "0"
    decreases n
  {
    if n < 10 then [DigitChar(n)]
    else
      var prefix := NatToString(n / 10);
      var s := prefix + [DigitChar(n % 10)];
      assert s[0] == prefix[0];
      s
  }

  /** The value of a string of decimal digits, most significant first. */
  function ParseNat(s: string): nat
    requires AllDigits(s)
    decreases |s|
  {
    if |s| == 0 then 0
    else ParseNat(s[..|s| - 1]) * 10 + DigitValue(s[|s| - 1])
  }

  /** Reading back the digits `str` writes gives the number. */
  lemma {:induction false} ParseNatToString(n: nat)
    ensures ParseNat(NatToString(n)) == n
    decreases n
  {
    var s := NatToString(n);
    if n >= 10 {
      ParseNatToString(n / 10);
      assert s[..|s| - 1] == NatToString(n / 10);
    }
  }

  /** Writing back the value of a canonical digit string gives the string:
      every number has exactly one way of being written. */
  lemma {:induction false} NatToStringParse(s: string)
    requires Canonical(s)
    ensures NatToString(ParseNat(s)) == s
    decreases |s|
  {
    var n := ParseNat(s);
    if |s| == 1 {
      assert s == [DigitChar(DigitValue(s[0]))];
    } else {
      var prefix := s[..|s| - 1];
      assert prefix[0] == s[0];
      assert s[0] != '0';
      ParsePositive(prefix);
      NatToStringParse(prefix);
      var last := DigitValue(s[|s| - 1]);
      assert n / 10 == ParseNat(prefix) && n % 10 == last;
      assert s == prefix + [DigitChar(last)];
    }
  }

  /** A digit string that does not start with zero denotes a positive
      number. */
  lemma {:induction false} ParsePositive(s: string)
    requires 0 < |s| && AllDigits(s) && s[0] != '0'
    ensures ParseNat(s) > 0
    decreases |s|
  {
    if |s| > 1 {
      var prefix := s[..|s| - 1];
      assert prefix[0] == s[0];
      ParsePositive(prefix);
    }
  }
}
