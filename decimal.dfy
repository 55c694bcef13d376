/**
 * Decimal rendering of integers, as JavaScript's template literals print
 * them (`${n}`): the digits without leading zeros, a leading "-" when
 * negative. Used for the `group-<n>` ids and the numbers of the summaries.
 */
module Decimal {

  function Digit(d: nat): (c: char)
    requires d < 10
    ensures '0' <= c <= '9'
  {
    "0123456789"[d]
  }

  predicate IsDigits(s: string)
  {
    forall i :: 0 <= i < |s| ==> '0' <= s[i] <= '9'
  }

  function NatToString(n: nat): (s: string)
    ensures |s| >= 1 && IsDigits(s)
    ensures (|s| == 1) == (n < 10)
    ensures s[0] != '0' || n == 0
  {
    if n < 10 then [Digit(n)] else NatToString(n / 10) + [Digit(n % 10)]
  }

  function IntToString(i: int): (s: string)
    ensures |s| >= 1
    ensures (s[0] == '-') == (i < 0)
  {
    if i < 0 then "-" + NatToString(-i) else NatToString(i)
  }

  /** Distinct digits print differently. */
  lemma DigitInjective(a: nat, b: nat)
    requires a < 10 && b < 10 && Digit(a) == Digit(b)
    ensures a == b
  {
  }

  /** Two numbers print the same only when they are equal. */
  lemma {:induction false} NatToStringInjective(a: nat, b: nat)
    requires NatToString(a) == NatToString(b)
    ensures a == b
  {
    if a >= 10 && b >= 10 {
      var s, t := NatToString(a), NatToString(b);
      assert s == NatToString(a / 10) + [Digit(a % 10)];
      assert t == NatToString(b / 10) + [Digit(b % 10)];
      assert s[..|s| - 1] == NatToString(a / 10);
      assert t[..|t| - 1] == NatToString(b / 10);
      NatToStringInjective(a / 10, b / 10);
      assert s[|s| - 1] == Digit(a % 10) && t[|t| - 1] == Digit(b % 10);
      DigitInjective(a % 10, b % 10);
    } else if a < 10 && b < 10 {
      assert NatToString(a)[0] == Digit(a) && NatToString(b)[0] == Digit(b);
      DigitInjective(a, b);
    }
  }

  /** Only negative numbers print a leading "-". */
  lemma SameSign(a: int, b: int)
    requires IntToString(a) == IntToString(b)
    ensures (a < 0) == (b < 0)
  {
    assert IntToString(a)[0] == IntToString(b)[0];
  }

  /** Negative numbers print as "-" and their magnitude, so the magnitudes print alike. */
  lemma NegativeMagnitudes(a: int, b: int)
    requires a < 0 && b < 0 && IntToString(a) == IntToString(b)
    ensures NatToString(-a) == NatToString(-b)
  {
    var s, t := NatToString(-a), NatToString(-b);
    assert s == ("-" + s)[1..];
    assert t == ("-" + t)[1..];
  }

  /** Integers, too, print differently when they differ. */
  lemma IntToStringInjective(a: int, b: int)
    requires IntToString(a) == IntToString(b)
    ensures a == b
  {
    SameSign(a, b);
    if a < 0 {
      NegativeMagnitudes(a, b);
      NatToStringInjective(-a, -b);
    } else {
      NatToStringInjective(a, b);
    }
  }
}
