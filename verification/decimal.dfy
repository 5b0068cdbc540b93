/** Decimal rendering of integers, as Rust's `{}` / `to_string()` and C++'s
    `std::to_string` produce it, together with the reading back of digit strings. */
module Decimal {

  predicate IsDigit(c: char)
  {
    '0' <= c <= '9'
  }

  predicate AllDigits(s: string)
  {
    forall i :: 0 <= i < |s| ==> IsDigit(s[i])
  }

  /** A digit string without superfluous leading zeros: what a formatter emits. */
  predicate Canonical(s: string)
  {
    |s| >= 1 && AllDigits(s) && (s[0] == '0' ==> |s| == 1)
  }

  function DigitChar(d: nat): (c: char)
    requires d < 10
    ensures IsDigit(c)
  {
    (('0' as int) + d) as char
  }

  function DigitValue(c: char): (d: nat)
    requires IsDigit(c)
    ensures d < 10
  {
    (c as int) - ('0' as int)
  }

  /** The decimal numeral of `n`, most significant digit first. */
  function NatToString(n: nat): (s: string)
    ensures Canonical(s)
    decreases n
  {
    if n < 10 then [DigitChar(n)] else NatToString(n / 10) + [DigitChar(n % 10)]
  }

  /** Signed rendering: a minus sign in front of the magnitude for negatives. */
  function IntToString(i: int): (s: string)
    ensures i >= 0 ==> Canonical(s)
    ensures i < 0 ==> |s| >= 2 && s[0] == '-' && Canonical(s[1..])
    ensures i >= 0 ==> Value(s) == i
    ensures i < 0 ==> Value(s[1..]) == -i
  {
    if i < 0 then
      ValueOfNatToString(-i);
      var s := "-" + NatToString(-i);
      assert s[1..] == NatToString(-i);
      s
    else
      ValueOfNatToString(i);
      NatToString(i)
  }

  /** The number a digit string denotes (leading zeros allowed). */
  function Value(s: string): nat
    requires AllDigits(s)
    decreases |s|
  {
    if |s| == 0 then 0 else Value(s[..|s| - 1]) * 10 + DigitValue(s[|s| - 1])
  }

  /** Reading back what the formatter wrote gives the number again. */
  lemma {:induction false} ValueOfNatToString(n: nat)
    ensures Value(NatToString(n)) == n
    decreases n
  {
    if n >= 10 {
      var s := NatToString(n);
      ValueOfNatToString(n / 10);
      assert s[..|s| - 1] == NatToString(n / 10);
    }
  }

  /** ...and formatting the value of a canonical digit string gives the string again,
      so `NatToString` is a bijection between naturals and canonical numerals. */
  lemma {:induction false} NatToStringOfValue(s: string)
    requires Canonical(s)
    ensures NatToString(Value(s)) == s
    decreases |s|
  {
    if |s| > 1 {
      var init := s[..|s| - 1];
      assert init[0] == s[0];
      NatToStringOfValue(init);
      ValueLowerBound(init);
      var last := DigitValue(s[|s| - 1]);
      assert Value(s) / 10 == Value(init) && Value(s) % 10 == last;
      assert s == init + [s[|s| - 1]];
    } else {
      assert s == [DigitChar(DigitValue(s[0]))];
    }
  }

  /** A canonical numeral of two or more digits denotes at least 10. */
  lemma {:induction false} ValueLowerBound(s: string)
    requires Canonical(s)
    ensures |s| >= 2 ==> Value(s) >= 10
    ensures |s| == 1 ==> Value(s) < 10
    decreases |s|
  {
    if |s| > 2 {
      var init := s[..|s| - 1];
      assert init[0] == s[0];
      ValueLowerBound(init);
    } else if |s| == 2 {
      assert s[..1] == [s[0]];
      assert Value(s[..1]) == DigitValue(s[0]) by {
        assert s[..1][..0] == [];
      }
    }
  }

  /** Distinct numbers render differently. */
  lemma NatToStringInjective(m: nat, n: nat)
    requires NatToString(m) == NatToString(n)
    ensures m == n
  {
    ValueOfNatToString(m);
    ValueOfNatToString(n);
  }
}
