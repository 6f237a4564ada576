/**
 * Decimal text of integers, as Python's `str(int)` writes it: the handles of
 * the registry are `str(n)` of positive integers, and stock quantities are
 * printed the same way. DecimalValue reads such text back; the round trips
 * in both directions make the text form injective.
 */
module Decimal {

  predicate IsDigit(c: char) {
    '0' <= c <= '9'
  }

  function DigitChar(d: nat): (c: char)
    requires d < 10
    ensures IsDigit(c)
  {
    "0123456789"[d]
  }

  function DigitValue(c: char): (d: nat)
    requires IsDigit(c)
    ensures d < 10
  {
    c as int - '0' as int
  }

  predicate AllDigits(s: string) {
    forall i :: 0 <= i < |s| ==> IsDigit(s[i])
  }

  /** The form `str(n)` has for n >= 0: digits only, and no leading zero except in "0" itself. */
  predicate IsCanonical(s: string) {
    |s| >= 1 && AllDigits(s) && (|s| > 1 ==> s[0] != '0')
  }

  /** `str(n)` for a non-negative integer n. */
  function NatToDecimal(n: nat): (s: string)
    ensures IsCanonical(s)
    ensures s[0] == '0' ==> n == 0
    decreases n
  {
    if n < 10 then [DigitChar(n)]
    else NatToDecimal(n / 10) + [DigitChar(n % 10)]
  }

  /** `str(q)` for any integer q: a minus sign in front of a negative one. */
  function IntToDecimal(q: int): (s: string)
    ensures |s| >= 1
  {
    if q < 0 then "-" + NatToDecimal(-q) else NatToDecimal(q)
  }

  /** The number a string of decimal digits denotes (0 for the empty string). */
  function DecimalValue(s: string): nat
    requires AllDigits(s)
  {
    if s == [] then 0
    else 10 * DecimalValue(s[..|s| - 1]) + DigitValue(s[|s| - 1])
  }

  /** The number a text written by IntToDecimal denotes. */
  function IntValue(s: string): int
    requires |s| >= 1
    requires s[0] == '-' ==> AllDigits(s[1..])
    requires s[0] != '-' ==> AllDigits(s)
  {
    if s[0] == '-' then -(DecimalValue(s[1..]) as int) else DecimalValue(s)
  }

  lemma {:induction false} DecimalValueOfNatToDecimal(n: nat)
    ensures DecimalValue(NatToDecimal(n)) == n
    decreases n
  {
    var s := NatToDecimal(n);
    if n < 10 {
      assert s[..0] == [];
    } else {
      DecimalValueOfNatToDecimal(n / 10);
      assert s[..|s| - 1] == NatToDecimal(n / 10);
    }
  }

  lemma {:induction false} IntValueOfIntToDecimal(q: int)
    ensures var s := IntToDecimal(q);
      (s[0] == '-' ==> AllDigits(s[1..])) && (s[0] != '-' ==> AllDigits(s)) &&
      IntValue(s) == q
  {
    var s := IntToDecimal(q);
    if q < 0 {
      var t := NatToDecimal(-q);
      assert s == "-" + t;
      assert s[0] == '-' && s[1..] == t;
      DecimalValueOfNatToDecimal(-q);
    } else {
      var t := NatToDecimal(q);
      assert s == t && IsDigit(t[0]);
      DecimalValueOfNatToDecimal(q);
    }
  }

  lemma {:induction false} LeadingNonZeroIsPositive(s: string)
    requires |s| >= 1 && AllDigits(s) && s[0] != '0'
    ensures DecimalValue(s) >= 1
    decreases |s|
  {
    if |s| > 1 {
      LeadingNonZeroIsPositive(s[..|s| - 1]);
    }
  }

  /** Every canonical digit string is the text of the number it denotes. */
  lemma {:induction false} NatToDecimalOfDecimalValue(s: string)
    requires IsCanonical(s)
    ensures NatToDecimal(DecimalValue(s)) == s
    decreases |s|
  {
    var d := DigitValue(s[|s| - 1]);
    if |s| == 1 {
      assert s[..0] == [];
      assert "0123456789"[d] == s[0];
    } else {
      var p := s[..|s| - 1];
      NatToDecimalOfDecimalValue(p);
      LeadingNonZeroIsPositive(p);
      var v := DecimalValue(s);
      assert v == 10 * DecimalValue(p) + d;
      assert v / 10 == DecimalValue(p) && v % 10 == d;
      assert "0123456789"[d] == s[|s| - 1];
      assert s == p + [s[|s| - 1]];
    }
  }

  /** Distinct numbers have distinct texts. */
  lemma NatToDecimalInjective(a: nat, b: nat)
    ensures NatToDecimal(a) == NatToDecimal(b) ==> a == b
  {
    DecimalValueOfNatToDecimal(a);
    DecimalValueOfNatToDecimal(b);
  }
}
