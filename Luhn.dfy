/**
 The mod-10 check-digit formula of ISO/IEC 7812-1 Annex B (the Luhn formula),
 as MagParse.luhnCheck computes it: walking from the rightmost digit, every
 second digit is doubled, a doubled value above 9 becomes (n % 10) + 1, and the
 number passes when the total is a multiple of 10.
 */
module Luhn {
  import opened Chars

  /** The contribution of one digit; doubled for the 2nd, 4th, ... digit from the right. */
  function LuhnTerm(n: nat, doubled: bool): (r: nat)
    requires n <= 9
    ensures r <= 9
  {
    if doubled then (if 2 * n > 9 then (2 * n) % 10 + 1 else 2 * n) else n
  }

  /**
   The sum of the contributions of all digits of d. The first digit of d is
   |d| - 1 places from the right end, so it is doubled when that distance is odd.
   */
  function LuhnSum(d: string): (r: nat)
    requires AllDigits(d)
    decreases |d|
  {
    if |d| == 0 then 0
    else LuhnTerm(DigitValue(d[0]), (|d| - 1) % 2 == 1) + LuhnSum(d[1..])
  }

  predicate LuhnValid(d: string)
    requires AllDigits(d)
  {
    LuhnSum(d) % 10 == 0
  }

  // ---------------------------------------------------------------------
  // Properties

  /**
   The doubled contribution is the sum of the decimal digits of the product,
   which is how Annex B of ISO/IEC 7812-1 states the formula: for 0..4 the
   product itself, for 5..9 the product less 9.
   */
  lemma LuhnTermIsDigitSum(n: nat)
    requires n <= 9
    ensures LuhnTerm(n, true) == (2 * n) / 10 + (2 * n) % 10
    ensures LuhnTerm(n, true) == if n <= 4 then 2 * n else 2 * n - 9
  {
  }

  /** For a fixed position, different digits contribute different amounts, all at most 9. */
  lemma LuhnTermInjective(a: nat, b: nat, doubled: bool)
    requires a <= 9 && b <= 9 && a != b
    ensures LuhnTerm(a, doubled) != LuhnTerm(b, doubled)
    ensures LuhnTerm(a, doubled) <= 9 && LuhnTerm(b, doubled) <= 9
  {
    LuhnTermIsDigitSum(a);
    LuhnTermIsDigitSum(b);
  }

  /** Two digit strings that differ at position k only: their sums differ by the two contributions there. */
  lemma {:induction false} LuhnSumDifference(d: string, e: string, k: nat)
    requires AllDigits(d) && AllDigits(e) && |d| == |e| && k < |d|
    requires forall j :: 0 <= j < |d| && j != k ==> d[j] == e[j]
    ensures LuhnSum(d) - LuhnSum(e) ==
              LuhnTerm(DigitValue(d[k]), (|d| - 1 - k) % 2 == 1) - LuhnTerm(DigitValue(e[k]), (|d| - 1 - k) % 2 == 1)
    decreases |d|
  {
    if k == 0 {
      assert d[1..] == e[1..];
    } else {
      assert d[0] == e[0];
      LuhnSumDifference(d[1..], e[1..], k - 1);
    }
  }

  /**
   A single mistyped digit is always caught: if a number passes the check, no
   number that differs from it in exactly one digit passes.
   */
  lemma SingleDigitErrorDetected(d: string, e: string, k: nat)
    requires AllDigits(d) && AllDigits(e) && |d| == |e| && k < |d|
    requires d[k] != e[k] && forall j :: 0 <= j < |d| && j != k ==> d[j] == e[j]
    ensures LuhnValid(d) ==> !LuhnValid(e)
  {
    var doubled := (|d| - 1 - k) % 2 == 1;
    LuhnSumDifference(d, e, k);
    assert DigitValue(d[k]) != DigitValue(e[k]);
    LuhnTermInjective(DigitValue(d[k]), DigitValue(e[k]), doubled);
    MultiplesOfTenApart(LuhnSum(d), LuhnSum(e));
  }

  /** Two multiples of 10 that differ are at least 10 apart. */
  lemma MultiplesOfTenApart(x: int, y: int)
    requires x != y && -10 < x - y < 10
    ensures x % 10 != 0 || y % 10 != 0
  {
  }

  /** Each digit adds at most 9. */
  lemma {:induction false} LuhnSumBound(d: string)
    requires AllDigits(d)
    ensures LuhnSum(d) <= 9 * |d|
    decreases |d|
  {
    if |d| > 0 {
      LuhnTermIsDigitSum(DigitValue(d[0]));
      LuhnSumBound(d[1..]);
    }
  }

  /** A run of n ones sums to n plus the number of doubled places, n / 2. */
  lemma {:induction false} OnesSum(n: nat)
    ensures AllDigits(seq(n, _ => '1')) && LuhnSum(seq(n, _ => '1')) == n + n / 2
  {
    var d := seq(n, _ => '1');
    if n > 0 {
      var rest := seq(n - 1, _ => '1');
      assert d[1..] == rest;
      OnesSum(n - 1);
      assert d[0] == '1' && DigitValue(d[0]) == 1;
      var doubled := (n - 1) % 2 == 1;
      assert LuhnSum(d) == LuhnTerm(1, doubled) + LuhnSum(rest);
      assert n / 2 == (n - 1) / 2 + (if doubled then 1 else 0);
    }
  }

  /** A 4 followed by fifteen 1s: 8 for the doubled 4, then 15 + 7 for the ones. */
  lemma FourThenOnes()
    ensures var d := ['4'] + seq(15, _ => '1'); AllDigits(d) && LuhnValid(d)
  {
    var ones := seq(15, _ => '1');
    OnesSum(15);
    var d := ['4'] + ones;
    assert d[1..] == ones;
  }

  /** The test card number 4111 1111 1111 1111 passes. */
  lemma TestCardPasses()
    ensures AllDigits("4111111111111111") && LuhnValid("4111111111111111")
  {
    FourThenOnes();
    var d := ['4'] + seq(15, _ => '1');
    var lit := "4111111111111111";
    assert lit == d by {
      forall i | 0 <= i < 16 ensures lit[i] == d[i] { }
    }
  }
}
