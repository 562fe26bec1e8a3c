/**
 * Exact decimal money. Amounts are `real` numbers: every decimal the ledger
 * holds is a rational, and addition, subtraction, negation and comparison of
 * rationals are exact, as they are for arbitrary-precision decimals.
 * The only rounding the core performs is banker's rounding to two places.
 */
module Money {

  /** True when `x` is a whole number of cents (two decimal places). */
  predicate IsCents(x: real) {
    (x * 100.0).Floor as real == x * 100.0
  }

  /** The integer nearest to `x`; a tie goes to the even neighbour. */
  function RoundHalfEven(x: real): (n: int)
    ensures -0.5 <= x - n as real <= 0.5
    ensures (x - n as real == 0.5 || n as real - x == 0.5) ==> n % 2 == 0
  {
    var f := x.Floor;
    var frac := x - f as real;
    if frac < 0.5 then f
    else if frac > 0.5 then f + 1
    else if f % 2 == 0 then f
    else f + 1
  }

  /** The two properties of RoundHalfEven's contract pin its result down: no other integer has them. */
  lemma RoundHalfEvenUnique(x: real, m: int)
    requires -0.5 <= x - m as real <= 0.5
    requires (x - m as real == 0.5 || m as real - x == 0.5) ==> m % 2 == 0
    ensures m == RoundHalfEven(x)
  {
  }

  /**
   * `r` is `x` rounded to two decimal places, half to even: a whole number of
   * cents within half a cent of `x`, and an even number of cents on a tie.
   */
  predicate RoundedToCents(x: real, r: real) {
    && IsCents(r)
    && -0.005 <= x - r <= 0.005
    && ((x - r == 0.005 || r - x == 0.005) ==> (r * 100.0).Floor % 2 == 0)
  }

  /** `RoundBank(2)`: round to two decimal places, half to even. */
  function RoundBank2(x: real): (r: real)
    ensures RoundedToCents(x, r)
  {
    var n := RoundHalfEven(x * 100.0);
    CentsOfNearest(x, n, n as real / 100.0);
    n as real / 100.0
  }

  /** Scaling back by 100 turns the nearest whole number of hundredths into the nearest cents. */
  lemma CentsOfNearest(x: real, n: int, r: real)
    requires -0.5 <= x * 100.0 - n as real <= 0.5
    requires (x * 100.0 - n as real == 0.5 || n as real - x * 100.0 == 0.5) ==> n % 2 == 0
    requires r == n as real / 100.0
    ensures RoundedToCents(x, r)
  {
    assert r * 100.0 == n as real;
    assert (r * 100.0).Floor == n;
    assert x * 100.0 - n as real == (x - r) * 100.0;
  }

  /** The rounding rule admits one result: any amount that meets it is `RoundBank2(x)`. */
  lemma RoundBank2Unique(x: real, m: real)
    requires RoundedToCents(x, m)
    ensures m == RoundBank2(x)
  {
    var n := (m * 100.0).Floor;
    assert m * 100.0 == n as real;
    assert x * 100.0 - n as real == (x - m) * 100.0;
    RoundHalfEvenUnique(x * 100.0, n);
  }

  /** Rounding leaves an amount that already has at most two decimals unchanged. */
  lemma RoundBank2OfCents(x: real)
    requires IsCents(x)
    ensures RoundBank2(x) == x
  {
    var n := (x * 100.0).Floor;
    RoundHalfEvenUnique(x * 100.0, n);
  }

  /** Rounding twice is rounding once. */
  lemma RoundBank2Idempotent(x: real)
    ensures RoundBank2(RoundBank2(x)) == RoundBank2(x)
  {
    RoundBank2OfCents(RoundBank2(x));
  }

  /** Whole cents are closed under addition and subtraction. */
  lemma CentsClosed(a: real, b: real)
    requires IsCents(a) && IsCents(b)
    ensures IsCents(a + b) && IsCents(a - b)
  {
    var m, k := (a * 100.0).Floor, (b * 100.0).Floor;
    assert a * 100.0 == m as real && b * 100.0 == k as real;
    assert (a + b) * 100.0 == a * 100.0 + b * 100.0 == (m + k) as real;
    assert (a - b) * 100.0 == a * 100.0 - b * 100.0 == (m - k) as real;
    assert ((m + k) as real).Floor == m + k && ((m - k) as real).Floor == m - k;
  }
}
