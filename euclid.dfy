/**
 * Euclid's algorithm, an independent reference definition of the greatest
 * common divisor. It is not part of the modelled program; the brute-force
 * `gcd` is proved to agree with it.
 */
module Euclid {
  import opened Divisibility

  /** Euclid's remainder recursion: gcd(a, 0) = a, gcd(a, b) = gcd(b, a mod b). */
  function Gcd(a: nat, b: nat): (r: nat)
    decreases b
  {
    if b == 0 then a else Gcd(b, a % b)
  }

  /** Replacing `a` by `a % b` keeps the set of common divisors. */
  lemma CommonDivisorsOfRemainder(d: int, a: int, b: int)
    requires b > 0
    ensures IsCommonDivisor(d, a, b) <==> IsCommonDivisor(d, b, a % b)
  {
    var q := a / b;
    assert a == q * b + a % b;
    if IsCommonDivisor(d, a, b) {
      DividesCombination(d, a, b, 1, -q);
      assert 1 * a + -q * b == a % b;
    }
    if IsCommonDivisor(d, b, a % b) {
      DividesCombination(d, b, a % b, q, 1);
      assert q * b + 1 * (a % b) == a;
    }
  }

  /** Euclid's algorithm computes the greatest common divisor of a positive `a` and any `b`. */
  lemma {:induction false} GcdIsGcd(a: nat, b: nat)
    requires a > 0
    ensures Gcd(a, b) > 0
    ensures IsGcd(Gcd(a, b), a, b)
    decreases b
  {
    if b == 0 {
      forall d | IsCommonDivisor(d, a, b)
        ensures d <= a
      {
        DivisorAtMost(d, a);
      }
    } else {
      GcdIsGcd(b, a % b);
      forall d
        ensures IsCommonDivisor(d, a, b) <==> IsCommonDivisor(d, b, a % b)
      {
        CommonDivisorsOfRemainder(d, a, b);
      }
    }
  }
}
