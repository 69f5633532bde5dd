/**
 * Divisibility on the integers, in the form Python's `x % d == 0` test takes
 * for a positive divisor `d`, and the greatest common divisor stated
 * declaratively. The brute-force `gcd` and the Euclid reference are both
 * judged against `IsGcd`.
 */
module Divisibility {

  /** `d` is a positive divisor of `n`: the test `n % d == 0` with `d > 0`. */
  predicate Divides(d: int, n: int) {
    d > 0 && n % d == 0
  }

  /** `d` divides both numbers of the pair: `a % d == 0 and b % d == 0`. */
  predicate IsCommonDivisor(d: int, a: int, b: int) {
    Divides(d, a) && Divides(d, b)
  }

  /** `g` is a common divisor of `a` and `b` and no common divisor exceeds it. */
  ghost predicate IsGcd(g: int, a: int, b: int) {
    IsCommonDivisor(g, a, b) && forall d :: IsCommonDivisor(d, a, b) ==> d <= g
  }

  /** How a multiple `d * e` of a positive `d` compares with `d`, by the sign of `e`. */
  lemma MultipleBounds(d: int, e: int)
    requires d > 0
    ensures e >= 1 ==> d * e >= d
    ensures e == 0 ==> d * e == 0
    ensures e <= -1 ==> d * e <= -d
  {
    if e >= 1 {
      assert d * e == d + d * (e - 1);
    } else if e <= -1 {
      assert d * e == -d + d * (e + 1);
    }
  }

  /** Every positive number divides each of its multiples. */
  lemma DividesMultiple(d: int, m: int)
    requires d > 0
    ensures Divides(d, d * m)
  {
    var t := d * m;
    var q, r := t / d, t % d;
    assert t == d * q + r && 0 <= r < d;
    assert d * (m - q) == r by {
      assert d * m - d * q == d * (m - q);
    }
    MultipleBounds(d, m - q);
  }

  /** A positive divisor of both `x` and `y` divides every combination `p*x + q*y`. */
  lemma DividesCombination(d: int, x: int, y: int, p: int, q: int)
    requires Divides(d, x) && Divides(d, y)
    ensures Divides(d, p * x + q * y)
  {
    var x', y' := x / d, y / d;
    assert x == d * x' && y == d * y';
    assert p * x + q * y == d * (p * x' + q * y') by {
      calc {
        p * x + q * y;
        p * (d * x') + q * (d * y');
        d * (p * x') + d * (q * y');
        d * (p * x' + q * y');
      }
    }
    DividesMultiple(d, p * x' + q * y');
  }

  /** A divisor of a positive number is at most that number. */
  lemma DivisorAtMost(d: int, n: int)
    requires n > 0 && Divides(d, n)
    ensures d <= n
  {
    var k := n / d;
    assert n == d * k;
    MultipleBounds(d, k);
  }

  /**
   * A divisor of a positive number `n` other than `n` itself is at most
   * `n / 2` (floor division): the cofactor is at least 2. This is why a
   * downward scan that starts at `n / 2` after testing `n` misses no divisor.
   */
  lemma ProperDivisorAtMostHalf(d: int, n: int)
    requires n > 0 && Divides(d, n) && d != n
    ensures d <= n / 2
  {
    var k := n / d;
    assert n == d * k;
    MultipleBounds(d, k);
    MultipleBounds(d, k - 1);
    assert d * k == d + d * (k - 1);
  }

  /** The greatest common divisor is unique. */
  lemma GcdUnique(g1: int, g2: int, a: int, b: int)
    requires IsGcd(g1, a, b) && IsGcd(g2, a, b)
    ensures g1 == g2
  {
  }

  /** `IsGcd` does not depend on the order of the pair. */
  lemma IsGcdSymmetric(g: int, a: int, b: int)
    requires IsGcd(g, a, b)
    ensures IsGcd(g, b, a)
  {
    forall d | IsCommonDivisor(d, b, a)
      ensures d <= g
    {
      assert IsCommonDivisor(d, a, b);
    }
  }
}
