/**
 * The brute-force greatest common divisor `gcd(pair)` that both example
 * scripts hand to their executors (the two copies are identical).
 *
 * `GcdOf` is the function the Python code computes, including the `None`
 * it would return if its loop ran out of candidates; `Gcd` is the same code
 * as an imperative method with the descending loop. The lemmas prove that
 * for positive inputs the result is always present and is the greatest
 * common divisor, that it agrees with Euclid's algorithm, and that it does
 * not depend on the order of the pair.
 */
module PairGcd {
  import opened Divisibility
  import Euclid

  datatype Option<T> = None | Some(value: T)

  /** Python's `min(a, b)`. */
  function Min(a: int, b: int): (m: int)
    ensures m <= a && m <= b
    ensures m == a || m == b
  {
    if a <= b then a else b
  }

  /**
   * What the model asks of `gcd`'s argument: both numbers positive, as in
   * every pair the scripts pass. The source itself fails only when
   * `min(a, b)` is 0 (the test `a % low` raises ZeroDivisionError); when
   * `min(a, b)` is negative the scan from `low // 2` is empty, so `gcd`
   * returns `min(a, b)` if it divides both numbers and `None` otherwise.
   */
  predicate Positive(pair: (int, int)) {
    pair.0 > 0 && pair.1 > 0
  }

  /**
   * The descending scan over the candidates `i, i - 1, .., 1` that stops at
   * the first one dividing both numbers, with `None` when every candidate
   * fails. It returns the largest common divisor in `1 .. i`, and `None`
   * exactly when there is none.
   */
  function ScanDown(a: int, b: int, i: int): (r: Option<int>)
    ensures r.Some? ==> 1 <= r.value <= i && IsCommonDivisor(r.value, a, b)
    ensures r.Some? ==> forall d :: r.value < d <= i ==> !IsCommonDivisor(d, a, b)
    ensures r.None? ==> forall d :: 1 <= d <= i ==> !IsCommonDivisor(d, a, b)
    decreases i
  {
    if i <= 0 then None
    else if a % i == 0 && b % i == 0 then Some(i)
    else ScanDown(a, b, i - 1)
  }

  /** Every common divisor of a positive pair is at most the smaller number. */
  lemma CommonDivisorsAtMostMin(a: int, b: int)
    requires a > 0 && b > 0
    ensures forall d :: IsCommonDivisor(d, a, b) ==> d <= Min(a, b)
  {
    forall d | IsCommonDivisor(d, a, b)
      ensures d <= Min(a, b)
    {
      DivisorAtMost(d, Min(a, b));
    }
  }

  /**
   * When `min(a, b)` is not a common divisor, every common divisor is at
   * most `min(a, b) // 2`: the scan starts at the right place.
   */
  lemma CommonDivisorsAtMostHalfMin(a: int, b: int)
    requires a > 0 && b > 0
    requires !IsCommonDivisor(Min(a, b), a, b)
    ensures forall d :: IsCommonDivisor(d, a, b) ==> d <= Min(a, b) / 2
  {
    forall d | IsCommonDivisor(d, a, b)
      ensures d <= Min(a, b) / 2
    {
      ProperDivisorAtMostHalf(d, Min(a, b));
    }
  }

  /**
   * `gcd(pair)` as a value: test `low = min(a, b)` first, then scan from
   * `low // 2` downward; `None` stands for Python's implicit return at the
   * end of the loop. For a positive pair the result is always present (the
   * scan never runs out, since 1 divides everything), lies in
   * `1 .. min(a, b)`, is `min(a, b)` itself when that divides both, and is
   * the greatest common divisor.
   */
  function GcdOf(pair: (int, int)): (r: Option<int>)
    requires Positive(pair)
    ensures r.Some?
    ensures 1 <= r.value <= Min(pair.0, pair.1)
    ensures IsCommonDivisor(Min(pair.0, pair.1), pair.0, pair.1) ==>
              r == Some(Min(pair.0, pair.1))
    ensures IsGcd(r.value, pair.0, pair.1)
  {
    var (a, b) := pair;
    var low := Min(a, b);
    if a % low == 0 && b % low == 0 then
      CommonDivisorsAtMostMin(a, b);
      Some(low)
    else
      CommonDivisorsAtMostHalfMin(a, b);
      assert IsCommonDivisor(1, a, b);
      ScanDown(a, b, low / 2)
  }

  /** `gcd((a, b)) == gcd((b, a))`. */
  lemma GcdOfSymmetric(a: int, b: int)
    requires a > 0 && b > 0
    ensures GcdOf((a, b)) == GcdOf((b, a))
  {
    IsGcdSymmetric(GcdOf((a, b)).value, a, b);
    GcdUnique(GcdOf((a, b)).value, GcdOf((b, a)).value, b, a);
  }

  /** The brute-force scan computes what Euclid's algorithm computes. */
  lemma GcdOfAgreesWithEuclid(pair: (int, int))
    requires Positive(pair)
    ensures GcdOf(pair) == Some(Euclid.Gcd(pair.0, pair.1))
  {
    Euclid.GcdIsGcd(pair.0, pair.1);
    GcdUnique(GcdOf(pair).value, Euclid.Gcd(pair.0, pair.1), pair.0, pair.1);
  }

  /**
   * `gcd(pair)` with its descending loop. No candidate above `i` and at
   * most `low // 2` divides both numbers; every candidate above `low // 2`
   * other than `low` fails by `ProperDivisorAtMostHalf`, so the first hit is
   * the greatest common divisor.
   */
  method Gcd(pair: (int, int)) returns (r: Option<int>)
    requires Positive(pair)
    ensures r.Some? && IsGcd(r.value, pair.0, pair.1)
    ensures 1 <= r.value <= Min(pair.0, pair.1)
    ensures IsCommonDivisor(Min(pair.0, pair.1), pair.0, pair.1) ==>
              r == Some(Min(pair.0, pair.1))
    ensures r == GcdOf(pair)
  {
    var (a, b) := pair;
    var low := Min(a, b);
    if a % low == 0 && b % low == 0 {
      CommonDivisorsAtMostMin(a, b);
      return Some(low);
    }
    var start := low / 2;
    var i := start;
    while i > 0
      invariant 0 <= i <= start
      invariant forall d :: i < d <= start ==> !IsCommonDivisor(d, a, b)
      invariant ScanDown(a, b, i) == ScanDown(a, b, start)
      decreases i
    {
      if a % i == 0 && b % i == 0 {
        CommonDivisorsAtMostHalfMin(a, b);
        return Some(i);
      }
      i := i - 1;
    }
    // The range is exhausted only if 1 were not a common divisor.
    assert IsCommonDivisor(1, a, b);
    assert false;
    return None;
  }
}
