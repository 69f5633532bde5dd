/**
 * The scripts' workload: `gcd` mapped over the list `numbers` of pairs.
 * `MapGcd` is the single-threaded `list(map(gcd, numbers))`; the executor
 * `map` is documented to return its results in the same order as its input,
 * so it is modelled by the same function.
 */
module Driver {
  import opened Divisibility
  import opened PairGcd
  import Euclid

  /** Every pair in the list is a valid argument of `gcd`. */
  predicate AllPositive(numbers: seq<(int, int)>) {
    forall i :: 0 <= i < |numbers| ==> Positive(numbers[i])
  }

  /**
   * `list(map(gcd, numbers))`: one result per pair, in the order of the
   * pairs.
   */
  function MapGcd(numbers: seq<(int, int)>): (results: seq<Option<int>>)
    requires AllPositive(numbers)
    ensures |results| == |numbers|
    ensures forall i :: 0 <= i < |numbers| ==> results[i] == GcdOf(numbers[i])
  {
    if numbers == [] then []
    else [GcdOf(numbers[0])] + MapGcd(numbers[1..])
  }

  /**
   * The ordered-results promise: entry `i` of the mapped list is present
   * and is the greatest common divisor of pair `i`, so each result sits at
   * the position of the pair it was computed from.
   */
  lemma MapGcdInOrder(numbers: seq<(int, int)>, i: int)
    requires AllPositive(numbers) && 0 <= i < |numbers|
    ensures |MapGcd(numbers)| == |numbers|
    ensures MapGcd(numbers)[i].Some?
    ensures IsGcd(MapGcd(numbers)[i].value, numbers[i].0, numbers[i].1)
    ensures MapGcd(numbers)[i].value == Euclid.Gcd(numbers[i].0, numbers[i].1)
  {
    GcdOfAgreesWithEuclid(numbers[i]);
  }
}
