/**
 * The parts of the `rand` crate the samplers rely on, reduced to their contracts.
 *
 * A uniform draw `gen_range(lo..hi)` is not modelled as a computation: the samplers take the
 * generator's answers as sequences, and require each answer to lie in the half-open range its
 * call asks for. `WeightedIndex` is modelled by its constructor's validity check and by the
 * categorical choice it makes from one uniform draw in `[0, total)`.
 */
module Distributions {
  import opened Wrappers

  /** The weight of the first `r` entries of `w`, added left to right. */
  function Cumulative(w: seq<real>, r: nat): real
    requires r <= |w|
  {
    if r == 0 then 0.0 else Cumulative(w, r - 1) + w[r - 1]
  }

  /** The total weight. */
  function Sum(w: seq<real>): real
  {
    Cumulative(w, |w|)
  }

  /** Every weight is at least zero. */
  predicate NonNegative(w: seq<real>)
  {
    forall t :: 0 <= t < |w| ==> 0.0 <= w[t]
  }

  /** A cumulative weight of non-negative weights is non-negative. */
  lemma {:induction false} CumulativeNonNegative(w: seq<real>, r: nat)
    requires r <= |w| && NonNegative(w)
    ensures 0.0 <= Cumulative(w, r)
  {
    if r > 0 {
      CumulativeNonNegative(w, r - 1);
    }
  }

  /** Why `WeightedIndex::new` refuses a weight sequence. */
  datatype WeightedError = NoItem | InvalidWeight | AllWeightsZero

  /** A valid categorical distribution over the indices of `weights`; `total` is their sum. */
  datatype WeightedIndex = WeightedIndex(weights: seq<real>, total: real)
  {
    /** `sample`: the index whose cumulative-weight interval holds the uniform draw `u`. */
    function Sample(u: real): nat
      requires |weights| > 0
    {
      SampleFrom(weights, u, 0)
    }
  }

  /** The first index at or after `r` whose cumulative weight exceeds `u` (the last one if none does). */
  function SampleFrom(w: seq<real>, u: real, r: nat): nat
    requires r < |w|
    decreases |w| - r
  {
    if r == |w| - 1 || u < Cumulative(w, r + 1) then r else SampleFrom(w, u, r + 1)
  }

  /** The weights the constructor accepts: at least one, none negative, a positive sum. */
  predicate ValidWeights(w: seq<real>)
  {
    |w| > 0 && NonNegative(w) && 0.0 < Sum(w)
  }

  /**
   * `WeightedIndex::new`: no weights is `NoItem`, any negative weight is `InvalidWeight`, a zero
   * total is `AllWeightsZero`; otherwise the distribution over exactly these weights. It succeeds
   * exactly on valid weights, which is when the `unwrap` after it does not panic.
   */
  function New(w: seq<real>): (r: Result<WeightedIndex, WeightedError>)
    ensures r.Ok? <==> ValidWeights(w)
    ensures r.Ok? ==> r.value.weights == w && r.value.total == Sum(w)
    ensures r == Err(NoItem) <==> |w| == 0
    ensures r == Err(InvalidWeight) <==> |w| > 0 && !NonNegative(w)
    ensures r == Err(AllWeightsZero) <==> |w| > 0 && NonNegative(w) && Sum(w) <= 0.0
  {
    if |w| == 0 then Err(NoItem)
    else if exists t :: 0 <= t < |w| && w[t] < 0.0 then Err(InvalidWeight)
    else
      // With no negative weight the total is not negative, so a non-zero total is positive.
      CumulativeNonNegative(w, |w|);
      if Sum(w) == 0.0 then Err(AllWeightsZero)
      else Ok(WeightedIndex(w, Sum(w)))
  }

  /** Searching from `r`, where the draw is not below the cumulative weight of `w[..r]`. */
  lemma {:induction false} SampleFromInterval(w: seq<real>, u: real, r: nat)
    requires r < |w|
    requires Cumulative(w, r) <= u < Sum(w)
    ensures var s := SampleFrom(w, u, r);
      r <= s < |w| && Cumulative(w, s) <= u < Cumulative(w, s + 1)
    decreases |w| - r
  {
    if r < |w| - 1 && Cumulative(w, r + 1) <= u {
      SampleFromInterval(w, u, r + 1);
    }
  }

  /**
   * `sample` on a valid distribution, from a uniform draw in `[0, total)`: the index is in range,
   * its cumulative-weight interval holds the draw, and so its weight is positive (an index of
   * zero weight is never chosen).
   */
  lemma SampleInRange(w: seq<real>, u: real)
    requires New(w).Ok?
    requires 0.0 <= u < New(w).value.total
    ensures var s := New(w).value.Sample(u);
      s < |w| && Cumulative(w, s) <= u < Cumulative(w, s + 1) && 0.0 < w[s]
  {
    SampleFromInterval(w, u, 0);
  }
}
