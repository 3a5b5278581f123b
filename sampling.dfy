/**
 * The three single-pass samplers of `utils/sampling.rs`. Each writes into a caller-supplied
 * destination array in place and is proved against a specification function of the old
 * destination, the source and the generator's answers; the count it returns is in its `ensures`,
 * and the other properties the samplers promise are lemmas about those functions.
 *
 * The generator is an oracle: sequences of answers, each inside the half-open range its call asks
 * for (see `UniformDraws`, `WeightedDraws` and the draws of `ReplacementSamplingWeighted`). A
 * call on an empty range panics, and so do `unwrap` and the slice writes; those cases are
 * preconditions.
 */
module Sampling {
  import opened Distributions

  function Min(a: nat, b: nat): nat
  {
    if a < b then a else b
  }

  /** No value occurs twice. */
  predicate Distinct<T(==)>(s: seq<T>)
  {
    forall p, q :: 0 <= p < q < |s| ==> s[p] != s[q]
  }

  /** The index range `0..n`. */
  function Range(n: nat): seq<nat>
  {
    seq(n, t => t)
  }

  // ---------------------------------------------------------------------------------------------
  // Specification functions

  /** The fill phase of `reservoir_sampling`: the first `n` slots take the first `n` items. */
  function Fill<T>(d: seq<T>, src: seq<T>, n: nat): seq<T>
    requires n <= |d| && n <= |src|
  {
    src[..n] + d[n..]
  }

  /** Filling one more slot. */
  lemma FillStep<T>(d: seq<T>, src: seq<T>, n: nat)
    requires n < |d| && n < |src|
    ensures Fill(d, src, n)[n := src[n]] == Fill(d, src, n + 1)
  {
    assert src[..n + 1] == src[..n] + [src[n]];
  }

  /** One replacement decision: slot `j` takes `v` if `j` is a slot at all, otherwise nothing changes. */
  function Replace<T>(d: seq<T>, v: T, j: nat): (r: seq<T>)
    ensures |r| == |d|
  {
    if j < |d| then d[j := v] else d
  }

  /**
   * The replacement phase of `reservoir_sampling` over the `m` items `src[start..start + m]`:
   * the item at position `start + p` is offered to the slot `draws[p]`.
   */
  function ReplacePhase<T>(d: seq<T>, src: seq<T>, start: nat, draws: seq<nat>, m: nat): (r: seq<T>)
    requires start + m <= |src| && m <= |draws|
    ensures |r| == |d|
    decreases m
  {
    if m == 0 then d
    else Replace(ReplacePhase(d, src, start, draws, m - 1), src[start + m - 1], draws[m - 1])
  }

  /** The replacement phase one item further. */
  lemma ReplacePhaseStep<T>(d: seq<T>, src: seq<T>, start: nat, draws: seq<nat>, m: nat)
    requires start + m < |src| && m < |draws|
    ensures ReplacePhase(d, src, start, draws, m + 1)
         == Replace(ReplacePhase(d, src, start, draws, m), src[start + m], draws[m])
  {
  }

  /** What `reservoir_sampling` leaves in a destination that held `d`. */
  function ReservoirSample<T>(d: seq<T>, src: seq<T>, draws: seq<nat>): seq<T>
    requires |src| - Min(|d|, |src|) <= |draws|
  {
    var n := Min(|d|, |src|);
    ReplacePhase(Fill(d, src, n), src, n, draws, |src| - n)
  }

  /**
   * The generator's answers to `reservoir_sampling` with `k` slots and `m` items: one per item past
   * the fill, the `t`-th answering `gen_range(0..n + t)` with a value inside that range whenever
   * the range is not empty.
   */
  predicate UniformDraws(draws: seq<nat>, k: nat, m: nat)
  {
    var n := Min(k, m);
    |draws| == m - n && forall t :: 0 <= t < |draws| ==> (n + t > 0 ==> draws[t] < n + t)
  }

  /** The fill phase of `reservoir_sampling_weighted`: the first `n` slots take their own index. */
  function IndexFill(d: seq<nat>, n: nat): seq<nat>
    requires n <= |d|
  {
    Range(n) + d[n..]
  }

  /** Filling one more slot with its own index. */
  lemma IndexFillStep(d: seq<nat>, n: nat)
    requires n < |d|
    ensures IndexFill(d, n)[n := n] == IndexFill(d, n + 1)
  {
    assert Range(n + 1) == Range(n) + [n];
  }

  /**
   * The replacement phase of `reservoir_sampling_weighted` over the items `start..start + m`: item
   * `start + p` wins when its draw `coins[p]` lies below its weight, and a winner's index goes into
   * the slot `slots[p]`.
   */
  function WeightedPhase(d: seq<nat>, w: seq<real>, start: nat, coins: seq<real>, slots: seq<nat>, m: nat): (r: seq<nat>)
    requires start + m <= |w| && m <= |coins| && m <= |slots|
    ensures |r| == |d|
    decreases m
  {
    if m == 0 then d
    else
      var e := WeightedPhase(d, w, start, coins, slots, m - 1);
      if coins[m - 1] < w[start + m - 1] then Replace(e, start + m - 1, slots[m - 1]) else e
  }

  /** What `reservoir_sampling_weighted` leaves in a destination that held `d`. */
  function WeightedSample(d: seq<nat>, w: seq<real>, coins: seq<real>, slots: seq<nat>): seq<nat>
    requires |w| - Min(|d|, |w|) <= |coins| && |w| - Min(|d|, |w|) <= |slots|
  {
    var n := Min(|d|, |w|);
    WeightedPhase(IndexFill(d, n), w, n, coins, slots, |w| - n)
  }

  /**
   * The generator's answers to `reservoir_sampling_weighted` with `k` slots: one pair per item past
   * the fill; `coins[t]` answers `gen_range(0..w_sum)`, where `w_sum` is the weight of every item
   * up to and including that one, and `slots[t]` answers `gen_range(0..k)`.
   */
  predicate WeightedDraws(coins: seq<real>, slots: seq<nat>, w: seq<real>, k: nat)
  {
    var n := Min(k, |w|);
    && |coins| == |w| - n && |slots| == |w| - n
    && (forall t :: 0 <= t < |coins| ==>
          (0.0 < Cumulative(w, n + t + 1) ==> 0.0 <= coins[t] < Cumulative(w, n + t + 1)))
    && (forall t :: 0 <= t < |slots| ==> (k > 0 ==> slots[t] < k))
  }

  /** The running sum is positive at every draw of the replacement phase, that is for every
   *  prefix that ends at an item past the fill. */
  predicate RunningSumsPositive(w: seq<real>, k: nat)
  {
    forall p :: Min(k, |w|) < p <= |w| ==> 0.0 < Cumulative(w, p)
  }

  // ---------------------------------------------------------------------------------------------
  // Uniform reservoir sampling

  /**
   * A slot after the replacement phase holds the item of the last draw that named it, or its old
   * value if no draw named it: the item at position `start + p` can change only slot `draws[p]`.
   */
  lemma {:induction false} ReplacePhaseLastDrawWins<T>(d: seq<T>, src: seq<T>, start: nat, draws: seq<nat>, m: nat, t: nat)
    requires start + m <= |src| && m <= |draws| && t < |d|
    ensures var r := ReplacePhase(d, src, start, draws, m);
      || (r[t] == d[t] && forall p :: 0 <= p < m ==> draws[p] != t)
      || (exists p :: 0 <= p < m && draws[p] == t && r[t] == src[start + p]
                      && forall q :: p < q < m ==> draws[q] != t)
    decreases m
  {
    if m > 0 {
      var r := ReplacePhase(d, src, start, draws, m);
      var e := ReplacePhase(d, src, start, draws, m - 1);
      ReplacePhaseLastDrawWins(d, src, start, draws, m - 1, t);
      if draws[m - 1] == t {
        assert r[t] == src[start + (m - 1)];
      } else if e[t] == d[t] && forall p :: 0 <= p < m - 1 ==> draws[p] != t {
        assert r[t] == d[t];
      } else {
        var p :| 0 <= p < m - 1 && draws[p] == t && e[t] == src[start + p]
                 && forall q :: p < q < m - 1 ==> draws[q] != t;
        assert r[t] == src[start + p];
      }
    }
  }

  /**
   * The result of `reservoir_sampling`: the destination keeps its length, every one of the first
   * `n` slots holds an item of the source, the slots past `n` are untouched, and a source no longer
   * than the destination is copied whole, in order.
   */
  lemma ReservoirSampleFromSource<T>(d: seq<T>, src: seq<T>, draws: seq<nat>)
    requires |src| - Min(|d|, |src|) <= |draws|
    ensures var r := ReservoirSample(d, src, draws); var n := Min(|d|, |src|);
      && |r| == |d|
      && (forall t :: 0 <= t < n ==> r[t] in src)
      && (forall t :: n <= t < |d| ==> r[t] == d[t])
      && (|src| <= |d| ==> r[..|src|] == src)
  {
    var n := Min(|d|, |src|);
    var f := Fill(d, src, n);
    var r := ReservoirSample(d, src, draws);
    forall t | 0 <= t < n
      ensures r[t] in src
    {
      ReplacePhaseLastDrawWins(f, src, n, draws, |src| - n, t);
    }
    if |src| <= |d| {
      assert r[..|src|] == src;
    }
  }

  /** Offering a value that is not yet stored keeps the slots pairwise distinct. */
  lemma ReplaceKeepsDistinct<T>(d: seq<T>, v: T, j: nat)
    requires Distinct(d) && v !in d
    ensures Distinct(Replace(d, v, j))
  {
    var r := Replace(d, v, j);
    forall p, q | 0 <= p < q < |r|
      ensures r[p] != r[q]
    {
      assert d[p] in d && d[q] in d;
    }
  }

  /**
   * The replacement phase over items that occur nowhere else keeps the slots pairwise distinct,
   * each holding an item of the source seen so far.
   */
  lemma {:induction false} ReplacePhaseDistinct<T>(d: seq<T>, src: seq<T>, start: nat, draws: seq<nat>, m: nat)
    requires start + m <= |src| && m <= |draws|
    requires Distinct(src) && Distinct(d)
    requires forall t :: 0 <= t < |d| ==> d[t] in src[..start]
    ensures var r := ReplacePhase(d, src, start, draws, m);
      Distinct(r) && forall t :: 0 <= t < |r| ==> r[t] in src[..start + m]
    decreases m
  {
    if m > 0 {
      var e := ReplacePhase(d, src, start, draws, m - 1);
      var v := src[start + m - 1];
      ReplacePhaseDistinct(d, src, start, draws, m - 1);
      assert v !in e by {
        forall t | 0 <= t < |e|
          ensures e[t] != v
        {
          var x :| 0 <= x < start + m - 1 && src[x] == e[t];
        }
      }
      ReplaceKeepsDistinct(e, v, draws[m - 1]);
      var r := Replace(e, v, draws[m - 1]);
      forall t | 0 <= t < |r|
        ensures r[t] in src[..start + m]
      {
        if t == draws[m - 1] {
          assert src[..start + m][start + m - 1] == v;
        } else {
          var x :| 0 <= x < start + m - 1 && src[x] == e[t];
          assert src[..start + m][x] == e[t];
        }
      }
    }
  }

  /** `reservoir_sampling` over a source without repeats stores no item twice. */
  lemma ReservoirSampleDistinct<T>(d: seq<T>, src: seq<T>, draws: seq<nat>)
    requires |src| - Min(|d|, |src|) <= |draws|
    requires Distinct(src)
    ensures Distinct(ReservoirSample(d, src, draws)[..Min(|d|, |src|)])
  {
    var n := Min(|d|, |src|);
    var r := ReservoirSample(d, src, draws);
    if |src| <= |d| {
      ReservoirSampleFromSource(d, src, draws);
      assert r[..n] == src;
    } else {
      var f := Fill(d, src, n);
      assert f == src[..n];
      forall t | 0 <= t < |f|
        ensures f[t] in src[..n]
      {
        assert f[t] == src[..n][t];
      }
      ReplacePhaseDistinct(f, src, n, draws, |src| - n);
      assert r[..n] == r;
    }
  }

  /**
   * `reservoir_sampling`: copies the first `min(|dst|, |src|)` items, then offers each later item
   * at position `i` to the slot drawn from `[0, i)`; returns the number of slots filled.
   */
  method ReservoirSampling<T>(src: seq<T>, dst: array<T>, draws: seq<nat>) returns (n: nat)
    requires dst.Length > 0 || |src| == 0
    requires UniformDraws(draws, dst.Length, |src|)
    modifies dst
    ensures n == Min(dst.Length, |src|)
    ensures dst[..] == ReservoirSample(old(dst[..]), src, draws)
  {
    n := CopyPrefix(src, dst);
    OfferRest(src, dst, n, draws);
  }

  /** The fill phase of `reservoir_sampling`: slot `t` takes item `t` while both last. */
  method CopyPrefix<T>(src: seq<T>, dst: array<T>) returns (n: nat)
    modifies dst
    ensures n == Min(dst.Length, |src|)
    ensures dst[..] == Fill(old(dst[..]), src, n)
  {
    n := 0;
    while n < dst.Length && n < |src|
      invariant n <= dst.Length && n <= |src|
      invariant dst[..] == Fill(old(dst[..]), src, n)
    {
      ghost var before := dst[..];
      dst[n] := src[n];
      assert dst[..] == before[n := src[n]];
      FillStep(old(dst[..]), src, n);
      n := n + 1;
    }
  }

  /** The replacement phase of `reservoir_sampling`: item `i` goes to the slot drawn from `[0, i)`, if that is a slot. */
  method OfferRest<T>(src: seq<T>, dst: array<T>, n: nat, draws: seq<nat>)
    requires n == Min(dst.Length, |src|)
    requires dst.Length > 0 || |src| == 0
    requires UniformDraws(draws, dst.Length, |src|)
    modifies dst
    ensures dst[..] == ReplacePhase(old(dst[..]), src, n, draws, |src| - n)
  {
    var i := n;
    while i < |src|
      invariant n <= i <= |src|
      invariant dst[..] == ReplacePhase(old(dst[..]), src, n, draws, i - n)
    {
      // The range [0, i) is not empty: a source longer than the fill implies a non-empty destination.
      assert 0 < i;
      var j := draws[i - n];
      ghost var before := dst[..];
      if j < dst.Length {
        dst[j] := src[i];
        assert dst[..] == before[j := src[i]];
      }
      ReplacePhaseStep(old(dst[..]), src, n, draws, i - n);
      i := i + 1;
    }
  }

  // ---------------------------------------------------------------------------------------------
  // The draw range of `reservoir_sampling`

  /**
   * As written, item `i` after the fill draws from `[0, i)`, so the first of them draws from
   * `[0, |dst|)`, always names a slot, and always enters the reservoir: over a source without
   * repeats that is longer than a non-empty destination, the first `|dst|` items are never the
   * sample.
   */
  lemma AsWrittenNeverKeepsFill<T>(d: seq<T>, src: seq<T>, draws: seq<nat>)
    requires 0 < |d| < |src| && Distinct(src)
    requires UniformDraws(draws, |d|, |src|)
    ensures ReservoirSample(d, src, draws) != Fill(d, src, |d|)
  {
    var f := Fill(d, src, |d|);
    var r := ReservoirSample(d, src, draws);
    var slot := draws[0];
    assert slot < |d|;
    ReplacePhaseLastDrawWins(f, src, |d|, draws, |src| - |d|, slot);
    var p :| 0 <= p < |src| - |d| && draws[p] == slot && r[slot] == src[|d| + p];
    assert f[slot] == src[slot];
  }

  /** One slot and two items: as written, the second item is the sample whatever the generator answers. */
  lemma AsWrittenOneSlot<T>(x: T, a: T, b: T, draws: seq<nat>)
    requires UniformDraws(draws, 1, 2)
    ensures ReservoirSample([x], [a, b], draws) == [b]
  {
  }

  /**
   * The answers of Algorithm R, the reservoir sampling that `sampling.rs` names: item `i`
   * (counting from 0) after the fill draws from `[0, i]`, a range that is never empty.
   */
  predicate InclusiveDraws(draws: seq<nat>, k: nat, m: nat)
  {
    var n := Min(k, m);
    |draws| == m - n && forall t :: 0 <= t < |draws| ==> draws[t] <= n + t
  }

  /** Draws that name no slot leave the slots as they are. */
  lemma {:induction false} ReplacePhaseNoSlot<T>(d: seq<T>, src: seq<T>, start: nat, draws: seq<nat>, m: nat)
    requires start + m <= |src| && m <= |draws|
    requires forall p :: 0 <= p < m ==> |d| <= draws[p]
    ensures ReplacePhase(d, src, start, draws, m) == d
    decreases m
  {
    if m > 0 {
      ReplacePhaseNoSlot(d, src, start, draws, m - 1);
    }
  }

  /**
   * With the draw from `[0, i]`, the first `min(|dst|, |src|)` items can be the sample: the
   * answers `i` for every item `i` keep the fill.
   */
  lemma InclusiveCanKeepFill<T>(d: seq<T>, src: seq<T>)
    ensures var n := Min(|d|, |src|);
      var draws := seq(|src| - n, t => n + t);
      InclusiveDraws(draws, |d|, |src|) && ReservoirSample(d, src, draws) == Fill(d, src, n)
  {
    var n := Min(|d|, |src|);
    var draws := seq(|src| - n, t => n + t);
    ReplacePhaseNoSlot(Fill(d, src, n), src, n, draws, |src| - n);
  }

  /**
   * `reservoir_sampling` with the draw from `[0, i]`: the same fill and replacement phases, and no
   * panic on an empty destination.
   */
  method ReservoirSamplingInclusive<T>(src: seq<T>, dst: array<T>, draws: seq<nat>) returns (n: nat)
    requires InclusiveDraws(draws, dst.Length, |src|)
    modifies dst
    ensures n == Min(dst.Length, |src|)
    ensures dst[..] == ReservoirSample(old(dst[..]), src, draws)
  {
    n := CopyPrefix(src, dst);
    ghost var f := dst[..];
    var i := n;
    while i < |src|
      invariant n <= i <= |src|
      invariant dst[..] == ReplacePhase(f, src, n, draws, i - n)
    {
      var j := draws[i - n];
      ghost var before := dst[..];
      if j < dst.Length {
        dst[j] := src[i];
        assert dst[..] == before[j := src[i]];
      }
      ReplacePhaseStep(f, src, n, draws, i - n);
      i := i + 1;
    }
  }

  // ---------------------------------------------------------------------------------------------
  // Weighted reservoir sampling

  /** The shape of `reservoir_sampling_weighted`'s result: slots past `n` are untouched, and a
   *  source no longer than the destination leaves exactly the indices `0..|w|` in front. */
  lemma WeightedSampleShape(d: seq<nat>, w: seq<real>, coins: seq<real>, slots: seq<nat>)
    requires |w| - Min(|d|, |w|) <= |coins| && |w| - Min(|d|, |w|) <= |slots|
    ensures var r := WeightedSample(d, w, coins, slots); var n := Min(|d|, |w|);
      && |r| == |d|
      && (forall t :: n <= t < |d| ==> r[t] == d[t])
      && (|w| <= |d| ==> r[..|w|] == Range(|w|))
  {
    var r := WeightedSample(d, w, coins, slots);
    if |w| <= |d| {
      assert r[..|w|] == Range(|w|);
    }
  }

  /**
   * The replacement phase over slots that hold distinct indices below `start` keeps them distinct,
   * each below `start + m`: a winner's index is larger than every index already stored.
   */
  lemma {:induction false} WeightedPhaseDistinct(d: seq<nat>, w: seq<real>, start: nat, coins: seq<real>, slots: seq<nat>, m: nat)
    requires start + m <= |w| && m <= |coins| && m <= |slots|
    requires Distinct(d) && forall t :: 0 <= t < |d| ==> d[t] < start
    ensures var r := WeightedPhase(d, w, start, coins, slots, m);
      Distinct(r) && forall t :: 0 <= t < |r| ==> r[t] < start + m
    decreases m
  {
    if m > 0 {
      WeightedPhaseDistinct(d, w, start, coins, slots, m - 1);
      var e := WeightedPhase(d, w, start, coins, slots, m - 1);
      if coins[m - 1] < w[start + m - 1] {
        assert start + m - 1 !in e;
        ReplaceKeepsDistinct(e, start + m - 1, slots[m - 1]);
      }
    }
  }

  /** Every slot holding an index from `start` on holds one below `start + m` whose item's draw
   *  fell below its weight. */
  predicate WonOnItsDraw(r: seq<nat>, w: seq<real>, start: nat, coins: seq<real>, m: nat)
    requires start + m <= |w| && m <= |coins|
  {
    forall t :: 0 <= t < |r| && start <= r[t] ==> r[t] < start + m && coins[r[t] - start] < w[r[t]]
  }

  /** Over slots holding indices below `start`, an index from `start` on is stored only if that
   *  item's draw fell below its weight. */
  lemma {:induction false} WeightedPhaseWinners(d: seq<nat>, w: seq<real>, start: nat, coins: seq<real>, slots: seq<nat>, m: nat)
    requires start + m <= |w| && m <= |coins| && m <= |slots|
    requires forall t :: 0 <= t < |d| ==> d[t] < start
    ensures WonOnItsDraw(WeightedPhase(d, w, start, coins, slots, m), w, start, coins, m)
    decreases m
  {
    if m > 0 {
      WeightedPhaseWinners(d, w, start, coins, slots, m - 1);
      var e := WeightedPhase(d, w, start, coins, slots, m - 1);
      assert WonOnItsDraw(e, w, start, coins, m - 1);
      var r := WeightedPhase(d, w, start, coins, slots, m);
      forall t | 0 <= t < |r| && start <= r[t]
        ensures r[t] < start + m && coins[r[t] - start] < w[r[t]]
      {
        if coins[m - 1] < w[start + m - 1] && slots[m - 1] == t {
          assert r[t] == start + (m - 1);
        } else {
          assert r[t] == e[t];
        }
      }
    }
  }

  /** A source shorter than the destination leaves no item for the replacement phase. */
  lemma WeightedSampleFillOnly(d: seq<nat>, w: seq<real>, coins: seq<real>, slots: seq<nat>)
    requires |w| < |d|
    ensures WeightedSample(d, w, coins, slots) == IndexFill(d, |w|)
  {
  }

  /** A source at least as long as the destination fills every slot with its own index first. */
  lemma WeightedSampleFull(d: seq<nat>, w: seq<real>, coins: seq<real>, slots: seq<nat>)
    requires |d| <= |w| && |w| - |d| <= |coins| && |w| - |d| <= |slots|
    ensures WeightedSample(d, w, coins, slots) == WeightedPhase(Range(|d|), w, |d|, coins, slots, |w| - |d|)
  {
    assert IndexFill(d, |d|) == Range(|d|);
  }

  /** The facts about a whole sequence, restated for its prefix of full length. */
  lemma WholeIsPrefix(r: seq<nat>, n: nat, bound: nat)
    requires |r| == n && Distinct(r) && forall t :: 0 <= t < |r| ==> r[t] < bound
    ensures Distinct(r[..n]) && forall t :: 0 <= t < n ==> r[t] < bound
  {
    assert r[..n] == r;
  }

  /** `reservoir_sampling_weighted` stores in its first `n` slots pairwise distinct indices of the source. */
  lemma WeightedSampleDistinct(d: seq<nat>, w: seq<real>, coins: seq<real>, slots: seq<nat>)
    requires |w| - Min(|d|, |w|) <= |coins| && |w| - Min(|d|, |w|) <= |slots|
    ensures var r := WeightedSample(d, w, coins, slots); var n := Min(|d|, |w|);
      Distinct(r[..n]) && forall t :: 0 <= t < n ==> r[t] < |w|
  {
    var r := WeightedSample(d, w, coins, slots);
    if |w| < |d| {
      WeightedSampleFillOnly(d, w, coins, slots);
      assert r[..|w|] == Range(|w|);
    } else {
      WeightedSampleFull(d, w, coins, slots);
      WeightedPhaseDistinct(Range(|d|), w, |d|, coins, slots, |w| - |d|);
      WholeIsPrefix(r, Min(|d|, |w|), |w|);
    }
  }

  /**
   * An index that `reservoir_sampling_weighted` stores for an item that arrived after the fill is
   * there only because that item's draw fell below its weight; with draws that are never negative,
   * an item of weight zero or less that arrives after the fill is never stored.
   */
  lemma WeightedSampleWinners(d: seq<nat>, w: seq<real>, coins: seq<real>, slots: seq<nat>)
    requires |w| - Min(|d|, |w|) <= |coins| && |w| - Min(|d|, |w|) <= |slots|
    ensures var r := WeightedSample(d, w, coins, slots); var n := Min(|d|, |w|);
      && (forall t :: 0 <= t < n && n <= r[t] ==> r[t] < |w| && coins[r[t] - n] < w[r[t]])
      && (NonNegative(coins) ==> forall t :: 0 <= t < n && n <= r[t] ==> r[t] < |w| && 0.0 < w[r[t]])
  {
    var r := WeightedSample(d, w, coins, slots);
    if |w| < |d| {
      WeightedSampleFillOnly(d, w, coins, slots);
      assert r[..|w|] == Range(|w|);
    } else {
      var n := |d|;
      WeightedSampleFull(d, w, coins, slots);
      WeightedPhaseWinners(Range(n), w, n, coins, slots, |w| - n);
      assert WonOnItsDraw(r, w, n, coins, |w| - n);
      if NonNegative(coins) {
        forall t | 0 <= t < n && n <= r[t]
          ensures 0.0 < w[r[t]]
        {
          assert 0.0 <= coins[r[t] - n];
        }
      }
    }
  }

  /**
   * `reservoir_sampling_weighted`: the first `min(|dst|, |src|)` slots take their own index while
   * the weights are summed; each later item adds its weight to the sum, draws from `[0, w_sum)`,
   * and on a draw below its weight puts its index into a slot drawn from `[0, |dst|)`.
   */
  method ReservoirSamplingWeighted(src: seq<real>, dst: array<nat>, coins: seq<real>, slots: seq<nat>) returns (n: nat)
    // An item past the fill always wins against an empty reservoir, and then `gen_range(0..0)` panics.
    requires dst.Length > 0 || |src| == 0
    requires RunningSumsPositive(src, dst.Length)
    requires WeightedDraws(coins, slots, src, dst.Length)
    modifies dst
    ensures n == Min(dst.Length, |src|)
    ensures dst[..] == WeightedSample(old(dst[..]), src, coins, slots)
  {
    var wSum;
    n, wSum := IndexPrefix(src, dst);
    WeightedOfferRest(src, dst, n, wSum, coins, slots);
  }

  /** The fill phase of `reservoir_sampling_weighted`: slot `i` takes `i` while items last, summing their weights. */
  method IndexPrefix(src: seq<real>, dst: array<nat>) returns (n: nat, wSum: real)
    modifies dst
    ensures n == Min(dst.Length, |src|)
    ensures wSum == Cumulative(src, n)
    ensures dst[..] == IndexFill(old(dst[..]), n)
  {
    ghost var d := dst[..];
    n := 0;
    wSum := 0.0;
    var i: nat := 0;
    // The `for` of `sampling.rs` over the slots, leaving by `break` once the source runs out.
    while i < dst.Length && i < |src|
      invariant n == i <= dst.Length && i <= |src|
      invariant wSum == Cumulative(src, i)
      invariant dst[..] == IndexFill(d, i)
    {
      IndexFillStep(d, i);
      dst[i] := i;
      assert dst[..] == IndexFill(d, i)[i := i];
      assert Cumulative(src, i + 1) == wSum + src[i];
      wSum := wSum + src[i];
      n := n + 1;
      i := i + 1;
    }
  }

  /**
   * The replacement phase of `reservoir_sampling_weighted`: item `i` adds its weight to `w_sum`,
   * draws from `[0, w_sum)`, and on a draw below its weight takes a slot drawn from `[0, |dst|)`.
   */
  method WeightedOfferRest(src: seq<real>, dst: array<nat>, n: nat, wSum0: real, coins: seq<real>, slots: seq<nat>)
    requires n == Min(dst.Length, |src|) && wSum0 == Cumulative(src, n)
    requires dst.Length > 0 || |src| == 0
    requires RunningSumsPositive(src, dst.Length)
    requires WeightedDraws(coins, slots, src, dst.Length)
    modifies dst
    ensures dst[..] == WeightedPhase(old(dst[..]), src, n, coins, slots, |src| - n)
  {
    var wSum := wSum0;
    var i := n;
    while i < |src|
      invariant n <= i <= |src|
      invariant wSum == Cumulative(src, i)
      invariant dst[..] == WeightedPhase(old(dst[..]), src, n, coins, slots, i - n)
    {
      wSum := wSum + src[i];
      // `gen_range(0..w_sum)` is asked for a non-empty range, and answers inside it.
      assert wSum == Cumulative(src, n + (i - n) + 1);
      assert 0.0 < wSum;
      var j := coins[i - n];
      assert 0.0 <= j < wSum;
      if j < src[i] {
        // `gen_range(0..dst.len())` is asked for a non-empty range, and answers inside it.
        assert slots[i - n] < dst.Length;
        dst[slots[i - n]] := i;
      }
      i := i + 1;
    }
  }

  // ---------------------------------------------------------------------------------------------
  // Weighted sampling with replacement

  /**
   * `replacement_sampling_weighted`: builds the distribution (the `unwrap` panics unless the weights
   * are valid) and fills every slot with an independent sample, each an index of a positive weight.
   * `picks[t]` is the uniform draw in `[0, total)` behind the sample for slot `t`.
   */
  method ReplacementSamplingWeighted(src: seq<real>, dst: array<nat>, picks: seq<real>)
    requires New(src).Ok?
    requires |picks| == dst.Length
    requires forall t :: 0 <= t < |picks| ==> 0.0 <= picks[t] < Sum(src)
    modifies dst
    ensures forall t :: 0 <= t < dst.Length ==> dst[t] == New(src).value.Sample(picks[t])
    ensures forall t :: 0 <= t < dst.Length ==> dst[t] < |src| && 0.0 < src[dst[t]]
  {
    var dist := New(src).value;
    for t := 0 to dst.Length
      invariant forall s :: 0 <= s < t ==> dst[s] == dist.Sample(picks[s])
    {
      dst[t] := dist.Sample(picks[t]);
    }
    forall t | 0 <= t < dst.Length
      ensures dst[t] < |src| && 0.0 < src[dst[t]]
    {
      SampleInRange(src, picks[t]);
    }
  }

  // ---------------------------------------------------------------------------------------------
  // The examples and the unit test of `sampling.rs`

  /**
   * The unit test of `reservoir_sampling_weighted`: four weights into four slots fill them with
   * `0..4`; three weights into the same slots then give 3 and leave slot 3 holding 3. Both arrays
   * are already sorted, so the test's sort leaves them as they are.
   */
  method TestReservoirSamplingWeighted() returns (n1: nat, d1: seq<nat>, n2: nat, d2: seq<nat>)
    ensures n1 == 4 && d1 == [0, 1, 2, 3]
    ensures n2 == 3 && d2 == [0, 1, 2, 3]
  {
    var dst := new nat[4](_ => 0);
    var w1 := [1.0, 2.0, 3.0, 4.0];
    n1 := ReservoirSamplingWeighted(w1, dst, [], []);
    WeightedSampleShape([0, 0, 0, 0], w1, [], []);
    assert dst[..] == dst[..4];
    d1 := dst[..];
    var w2 := [1.0, 2.0, 3.0];
    n2 := ReservoirSamplingWeighted(w2, dst, [], []);
    WeightedSampleShape(d1, w2, [], []);
    d2 := dst[..];
    assert d2[..3] == [0, 1, 2];
  }

  /**
   * The documented example of `reservoir_sampling`: three of `[1, 2, 3, 4, 5]`, whatever the
   * generator answers, are three distinct items of the source.
   */
  method ExampleReservoirSampling(draws: seq<nat>) returns (n: nat, sample: seq<int>)
    requires UniformDraws(draws, 3, 5)
    ensures n == 3 && |sample| == 3
    ensures Distinct(sample) && forall t :: 0 <= t < 3 ==> sample[t] in [1, 2, 3, 4, 5]
  {
    var src := [1, 2, 3, 4, 5];
    var dst := new int[3](_ => 0);
    n := ReservoirSampling(src, dst, draws);
    sample := dst[..];
    ReservoirSampleFromSource([0, 0, 0], src, draws);
    ReservoirSampleDistinct([0, 0, 0], src, draws);
    assert sample[..3] == sample;
  }
}
