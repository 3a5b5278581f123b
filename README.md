# mixturs: sampling primitives and the monitoring callback

This project models two small parts of `mixturs`, a Rust library for fitting Dirichlet process
mixture models, and proves properties of the model in Dafny.

- **Sampling primitives** (`utils/sampling.rs`). Three single-pass samplers write into a
  destination slice supplied by the caller:
  - `reservoir_sampling` is uniform reservoir sampling of items;
  - `reservoir_sampling_weighted` is weighted reservoir sampling of item indices;
  - `replacement_sampling_weighted` draws indices with replacement from a `WeightedIndex`
    distribution.

  Each is a Dafny method on an `array` that it updates in place. Its `ensures` state the count it
  returns and prove the array afterwards equal to a specification function of the old array, the
  source and the generator's answers; its `requires` are the panic conditions. Lemmas about the
  specification functions state the rest: the fill phase, that stored values come from the source,
  distinctness, the slots left untouched, and which items can be stored.
- **Monitoring callback** (`callback.rs`). `EvalData::from_sample` reservoir-samples column
  indices and keeps those columns of the points and labels. `MonitoringCallback` is a class with
  these fields:
  - the evaluation data;
  - the metrics and the child callbacks, each list in registration order;
  - the table of measures (`map<string, real>`);
  - the verbosity flag.

  Its hooks `before_step`, `during_step` and `after_step` are methods. Each one states its new
  table and what it appends to a ghost trace. The trace records every metric computation, every
  hook invocation on a child, and every verbose report, in order.

The random generator is an oracle: the samplers take its answers as sequences, and each answer
is required to lie in the half-open range that its call asks for (`gen_range(0..i)` answers in
`[0, i)`).
- `reservoir_sampling` takes one answer per item after the fill, the one its `gen_range` gives.
- `reservoir_sampling_weighted` takes two sequences indexed by the item after the fill: `coins`,
  the answer of the `gen_range(0..w_sum)` every such item asks, and `slots`, the answer of the
  `gen_range(0..len(dst))` the item asks when its coin wins. An entry of `slots` whose coin loses
  answers no call and is never read.
- `replacement_sampling_weighted` takes one uniform draw in `[0, total)` per slot. It is the draw
  inside `WeightedIndex::sample`, not a `gen_range` of `sampling.rs`.

A call on an empty range panics, and so do `unwrap` and an out-of-range slice index. Those panics
become preconditions, stated exactly as the code hits them:
- `reservoir_sampling` and `reservoir_sampling_weighted` need `|dst| > 0` unless the source is
  empty;
- the weighted reservoir's running sum must be positive at each of its draws;
- `replacement_sampling_weighted` needs weights that `WeightedIndex::new` accepts;
- `from_sample` needs `max_points > 0` unless there are no columns, and a label for every column
  it keeps.

Weights are `real`. `Distributions` holds the contract of `rand`'s `WeightedIndex`: the
constructor's checks in their order, and the choice of the index whose cumulative-weight interval
holds a uniform draw in `[0, total)`.

Child callbacks are names, and invoking one of their hooks only records an event in the trace.
That is what the `Callback` trait's default hooks do (callback.rs:10-32): nothing.

Files: `wrappers.dfy` (Option, Result), `distributions.dfy`, `sampling.dfy`, `callback.dfy`.

## Model

| member | source | states |
|---|---|---|
| `Distributions.New` | mixturs/src/utils/sampling.rs:130 | `WeightedIndex::new` succeeds exactly when there is at least one weight, none is negative and the sum is positive, so `unwrap` panics otherwise; a built distribution is over exactly the given weights with their sum as total; no weights is `NoItem`, a negative weight `InvalidWeight`, a zero total `AllWeightsZero` |
| `Distributions.SampleFromInterval` | mixturs/src/utils/sampling.rs:131-133 | Searching from any index whose cumulative weight is at most the draw ends at a later index whose cumulative-weight interval holds the draw |
| `Distributions.SampleInRange` | mixturs/src/utils/sampling.rs:131-133 | For a draw in `[0, total)`, a sample is an index of the weights, its interval holds the draw, and its weight is positive |
| `Sampling.ReservoirSampling` | mixturs/src/utils/sampling.rs:28-48 | Returns `min(len(dst), len(src))`; the array afterwards equals the fill phase followed by the replacement phase over the rest of the source |
| `Sampling.CopyPrefix` | mixturs/src/utils/sampling.rs:33-37 | Returns `n = min(len(dst), len(src))`; slot `t < n` holds `src[t]` and the other slots are unchanged |
| `Sampling.OfferRest` | mixturs/src/utils/sampling.rs:39-46 | Item `i` is offered to the slot drawn from `[0, i)` and written there only if that is a slot; the array equals the replacement phase |
| `Sampling.ReplacePhaseLastDrawWins` | mixturs/src/utils/sampling.rs:39-46 | After the replacement phase a slot holds its old value if no draw named it, otherwise the item of the last draw that named it; a draw changes only the slot it names |
| `Sampling.ReservoirSampleFromSource` | mixturs/src/utils/sampling.rs:33-47 | The length is kept; each of the first `n` slots holds an item of the source; later slots are untouched; a source no longer than `dst` is copied in order |
| `Sampling.ReplacePhaseDistinct` | mixturs/src/utils/sampling.rs:39-46 | Over a source without repeats, replacement keeps the slots pairwise distinct, each holding an item seen so far |
| `Sampling.ReservoirSampleDistinct` | mixturs/src/utils/sampling.rs:34-45 | A source without repeats gives pairwise distinct items in `dst[..n]` |
| `Sampling.AsWrittenNeverKeepsFill` | mixturs/src/utils/sampling.rs:39-46 | As written, a source without repeats that is longer than a non-empty destination never leaves the first `len(dst)` items as the sample, because the first later item always names a slot |
| `Sampling.AsWrittenOneSlot` | mixturs/src/utils/sampling.rs:39-46 | As written, one slot and two items always give the second item |
| `Sampling.InclusiveCanKeepFill` | mixturs/src/utils/sampling.rs:6 | With the draw of item `i` from `[0, i]`, there are valid answers that keep the first `min(len(dst), len(src))` items as the sample |
| `Sampling.ReservoirSamplingInclusive` | mixturs/src/utils/sampling.rs:28-48 | The corrected sampler returns `min(len(dst), len(src))` and leaves the same fill and replacement phases, with no panic on an empty destination |
| `Sampling.ReservoirSamplingWeighted` | mixturs/src/utils/sampling.rs:73-103 | Returns `min(len(dst), len(src))`; the array afterwards equals the index fill followed by the weighted replacement phase |
| `Sampling.IndexPrefix` | mixturs/src/utils/sampling.rs:80-92 | Returns `n = min(len(dst), len(src))` and the sum of the first `n` weights; slot `t < n` holds `t` and the other slots are unchanged |
| `Sampling.WeightedOfferRest` | mixturs/src/utils/sampling.rs:94-101 | Each later item adds its weight to the sum, draws from `[0, w_sum)`, and on a draw below its weight writes its index into the slot drawn from `[0, len(dst))`; the array equals the weighted phase |
| `Sampling.WeightedSampleShape` | mixturs/src/utils/sampling.rs:83-92 | The length is kept, slots from `n` on are untouched, and with no more weights than slots the front holds exactly `0..len(w)` |
| `Sampling.WeightedPhaseDistinct` | mixturs/src/utils/sampling.rs:94-101 | Over slots holding distinct indices below `start`, the phase keeps them distinct and below `start + m` |
| `Sampling.WeightedPhaseWinners` | mixturs/src/utils/sampling.rs:96-98 | An index from `start` on is stored only if its item's draw fell below its weight |
| `Sampling.WeightedSampleDistinct` | mixturs/src/utils/sampling.rs:80-101 | `dst[..n]` holds pairwise distinct indices, each below `len(src)` |
| `Sampling.WeightedSampleWinners` | mixturs/src/utils/sampling.rs:94-101 | A stored index of an item after the fill won its draw; with non-negative draws, an item of weight zero or less that arrives after the fill is never stored |
| `Sampling.ReplacementSamplingWeighted` | mixturs/src/utils/sampling.rs:122-134 | Every slot is overwritten with the distribution's choice for its draw: an index of the weights whose weight is positive |
| `Sampling.TestReservoirSamplingWeighted` | mixturs/src/utils/sampling.rs:141-154 | Four weights into four slots return 4 and give `[0, 1, 2, 3]`; three weights into the same slots then return 3 and leave `[0, 1, 2, 3]` |
| `Sampling.ExampleReservoirSampling` | mixturs/src/utils/sampling.rs:19-27 | Three of `[1, 2, 3, 4, 5]` give `n = 3` and three distinct items of the source, whatever the generator answers |
| `Callback.SampledIndicesValid` | mixturs/src/callback.rs:72-75 | The kept column indices number `min(max_points, ncols)`, are in range and pairwise distinct, and are all of `0..ncols` in order when the columns fit |
| `Callback.FromSample` | mixturs/src/callback.rs:67-79 | `min(max_points, ncols)` columns, column `t` being the points' column at distinct in-range index `idx[t]`; labels exactly when given, aligned with the same indices; all points when they fit |
| `Callback.RunMetricsKeepsEntry` | mixturs/src/callback.rs:143-145 | An entry of the table that no metric changes or removes survives the metric loop with its value |
| `Callback.ChildViewInvocations` | mixturs/src/callback.rs:146-148 | A hook forwarded to all children reaches a given registered child exactly once, and metric computations reach no child |
| `Callback.IterationSeenByChild` | mixturs/src/callback.rs:127-165 | Over one iteration, every registered child receives `before_step`, `during_step` and `after_step` exactly once each, in that order, with the iteration number and parameters |
| `Callback.MetricsBeforeChildren` | mixturs/src/callback.rs:141-149 | In `during_step`, metric `j` is computed at position `j` and child `c` is called at position `metrics + c`, so no child runs before any metric |
| `Callback.MonitoringCallback.FromData` | mixturs/src/callback.rs:93-102 | Holds the given data unchanged, with no metrics, no children, an empty table and verbosity off |
| `Callback.MonitoringCallback.AddMetric` | mixturs/src/callback.rs:104-106 | The metric is appended last; nothing else changes |
| `Callback.MonitoringCallback.AddCallback` | mixturs/src/callback.rs:108-111 | The child is appended last; nothing else changes |
| `Callback.MonitoringCallback.SetVerbose` | mixturs/src/callback.rs:113-118 | Only the verbosity flag changes, to the given value |
| `Callback.MonitoringCallback.BeforeStep` | mixturs/src/callback.rs:127-133 | The table is empty whatever it held, and every child's `before_step(i)` runs once, in registration order |
| `Callback.MonitoringCallback.DuringStep` | mixturs/src/callback.rs:141-149 | "k" is set to the number of clusters, then the metrics run in order on the table, then every child's `during_step`; "k" keeps the cluster count when no metric touches it |
| `Callback.MonitoringCallback.ComputeMetrics` | mixturs/src/callback.rs:143-145 | The table becomes the metrics' results folded in registration order, each computed once |
| `Callback.MonitoringCallback.Notify` | mixturs/src/callback.rs:129-131 | The hook runs on every child once, in registration order; nothing but the trace changes |
| `Callback.MonitoringCallback.AfterStep` | mixturs/src/callback.rs:156-165 | Every child's `after_step(i)` runs once, in order, then a report of the unchanged table when verbose; the table, metrics and children do not change |
| `Callback.MonitoringCallback.Step` | mixturs/src/callback.rs:127-165 | One iteration through the three hooks: the table is the metrics' fold over a table holding only "k", and the trace grows by exactly the events of one iteration that `IterationSeenByChild` is about |
| `Callback.ExampleMonitoring` | mixturs/src/callback.rs:141-165 | A verbose callback with one metric writing "loss" -> 1.0, over iteration 0 with three clusters, computes the metric once and reports the table `k = 3`, `loss = 1` |

## Findings

| source | as written | input that shows it | evidently intended | confidence | as-written member | corrected member |
|---|---|---|---|---|---|---|
| mixturs/src/utils/sampling.rs:41 | the item at position `i` after the fill draws `j` from `[0, i)` | one slot and the items `[a, b]`: the draw is always 0, so the sample is always `b`; an empty destination with a non-empty source asks for `gen_range(0..0)` and panics | the draw from `[0, i]` of the reservoir sampling algorithm named at sampling.rs:6, which keeps `a` half of the time and never asks for an empty range | likely, not executed | `Sampling.AsWrittenNeverKeepsFill`, `Sampling.AsWrittenOneSlot` | `Sampling.ReservoirSamplingInclusive`, `Sampling.InclusiveCanKeepFill` |

The lemmas about the phases (`ReservoirSampleFromSource`, `ReservoirSampleDistinct`) hold for any draws, so they hold for the corrected sampler too. `FromSample` and `ExampleReservoirSampling` keep the draw as written, because they model what the code does.

## Left out

- Timing: `step_started`, `Instant::now()` and `elapsed()` (callback.rs:88, 99, 132, 161) are a wall-clock effect and are left out.
- Printing: the verbose line's text, its `{:.4}` formatting and the `HashMap` iteration order are left out. `after_step` records the iteration number and the whole table as a report in the trace.
- Child callbacks' own behaviour: a child is a name, so a child that overrides the trait's default no-op hooks is not modelled (a nested `MonitoringCallback`, say). Its effects belong to code that is not part of this model.
- Metrics: a metric is a pure function of the iteration, the data, the parameters and the table. Metric state changed through `&mut self` and concrete metrics such as NMI are not part of this model.
- `ThinParams`: only `n_clusters()` is used, and its conversion to `f64` is taken as exact.
- Randomness: `SmallRng::seed_from_u64(42)`, `thread_rng` and the uniform-sampling algorithms of `rand` are not computed. Their answers are parameters, so `from_sample` is deterministic in the sense that its result is a function of its inputs and those answers. The stream that seed 42 produces is not modelled.
- Statistics: the samplers' distributions (uniform `k/n` inclusion, selection proportional to weight) need a probability semantics and are left out. Only the range of every draw is modelled.
- Floating point: weights and sums are exact reals, so NaN, infinities and rounding in `w_sum` and in `WeightedIndex` are left out. The half-open range of a float `gen_range` is taken literally.
- Iterators: a source iterator is a finite sequence. `sample_iter` is modelled as one draw per destination slot, which is all that `zip` consumes.
- Integer width: counters and indices are unbounded naturals, so `usize` overflow is not modelled.
- Matrices: `DMatrix`/`RowDVector` are sequences of columns (points) or entries (labels), and `select_columns` keeps entries by index.
- `Send + Sync` and the multithreaded fitting loop are about concurrency and are not modelled. The example programs under `mixturs/examples/` and `dpmmsc/examples/`, which do file I/O and plotting, are not part of this model.
