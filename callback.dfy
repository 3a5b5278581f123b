/**
 * The monitoring callback of `callback.rs`: evaluation data drawn by reservoir sampling over
 * column indices, and `MonitoringCallback`, whose hooks clear and fill a table of measures, run
 * the registered metrics and forward every hook to the registered child callbacks.
 *
 * Metrics are values that carry their `compute` function; child callbacks are labels. Every
 * invocation of a metric or of a child's hook is recorded, in order, in a ghost trace, and so is
 * each line the verbose mode prints, with the table it prints.
 */
module Callback {
  import opened Wrappers
  import opened Sampling

  // ---------------------------------------------------------------------------------------------
  // Evaluation data

  /** The parameters a hook sees; of them only the number of clusters is read here. */
  datatype ThinParams = ThinParams(nClusters: nat)

  /**
   * Evaluation data: `points` holds one point per column (each a vector of coordinates), and
   * `labels`, when present, the label of each point.
   */
  datatype EvalData = EvalData(points: seq<seq<real>>, labels: Option<seq<nat>>)

  /** Every index is below `n`. */
  predicate InRange(idx: seq<nat>, n: nat)
  {
    forall t :: 0 <= t < |idx| ==> idx[t] < n
  }

  /** `select_columns`: the columns of `m` at the indices `idx`, in the order of `idx`. */
  function SelectColumns<T>(m: seq<T>, idx: seq<nat>): seq<T>
    requires InRange(idx, |m|)
  {
    seq(|idx|, t requires 0 <= t < |idx| => m[idx[t]])
  }

  /** `vec![0; n]`. */
  function Zeros(n: nat): seq<nat>
  {
    seq(n, _ => 0)
  }

  /**
   * The column indices `from_sample` keeps: `reservoir_sampling` of `0..ncols` into a buffer of
   * `maxPoints` zeros, cut to the number of slots it filled.
   */
  function SampledIndices(ncols: nat, maxPoints: nat, draws: seq<nat>): seq<nat>
    requires UniformDraws(draws, maxPoints, ncols)
  {
    ReservoirSample(Zeros(maxPoints), Range(ncols), draws)[..Min(maxPoints, ncols)]
  }

  /**
   * The kept indices are `min(maxPoints, ncols)` pairwise distinct column indices, and all of
   * `0..ncols` in order when there are no more columns than `maxPoints`.
   */
  lemma SampledIndicesValid(ncols: nat, maxPoints: nat, draws: seq<nat>)
    requires UniformDraws(draws, maxPoints, ncols)
    ensures var idx := SampledIndices(ncols, maxPoints, draws);
      && |idx| == Min(maxPoints, ncols)
      && InRange(idx, ncols)
      && Distinct(idx)
      && (ncols <= maxPoints ==> idx == Range(ncols))
  {
    var d := Zeros(maxPoints);
    var n := Min(maxPoints, ncols);
    var idx := SampledIndices(ncols, maxPoints, draws);
    ReservoirSampleFromSource(d, Range(ncols), draws);
    ReservoirSampleDistinct(d, Range(ncols), draws);
    forall t | 0 <= t < |idx|
      ensures idx[t] < ncols
    {
      var x :| 0 <= x < ncols && Range(ncols)[x] == idx[t];
    }
  }

  /**
   * `EvalData::from_sample`: reservoir-samples at most `maxPoints` column indices and keeps those
   * columns of the points and, when given, of the labels, in the same order. The generator seeded
   * with 42 is represented by its answers `draws`.
   */
  method FromSample(points: seq<seq<real>>, labels: Option<seq<nat>>, maxPoints: nat, draws: seq<nat>)
    returns (data: EvalData)
    // `gen_range(0..0)` panics when columns remain after an empty buffer.
    requires maxPoints > 0 || |points| == 0
    requires UniformDraws(draws, maxPoints, |points|)
    // Selecting a label column that does not exist panics.
    requires labels.Some? ==> InRange(SampledIndices(|points|, maxPoints, draws), |labels.value|)
    ensures var idx := SampledIndices(|points|, maxPoints, draws);
      && |data.points| == |idx| == Min(maxPoints, |points|)
      && InRange(idx, |points|) && Distinct(idx)
      && (forall t :: 0 <= t < |idx| ==> data.points[t] == points[idx[t]])
      && (labels.None? ==> data.labels.None?)
      && (labels.Some? ==>
            && data.labels.Some? && |data.labels.value| == |idx|
            && forall t :: 0 <= t < |idx| ==> data.labels.value[t] == labels.value[idx[t]])
    ensures |points| <= maxPoints ==> data.points == points
  {
    var indices := new nat[maxPoints](_ => 0);
    assert indices[..] == Zeros(maxPoints);
    var n := ReservoirSampling(Range(|points|), indices, draws);
    var idx := indices[..n];
    assert idx == SampledIndices(|points|, maxPoints, draws);
    SampledIndicesValid(|points|, maxPoints, draws);
    var selected := SelectColumns(points, idx);
    if |points| <= maxPoints {
      assert selected == points;
    }
    data := EvalData(selected, if labels.Some? then Some(SelectColumns(labels.value, idx)) else None);
  }

  // ---------------------------------------------------------------------------------------------
  // Metrics

  /** A metric: `compute(i, data, params, measures)` returns the table with its entries written. */
  datatype Metric = Metric(compute: (nat, EvalData, ThinParams, map<string, real>) -> map<string, real>)

  /** The metrics run in registration order, each on the table the previous one left. */
  function RunMetrics(ms: seq<Metric>, i: nat, data: EvalData, params: ThinParams, m: map<string, real>): map<string, real>
    decreases |ms|
  {
    if |ms| == 0 then m
    else ms[|ms| - 1].compute(i, data, params, RunMetrics(ms[..|ms| - 1], i, data, params, m))
  }

  /** The metric never changes nor removes the entry `key`. */
  ghost predicate KeepsEntry(metric: Metric, key: string)
  {
    forall i, data, params, m :: key in m ==>
      key in metric.compute(i, data, params, m) && metric.compute(i, data, params, m)[key] == m[key]
  }

  /** An entry that no metric touches survives all of them with its value. */
  lemma {:induction false} RunMetricsKeepsEntry(ms: seq<Metric>, i: nat, data: EvalData, params: ThinParams, m: map<string, real>, key: string)
    requires forall t :: 0 <= t < |ms| ==> KeepsEntry(ms[t], key)
    requires key in m
    ensures var r := RunMetrics(ms, i, data, params, m);
      key in r && r[key] == m[key]
    decreases |ms|
  {
    if |ms| > 0 {
      var front := ms[..|ms| - 1];
      RunMetricsKeepsEntry(front, i, data, params, m, key);
      assert KeepsEntry(ms[|ms| - 1], key);
    }
  }

  // ---------------------------------------------------------------------------------------------
  // Invocation trace

  /** What is invoked: a metric's `compute`, or one of a child callback's three hooks. */
  datatype Call = Compute(params: ThinParams) | Before | During(params: ThinParams) | After

  /** An entry of the trace: the invocation of metric or child `index` at iteration `i`, or a printed report. */
  datatype Event = Invoked(call: Call, index: nat, i: nat) | Reported(i: nat, measures: map<string, real>)

  /** Invoking `call` on the first `n` metrics or children, in registration order: invocation `c` goes to receiver `c`. */
  function Invocations(call: Call, n: nat, i: nat): seq<Event>
  {
    seq(n, c requires 0 <= c => Invoked(call, c, i))
  }

  /** A loop over the receivers, one step further: the next receiver is invoked after all earlier ones. */
  lemma InvocationsStep(call: Call, n: nat, i: nat)
    ensures Invocations(call, n + 1, i) == Invocations(call, n, i) + [Invoked(call, n, i)]
  {
  }

  /** The event is a hook invocation of child `c`. */
  predicate ForChild(e: Event, c: nat)
  {
    e.Invoked? && !e.call.Compute? && e.index == c
  }

  /** The hook invocations child `c` receives, in order. */
  function ChildView(ev: seq<Event>, c: nat): seq<Event>
  {
    if |ev| == 0 then []
    else ChildView(ev[..|ev| - 1], c) + (if ForChild(ev[|ev| - 1], c) then [ev[|ev| - 1]] else [])
  }

  /** What a child sees of two stretches of the trace is what it sees of each, in order. */
  lemma {:induction false} ChildViewAppend(a: seq<Event>, b: seq<Event>, c: nat)
    ensures ChildView(a + b, c) == ChildView(a, c) + ChildView(b, c)
    decreases |b|
  {
    if |b| == 0 {
      assert a + b == a;
    } else {
      var b' := b[..|b| - 1];
      assert (a + b)[..|a + b| - 1] == a + b';
      ChildViewAppend(a, b', c);
    }
  }

  /** Child `c` receives exactly one of the invocations of one hook over all children, if it is one of them. */
  lemma {:induction false} ChildViewInvocations(call: Call, n: nat, i: nat, c: nat)
    ensures ChildView(Invocations(call, n, i), c)
         == if !call.Compute? && c < n then [Invoked(call, c, i)] else []
  {
    if n > 0 {
      InvocationsStep(call, n - 1, i);
      ChildViewInvocations(call, n - 1, i, c);
    }
  }

  /** The trace of one iteration: `before_step`, `during_step`, then `after_step` with its optional report. */
  function IterationEvents(metrics: nat, children: nat, i: nat, params: ThinParams, report: seq<Event>): seq<Event>
  {
    Invocations(Before, children, i)
      + Invocations(Compute(params), metrics, i) + Invocations(During(params), children, i)
      + Invocations(After, children, i) + report
  }

  /** Over one iteration every registered child receives `before_step`, `during_step` and `after_step`, once each, in that order. */
  lemma IterationSeenByChild(metrics: nat, children: nat, i: nat, params: ThinParams, report: seq<Event>, c: nat)
    requires forall t :: 0 <= t < |report| ==> report[t].Reported?
    requires c < children
    ensures ChildView(IterationEvents(metrics, children, i, params, report), c)
         == [Invoked(Before, c, i), Invoked(During(params), c, i), Invoked(After, c, i)]
  {
    var b := Invocations(Before, children, i);
    var m := Invocations(Compute(params), metrics, i);
    var d := Invocations(During(params), children, i);
    var a := Invocations(After, children, i);
    ChildViewInvocations(Before, children, i, c);
    ChildViewInvocations(Compute(params), metrics, i, c);
    ChildViewInvocations(During(params), children, i, c);
    ChildViewInvocations(After, children, i, c);
    ChildViewNone(report, c);
    ChildViewAppend(b, m, c);
    assert ChildView(b + m, c) == [Invoked(Before, c, i)];
    ChildViewAppend(b + m, d, c);
    assert ChildView(b + m + d, c) == [Invoked(Before, c, i), Invoked(During(params), c, i)];
    ChildViewAppend(b + m + d, a, c);
    var seen := [Invoked(Before, c, i), Invoked(During(params), c, i), Invoked(After, c, i)];
    assert ChildView(b + m + d + a, c) == seen;
    ChildViewAppend(b + m + d + a, report, c);
    assert ChildView(b + m + d + a + report, c) == seen + [];
    assert IterationEvents(metrics, children, i, params, report) == b + m + d + a + report;
  }

  /** A stretch of reports holds nothing for any child. */
  lemma {:induction false} ChildViewNone(ev: seq<Event>, c: nat)
    requires forall t :: 0 <= t < |ev| ==> ev[t].Reported?
    ensures ChildView(ev, c) == []
    decreases |ev|
  {
    if |ev| > 0 {
      ChildViewNone(ev[..|ev| - 1], c);
    }
  }

  /**
   * The trace of `during_step`: metric `j` is computed at position `j`, child `c` is called at
   * position `metrics + c`, and so no child is called before any metric.
   */
  lemma MetricsBeforeChildren(metrics: nat, children: nat, i: nat, params: ThinParams)
    ensures var ev := Invocations(Compute(params), metrics, i) + Invocations(During(params), children, i);
      && |ev| == metrics + children
      && (forall j :: 0 <= j < metrics ==> ev[j] == Invoked(Compute(params), j, i))
      && (forall c :: 0 <= c < children ==> ev[metrics + c] == Invoked(During(params), c, i))
      && (forall x, y :: 0 <= x < |ev| && 0 <= y < |ev| && ev[x].Invoked? && ev[x].call.Compute? && ev[y].Invoked? && ev[y].call.During? ==> x < y)
  {
    var m := Invocations(Compute(params), metrics, i);
    var d := Invocations(During(params), children, i);
    var ev := m + d;
    forall x | 0 <= x < |ev|
      ensures ev[x].Invoked? && (ev[x].call.Compute? <==> x < metrics)
    {
      if x < metrics {
        assert ev[x] == m[x];
      } else {
        assert ev[x] == d[x - metrics];
      }
    }
  }

  // ---------------------------------------------------------------------------------------------
  // The callback

  /** A child callback, known by its name. */
  datatype ChildCallback = ChildCallback(name: string)

  /**
   * `MonitoringCallback`: the evaluation data, the metrics and child callbacks in registration
   * order, the table of measures of the current iteration and the verbosity flag; `trace` records
   * every invocation and report so far.
   */
  class MonitoringCallback {
    const data: EvalData
    var metrics: seq<Metric>
    var callbacks: seq<ChildCallback>
    var measures: map<string, real>
    var verbose: bool
    ghost var trace: seq<Event>

    /** `from_data`: the given data, nothing registered, an empty table, quiet. */
    constructor FromData(data: EvalData)
      ensures this.data == data
      ensures metrics == [] && callbacks == [] && measures == map[] && !verbose
      ensures trace == []
    {
      this.data := data;
      metrics := [];
      callbacks := [];
      measures := map[];
      verbose := false;
      trace := [];
    }

    /** `add_metric`: the metric goes last; nothing else changes. */
    method AddMetric(metric: Metric)
      modifies this`metrics
      ensures metrics == old(metrics) + [metric]
    {
      metrics := metrics + [metric];
    }

    /** `add_callback`: the child goes last; nothing else changes. */
    method AddCallback(callback: ChildCallback)
      modifies this`callbacks
      ensures callbacks == old(callbacks) + [callback]
    {
      callbacks := callbacks + [callback];
    }

    /** `set_verbose`: only the flag changes. */
    method SetVerbose(verbose: bool)
      modifies this`verbose
      ensures this.verbose == verbose
    {
      this.verbose := verbose;
    }

    /** `before_step`: the table is emptied, then every child's `before_step(i)` runs once, in registration order. */
    method BeforeStep(i: nat)
      modifies this`measures, this`trace
      ensures measures == map[]
      ensures trace == old(trace) + Invocations(Before, |callbacks|, i)
    {
      measures := map[];
      Notify(Before, i);
    }

    /**
     * `during_step`: the entry "k" is set to the number of clusters, then every metric computes on
     * the table in registration order, then every child's `during_step(i, params)` runs once, in
     * registration order. When no metric touches "k" it still holds the number of clusters.
     */
    method DuringStep(i: nat, params: ThinParams)
      modifies this`measures, this`trace
      ensures measures == RunMetrics(metrics, i, data, params, old(measures)["k" := params.nClusters as real])
      ensures (forall t :: 0 <= t < |metrics| ==> KeepsEntry(metrics[t], "k"))
                ==> "k" in measures && measures["k"] == params.nClusters as real
      ensures trace == old(trace) + Invocations(Compute(params), |metrics|, i)
                                  + Invocations(During(params), |callbacks|, i)
    {
      var start := measures["k" := params.nClusters as real];
      measures := start;
      ComputeMetrics(i, params);
      Notify(During(params), i);
      assert (forall t :: 0 <= t < |metrics| ==> KeepsEntry(metrics[t], "k"))
          ==> "k" in measures && measures["k"] == params.nClusters as real by {
        if forall t :: 0 <= t < |metrics| ==> KeepsEntry(metrics[t], "k") {
          RunMetricsKeepsEntry(metrics, i, data, params, start, "k");
        }
      }
    }

    /** The metric loop of `during_step`: each metric computes on the table, in registration order. */
    method ComputeMetrics(i: nat, params: ThinParams)
      modifies this`measures, this`trace
      ensures measures == RunMetrics(metrics, i, data, params, old(measures))
      ensures trace == old(trace) + Invocations(Compute(params), |metrics|, i)
    {
      var j := 0;
      while j < |metrics|
        invariant j <= |metrics|
        invariant measures == RunMetrics(metrics[..j], i, data, params, old(measures))
        invariant trace == old(trace) + Invocations(Compute(params), j, i)
      {
        InvocationsStep(Compute(params), j, i);
        assert metrics[..j + 1][..j] == metrics[..j];
        measures := metrics[j].compute(i, data, params, measures);
        trace := trace + [Invoked(Compute(params), j, i)];
        j := j + 1;
      }
      assert metrics[..j] == metrics;
    }

    /** A loop over the children: each child's hook `call` runs once, in registration order. */
    method Notify(call: Call, i: nat)
      requires !call.Compute?
      modifies this`trace
      ensures trace == old(trace) + Invocations(call, |callbacks|, i)
    {
      var c := 0;
      while c < |callbacks|
        invariant c <= |callbacks|
        invariant trace == old(trace) + Invocations(call, c, i)
      {
        InvocationsStep(call, c, i);
        trace := trace + [Invoked(call, c, i)];
        c := c + 1;
      }
    }

    /**
     * One iteration of the fitting loop as the callback sees it: `before_step`, `during_step` and
     * `after_step` with the same iteration number. The table is the metrics' fold over a table
     * holding only "k", and the trace grows by the events of one iteration.
     */
    method Step(i: nat, params: ThinParams)
      modifies this`measures, this`trace
      ensures measures == RunMetrics(metrics, i, data, params, map["k" := params.nClusters as real])
      ensures trace == old(trace) + IterationEvents(|metrics|, |callbacks|, i, params,
                                                   if verbose then [Reported(i, measures)] else [])
    {
      BeforeStep(i);
      DuringStep(i, params);
      AfterStep(i);
    }

    /**
     * `after_step`: every child's `after_step(i)` runs once, in registration order; then, when
     * verbose, the table is reported. The table, metrics and children do not change.
     */
    method AfterStep(i: nat)
      modifies this`trace
      ensures trace == old(trace) + Invocations(After, |callbacks|, i)
                                  + (if verbose then [Reported(i, measures)] else [])
    {
      Notify(After, i);
      if verbose {
        trace := trace + [Reported(i, measures)];
      }
    }
  }

  // ---------------------------------------------------------------------------------------------
  // Monitoring output

  /**
   * A verbose callback with one metric that always writes "loss" -> 1.0, run over iteration 0
   * with three clusters: the metric runs once, and the one report holds `k = 3` and `loss = 1`.
   */
  method ExampleMonitoring(data: EvalData) returns (cb: MonitoringCallback)
    ensures fresh(cb)
    ensures cb.measures == map["k" := 3.0, "loss" := 1.0]
    ensures cb.trace == [Invoked(Compute(ThinParams(3)), 0, 0), Reported(0, cb.measures)]
  {
    cb := new MonitoringCallback.FromData(data);
    cb.AddMetric(Metric((i, d, p, m) => m["loss" := 1.0]));
    cb.SetVerbose(true);
    cb.Step(0, ThinParams(3));
    assert cb.measures == map["k" := 3.0]["loss" := 1.0];
  }
}
