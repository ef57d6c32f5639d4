/** What the bucket counts inside a roll-up window mean (aggregator.go, History in registry.go). */
module WindowBuckets {
  import opened Base
  import opened Metrics
  import opened Histograms
  import opened Tables
  import opened Aggregation
  import opened Worlds
  import opened Pipeline
  import PipelineTheorems
  import Labels
  import Storage

  /** The bucket counters of a metric after all the samples; other metrics than histograms have none. */
  function CumulativeCounts(def: Definition, samples: seq<real>): map<real, int> {
    if def.kind == Histogram then Counters(def.bounds, samples) else map[]
  }

  // ---- Open windows ----

  /** The open window of a metric never evicted holds the metric's current counters. */
  ghost predicate OpenCaptures(windows: map<string, WindowValue>, metrics: map<string, MetricValue>,
                               evicted: set<string>) {
    forall n :: n in windows && n !in evicted ==> n in metrics && windows[n].buckets == Captured(metrics[n])
  }

  lemma RetabledOpen(windows: map<string, WindowValue>, t: Table, evicted: set<string>, lim: Limits, name: string,
                     m: MetricValue, now: int)
    requires OpenCaptures(windows, t.metrics, evicted)
    ensures var t' := Registered(t, lim, name, m, now); OpenCaptures(windows, t'.metrics, evicted + Lost(t, t'))
  {
    RegisteredValues(t, lim, name, m, now);
  }

  /** Capturing again replaces every counter captured before. */
  lemma CapturedAgain(m: MetricValue, v: real, labels: seq<Labels.Label>, now: int)
    requires WellFormed(m)
    ensures var m' := Sampled(m, v, labels, now);
            Captured(m) + Captured(m') == Captured(m') && map[] + Captured(m') == Captured(m')
  {
  }

  lemma SampledOpen(windows: map<string, WindowValue>, metrics: map<string, MetricValue>, evicted: set<string>,
                    name: string, v: real, labels: seq<Labels.Label>, now: int)
    requires OpenCaptures(windows, metrics, evicted) && name in metrics && WellFormed(metrics[name])
    ensures var m := Sampled(metrics[name], v, labels, now);
            OpenCaptures(AddedTo(windows, name, v, Captured(m), now), metrics[name := m], evicted)
  {
    CapturedAgain(metrics[name], v, labels, now);
  }

  lemma StepOpen(cfg: Config, s: State, e: Event)
    requires cfg.storageMax >= 1 && Filed(s.w.table) && OpenCaptures(s.w.windows, s.w.table.metrics, s.h.evicted)
    ensures var s' := Step(cfg, s, e); OpenCaptures(s'.w.windows, s'.w.table.metrics, s'.h.evicted)
  {
    match e
    case Register(name, kind, description, labels, bounds, gaugeMin, gaugeMax, now) =>
      RetabledOpen(s.w.windows, s.w.table, s.h.evicted, cfg.limits, name,
                   Created(name, kind, description, labels, bounds, gaugeMin, gaugeMax), now);
    case Process(now) =>
      if Enabled(s, e) {
        var sample := s.w.queue[0];
        var t := Present(cfg, s.w.table, sample.name, now);
        RetabledOpen(s.w.windows, s.w.table, s.h.evicted, cfg.limits, sample.name, Implicit(sample.name), now);
        SampledOpen(s.w.windows, t.metrics, s.h.evicted + Lost(s.w.table, t), sample.name, sample.value,
                    CleanLabels(cfg, sample), now);
      }
    case _ =>
  }

  lemma {:induction false} RunOpen(cfg: Config, events: seq<Event>)
    requires cfg.storageMax >= 1
    ensures var s := Pipeline.After(cfg, events); OpenCaptures(s.w.windows, s.w.table.metrics, s.h.evicted)
  {
    if events != [] {
      RunOpen(cfg, events[..|events| - 1]);
      StepOpen(cfg, Pipeline.After(cfg, events[..|events| - 1]), events[|events| - 1]);
    }
  }

  // ---- Stored windows ----

  /** The samples of a metric in the first windows stored, up to and including number `i`. */
  function UpTo(calls: seq<Storage.Call>, segments: seq<seq<real>>, i: nat): seq<real>
    requires i < |calls| == |segments|
  {
    StoredFor(calls[..i + 1], segments[..i + 1], calls[i].m.name)
  }

  /** One stored window carries its metric's counters for all samples up to its end. */
  ghost predicate CaptureAt(calls: seq<Storage.Call>, segments: seq<seq<real>>, metrics: map<string, MetricValue>,
                            i: nat)
    requires i < |calls| == |segments|
  {
    && calls[i].m.name in metrics
    && calls[i].m.buckets == CumulativeCounts(metrics[calls[i].m.name].def, UpTo(calls, segments, i))
  }

  /** The stored windows of a metric never evicted carry its counters for all samples up to their end. */
  ghost predicate StoredCaptures(calls: seq<Storage.Call>, segments: seq<seq<real>>, metrics: map<string, MetricValue>,
                                 evicted: set<string>) {
    && |calls| == |segments|
    && forall i :: 0 <= i < |calls| && calls[i].m.name !in evicted ==> CaptureAt(calls, segments, metrics, i)
  }

  /** Metrics not evicted keep their definitions. */
  ghost predicate DefinitionsKept(metrics: map<string, MetricValue>, evicted: set<string>,
                                  metrics': map<string, MetricValue>, evicted': set<string>) {
    && evicted <= evicted'
    && forall n :: n in metrics && n !in evicted' ==> n in metrics' && metrics'[n].def == metrics[n].def
  }

  lemma KeptStored(calls: seq<Storage.Call>, segments: seq<seq<real>>, metrics: map<string, MetricValue>,
                   evicted: set<string>,
                   metrics': map<string, MetricValue>, evicted': set<string>)
    requires StoredCaptures(calls, segments, metrics, evicted) && DefinitionsKept(metrics, evicted, metrics', evicted')
    ensures StoredCaptures(calls, segments, metrics', evicted')
  {
    forall i | 0 <= i < |calls| && calls[i].m.name !in evicted' ensures CaptureAt(calls, segments, metrics', i) {
      assert CaptureAt(calls, segments, metrics, i);
    }
  }

  lemma StepKeepsDefinitions(cfg: Config, s: State, e: Event)
    requires cfg.storageMax >= 1 && Filed(s.w.table)
    ensures var s' := Step(cfg, s, e); DefinitionsKept(s.w.table.metrics, s.h.evicted, s'.w.table.metrics, s'.h.evicted)
  {
    match e
    case Register(name, kind, description, labels, bounds, gaugeMin, gaugeMax, now) =>
      RegisteredValues(s.w.table, cfg.limits, name,
                       Created(name, kind, description, labels, bounds, gaugeMin, gaugeMax), now);
    case Process(now) =>
      if Enabled(s, e) {
        RegisteredValues(s.w.table, cfg.limits, s.w.queue[0].name, Implicit(s.w.queue[0].name), now);
      }
    case _ =>
  }

  /** A flush appends windows whose counters cover everything applied so far. */
  lemma FlushStored(s: State, order: seq<string>, now: int)
    requires Enumerates(order, s.w.windows.Keys) && WindowInv(s) && LiveInv(s)
    requires OpenCaptures(s.w.windows, s.w.table.metrics, s.h.evicted)
    requires StoredCaptures(s.h.calls, s.h.segments, s.w.table.metrics, s.h.evicted)
    ensures StoredCaptures(s.h.calls + Calls(ClosedAll(s.w.windows, order, now), now), s.h.segments +
                           SegmentsOf(s.h.open, order),
                           s.w.table.metrics, s.h.evicted)
  {
    AllClosedCapture(s, order, now);
    AppendStored(s.h.calls, s.h.segments, Calls(ClosedAll(s.w.windows, order, now), now), SegmentsOf(s.h.open, order),
                 s.w.table.metrics, s.h.evicted);
  }

  lemma AllClosedCapture(s: State, order: seq<string>, now: int)
    requires Enumerates(order, s.w.windows.Keys) && WindowInv(s) && LiveInv(s)
    requires OpenCaptures(s.w.windows, s.w.table.metrics, s.h.evicted)
    ensures AppendedCaptures(s.h.calls, s.h.segments, Calls(ClosedAll(s.w.windows, order, now), now),
                             SegmentsOf(s.h.open, order),
                             s.w.table.metrics, s.h.evicted)
  {
    forall j | 0 <= j < |order| && order[j] !in s.h.evicted
      ensures var cs, gs := Calls(ClosedAll(s.w.windows, order, now), now), SegmentsOf(s.h.open, order);
              CaptureAt(s.h.calls + cs, s.h.segments + gs, s.w.table.metrics, |s.h.calls| + j)
    {
      ClosedCaptures(s, order, now, j);
    }
    FlushShape(s, order, now);
  }

  /** The same for windows to be appended. */
  ghost predicate AppendedCaptures(calls: seq<Storage.Call>, segments: seq<seq<real>>, cs: seq<Storage.Call>,
                                   gs: seq<seq<real>>,
                                   metrics: map<string, MetricValue>, evicted: set<string>) {
    && |calls| == |segments| && |cs| == |gs|
    && forall j :: 0 <= j < |cs| && cs[j].m.name !in evicted ==>
       CaptureAt(calls + cs, segments + gs, metrics, |calls| + j)
  }

  lemma AppendStored(calls: seq<Storage.Call>, segments: seq<seq<real>>, cs: seq<Storage.Call>, gs: seq<seq<real>>,
                     metrics: map<string, MetricValue>, evicted: set<string>)
    requires StoredCaptures(calls, segments, metrics, evicted)
             && AppendedCaptures(calls, segments, cs, gs, metrics, evicted)
    ensures StoredCaptures(calls + cs, segments + gs, metrics, evicted)
  {
    var all: seq<Storage.Call> := calls + cs;
    forall i | 0 <= i < |all| && all[i].m.name !in evicted ensures CaptureAt(all, segments + gs, metrics, i) {
      if i < |calls| {
        EarlierUpTo(calls, segments, cs, gs, i);
        assert CaptureAt(calls, segments, metrics, i);
      } else {
        assert all[i] == cs[i - |calls|];
      }
    }
  }

  lemma EarlierUpTo(calls: seq<Storage.Call>, segments: seq<seq<real>>, cs: seq<Storage.Call>, gs: seq<seq<real>>,
                    i: nat)
    requires i < |calls| == |segments| && |cs| == |gs|
    ensures UpTo(calls + cs, segments + gs, i) == UpTo(calls, segments, i)
  {
    assert (calls + cs)[..i + 1] == calls[..i + 1] && (segments + gs)[..i + 1] == segments[..i + 1];
  }

  /** The window closed at position `j` of a flush completes the samples applied to its metric. */
  lemma ClosedUpTo(s: State, order: seq<string>, now: int, j: nat)
    requires Enumerates(order, s.w.windows.Keys) && WindowInv(s) && j < |order|
    ensures var cs, gs := Calls(ClosedAll(s.w.windows, order, now), now), SegmentsOf(s.h.open, order);
            UpTo(s.h.calls + cs, s.h.segments + gs, |s.h.calls| + j) == AppliedTo(s.h.applied, order[j])
  {
    FlushShape(s, order, now);
    FlushedUpTo(s.h.calls, s.h.segments, Calls(ClosedAll(s.w.windows, order, now), now), SegmentsOf(s.h.open, order),
                s.h.open, order, j);
    assert AppliedTo(s.h.applied, order[j]) == StoredFor(s.h.calls, s.h.segments, order[j]) + Of(s.h.open, order[j]);
  }

  lemma FlushedUpTo(calls: seq<Storage.Call>, segments: seq<seq<real>>, cs: seq<Storage.Call>, gs: seq<seq<real>>,
                    open: map<string, seq<real>>, order: seq<string>, j: nat)
    requires |calls| == |segments| && |cs| == |gs| == |order| && NoDup(order) && j < |order|
    requires forall i :: 0 <= i < |order| ==> cs[i].m.name == order[i] && gs[i] == Of(open, order[i])
    ensures UpTo(calls + cs, segments + gs, |calls| + j) == StoredFor(calls, segments, order[j]) + Of(open, order[j])
  {
    FlushedPrefix(calls, segments, cs[..j + 1], gs[..j + 1], open, order[..j + 1]);
    TakeAppended(calls, cs, j);
    TakeAppended(segments, gs, j);
  }

  lemma FlushedPrefix(calls: seq<Storage.Call>, segments: seq<seq<real>>, cs: seq<Storage.Call>, gs: seq<seq<real>>,
                      open: map<string, seq<real>>, order: seq<string>)
    requires |calls| == |segments| && |cs| == |gs| == |order| > 0 && NoDup(order)
    requires forall i :: 0 <= i < |order| ==> cs[i].m.name == order[i] && gs[i] == Of(open, order[i])
    ensures var n := order[|order| - 1];
            StoredFor(calls + cs, segments + gs, n) == StoredFor(calls, segments, n) + Of(open, n)
  {
    StoredForAppend(calls, segments, cs, gs, open, order, order[|order| - 1]);
  }

  lemma TakeAppended<T>(a: seq<T>, b: seq<T>, j: nat)
    requires j < |b|
    ensures (a + b)[..|a| + j + 1] == a + b[..j + 1]
  {
  }

  lemma LiveCounters(s: State, n: string)
    requires LiveInv(s) && n in s.w.table.metrics && n !in s.h.evicted
    ensures Captured(s.w.table.metrics[n]) == CumulativeCounts(s.w.table.metrics[n].def, AppliedTo(s.h.applied, n))
  {
    assert Reflects(s.w.table.metrics[n], s.h.since[n])
           && s.h.since[n] == Of(s.h.since, n) == AppliedTo(s.h.applied, n);
  }

  lemma ClosedCaptures(s: State, order: seq<string>, now: int, j: nat)
    requires Enumerates(order, s.w.windows.Keys) && WindowInv(s) && LiveInv(s) && j < |order|
             && order[j] !in s.h.evicted
    requires OpenCaptures(s.w.windows, s.w.table.metrics, s.h.evicted)
    ensures var cs, gs := Calls(ClosedAll(s.w.windows, order, now), now), SegmentsOf(s.h.open, order);
            CaptureAt(s.h.calls + cs, s.h.segments + gs, s.w.table.metrics, |s.h.calls| + j)
  {
    assert order[j] in Elements(order);
    FlushShape(s, order, now);
    ClosedUpTo(s, order, now, j);
    LiveCounters(s, order[j]);
  }

  lemma StepStored(cfg: Config, s: State, e: Event)
    requires cfg.storageMax >= 1 && Filed(s.w.table) && WindowInv(s) && LiveInv(s)
    requires OpenCaptures(s.w.windows, s.w.table.metrics, s.h.evicted)
    requires StoredCaptures(s.h.calls, s.h.segments, s.w.table.metrics, s.h.evicted)
    ensures var s' := Step(cfg, s, e); StoredCaptures(s'.h.calls, s'.h.segments, s'.w.table.metrics, s'.h.evicted)
  {
    var s' := Step(cfg, s, e);
    if Enabled(s, e) && PipelineTheorems.IsFlush(e) {
      FlushStored(s, e.order, e.now);
    } else {
      StepKeepsDefinitions(cfg, s, e);
      KeptStored(s.h.calls, s.h.segments, s.w.table.metrics, s.h.evicted, s'.w.table.metrics, s'.h.evicted);
    }
  }

  lemma {:induction false} RunStored(cfg: Config, events: seq<Event>)
    requires cfg.storageMax >= 1
    ensures var s := Pipeline.After(cfg, events);
            StoredCaptures(s.h.calls, s.h.segments, s.w.table.metrics, s.h.evicted)
  {
    if events != [] {
      var before := events[..|events| - 1];
      RunStored(cfg, before);
      RunOpen(cfg, before);
      RunWindowInv(cfg, before);
      RunLiveInv(cfg, before);
      StepStored(cfg, Pipeline.After(cfg, before), events[|events| - 1]);
    }
  }

  /**
   * The bucket counts stored with a window are not those of its own samples: they add up to the counts of this window
   * and all earlier windows of the metric together.
   */
  lemma {:induction false} WindowBucketsAreCumulative(cfg: Config, events: seq<Event>, i: nat)
    requires cfg.storageMax >= 1 && i < |Pipeline.After(cfg, events).h.calls|
    requires var s := Pipeline.After(cfg, events);
             var name := s.h.calls[i].m.name;
             && name !in s.h.evicted && name in s.w.table.metrics && s.w.table.metrics[name].def.kind == Histogram
             && DistinctCounters(s.w.table.metrics[name].def.bounds)
    ensures var s := Pipeline.After(cfg, events);
            var a := s.h.calls[i].m;
            var bounds := s.w.table.metrics[a.name].def.bounds;
            && a.buckets.Keys == Keys(bounds)
            && Sum(CountsOf(BucketList(bounds, a.buckets))) == PipelineTheorems.StoredCount(s.h.calls[..i + 1], a.name)
  {
    var s := Pipeline.After(cfg, events);
    var a := s.h.calls[i].m;
    var bounds := s.w.table.metrics[a.name].def.bounds;
    RunStored(cfg, events);
    RunWindowInv(cfg, events);
    assert CaptureAt(s.h.calls, s.h.segments, s.w.table.metrics, i);
    var samples := UpTo(s.h.calls, s.h.segments, i);
    PipelineTheorems.StoredTotals(s.h.calls[..i + 1], s.h.segments[..i + 1], a.name);
    ReportedTotalIs(bounds, samples);
    DistinctTotal(bounds, samples);
  }
}
