/**
 * What stored windows and a metric's history say about the samples of a run (aggregator.go, History in registry.go).
 */
module HistoryRuns {
  import opened Base
  import opened Metrics
  import opened Storage
  import opened Aggregation
  import opened Worlds
  import opened Pipeline
  import PipelineTheorems
  import LiveRuns

  /** When the first sample of the metric's open window was processed; zero if it has no open window. */
  ghost function OpenedAt(cfg: Config, events: seq<Event>, name: string): int
    requires cfg.storageMax >= 1
  {
    if events == [] then 0
    else
      var n := |events| - 1;
      var s, t := Pipeline.After(cfg, events[..n]), Pipeline.After(cfg, events);
      if name !in t.h.open then 0
      else if name !in s.h.open then LiveRuns.Clock(events[n])
      else OpenedAt(cfg, events[..n], name)
  }

  /** What one event does to the start of a window that is open afterwards. */
  lemma StepStart(cfg: Config, s: State, e: Event, name: string)
    requires cfg.storageMax >= 1 && Tables.Filed(s.w.table) && name in Step(cfg, s, e).w.windows
    ensures Step(cfg, s, e).w.windows[name].start ==
            if name in s.w.windows then s.w.windows[name].start else LiveRuns.Clock(e)
  {
  }

  lemma {:induction false} OpenStart(cfg: Config, events: seq<Event>, name: string)
    requires cfg.storageMax >= 1 && name in Pipeline.After(cfg, events).w.windows
    ensures Pipeline.After(cfg, events).w.windows[name].start == OpenedAt(cfg, events, name)
  {
    if events != [] {
      var n := |events| - 1;
      var s := Pipeline.After(cfg, events[..n]);
      StepStart(cfg, s, events[n], name);
      RunWindowInv(cfg, events[..n]);
      RunWindowInv(cfg, events);
      if name in s.w.windows {
        OpenStart(cfg, events[..n], name);
      }
    }
  }

  /** For each window stored along a run, when its first sample was processed. */
  ghost function Starts(cfg: Config, events: seq<Event>): seq<int>
    requires cfg.storageMax >= 1
  {
    if events == [] then []
    else
      var n := |events| - 1;
      Starts(cfg, events[..n]) + NewStarts(cfg, events[..n], Pipeline.After(cfg, events).h.calls)
  }

  /** The same for the windows by which these calls exceed those made after the events. */
  ghost function NewStarts(cfg: Config, events: seq<Event>, calls: seq<Storage.Call>): seq<int>
    requires cfg.storageMax >= 1
  {
    var k := |Pipeline.After(cfg, events).h.calls|;
    if |calls| <= k then []
      else seq(|calls| - k, j requires 0 <= j < |calls| - k => OpenedAt(cfg, events, calls[k + j].m.name))
  }

  /** The windows a step stores start when they were opened. */
  lemma StepStores(cfg: Config, s: State, e: Event)
    requires cfg.storageMax >= 1 && Tables.Filed(s.w.table)
    ensures var before, after := s.h.calls, Step(cfg, s, e).h.calls;
            && before <= after
            && forall i :: |before| <= i < |after| ==>
                 after[i].m.name in s.w.windows && after[i].m.windowStart == s.w.windows[after[i].m.name].start
  {
    if Enabled(s, e) && PipelineTheorems.IsFlush(e) {
      forall j | 0 <= j < |e.order| ensures e.order[j] in s.w.windows {
        assert e.order[j] in Elements(e.order);
      }
    }
  }

  ghost predicate StartAt(calls: seq<Storage.Call>, starts: seq<int>) {
    |starts| == |calls| && forall i :: 0 <= i < |calls| ==> calls[i].m.windowStart == starts[i]
  }

  /** The same for the calls made later. */
  ghost predicate MoreStarts(before: seq<Storage.Call>, after: seq<Storage.Call>, more: seq<int>) {
    && before <= after && |more| == |after| - |before|
    && forall j :: 0 <= j < |more| ==> after[|before| + j].m.windowStart == more[j]
  }

  lemma AppendStarts(before: seq<Storage.Call>, after: seq<Storage.Call>, starts: seq<int>, more: seq<int>)
    requires StartAt(before, starts) && MoreStarts(before, after, more)
    ensures StartAt(after, starts + more)
  {
    assert forall i :: 0 <= i < |before| ==> after[i] == before[i];
    forall i | |before| <= i < |after| ensures after[i].m.windowStart == (starts + more)[i] {
      assert after[|before| + (i - |before|)].m.windowStart == more[i - |before|];
    }
  }

  /** Every window ever stored starts when its first sample was processed. */
  lemma {:induction false} StoredStarts(cfg: Config, events: seq<Event>)
    requires cfg.storageMax >= 1
    ensures StartAt(Pipeline.After(cfg, events).h.calls, Starts(cfg, events))
  {
    if events != [] {
      var front := events[..|events| - 1];
      StoredStarts(cfg, front);
      NewlyStored(cfg, front, events[|events| - 1]);
      AppendStarts(Pipeline.After(cfg, front).h.calls, Pipeline.After(cfg, events).h.calls, Starts(cfg, front),
                   NewStarts(cfg, front, Pipeline.After(cfg, events).h.calls));
    }
  }

  lemma {:induction false} NewlyStored(cfg: Config, events: seq<Event>, e: Event)
    requires cfg.storageMax >= 1
    ensures var s := Pipeline.After(cfg, events);
            var after := Step(cfg, s, e).h.calls; MoreStarts(s.h.calls, after, NewStarts(cfg, events, after))
  {
    var s := Pipeline.After(cfg, events);
    var before, after := s.h.calls, Step(cfg, s, e).h.calls;
    StepStores(cfg, s, e);
    forall j | 0 <= j < |after| - |before|
      ensures after[|before| + j].m.windowStart == NewStarts(cfg, events, after)[j] {
      OpenStart(cfg, events, after[|before| + j].m.name);
    }
  }

  // ---- The history of a metric ----

  /** A window that a history of this metric, over these times, shows; an empty name asks for all metrics. */
  ghost predicate Asked(m: AggregatedMetric, name: string, dur: int, now: int) {
    (name == "" || m.name == name) && m.windowEnd >= now - dur && m.windowStart <= now
  }

  /** A point shows a window: its end, the mean, the least and the greatest of its samples, and its bucket counts. */
  ghost predicate Shows(p: HistoryPoint, m: AggregatedMetric, samples: seq<real>) {
    && p.t == m.windowEnd && p.buckets == m.buckets
    && samples != [] && p.v * |samples| as real == SumR(samples)
    && p.min in samples && p.max in samples && forall i :: 0 <= i < |samples| ==> p.min <= samples[i] <= p.max
  }

  lemma PointShows(m: AggregatedMetric, samples: seq<real>)
    requires RecordOf(m, samples)
    ensures Shows(Worlds.PointOf(m), m, samples)
  {
    MeanTimes(SumR(samples), |samples| as real);
  }

  lemma MeanTimes(sum: real, n: real)
    requires n > 0.0
    ensures sum / n * n == sum
  {
  }

  /** The stored windows a history shows, by the positions of their Store calls in the run. */
  ghost predicate Chosen(s: State, at: seq<nat>, name: string, dur: int, now: int) {
    && (forall i :: 0 <= i < |at| ==> at[i] < |s.h.calls|)
    && (forall i, j :: 0 <= i < j < |at| ==> at[i] < at[j])
    && (forall k: nat :: k < |s.h.calls| ==>
          (k in at <==> |s.h.calls| - |s.w.buckets| <= k && Asked(s.h.calls[k].m, name, dur, now)))
  }

  /**
   * Along every run a history has one point for each window that is still stored, of that metric and overlapping the
   * given times, in the order of storing, and each shows its window's samples.
   */
  lemma {:induction false} HistoryShows(cfg: Config, events: seq<Event>, name: string, dur: int, now: int)
      returns (at: seq<nat>)
    requires cfg.storageMax >= 1
    ensures var s := Pipeline.After(cfg, events);
            var h := HistoryOf(s.w, name, dur, now);
            && h.name == name && |h.points| == |at| && Chosen(s, at, name, dur, now) && |s.h.calls| == |s.h.segments|
            && (forall i :: 0 <= i < |at| ==> Shows(h.points[i], s.h.calls[at[i]].m, s.h.segments[at[i]]))
  {
    var s := Pipeline.After(cfg, events);
    var q := Query(name, Some(now - dur), Some(now), 0);
    RunWindowInv(cfg, events);
    PipelineTheorems.StorageHoldsRecentWindows(cfg, events);
    at := Shifted(Positions(s.w.buckets, q), |s.h.calls| - |s.w.buckets|);
    MatchingInOrder(s.w.buckets, q);
    ChosenAre(s, q, name, dur, now);
    forall i | 0 <= i < |at|
      ensures Shows(HistoryOf(s.w, name, dur, now).points[i], s.h.calls[at[i]].m, s.h.segments[at[i]]) {
      assert Handed(s.h.calls)[at[i]] == s.w.buckets[Positions(s.w.buckets, q)[i]];
      PointShows(s.h.calls[at[i]].m, s.h.segments[at[i]]);
    }
  }

  function Shifted(at: seq<nat>, d: nat): (r: seq<nat>)
    ensures |r| == |at| && forall i :: 0 <= i < |at| ==> r[i] == at[i] + d
  {
    seq(|at|, i requires 0 <= i < |at| => at[i] + d)
  }

  lemma ShiftedHas(at: seq<nat>, d: nat, k: nat)
    ensures k in Shifted(at, d) <==> d <= k && (k - d) in at
  {
    var r := Shifted(at, d);
    if d <= k && (k - d) in at {
      var i :| 0 <= i < |at| && at[i] == k - d;
      assert r[i] == k;
    }
    if k in r {
      var i :| 0 <= i < |r| && r[i] == k;
      assert at[i] == k - d;
    }
  }

  lemma SuffixAt(part: seq<AggregatedMetric>, calls: seq<Storage.Call>, k: nat)
    requires IsSuffix(part, Handed(calls)) && |calls| - |part| <= k < |calls|
    ensures part[k - (|calls| - |part|)] == calls[k].m
  {
    var d := |calls| - |part|;
    assert Handed(calls)[d..][k - d] == Handed(calls)[k];
  }

  lemma ChosenAre(s: State, q: Query, name: string, dur: int, now: int)
    requires IsSuffix(s.w.buckets, Handed(s.h.calls)) && q == Query(name, Some(now - dur), Some(now), 0)
    ensures Chosen(s, Shifted(Positions(s.w.buckets, q), |s.h.calls| - |s.w.buckets|), name, dur, now)
  {
    var d, p := |s.h.calls| - |s.w.buckets|, Positions(s.w.buckets, q);
    MatchingInOrder(s.w.buckets, q);
    forall k: nat | k < |s.h.calls| ensures k in Shifted(p, d) <==> d <= k && Asked(s.h.calls[k].m, name, dur, now) {
      ChosenAt(s, q, name, dur, now, k);
    }
  }

  lemma ChosenAt(s: State, q: Query, name: string, dur: int, now: int, k: nat)
    requires IsSuffix(s.w.buckets, Handed(s.h.calls)) && q == Query(name, Some(now - dur), Some(now), 0)
             && k < |s.h.calls|
    ensures var d := |s.h.calls| - |s.w.buckets|;
            k in Shifted(Positions(s.w.buckets, q), d) <==> d <= k && Asked(s.h.calls[k].m, name, dur, now)
  {
    var d := |s.h.calls| - |s.w.buckets|;
    ShiftedHas(Positions(s.w.buckets, q), d, k);
    if d <= k {
      SuffixAt(s.w.buckets, s.h.calls, k);
      PositionHas(s.w.buckets, q, k - d);
    }
  }

  lemma PositionHas(buckets: seq<AggregatedMetric>, q: Query, k: nat)
    requires k < |buckets|
    ensures k in Positions(buckets, q) <==> Matches(buckets[k], q)
  {
    MatchingInOrder(buckets, q);
  }

  /**
   * With any points at all, a history is reported with the bounds of the live histogram of that name, if there is
   * one.
   */
  lemma HistoryBounds(w: World, name: string, dur: int, now: int)
    ensures var h := HistoryOf(w, name, dur, now);
            h.bounds == if h.points != [] && name in w.table.metrics && w.table.metrics[name].def.kind == Histogram
                        then w.table.metrics[name].def.bounds else []
  {
  }
}
