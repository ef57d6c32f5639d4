/** What holds in every reachable state of the ingestion pipeline, and what can be read off its outputs. */
module PipelineTheorems {
  import opened Base
  import opened Metrics
  import opened Histograms
  import opened Cardinality
  import opened Storage
  import opened Aggregation
  import opened Worlds
  import opened Pipeline
  import opened Admission

  /** Total of the counts of the stored windows of one metric. */
  function StoredCount(calls: seq<Storage.Call>, name: string): int {
    if calls == [] then 0
    else
      var n := |calls| - 1;
      StoredCount(calls[..n], name) + if calls[n].m.name == name then calls[n].m.count else 0
  }

  /** Total of the sums of the stored windows of one metric. */
  function StoredSum(calls: seq<Storage.Call>, name: string): real {
    if calls == [] then 0.0
    else
      var n := |calls| - 1;
      StoredSum(calls[..n], name) + if calls[n].m.name == name then calls[n].m.sum else 0.0
  }

  lemma {:induction false} StoredTotals(calls: seq<Storage.Call>, segments: seq<seq<real>>, name: string)
    requires |calls| == |segments| && AllRecords(calls, segments)
    ensures StoredCount(calls, name) == |StoredFor(calls, segments, name)|
    ensures StoredSum(calls, name) == SumR(StoredFor(calls, segments, name))
  {
    if calls != [] {
      var n := |calls| - 1;
      StoredTotals(calls[..n], segments[..n], name);
      SumRConcat(StoredFor(calls[..n], segments[..n], name), if calls[n].m.name == name then segments[n] else []);
    }
  }

  function OpenCount(w: World, name: string): int {
    if name in w.windows then w.windows[name].count else 0
  }

  function OpenSum(w: World, name: string): real {
    if name in w.windows then w.windows[name].sum else 0.0
  }

  /**
   * Conservation, in every reachable state: accepted samples are queued, refused or applied, within the queue bound;
   * the guard's own counters say what it refused; and per metric, the samples applied are those counted in stored
   * windows plus those in the open one, in number and in sum.
   */
  lemma {:induction false} Conservation(cfg: Config, events: seq<Event>, name: string)
    requires cfg.storageMax >= 1
    ensures var s := Pipeline.After(cfg, events);
            && |s.w.queue| <= cfg.queueSize
            && |s.h.accepted| == |s.w.queue| + |s.h.refused| + |s.h.applied|
            && s.h.accepted == Taken(s) + s.w.queue && s.h.applied == Passed(cfg, Taken(s))
            && Dropped(s.w.guard, name) == Mentions(s.h.refused, name)
            && |AppliedTo(s.h.applied, name)| == StoredCount(s.h.calls, name) + OpenCount(s.w, name)
            && SumR(AppliedTo(s.h.applied, name)) == StoredSum(s.h.calls, name) + OpenSum(s.w, name)
  {
    var s := Pipeline.After(cfg, events);
    RunAdmission(cfg, events);
    RunQueueInv(cfg, events);
    RunWindowInv(cfg, events);
    StoredTotals(s.h.calls, s.h.segments, name);
    assert AppliedTo(s.h.applied, name) == StoredFor(s.h.calls, s.h.segments, name) + Of(s.h.open, name);
    SumRConcat(StoredFor(s.h.calls, s.h.segments, name), Of(s.h.open, name));
  }

  /** A recorded sample is accepted and queued if there is room, and otherwise dropped without a trace. */
  lemma RecordedIfRoom(cfg: Config, s: State, sample: Sample)
    requires cfg.storageMax >= 1 && Tables.Filed(s.w.table)
    ensures var t := Step(cfg, s, Event.Record(sample));
            if |s.w.queue| < cfg.queueSize
            then t.w == s.w.(queue := s.w.queue + [sample]) && t.h == s.h.(accepted := s.h.accepted + [sample])
            else t == s
  {
  }

  /**
   * Which samples are applied, in every reachable state: those the guard lets pass among the accepted ones no longer
   * queued, in the order of their acceptance; refused are all the others.
   */
  lemma {:induction false} AppliedAreThePassed(cfg: Config, events: seq<Event>)
    requires cfg.storageMax >= 1
    ensures var s := Pipeline.After(cfg, events);
            && |s.w.queue| <= |s.h.accepted|
            && var taken := s.h.accepted[..|s.h.accepted| - |s.w.queue|];
               && s.h.accepted == taken + s.w.queue
               && s.h.applied == Passed(cfg, taken)
               && s.h.refused == Stopped(cfg, taken)
  {
    RunAdmission(cfg, events);
  }

  /** Before the loop is started and after it has ended no window is open. */
  lemma {:induction false} WindowsOnlyWhileRunning(cfg: Config, events: seq<Event>)
    requires cfg.storageMax >= 1 && Pipeline.After(cfg, events).phase != Running
    ensures Pipeline.After(cfg, events).w.windows == map[]
  {
    if events != [] {
      var n := |events| - 1;
      if Pipeline.After(cfg, events[..n]).phase != Running {
        WindowsOnlyWhileRunning(cfg, events[..n]);
      }
    }
  }

  /** Closing a registry that was never started stores nothing, whatever was recorded; a later start is unaffected. */
  lemma {:induction false} EarlyCloseStoresNothing(cfg: Config, events: seq<Event>, order: seq<string>, now: int)
    requires cfg.storageMax >= 1 && Enabled(Pipeline.After(cfg, events), EarlyClose(order, now))
    ensures Pipeline.After(cfg, events + [EarlyClose(order, now)]) == Pipeline.After(cfg, events)
  {
    var s := Pipeline.After(cfg, events);
    assert (events + [EarlyClose(order, now)])[..|events|] == events;
    WindowsOnlyWhileRunning(cfg, events);
    RunWindowInv(cfg, events);
    assert forall i :: 0 <= i < |order| ==> order[i] in Elements(order);
    assert ClosedAll(s.w.windows, [], now) == [] && Calls([], now) == [] && SegmentsOf(s.h.open, []) == [];
  }

  /** After the final flush, every applied sample is in a stored window; only queued samples are unaccounted for. */
  lemma {:induction false} NothingLeftBehind(cfg: Config, events: seq<Event>, name: string)
    requires cfg.storageMax >= 1 && Pipeline.After(cfg, events).phase == Ended
    ensures var s := Pipeline.After(cfg, events);
            && s.w.windows == map[]
            && |s.h.calls| == |s.h.segments|
            && AppliedTo(s.h.applied, name) == StoredFor(s.h.calls, s.h.segments, name)
            && |AppliedTo(s.h.applied, name)| == StoredCount(s.h.calls, name)
            && |s.h.accepted| - |s.h.refused| - |s.h.applied| == |s.w.queue|
            && StoredFor(s.h.calls, s.h.segments, name) ==
               AppliedTo(Passed(cfg, s.h.accepted[..|s.h.accepted| - |s.w.queue|]), name)
  {
    var s := Pipeline.After(cfg, events);
    WindowsOnlyWhileRunning(cfg, events);
    Conservation(cfg, events, name);
    AppliedAreThePassed(cfg, events);
    RunWindowInv(cfg, events);
    assert AppliedTo(s.h.applied, name) == StoredFor(s.h.calls, s.h.segments, name) + Of(s.h.open, name);
  }

  /**
   * A counter that was never evicted shows the sum of all its windows, stored and open, up to a millionth per sample;
   * exactly that sum if all samples are whole millionths.
   */
  lemma {:induction false} LiveCounterAgreesWithHistory(cfg: Config, events: seq<Event>, name: string)
    requires cfg.storageMax >= 1
    requires var s := Pipeline.After(cfg, events);
             name in s.w.table.metrics && s.w.table.metrics[name].def.kind == Counter && name !in s.h.evicted
    ensures var s := Pipeline.After(cfg, events);
            var samples := AppliedTo(s.h.applied, name);
            var shown := SnapshotOf(s.w.table.metrics[name]).value;
            var recorded := StoredSum(s.h.calls, name) + OpenSum(s.w, name);
            && -(|samples| as real * 0.000_001) <= shown - recorded <= |samples| as real * 0.000_001
            && ((forall i :: 0 <= i < |samples| ==> Exact(samples[i])) ==> shown == recorded)
  {
    RunLiveInv(cfg, events);
    Conservation(cfg, events, name);
    FixedPointError(AppliedTo(Pipeline.After(cfg, events).h.applied, name));
  }

  /** The same for a histogram: its exported total, and exactly one count per sample. */
  lemma {:induction false} LiveHistogramAgreesWithHistory(cfg: Config, events: seq<Event>, name: string)
    requires cfg.storageMax >= 1
    requires var s := Pipeline.After(cfg, events);
             name in s.w.table.metrics && s.w.table.metrics[name].def.kind == Histogram && name !in s.h.evicted
    ensures var s := Pipeline.After(cfg, events);
            var shown := SnapshotOf(s.w.table.metrics[name]);
            var recorded := StoredSum(s.h.calls, name) + OpenSum(s.w, name);
            && shown.count == StoredCount(s.h.calls, name) + OpenCount(s.w, name)
            && -(shown.count as real * 0.000_001) <= shown.sum - recorded <= shown.count as real * 0.000_001
  {
    RunLiveInv(cfg, events);
    Conservation(cfg, events, name);
    FixedPointError(AppliedTo(Pipeline.After(cfg, events).h.applied, name));
  }

  /** Storage always holds the most recent windows ever closed, within its capacity. */
  lemma {:induction false} StorageHoldsRecentWindows(cfg: Config, events: seq<Event>)
    requires cfg.storageMax >= 1
    ensures var s := Pipeline.After(cfg, events);
            IsSuffix(s.w.buckets, Handed(s.h.calls)) && |s.w.buckets| <= cfg.storageMax
  {
    RunStoreInv(cfg, events);
    BucketsAreRecentHistory(cfg.storageMax, cfg.storageTtl, Pipeline.After(cfg, events).h.calls);
  }

  /** Every stored bucket summarises some run of samples, so its average lies between its minimum and its maximum. */
  lemma {:induction false} StoredBucketAverages(cfg: Config, events: seq<Event>, i: nat)
    requires cfg.storageMax >= 1 && i < |Pipeline.After(cfg, events).w.buckets|
    ensures var a := Pipeline.After(cfg, events).w.buckets[i];
            a.count > 0 && a.min <= a.sum / a.count as real <= a.max
  {
    var s := Pipeline.After(cfg, events);
    StorageHoldsRecentWindows(cfg, events);
    RunWindowInv(cfg, events);
    var j := |s.h.calls| - |s.w.buckets| + i;
    assert s.w.buckets[i] == Handed(s.h.calls)[j] == s.h.calls[j].m;
    AverageBetween(s.h.calls[j].m.count, s.h.calls[j].m.sum, s.h.calls[j].m.min, s.h.calls[j].m.max, s.h.segments[j]);
  }

  /** Every point of every metric's history has Min <= V <= Max. */
  lemma {:induction false} HistoryPointsBetween(cfg: Config, events: seq<Event>, name: string, dur: int, now: int)
    requires cfg.storageMax >= 1
    ensures var points := HistoryOf(Pipeline.After(cfg, events).w, name, dur, now).points;
            forall i :: 0 <= i < |points| ==> points[i].min <= points[i].v <= points[i].max
  {
    var w := Pipeline.After(cfg, events).w;
    var q := Query(name, Some(now - dur), Some(now), 0);
    var found := Matching(w.buckets, q);
    MatchingInOrder(w.buckets, q);
    forall i | 0 <= i < |found| ensures PointOf(found[i]).min <= PointOf(found[i]).v <= PointOf(found[i]).max {
      StoredBucketAverages(cfg, events, Positions(w.buckets, q)[i]);
    }
  }

  /** What the guard has accepted for a metric along a run: the first distinct fingerprints, never more than the cap. */
  lemma {:induction false} SeriesCappedAlongRun(cfg: Config, events: seq<Event>, name: string)
    requires cfg.storageMax >= 1 && cfg.maxSeries > 0
    ensures var s := Pipeline.After(cfg, events);
            var accepted := Seen(s.w.guard, name);
            accepted == Elements(FirstDistinct(Offered(s.h.offered, name), cfg.maxSeries))
              && |accepted| <= cfg.maxSeries
  {
    RunQueueInv(cfg, events);
    GuardRefinesFirstDistinct(cfg.maxSeries, Pipeline.After(cfg, events).h.offered, name);
    SeriesBounded(cfg.maxSeries, Pipeline.After(cfg, events).h.offered, name);
  }

  /** The time of an event that reads the clock of a flush. */
  predicate IsFlush(e: Event) {
    e.Flush? || e.FinalFlush? || e.EarlyClose?
  }

  /** The clock never goes back between flushes. */
  ghost predicate Clocked(events: seq<Event>) {
    forall i, j :: 0 <= i < j < |events| && IsFlush(events[i]) && IsFlush(events[j]) ==> events[i].now <= events[j].now
  }

  /** No Store call was made later than `now`, and windows end when they are stored. */
  ghost predicate StoredBy(calls: seq<Storage.Call>, now: int) {
    forall i :: 0 <= i < |calls| ==> calls[i].m.windowEnd == calls[i].now <= now
  }

  /** With a monotone clock, windows reach storage in the order of their ends. */
  lemma {:induction false} WindowsInOrder(cfg: Config, events: seq<Event>, now: int)
    requires cfg.storageMax >= 1 && Clocked(events)
    requires forall i :: 0 <= i < |events| && IsFlush(events[i]) ==> events[i].now <= now
    ensures var calls := Pipeline.After(cfg, events).h.calls; EndsOrdered(Handed(calls)) && StoredBy(calls, now)
  {
    if events != [] {
      var n := |events| - 1;
      var e, s := events[n], Pipeline.After(cfg, events[..n]);
      WindowsInOrder(cfg, events[..n], if IsFlush(e) then e.now else now);
      if IsFlush(e) && Enabled(s, e) {
        AppendInOrder(s.h.calls, ClosedAll(s.w.windows, e.order, e.now), e.now);
      }
    }
  }

  lemma AppendInOrder(calls: seq<Storage.Call>, ms: seq<AggregatedMetric>, now: int)
    requires EndsOrdered(Handed(calls)) && StoredBy(calls, now) && forall i :: 0 <= i < |ms| ==> ms[i].windowEnd == now
    ensures EndsOrdered(Handed(calls + Calls(ms, now))) && StoredBy(calls + Calls(ms, now), now)
  {
    var all := calls + Calls(ms, now);
    forall i, j | 0 <= i < j < |all| ensures Handed(all)[i].windowEnd <= Handed(all)[j].windowEnd {
      if j < |calls| {
        assert Handed(calls)[i].windowEnd <= Handed(calls)[j].windowEnd;
      }
    }
  }

  /** So right after the last window was stored, no bucket is older than the retention time. */
  lemma {:induction false} NoStaleWindowKept(cfg: Config, events: seq<Event>, now: int)
    requires cfg.storageMax >= 1 && cfg.storageTtl > 0 && Clocked(events)
    requires forall i :: 0 <= i < |events| && IsFlush(events[i]) ==> events[i].now <= now
    requires Pipeline.After(cfg, events).h.calls != []
    ensures var s := Pipeline.After(cfg, events);
            NoneOlder(s.w.buckets, s.h.calls[|s.h.calls| - 1].now - cfg.storageTtl)
  {
    var s := Pipeline.After(cfg, events);
    var calls := s.h.calls;
    var n := |calls| - 1;
    WindowsInOrder(cfg, events, now);
    RunStoreInv(cfg, events);
    NoStaleBucketRetained(cfg.storageMax, cfg.storageTtl, calls);
    StoredIs(Storage.After(cfg.storageMax, cfg.storageTtl, calls[..n]), cfg.storageMax, cfg.storageTtl, calls[n].m,
             calls[n].now);
    AllButLast(s.w.buckets, calls[n].now - cfg.storageTtl);
  }

  lemma AllButLast(ms: seq<AggregatedMetric>, cutoff: int)
    requires ms != [] && NoneOlder(ms[..|ms| - 1], cutoff) && ms[|ms| - 1].windowEnd >= cutoff
    ensures NoneOlder(ms, cutoff)
  {
    assert forall i :: 0 <= i < |ms| - 1 ==> ms[i] == ms[..|ms| - 1][i];
  }
}
