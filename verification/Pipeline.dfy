/**
 * Whole runs of the ingestion pipeline (registry.go, aggregator.go): producers, registrations and the loop's choices
 * as a sequence of atomic events, with a history of what went where.
 */
module Pipeline {
  import opened Base
  import opened Metrics
  import opened Histograms
  import opened Tables
  import opened Cardinality
  import opened Storage
  import opened Aggregation
  import opened Worlds
  import Labels

  datatype AppliedSample = AppliedSample(name: string, value: real)

  /**
   * Samples accepted by the queue; fingerprints offered to the guard; names of samples it refused; samples applied;
   * Store calls and, for each, the samples of its window; the samples of each open window; for each live metric the
   * samples since it was created; the names ever evicted.
   */
  datatype History = History(
    accepted: seq<Sample>, offered: seq<Cardinality.Call>, refused: seq<string>, applied: seq<AppliedSample>,
    calls: seq<Storage.Call>, segments: seq<seq<real>>, open: map<string, seq<real>>,
    since: map<string, seq<real>>, evicted: set<string>)

  /** The loop: not yet started, running, or ended with its final flush. It is started at most once. */
  datatype Phase = NotStarted | Running | Ended

  datatype State = State(w: World, h: History, phase: Phase)

  datatype Event =
    | Record(s: Sample)
    | Register(name: string, kind: MetricType, description: string, labels: seq<string>, bounds: seq<real>,
               gaugeMin: real, gaugeMax: real, now: int)
    | Start
    | Process(now: int)
    | Flush(order: seq<string>, now: int)
    | FinalFlush(order: seq<string>, now: int)   // the loop is told to stop
    | EarlyClose(order: seq<string>, now: int)   // Close where Start has not been called: a flush, and no more

  function Init(): State {
    var t := InitialTable();
    State(NewWorld(), History([], [], [], [], [], [], map[], map n | n in t.metrics :: [], {}), NotStarted)
  }

  /** The loop's own events happen from its start to its final flush. */
  ghost predicate Enabled(s: State, e: Event) {
    match e
    case Start => s.phase == NotStarted
    case Process(_) => s.phase == Running && s.w.queue != []
    case Flush(order, _) => s.phase == Running && Enumerates(order, s.w.windows.Keys)
    case FinalFlush(order, _) => s.phase == Running && Enumerates(order, s.w.windows.Keys)
    case EarlyClose(order, _) => s.phase == NotStarted && Enumerates(order, s.w.windows.Keys)
    case _ => true
  }

  function Of(m: map<string, seq<real>>, name: string): seq<real> {
    if name in m then m[name] else []
  }

  /** Metrics that survive keep their samples, new ones start with none. */
  function Kept(since: map<string, seq<real>>, before: Table, after: Table): map<string, seq<real>> {
    map n | n in after.metrics :: if n in before.metrics then Of(since, n) else []
  }

  function Lost(before: Table, after: Table): set<string> {
    before.metrics.Keys - after.metrics.Keys
  }

  /** The bookkeeping of a table change. */
  function Retabled(h: History, before: Table, after: Table): History {
    h.(since := Kept(h.since, before, after), evicted := h.evicted + Lost(before, after))
  }

  /** The bookkeeping of an applied sample. */
  function Noted(h: History, before: Table, after: Table, name: string, v: real): History {
    var k := Retabled(h, before, after);
    k.(applied := k.applied + [AppliedSample(name, v)],
       open := k.open[name := Of(k.open, name) + [v]],
       since := k.since[name := Of(k.since, name) + [v]])
  }

  function Calls(ms: seq<AggregatedMetric>, now: int): (calls: seq<Storage.Call>)
    ensures |calls| == |ms|
  {
    seq(|ms|, i requires 0 <= i < |ms| => Storage.Call(ms[i], now))
  }

  function SegmentsOf(open: map<string, seq<real>>, order: seq<string>): (segs: seq<seq<real>>)
    ensures |segs| == |order|
  {
    seq(|order|, i requires 0 <= i < |order| => Of(open, order[i]))
  }

  ghost function Flushing(cfg: Config, s: State, order: seq<string>, now: int): State
    requires Enumerates(order, s.w.windows.Keys) && cfg.storageMax >= 1
  {
    s.(w := Flushed(cfg, s.w, order, now),
       h := s.h.(calls := s.h.calls + Calls(ClosedAll(s.w.windows, order, now), now),
                 segments := s.h.segments + SegmentsOf(s.h.open, order),
                 open := map[]))
  }

  ghost function Processing(cfg: Config, s: State, now: int): State
    requires Filed(s.w.table) && s.w.queue != []
  {
    var sample := s.w.queue[0];
    var labels := CleanLabels(cfg, sample);
    var ok := Guarded(cfg, s.w.guard, sample.name, labels).1;
    var offer := if labels == [] then [] else [Cardinality.Call(sample.name, Labels.Fingerprint(labels))];
    var h := s.h.(offered := s.h.offered + offer);
    s.(w := Processed(cfg, s.w, now),
       h := if ok
            then Noted(h, s.w.table, Present(cfg, s.w.table, sample.name, now), sample.name, sample.value)
            else h.(refused := h.refused + [sample.name]))
  }

  /** One event; an event that is not enabled does not happen. */
  ghost function Step(cfg: Config, s: State, e: Event): State
    requires Filed(s.w.table) && cfg.storageMax >= 1
  {
    if !Enabled(s, e) then s else
    match e
    case Record(sample) =>
      s.(w := Enqueued(cfg, s.w, sample),
         h := if |s.w.queue| < cfg.queueSize then s.h.(accepted := s.h.accepted + [sample]) else s.h)
    case Register(name, kind, description, labels, bounds, gaugeMin, gaugeMax, now) =>
      var t := Registered(s.w.table, cfg.limits, name,
                          Created(name, kind, description, labels, bounds, gaugeMin, gaugeMax), now);
      s.(w := s.w.(table := t), h := Retabled(s.h, s.w.table, t))
    case Process(now) => Processing(cfg, s, now)
    case Flush(order, now) => Flushing(cfg, s, order, now)
    case FinalFlush(order, now) => Flushing(cfg, s, order, now).(phase := Ended)
    case Start => s.(phase := Running)
    case EarlyClose(order, now) => Flushing(cfg, s, order, now)
  }

  lemma StepFiled(cfg: Config, s: State, e: Event)
    requires Filed(s.w.table) && cfg.storageMax >= 1
    ensures Filed(Step(cfg, s, e).w.table)
  {
  }

  /** The state after a sequence of events: every reachable state is of this form. */
  ghost function After(cfg: Config, events: seq<Event>): (s: State)
    requires cfg.storageMax >= 1
    ensures Filed(s.w.table)
  {
    if events == [] then InitialInv(cfg.limits); Init()
    else
      var before := After(cfg, events[..|events| - 1]);
      StepFiled(cfg, before, events[|events| - 1]);
      Step(cfg, before, events[|events| - 1])
  }

  /** How often a name occurs. */
  function Mentions(names: seq<string>, name: string): nat {
    if names == [] then 0 else Mentions(names[..|names| - 1], name) + if names[|names| - 1] == name then 1 else 0
  }

  lemma MentionsSnoc(names: seq<string>, added: string, name: string)
    ensures Mentions(names + [added], name) == Mentions(names, name) + if added == name then 1 else 0
  {
    assert (names + [added])[..|names|] == names;
  }

  /** The values applied to one metric, in order. */
  function AppliedTo(applied: seq<AppliedSample>, name: string): seq<real> {
    if applied == [] then []
    else
      var n := |applied| - 1;
      AppliedTo(applied[..n], name) + if applied[n].name == name then [applied[n].value] else []
  }

  /** The samples of all closed windows of one metric, in order. */
  function StoredFor(calls: seq<Storage.Call>, segments: seq<seq<real>>, name: string): seq<real>
    requires |calls| == |segments|
  {
    if calls == [] then []
    else
      var n := |calls| - 1;
      StoredFor(calls[..n], segments[..n], name) + if calls[n].m.name == name then segments[n] else []
  }

  // ---- The queue ----

  /** Every accepted sample is still queued, was refused, or was applied; the queue is what came last. */
  ghost predicate QueueInv(cfg: Config, s: State) {
    && |s.w.queue| <= cfg.queueSize
    && |s.h.accepted| == |s.w.queue| + |s.h.refused| + |s.h.applied|
    && IsSuffix(s.w.queue, s.h.accepted)
    && (forall name :: Dropped(s.w.guard, name) == Mentions(s.h.refused, name))
    && s.w.guard == Cardinality.After(cfg.maxSeries, s.h.offered)
  }

  lemma GuardCounts(cfg: Config, g: Guard, name: string, labels: seq<Labels.Label>, other: string)
    ensures var (g', ok) := Guarded(cfg, g, name, labels);
            Dropped(g', other) == Dropped(g, other) + if !ok && other == name then 1 else 0
  {
    if labels != [] && cfg.maxSeries != 0 {
      OfferEffect(g, cfg.maxSeries, Cardinality.Call(name, Labels.Fingerprint(labels)), other);
    }
  }

  /** What processing the head of the queue does to the queue, the guard and the record of both. */
  lemma ProcessEffect(cfg: Config, s: State, now: int)
    requires Filed(s.w.table) && s.w.queue != []
    ensures var t, sample := Processing(cfg, s, now), s.w.queue[0];
            var (g, ok) := Guarded(cfg, s.w.guard, sample.name, CleanLabels(cfg, sample));
            && t.h.accepted == s.h.accepted && t.w.queue == s.w.queue[1..] && t.w.guard == g
            && t.h.offered == s.h.offered +
               (if sample.labels == [] then []
                else [Cardinality.Call(sample.name, Labels.Fingerprint(CleanLabels(cfg, sample)))])
            && t.h.applied == s.h.applied + (if ok then [AppliedSample(sample.name, sample.value)] else [])
            && t.h.refused == s.h.refused + (if ok then [] else [sample.name])
  {
  }

  lemma ProcessQueueInv(cfg: Config, s: State, now: int)
    requires QueueInv(cfg, s) && Filed(s.w.table) && s.w.queue != []
    ensures QueueInv(cfg, Processing(cfg, s, now))
  {
    var t, sample := Processing(cfg, s, now), s.w.queue[0];
    var labels := CleanLabels(cfg, sample);
    ProcessEffect(cfg, s, now);
    OfferedStep(cfg, s.h.offered, sample.name, labels);
    forall name ensures Dropped(t.w.guard, name) == Mentions(t.h.refused, name) {
      RefusedStep(cfg, s.w.guard, s.h.refused, sample.name, labels, name);
      assert s.h.refused + [] == s.h.refused;
    }
  }

  lemma RefusedStep(cfg: Config, g: Guard, refused: seq<string>, name: string, labels: seq<Labels.Label>, other: string)
    requires Dropped(g, other) == Mentions(refused, other)
    ensures var (g', ok) := Guarded(cfg, g, name, labels);
            Dropped(g', other) == Mentions(if ok then refused else refused + [name], other)
  {
    GuardCounts(cfg, g, name, labels, other);
    MentionsSnoc(refused, name, other);
  }

  lemma OfferedStep(cfg: Config, offered: seq<Cardinality.Call>, name: string, labels: seq<Labels.Label>)
    ensures var more := if labels == [] then [] else [Cardinality.Call(name, Labels.Fingerprint(labels))];
            Guarded(cfg, Cardinality.After(cfg.maxSeries, offered), name, labels).0 ==
              Cardinality.After(cfg.maxSeries, offered + more)
  {
    if labels == [] {
      assert offered + [] == offered;
    } else {
      assert (offered + [Cardinality.Call(name, Labels.Fingerprint(labels))])[..|offered|] == offered;
    }
  }

  lemma StepQueueInv(cfg: Config, s: State, e: Event)
    requires QueueInv(cfg, s) && Filed(s.w.table) && cfg.storageMax >= 1
    ensures QueueInv(cfg, Step(cfg, s, e))
  {
    if e.Process? && Enabled(s, e) {
      ProcessQueueInv(cfg, s, e.now);
    }
  }

  lemma {:induction false} RunQueueInv(cfg: Config, events: seq<Event>)
    requires cfg.storageMax >= 1
    ensures QueueInv(cfg, After(cfg, events))
  {
    if events != [] {
      RunQueueInv(cfg, events[..|events| - 1]);
      StepQueueInv(cfg, After(cfg, events[..|events| - 1]), events[|events| - 1]);
    }
  }

  // ---- The windows ----

  /** Each stored record summarises its segment. */
  ghost predicate AllRecords(calls: seq<Storage.Call>, segments: seq<seq<real>>)
    requires |calls| == |segments|
  {
    forall i :: 0 <= i < |calls| ==> RecordOf(calls[i].m, segments[i])
  }

  lemma AllRecordsAppend(calls: seq<Storage.Call>, segments: seq<seq<real>>, more: seq<Storage.Call>,
                         segs: seq<seq<real>>)
    requires |calls| == |segments| && |more| == |segs| && AllRecords(calls, segments) && AllRecords(more, segs)
    ensures AllRecords(calls + more, segments + segs)
  {
  }

  /** Closed and open windows partition what was applied, and summarise it. */
  ghost predicate WindowInv(s: State) {
    && |s.h.calls| == |s.h.segments|
    && AllRecords(s.h.calls, s.h.segments)
    && OpenWindows(s.w.windows, s.h.open)
    && (forall n :: AppliedTo(s.h.applied, n) == StoredFor(s.h.calls, s.h.segments, n) + Of(s.h.open, n))
  }

  /** Each open window summarises its samples. */
  ghost predicate OpenWindows(windows: map<string, WindowValue>, open: map<string, seq<real>>) {
    open.Keys == windows.Keys && forall n :: n in windows ==> WindowOf(windows[n], open[n])
  }

  lemma OpenWindowsAdd(windows: map<string, WindowValue>, open: map<string, seq<real>>, name: string, v: real,
                       captured: map<real, int>, now: int)
    requires OpenWindows(windows, open)
    ensures OpenWindows(AddedTo(windows, name, v, captured, now), open[name := Of(open, name) + [v]])
  {
    if name in windows {
      AddedSummarises(windows[name], open[name], v, captured);
    } else {
      OpenedSummarises(v, captured, now);
      assert [] + [v] == [v];
    }
  }

  /** One more sample goes to one window. */
  lemma NotedWindowInv(s: State, t: State, name: string, v: real, captured: map<real, int>, now: int)
    requires WindowInv(s)
    requires t.w.windows == AddedTo(s.w.windows, name, v, captured, now)
    requires t.h.applied == s.h.applied + [AppliedSample(name, v)]
             && t.h.open == s.h.open[name := Of(s.h.open, name) + [v]]
    requires t.h.calls == s.h.calls && t.h.segments == s.h.segments
    ensures WindowInv(t)
  {
    OpenWindowsAdd(s.w.windows, s.h.open, name, v, captured, now);
    forall n ensures AppliedTo(t.h.applied, n) == StoredFor(t.h.calls, t.h.segments, n) + Of(t.h.open, n) {
      AppliedToSnoc(s.h.applied, name, v, n);
      var stored, open := StoredFor(s.h.calls, s.h.segments, n), Of(s.h.open, n);
      assert AppliedTo(s.h.applied, n) == stored + open;
      Reassociated(stored, open, if n == name then [v] else []);
    }
  }

  lemma Reassociated(a: seq<real>, b: seq<real>, c: seq<real>)
    ensures (a + b) + c == a + (b + c) && b + [] == b
  {
  }

  lemma AppliedToSnoc(applied: seq<AppliedSample>, name: string, v: real, n: string)
    ensures AppliedTo(applied + [AppliedSample(name, v)], n) == AppliedTo(applied, n) + if name == n then [v] else []
  {
    assert (applied + [AppliedSample(name, v)])[..|applied|] == applied;
  }

  /** Closing windows appends, for each metric, the samples of its window if it has one. */
  lemma {:induction false} StoredForAppend(calls: seq<Storage.Call>, segments: seq<seq<real>>, more: seq<Storage.Call>,
                                           segs: seq<seq<real>>,
                                           open: map<string, seq<real>>, order: seq<string>, name: string)
    requires |calls| == |segments| && |more| == |segs| == |order| && NoDup(order)
    requires forall i :: 0 <= i < |order| ==> more[i].m.name == order[i] && segs[i] == Of(open, order[i])
    ensures StoredFor(calls + more, segments + segs, name) ==
            StoredFor(calls, segments, name) + if name in order then Of(open, name) else []
  {
    if order == [] {
      assert calls + more == calls && segments + segs == segments;
    } else {
      var k := |order| - 1;
      var before := StoredFor(calls, segments, name);
      StoredForAppend(calls, segments, more[..k], segs[..k], open, order[..k], name);
      StoredForLast(calls, segments, more, segs, name);
      if name == order[k] {
        assert name !in order[..k] && before + [] == before;
      } else {
        assert name in order <==> name in order[..k];
      }
    }
  }

  lemma StoredForLast(calls: seq<Storage.Call>, segments: seq<seq<real>>, more: seq<Storage.Call>,
                      segs: seq<seq<real>>, name: string)
    requires |calls| == |segments| && |more| == |segs| > 0
    ensures var k := |more| - 1;
            StoredFor(calls + more, segments + segs, name) ==
            StoredFor(calls + more[..k], segments + segs[..k], name) + if more[k].m.name == name then segs[k] else []
  {
    var k := |more| - 1;
    StoredForSnoc(calls + more[..k], segments + segs[..k], more[k], segs[k], name);
    assert calls + more == (calls + more[..k]) + [more[k]] && segments + segs == (segments + segs[..k]) + [segs[k]];
  }

  lemma StoredForSnoc(calls: seq<Storage.Call>, segments: seq<seq<real>>, call: Storage.Call, segment: seq<real>,
                      name: string)
    requires |calls| == |segments|
    ensures StoredFor(calls + [call], segments + [segment], name) ==
            StoredFor(calls, segments, name) + if call.m.name == name then segment else []
  {
    assert (calls + [call])[..|calls|] == calls && (segments + [segment])[..|segments|] == segments;
  }

  lemma FlushWindowInv(cfg: Config, s: State, order: seq<string>, now: int)
    requires WindowInv(s) && Enumerates(order, s.w.windows.Keys) && cfg.storageMax >= 1
    ensures WindowInv(Flushing(cfg, s, order, now))
  {
    var t := Flushing(cfg, s, order, now);
    var cs, gs := Calls(ClosedAll(s.w.windows, order, now), now), SegmentsOf(s.h.open, order);
    FlushShape(s, order, now);
    AllRecordsAppend(s.h.calls, s.h.segments, cs, gs);
    forall n ensures AppliedTo(t.h.applied, n) == StoredFor(t.h.calls, t.h.segments, n) + Of(t.h.open, n) {
      StoredForAppend(s.h.calls, s.h.segments, cs, gs, s.h.open, order, n);
      assert n in order <==> n in Elements(order);
      assert AppliedTo(s.h.applied, n) == StoredFor(s.h.calls, s.h.segments, n) + Of(s.h.open, n);
    }
  }

  /** What a flush hands over: for each window its name, and a record that summarises its samples. */
  lemma FlushShape(s: State, order: seq<string>, now: int)
    requires WindowInv(s) && Enumerates(order, s.w.windows.Keys)
    ensures var cs, gs := Calls(ClosedAll(s.w.windows, order, now), now), SegmentsOf(s.h.open, order);
            AllRecords(cs, gs) && forall i :: 0 <= i < |order| ==>
              cs[i].m.name == order[i] && gs[i] == Of(s.h.open, order[i])
  {
    forall i | 0 <= i < |order| ensures order[i] in s.w.windows {
      assert order[i] in Elements(order);
    }
  }

  lemma StepWindowInv(cfg: Config, s: State, e: Event)
    requires WindowInv(s) && Filed(s.w.table) && cfg.storageMax >= 1
    ensures WindowInv(Step(cfg, s, e))
  {
    if Enabled(s, e) {
      match e
      case Process(now) =>
        var sample := s.w.queue[0];
        var labels := CleanLabels(cfg, sample);
        if Guarded(cfg, s.w.guard, sample.name, labels).1 {
          var t := Present(cfg, s.w.table, sample.name, now);
          var m := Sampled(t.metrics[sample.name], sample.value, labels, now);
          NotedWindowInv(s, Processing(cfg, s, now), sample.name, sample.value, Captured(m), now);
        }
      case Flush(order, now) => FlushWindowInv(cfg, s, order, now);
      case FinalFlush(order, now) => FlushWindowInv(cfg, s, order, now);
      case EarlyClose(order, now) => FlushWindowInv(cfg, s, order, now);
      case _ =>
    }
  }

  lemma {:induction false} RunWindowInv(cfg: Config, events: seq<Event>)
    requires cfg.storageMax >= 1
    ensures WindowInv(After(cfg, events))
  {
    if events != [] {
      RunWindowInv(cfg, events[..|events| - 1]);
      StepWindowInv(cfg, After(cfg, events[..|events| - 1]), events[|events| - 1]);
    }
  }

  // ---- Storage ----

  /** The stored buckets are what the Store calls leave behind. */
  ghost predicate StoreInv(cfg: Config, s: State)
    requires cfg.storageMax >= 1
  {
    s.w.buckets == Storage.After(cfg.storageMax, cfg.storageTtl, s.h.calls)
  }

  lemma {:induction false} StoredAllIsCalls(max: int, ttl: int, calls: seq<Storage.Call>, ms: seq<AggregatedMetric>,
                                            now: int)
    requires max >= 1
    ensures StoredAll(Storage.After(max, ttl, calls), max, ttl, ms, now) ==
            Storage.After(max, ttl, calls + Calls(ms, now))
  {
    if ms == [] {
      assert calls + Calls(ms, now) == calls;
    } else {
      var n := |ms| - 1;
      StoredAllIsCalls(max, ttl, calls, ms[..n], now);
      assert calls + Calls(ms, now) == (calls + Calls(ms[..n], now)) + [Storage.Call(ms[n], now)];
      assert ((calls + Calls(ms[..n], now)) + [Storage.Call(ms[n], now)])[..|calls| + n] == calls + Calls(ms[..n], now);
    }
  }

  lemma {:induction false} RunStoreInv(cfg: Config, events: seq<Event>)
    requires cfg.storageMax >= 1
    ensures StoreInv(cfg, After(cfg, events))
  {
    if events != [] {
      var s, e := After(cfg, events[..|events| - 1]), events[|events| - 1];
      RunStoreInv(cfg, events[..|events| - 1]);
      StepStoreInv(cfg, s, e);
    }
  }

  lemma StepStoreInv(cfg: Config, s: State, e: Event)
    requires cfg.storageMax >= 1 && StoreInv(cfg, s) && Filed(s.w.table)
    ensures StoreInv(cfg, Step(cfg, s, e))
  {
    if Enabled(s, e) && (e.Flush? || e.FinalFlush? || e.EarlyClose?) {
      StoredAllIsCalls(cfg.storageMax, cfg.storageTtl, s.h.calls, ClosedAll(s.w.windows, e.order, e.now), e.now);
    }
  }

  // ---- The metric table ----

  /** One-step registration keeps the table consistent along every run. */
  lemma {:induction false} RunTableInv(cfg: Config, events: seq<Event>)
    requires cfg.storageMax >= 1
    ensures Tables.Inv(After(cfg, events).w.table, cfg.limits)
  {
    if events == [] {
      InitialInv(cfg.limits);
    } else {
      RunTableInv(cfg, events[..|events| - 1]);
      StepTableInv(cfg, After(cfg, events[..|events| - 1]), events[|events| - 1]);
    }
  }

  lemma StepTableInv(cfg: Config, s: State, e: Event)
    requires cfg.storageMax >= 1 && Filed(s.w.table) && Tables.Inv(s.w.table, cfg.limits)
    ensures Tables.Inv(Step(cfg, s, e).w.table, cfg.limits)
  {
    match e
    case Register(name, kind, description, labels, bounds, gaugeMin, gaugeMax, now) =>
      RegisteredInv(s.w.table, cfg.limits, name,
                    Created(name, kind, description, labels, bounds, gaugeMin, gaugeMax), now);
    case Process(now) =>
      if Enabled(s, e) {
        var sample := s.w.queue[0];
        RegisteredInv(s.w.table, cfg.limits, sample.name, Implicit(sample.name), now);
        if Guarded(cfg, s.w.guard, sample.name, CleanLabels(cfg, sample)).1 {
          ReplacedInv(Present(cfg, s.w.table, sample.name, now), cfg.limits, sample.name,
                      Processing(cfg, s, now).w.table);
        }
      }
    case _ =>
  }

  /** Replacing the value of a live metric changes nothing about the listing. */
  lemma ReplacedInv(t: Table, lim: Limits, name: string, t': Table)
    requires Tables.Inv(t, lim) && name in t.metrics && t'.order == t.order && t'.metrics.Keys == t.metrics.Keys
    ensures Tables.Inv(t', lim)
  {
    assert |t'.metrics| == |t'.metrics.Keys| && |t.metrics| == |t.metrics.Keys|;
  }

  // ---- Live metrics ----

  /** A live metric's payload is exactly what its samples since creation leave behind. */
  ghost predicate Payloads(metrics: map<string, MetricValue>, since: map<string, seq<real>>) {
    since.Keys == metrics.Keys && forall n :: n in metrics ==> Reflects(metrics[n], since[n])
  }

  /**
   * The samples since creation are the most recent part of all samples applied under the name, and all of them if the
   * name was never evicted.
   */
  ghost predicate Recency(h: History) {
    && (forall n :: n in h.since ==> IsSuffix(h.since[n], AppliedTo(h.applied, n)))
    && (forall n :: n !in h.evicted ==> Of(h.since, n) == AppliedTo(h.applied, n))
  }

  ghost predicate LiveInv(s: State) {
    Payloads(s.w.table.metrics, s.h.since) && Recency(s.h)
  }

  /** Registering a name, with whatever eviction that takes. */
  lemma RetabledLiveInv(cfg: Config, s: State, name: string, m: MetricValue, now: int, s': State)
    requires LiveInv(s) && Reflects(m, [])
    requires var t := Registered(s.w.table, cfg.limits, name, m, now);
             s'.w.table == t && s'.h == Retabled(s.h, s.w.table, t)
    ensures LiveInv(s')
  {
    RegisteredValues(s.w.table, cfg.limits, name, m, now);
    RetabledRecency(s.h, s.w.table, s'.w.table);
  }

  lemma RetabledRecency(h: History, before: Table, after: Table)
    requires Recency(h) && h.since.Keys == before.metrics.Keys
    ensures Recency(Retabled(h, before, after))
  {
    var k := Retabled(h, before, after);
    forall n | n !in k.evicted ensures Of(k.since, n) == AppliedTo(k.applied, n) {
      assert n !in h.evicted && n !in Lost(before, after);
      assert Of(k.since, n) == Of(h.since, n);
    }
  }

  /** Registration leaves surviving metrics alone; a metric that was not there before is the new one. */
  lemma RegisteredValues(t: Table, lim: Limits, name: string, m: MetricValue, now: int)
    ensures var t' := Registered(t, lim, name, m, now);
            forall n :: n in t'.metrics ==> t'.metrics[n] == if n in t.metrics then t.metrics[n] else m
  {
  }

  /** A sample recorded into a live metric. */
  lemma SampledLiveInv(s: State, name: string, v: real, labels: seq<Labels.Label>, now: int, s': State)
    requires LiveInv(s) && name in s.w.table.metrics && WellFormed(s.w.table.metrics[name])
    requires s'.w.table.metrics == s.w.table.metrics[name := Sampled(s.w.table.metrics[name], v, labels, now)]
    requires s'.h.since == s.h.since[name := Of(s.h.since, name) + [v]] && s'.h.evicted == s.h.evicted
    requires s'.h.applied == s.h.applied + [AppliedSample(name, v)]
    ensures LiveInv(s')
  {
    var m := s.w.table.metrics[name];
    SampledReflects(m, s.h.since[name], v, labels, now);
    PayloadsUpdate(s.w.table.metrics, s.h.since, name, Sampled(m, v, labels, now), s.h.since[name] + [v]);
    SampledRecency(s.h, name, v, s'.h);
  }

  lemma PayloadsUpdate(metrics: map<string, MetricValue>, since: map<string, seq<real>>, name: string, m: MetricValue,
                       samples: seq<real>)
    requires Payloads(metrics, since) && Reflects(m, samples)
    ensures Payloads(metrics[name := m], since[name := samples])
  {
  }

  lemma SampledReflects(m: MetricValue, samples: seq<real>, v: real, labels: seq<Labels.Label>, now: int)
    requires Reflects(m, samples) && WellFormed(m)
    ensures Reflects(Sampled(m, v, labels, now), samples + [v])
  {
    RecordedReflects(m, samples, v, now);
    RelabelledReflects(Recorded(m, v, now), samples + [v], labels);
  }

  lemma SampledRecency(h: History, name: string, v: real, h': History)
    requires Recency(h) && name in h.since && h'.since == h.since[name := Of(h.since, name) + [v]]
    requires h'.evicted == h.evicted && h'.applied == h.applied + [AppliedSample(name, v)]
    ensures Recency(h')
  {
    forall n ensures n in h'.since ==> IsSuffix(h'.since[n], AppliedTo(h'.applied, n)) {
      AppliedToSnoc(h.applied, name, v, n);
      if n == name {
        SuffixSnoc(h.since[name], AppliedTo(h.applied, name), v);
      }
    }
    forall n ensures n !in h'.evicted ==> Of(h'.since, n) == AppliedTo(h'.applied, n) {
      AppliedToSnoc(h.applied, name, v, n);
    }
  }

  lemma ProcessLiveInv(cfg: Config, s: State, now: int)
    requires LiveInv(s) && Filed(s.w.table) && s.w.queue != []
    ensures LiveInv(Processing(cfg, s, now))
  {
    var sample := s.w.queue[0];
    var labels := CleanLabels(cfg, sample);
    if Guarded(cfg, s.w.guard, sample.name, labels).1 {
      var t := Present(cfg, s.w.table, sample.name, now);
      CreatedReflectsNothing(sample.name, Counter, "", [], [], 0.0, 0.0);
      var mid := s.(w := s.w.(table := t), h := Retabled(s.h, s.w.table, t));
      RetabledLiveInv(cfg, s, sample.name, Implicit(sample.name), now, mid);
      SampledLiveInv(mid, sample.name, sample.value, labels, now, Processing(cfg, s, now));
    }
  }

  lemma StepLiveInv(cfg: Config, s: State, e: Event)
    requires cfg.storageMax >= 1 && Filed(s.w.table) && LiveInv(s)
    ensures LiveInv(Step(cfg, s, e))
  {
    match e
    case Register(name, kind, description, labels, bounds, gaugeMin, gaugeMax, now) =>
      CreatedReflectsNothing(name, kind, description, labels, bounds, gaugeMin, gaugeMax);
      RetabledLiveInv(cfg, s, name, Created(name, kind, description, labels, bounds, gaugeMin, gaugeMax), now,
                      Step(cfg, s, e));
    case Process(now) =>
      if Enabled(s, e) {
        ProcessLiveInv(cfg, s, now);
      }
    case _ =>
  }

  lemma {:induction false} RunLiveInv(cfg: Config, events: seq<Event>)
    requires cfg.storageMax >= 1
    ensures LiveInv(After(cfg, events))
  {
    if events == [] {
      InitLiveInv();
    } else {
      RunLiveInv(cfg, events[..|events| - 1]);
      StepLiveInv(cfg, After(cfg, events[..|events| - 1]), events[|events| - 1]);
    }
  }

  lemma InitLiveInv()
    ensures LiveInv(Init())
  {
    CreatedReflectsNothing(REQUESTS, Counter, "Total HTTP requests", ["method", "path", "status"], [], 0.0, 0.0);
    CreatedReflectsNothing(ERRORS, Counter, "HTTP errors (status >= 400)", ["method", "path"], [], 0.0, 0.0);
    CreatedReflectsNothing(DURATION, Histogram, "HTTP request latency", ["method", "path"], DEFAULT_BOUNDS, 0.0, 0.0);
    var t := InitialTable();
    forall n | n in t.metrics ensures Reflects(t.metrics[n], []) {
    }
  }
}
