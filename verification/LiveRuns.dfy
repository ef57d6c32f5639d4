/** What a live metric remembers of the samples processed along a run: when the latest came, and with which labels. */
module LiveRuns {
  import opened Base
  import opened Metrics
  import opened Tables
  import opened Worlds
  import opened Pipeline
  import Labels

  /** The step applies a sample to the metric. */
  ghost predicate AppliesTo(s: State, t: State, name: string) {
    |s.h.applied| < |t.h.applied| && t.h.applied[|t.h.applied| - 1].name == name
  }

  function Clock(e: Event): int {
    match e
    case Register(_, _, _, _, _, _, _, now) => now
    case Process(now) => now
    case Flush(_, now) => now
    case FinalFlush(_, now) => now
    case EarlyClose(_, now) => now
    case _ => 0
  }

  /** When the latest sample was applied to the metric since it was created; zero if none was. */
  ghost function LastApplied(cfg: Config, events: seq<Event>, name: string): int
    requires cfg.storageMax >= 1
  {
    if events == [] then 0
    else
      var n := |events| - 1;
      var s, t := After(cfg, events[..n]), After(cfg, events);
      if AppliesTo(s, t, name) then Clock(events[n])
      else if name in s.w.table.metrics && name in t.w.table.metrics then LastApplied(cfg, events[..n], name)
      else 0
  }

  /** The labels, as recorded, of the latest labelled sample applied to the metric since it was created. */
  ghost function LastLabelled(cfg: Config, events: seq<Event>, name: string): seq<Labels.Label>
    requires cfg.storageMax >= 1
  {
    if events == [] then []
    else
      var n := |events| - 1;
      var s, t := After(cfg, events[..n]), After(cfg, events);
      if AppliesTo(s, t, name) && s.w.queue != [] && s.w.queue[0].labels != [] then s.w.queue[0].labels
      else if name in s.w.table.metrics && name in t.w.table.metrics then LastLabelled(cfg, events[..n], name)
      else []
  }

  /** The metric of a sample before the sample is recorded into it. */
  function MetricFor(t: Table, name: string): (m: MetricValue)
    requires Filed(t)
    ensures WellFormed(m)
  {
    if name in t.metrics then t.metrics[name] else Implicit(name)
  }

  /** What processing a sample does to a metric that is live afterwards. */
  lemma ProcessMetric(cfg: Config, s: State, now: int, name: string)
    requires Filed(s.w.table) && s.w.queue != [] && name in Processing(cfg, s, now).w.table.metrics
    ensures var t, sample := Processing(cfg, s, now), s.w.queue[0];
            var m := t.w.table.metrics[name];
            if AppliesTo(s, t, name)
            then m == Sampled(MetricFor(s.w.table, name), sample.value, CleanLabels(cfg, sample), now)
            else name in s.w.table.metrics && m == s.w.table.metrics[name]
  {
    RegisteredValues(s.w.table, cfg.limits, s.w.queue[0].name, Implicit(s.w.queue[0].name), now);
  }

  /** What one event does to a metric that is live afterwards: it takes the sample, or stays, or is new. */
  lemma StepMetric(cfg: Config, s: State, e: Event, name: string)
    requires cfg.storageMax >= 1 && Filed(s.w.table) && name in Step(cfg, s, e).w.table.metrics
    ensures var t := Step(cfg, s, e);
            var m := t.w.table.metrics[name];
            if AppliesTo(s, t, name) then
              && e.Process? && s.w.queue != []
              && var sample := s.w.queue[0];
                 m == Sampled(MetricFor(s.w.table, name), sample.value, CleanLabels(cfg, sample), e.now)
            else if name in s.w.table.metrics then m == s.w.table.metrics[name]
            else m.data.last == 0 && m.data.lastLabels == None
  {
    match e
    case Register(n, kind, description, labels, bounds, gaugeMin, gaugeMax, now) =>
      RegisteredValues(s.w.table, cfg.limits, n,
                       Created(n, kind, description, labels, bounds, gaugeMin, gaugeMax), now);
    case Process(now) =>
      if Enabled(s, e) {
        ProcessMetric(cfg, s, now, name);
      }
    case _ =>
  }

  /** The labels a metric shows after a sample with these labels. */
  lemma SampledLabels(cfg: Config, m: MetricValue, sample: Sample, now: int)
    requires WellFormed(m)
    ensures var m' := Sampled(m, sample.value, CleanLabels(cfg, sample), now);
            if sample.labels == [] then m'.data.lastLabels == m.data.lastLabels
            else m'.data.lastLabels.Some? && AllShownAs(cfg.labels, sample.labels, m'.data.lastLabels.value)
  {
    CleanAreShown(cfg, sample);
  }

  /** Along every run a live metric shows when its latest sample was applied; zero if it has none. */
  lemma {:induction false} LastIsLatest(cfg: Config, events: seq<Event>, name: string)
    requires cfg.storageMax >= 1 && name in After(cfg, events).w.table.metrics
    ensures After(cfg, events).w.table.metrics[name].data.last == LastApplied(cfg, events, name)
  {
    if events == [] {
      InitialUnused(name);
    } else {
      var n := |events| - 1;
      var s := After(cfg, events[..n]);
      StepMetric(cfg, s, events[n], name);
      if name in s.w.table.metrics {
        LastIsLatest(cfg, events[..n], name);
      }
    }
  }

  lemma InitialUnused(name: string)
    requires name in InitialTable().metrics
    ensures InitialTable().metrics[name].data.last == 0 && InitialTable().metrics[name].data.lastLabels == None
  {
  }

  /** A label as it is shown: the name, and what sanitising leaves of the value. */
  ghost predicate ShownAs(cfg: Labels.LabelsConfig, raw: Labels.Label, shown: Labels.Label) {
    var whole := if cfg.normalizePaths && raw.name == "path" then Labels.Normal(raw.value) else raw.value;
    && shown.name == raw.name
    && (raw.value == "" ==> shown.value == "")
    && (raw.value != "" ==>
          && shown.value <= whole
          && |shown.value| == if cfg.maxLength > 0 && |whole| > cfg.maxLength then cfg.maxLength else |whole|)
  }

  ghost predicate AllShownAs(cfg: Labels.LabelsConfig, raw: seq<Labels.Label>, shown: seq<Labels.Label>) {
    |shown| == |raw| && forall i :: 0 <= i < |raw| ==> ShownAs(cfg, raw[i], shown[i])
  }

  lemma CleanAreShown(cfg: Config, sample: Sample)
    ensures AllShownAs(cfg.labels, sample.labels, CleanLabels(cfg, sample))
  {
    forall i | 0 <= i < |sample.labels| ensures ShownAs(cfg.labels, sample.labels[i], CleanLabels(cfg, sample)[i]) {
      Labels.SanitizedIsPrefix(sample.labels[i].name, sample.labels[i].value, cfg.labels);
    }
  }

  /**
   * Along every run a live metric shows the labels of its latest labelled sample, sanitised; none if it has no such.
   */
  lemma {:induction false} LabelsAreLatest(cfg: Config, events: seq<Event>, name: string)
    requires cfg.storageMax >= 1 && name in After(cfg, events).w.table.metrics
    ensures var shown, raw := After(cfg, events).w.table.metrics[name].data.lastLabels, LastLabelled(cfg, events, name);
            if raw == [] then shown == None else shown.Some? && AllShownAs(cfg.labels, raw, shown.value)
  {
    if events == [] {
      InitialUnused(name);
    } else {
      var n := |events| - 1;
      var s := After(cfg, events[..n]);
      StepMetric(cfg, s, events[n], name);
      if name in s.w.table.metrics {
        LabelsAreLatest(cfg, events[..n], name);
      }
      if AppliesTo(s, After(cfg, events), name) {
        SampledLabels(cfg, MetricFor(s.w.table, name), s.w.queue[0], events[n].now);
      }
    }
  }

  /** No longer than the limit, and in normal form if it is a path, unless it may have been cut. */
  ghost predicate Clean(cfg: Labels.LabelsConfig, l: Labels.Label) {
    && (cfg.maxLength > 0 ==> |l.value| <= cfg.maxLength)
    && (cfg.normalizePaths && l.name == "path" && l.value != "" && (cfg.maxLength <= 0 || |l.value| < cfg.maxLength) ==>
          Labels.NormalForm(l.value))
  }

  lemma ShownIsClean(cfg: Labels.LabelsConfig, raw: Labels.Label, shown: Labels.Label)
    requires ShownAs(cfg, raw, shown)
    ensures Clean(cfg, shown)
  {
    if cfg.normalizePaths && raw.name == "path" {
      var whole := Labels.Normal(raw.value);
      Labels.NormalizeIdempotent(raw.value);
      Labels.FixedIffNormalForm(whole);
      assert shown.value != "" && |shown.value| == |whole| ==> shown.value == whole[..|shown.value|] == whole;
    }
  }

  /** So every label a live metric shows is clean. */
  lemma {:induction false} ShownLabelsAreClean(cfg: Config, events: seq<Event>, name: string, i: nat)
    requires cfg.storageMax >= 1 && name in After(cfg, events).w.table.metrics
    requires var shown := After(cfg, events).w.table.metrics[name].data.lastLabels; shown.Some? && i < |shown.value|
    ensures Clean(cfg.labels, After(cfg, events).w.table.metrics[name].data.lastLabels.value[i])
  {
    LabelsAreLatest(cfg, events, name);
    ShownIsClean(cfg.labels, LastLabelled(cfg, events, name)[i],
                 After(cfg, events).w.table.metrics[name].data.lastLabels.value[i]);
  }

  /** An admitted sample of a name that no metric has becomes a counter with that sample. */
  lemma UnknownBecomesCounter(cfg: Config, s: State, now: int)
    requires cfg.storageMax >= 1 && Filed(s.w.table) && s.w.queue != [] && s.w.queue[0].name !in s.w.table.metrics
    requires AppliesTo(s, Step(cfg, s, Process(now)), s.w.queue[0].name)
    ensures var name, t := s.w.queue[0].name, Step(cfg, s, Process(now)).w.table;
            && name in t.metrics && t.order != [] && t.order[|t.order| - 1] == name
            && t.metrics[name].def.kind == Counter && t.metrics[name].data.counter == Scaled(s.w.queue[0].value)
  {
  }
}
