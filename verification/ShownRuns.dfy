/** What the snapshot and the export of a live metric show of its samples (metric.go, otlp.go). */
module ShownRuns {
  import opened Base
  import opened Metrics
  import opened Histograms
  import opened Worlds
  import opened Pipeline
  import opened LiveRuns
  import ExportRuns
  import Otlp
  import Labels

  /** Apart by at most `n` millionths. */
  ghost predicate Within(x: real, y: real, n: int) {
    -(n as real * 0.000_001) <= x - y <= n as real * 0.000_001
  }

  /**
   * A histogram's average is that of its samples up to a millionth each: taken `n` times, it is their sum up to `n`.
   */
  ghost predicate Average(avg: real, samples: seq<real>) {
    if samples == [] then avg == 0.0 else Within(avg * |samples| as real, SumR(samples), |samples|)
  }

  /** A gauge shows its latest sample up to a millionth; without samples, zero. */
  ghost predicate Latest(value: real, samples: seq<real>) {
    if samples == [] then value == 0.0 else Within(value, samples[|samples| - 1], 1)
  }

  lemma CounterShows(m: MetricValue, samples: seq<real>)
    requires Reflects(m, samples) && m.def.kind == Counter
    ensures Within(SnapshotOf(m).value, SumR(samples), |samples|)
  {
    FixedPointError(samples);
  }

  lemma GaugeShows(m: MetricValue, samples: seq<real>)
    requires Reflects(m, samples) && m.def.kind == Gauge
    ensures Latest(SnapshotOf(m).value, samples)
  {
    if samples != [] {
      TruncationError(samples[|samples| - 1]);
    }
  }

  lemma HistogramShows(m: MetricValue, samples: seq<real>)
    requires Reflects(m, samples) && m.def.kind == Histogram
    ensures var shown := SnapshotOf(m);
            && shown.count == |samples| && Within(shown.sum, SumR(samples), |samples|) && Average(shown.avg, samples)
  {
    FixedPointError(samples);
    ShownAverage(m);
    AverageOf(SnapshotOf(m).avg, Unscaled(m.data.sum), samples);
  }

  lemma ShownAverage(m: MetricValue)
    requires WellFormed(m) && m.def.kind == Histogram
    ensures SnapshotOf(m).avg == if m.data.count > 0 then Unscaled(m.data.sum) / m.data.count as real else 0.0
  {
  }

  lemma AverageOf(avg: real, sum: real, samples: seq<real>)
    requires Within(sum, SumR(samples), |samples|)
    requires avg == if samples != [] then sum / |samples| as real else 0.0
    ensures Average(avg, samples)
  {
    if samples != [] {
      AverageTimesCount(sum, |samples|);
    }
  }

  lemma AverageTimesCount(sum: real, n: int)
    requires n > 0
    ensures sum / n as real * n as real == sum
  {
  }

  /** Along every run, what the snapshot of a metric shows of the samples applied to it, if it was never evicted. */
  lemma {:induction false} RunShows(cfg: Config, events: seq<Event>, name: string)
    requires cfg.storageMax >= 1
    requires var s := After(cfg, events); name in s.w.table.metrics && name !in s.h.evicted
    ensures var s := After(cfg, events);
            var samples, shown := AppliedTo(s.h.applied, name), SnapshotOf(s.w.table.metrics[name]);
            match shown.kind
            case Counter => Within(shown.value, SumR(samples), |samples|)
            case Gauge => Latest(shown.value, samples)
            case Histogram =>
              shown.count == |samples| && Within(shown.sum, SumR(samples), |samples|) && Average(shown.avg, samples)
            case Unknown => true
  {
    var s := After(cfg, events);
    var m, samples := s.w.table.metrics[name], AppliedTo(s.h.applied, name);
    ExportRuns.ReflectsApplied(cfg, events, name);
    match m.def.kind
    case Counter => CounterShows(m, samples);
    case Gauge => GaugeShows(m, samples);
    case Histogram => HistogramShows(m, samples);
    case Unknown =>
  }

  /**
   * The snapshot tells the metric apart, and shows when its latest sample came and the labels of its latest labelled
   * one.
   */
  lemma {:induction false} RunShowsLatest(cfg: Config, events: seq<Event>, name: string)
    requires cfg.storageMax >= 1 && name in After(cfg, events).w.table.metrics
    ensures var m := After(cfg, events).w.table.metrics[name];
            var shown := SnapshotOf(m);
            && shown.name == name && shown.kind == m.def.kind && shown.description == m.def.description
            && shown.labels == m.def.labels && shown.gaugeMin == m.def.gaugeMin && shown.gaugeMax == m.def.gaugeMax
            && shown.updatedAt == LastApplied(cfg, events, name)
            && AllShownAs(cfg.labels, LastLabelled(cfg, events, name), shown.labelValues)
  {
    LastIsLatest(cfg, events, name);
    LabelsAreLatest(cfg, events, name);
  }

  /**
   * Along every run, what is exported of a metric never evicted: a counter as a cumulative, monotonic sum, a gauge as a
   * gauge, a histogram as a cumulative histogram, each with the time of the metric's latest sample.
   */
  lemma {:induction false} RunExports(cfg: Config, events: seq<Event>, name: string)
    requires cfg.storageMax >= 1
    requires var s := After(cfg, events); name in s.w.table.metrics && name !in s.h.evicted
    ensures var s := After(cfg, events);
            var m, samples := s.w.table.metrics[name], AppliedTo(s.h.applied, name);
            var exported, time := Otlp.Exported(SnapshotOf(m)), LastApplied(cfg, events, name);
            && exported.name == name && exported.description == m.def.description
            && match m.def.kind
               case Counter =>
                 && exported.data.SumData? && exported.data.temporality == 2 && exported.data.monotonic
                 && exported.data.point.time == time
                 && Within(exported.data.point.asDouble, SumR(samples), |samples|)
               case Gauge =>
                 exported.data.GaugeData? && exported.data.point.time == time
                   && Latest(exported.data.point.asDouble, samples)
               case Histogram =>
                 && exported.data.HistogramData? && exported.data.temporality == 2
                 && exported.data.hpoint.time == time && exported.data.hpoint.count == |samples|
                 && Within(exported.data.hpoint.sum, SumR(samples), |samples|)
               case Unknown => exported.data.NoData?
  {
    RunShows(cfg, events, name);
    RunShowsLatest(cfg, events, name);
  }
}
