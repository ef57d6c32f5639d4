/** The whole ingestion state as one value, and its atomic steps (registry.go). */
module Worlds {
  import opened Base
  import opened Metrics
  import opened Tables
  import opened Cardinality
  import opened Storage
  import opened Aggregation
  import Labels

  datatype Sample = Sample(name: string, value: real, labels: seq<Labels.Label>)

  datatype Config = Config(limits: Limits, queueSize: nat, labels: Labels.LabelsConfig, maxSeries: int,
                           storageMax: nat, storageTtl: int)

  datatype World = World(
    table: Table, queue: seq<Sample>, guard: Guard, windows: map<string, WindowValue>, buckets: seq<AggregatedMetric>)

  function NewWorld(): World {
    World(InitialTable(), [], EMPTY, map[], [])
  }

  /** Record: enqueue, or drop when the queue is full. */
  function Enqueued(cfg: Config, w: World, s: Sample): World {
    if |w.queue| < cfg.queueSize then w.(queue := w.queue + [s]) else w
  }

  /** The labels of a sample as the guard and the metric see them. */
  function CleanLabels(cfg: Config, s: Sample): seq<Labels.Label> {
    Labels.SanitizedAll(s.labels, cfg.labels)
  }

  /** The guard after it has looked at a sample, and whether the sample may pass; samples without labels always may. */
  function Guarded(cfg: Config, g: Guard, name: string, labels: seq<Labels.Label>): (Guard, bool) {
    if labels == [] then (g, true) else Offer(g, cfg.maxSeries, name, Labels.Fingerprint(labels))
  }

  /** The counter that ingestion creates for a name nobody registered. */
  function Implicit(name: string): MetricValue {
    Created(name, Counter, "", [], [], 0.0, 0.0)
  }

  /** The table in which the sample's metric exists. */
  function Present(cfg: Config, t: Table, name: string, now: int): (r: Table)
    ensures name in r.metrics
    ensures Filed(t) ==> Filed(r)
  {
    Registered(t, cfg.limits, name, Implicit(name), now)
  }

  /** The metric after a sample with its labels. */
  function Sampled(m: MetricValue, v: real, labels: seq<Labels.Label>, now: int): (r: MetricValue)
    requires WellFormed(m)
    ensures WellFormed(r) && r.def == m.def
  {
    Relabelled(Recorded(m, v, now), labels)
  }

  /** The table and the windows after a sample passed the guard. */
  function Applied(cfg: Config, w: World, name: string, v: real, labels: seq<Labels.Label>, now: int): (r: World)
    requires Filed(w.table)
    ensures Filed(r.table)
  {
    var t := Present(cfg, w.table, name, now);
    var m := Sampled(t.metrics[name], v, labels, now);
    w.(table := t.(metrics := t.metrics[name := m]),
       windows := AddedTo(w.windows, name, v, Captured(m), now))
  }

  /** The loop takes one sample off the queue. */
  function Processed(cfg: Config, w: World, now: int): (r: World)
    requires Filed(w.table) && w.queue != []
    ensures Filed(r.table)
  {
    var s := w.queue[0];
    var labels := CleanLabels(cfg, s);
    var (g, ok) := Guarded(cfg, w.guard, s.name, labels);
    var taken := w.(queue := w.queue[1..], guard := g);
    if ok then Applied(cfg, taken, s.name, s.value, labels, now) else taken
  }

  /** The loop hands all open windows to storage, in the order `order`. */
  function Flushed(cfg: Config, w: World, order: seq<string>, now: int): World
    requires Elements(order) <= w.windows.Keys && cfg.storageMax >= 1
  {
    w.(windows := map[],
       buckets := StoredAll(w.buckets, cfg.storageMax, cfg.storageTtl, ClosedAll(w.windows, order, now), now))
  }

  /** One point of a metric's history. */
  datatype HistoryPoint = HistoryPoint(t: int, v: real, min: real, max: real, buckets: map<real, int>)

  datatype HistorySeries = HistorySeries(name: string, points: seq<HistoryPoint>, bounds: seq<real>)

  function PointOf(a: AggregatedMetric): HistoryPoint {
    HistoryPoint(a.windowEnd, if a.count == 0 then 0.0 else a.sum / a.count as real, a.min, a.max, a.buckets)
  }

  /** The bounds a history is reported with: those of a live histogram of that name. */
  function BoundsFor(t: Table, name: string): seq<real> {
    if name in t.metrics && t.metrics[name].def.kind == Histogram then t.metrics[name].def.bounds else []
  }

  /** The stored windows of a metric that overlap the last `dur` time units, as points. */
  function HistoryOf(w: World, name: string, dur: int, now: int): HistorySeries {
    var found := Limited(Matching(w.buckets, Query(name, Some(now - dur), Some(now), 0)), 0);
    if found == [] then HistorySeries(name, [], [])
    else HistorySeries(name, seq(|found|, i requires 0 <= i < |found| => PointOf(found[i])), BoundsFor(w.table, name))
  }
}
