/** The registry object: queue, guard, table, aggregator and storage; each call is one atomic step (registry.go). */
module Registries {
  import opened Base
  import opened Metrics
  import opened Tables
  import opened MetricTables
  import opened Cardinality
  import opened Storage
  import opened Aggregation
  import opened Worlds
  import Labels

  class Registry {
    const cfg: Config
    const table: MetricTable
    const agg: Aggregator
    const cardinality: CardinalityTracker
    const storage: MemoryStorage
    var queue: seq<Sample>

    /** Every object of this registry. */
    ghost function Footprint(): set<object>
      reads this, table, agg
    {
      {this, cardinality, storage} + table.Repr + agg.Repr
    }

    ghost predicate Valid()
      reads this, table, agg, table.Repr, agg.Repr, cardinality, storage
    {
      && table.Valid() && agg.Valid()
      && table.Repr !! agg.Repr
      && this !in table.Repr && cardinality !in table.Repr && storage !in table.Repr
      && this !in agg.Repr && cardinality !in agg.Repr && storage !in agg.Repr
      && table.limits == cfg.limits && cardinality.maxPer == cfg.maxSeries
      && storage.max == cfg.storageMax && storage.ttl == cfg.storageTtl && cfg.storageMax >= 1
    }

    /** The whole state as one value. */
    ghost function State(): World
      requires Valid()
      reads this, table, agg, table.Repr, agg.Repr, cardinality, storage
      ensures Filed(State().table)
    {
      World(table.State(), queue, cardinality.State(), agg.Values(), storage.buckets)
    }

    /** New: the three request metrics are always there. */
    constructor (limits: Limits, queueSize: nat, labels: Labels.LabelsConfig, maxSeries: int, ttl: int)
      ensures Valid() && fresh(this) && fresh(table.Repr) && fresh(agg.Repr) && fresh(cardinality) && fresh(storage)
      ensures cfg == Config(limits, queueSize, labels, maxSeries, 100_000, ttl)
      ensures State() == NewWorld()
    {
      cfg := Config(limits, queueSize, labels, maxSeries, 100_000, ttl);
      table := new MetricTable(limits);
      agg := new Aggregator();
      cardinality := new CardinalityTracker(maxSeries);
      storage := new MemoryStorage(ttl);
      queue := [];
      new;
      RegisterDefaults();
    }

    /** The three request metrics. */
    method RegisterDefaults()
      requires Valid()
      modifies table
      ensures Valid() && fresh(table.Repr - old(table.Repr)) && agg.Repr == old(agg.Repr)
      ensures old(State()) == NewWorld().(table := Table(map[], [])) ==> State() == NewWorld()
    {
      table.MustRegister(REQUESTS, Counter, "Total HTTP requests", ["method", "path", "status"], []);
      table.MustRegister(ERRORS, Counter, "HTTP errors (status >= 400)", ["method", "path"], []);
      table.MustRegister(DURATION, Histogram, "HTTP request latency", ["method", "path"], DEFAULT_BOUNDS);
      TableChanged();
    }

    method Register(name: string, kind: MetricType, description: string, labels: seq<string>, bounds: seq<real>,
                    gaugeMin: real, gaugeMax: real, now: int) returns (m: Metric)
      requires Valid()
      modifies table
      ensures Valid() && fresh(table.Repr - old(table.Repr)) && fresh(agg.Repr - old(agg.Repr))
      ensures name in table.metrics && m == table.metrics[name]
      ensures State() == old(State()).(table :=
                Registered(old(State()).table, cfg.limits, name,
                           Created(name, kind, description, labels, bounds, gaugeMin, gaugeMax), now))
    {
      m := table.Register(name, kind, description, labels, bounds, gaugeMin, gaugeMax, now);
      TableChanged();
    }

    /** A change confined to the table leaves the rest of the state as it was. */
    twostate lemma TableChanged()
      requires old(Valid()) && table.Valid() && fresh(table.Repr - old(table.Repr))
      requires unchanged(this, cardinality, storage, agg) && unchanged(old(agg.Repr))
      ensures Valid() && fresh(table.Repr - old(table.Repr)) && fresh(agg.Repr - old(agg.Repr))
      ensures State() == old(State()).(table := table.State())
    {
    }

    /** A change confined to the guard leaves the rest of the state as it was. */
    twostate lemma GuardChanged()
      requires old(Valid())
      requires unchanged(this, storage, table, agg) && unchanged(old(table.Repr)) && unchanged(old(agg.Repr))
      ensures Valid() && table.Repr == old(table.Repr) && agg.Repr == old(agg.Repr)
      ensures State() == old(State()).(guard := cardinality.State())
    {
    }

    /** A change confined to the aggregator leaves the rest of the state as it was. */
    twostate lemma WindowsChanged()
      requires old(Valid()) && agg.Valid() && fresh(agg.Repr - old(agg.Repr))
      requires unchanged(this, cardinality, storage, table) && unchanged(old(table.Repr))
      ensures Valid() && fresh(table.Repr - old(table.Repr)) && fresh(agg.Repr - old(agg.Repr))
      ensures State() == old(State()).(windows := agg.Values())
    {
    }

    /** The hot path: never blocks; a full queue drops the sample. */
    method Record(s: Sample)
      requires Valid()
      modifies this`queue
      ensures Valid() && table.Repr == old(table.Repr) && agg.Repr == old(agg.Repr)
      ensures State() == Enqueued(cfg, old(State()), s)
    {
      if |queue| < cfg.queueSize {
        queue := queue + [s];
      }
    }

    /** Takes one sample off the queue: sanitise, ask the guard, record, aggregate. */
    method Process(now: int)
      requires Valid() && queue != []
      modifies Footprint()
      ensures Valid() && fresh(table.Repr - old(table.Repr)) && fresh(agg.Repr - old(agg.Repr))
      ensures State() == Processed(cfg, old(State()), now)
    {
      ghost var before := State();
      var s, labels, ok := Take();
      ProcessedSteps(cfg, before, State(), now);
      if ok {
        Apply(s.name, s.value, labels, now);
      }
    }

    /** The next sample, its sanitised labels, and whether the guard lets it pass. */
    method Take() returns (s: Sample, labels: seq<Labels.Label>, ok: bool)
      requires Valid() && queue != []
      modifies this`queue, cardinality
      ensures Valid() && table.Repr == old(table.Repr) && agg.Repr == old(agg.Repr)
      ensures s == old(queue)[0] && labels == CleanLabels(cfg, s)
      ensures ok == Guarded(cfg, old(State()).guard, s.name, labels).1
      ensures State() ==
              old(State()).(queue := old(queue)[1..], guard := Guarded(cfg, old(State()).guard, s.name, labels).0)
    {
      s := Dequeue();
      labels := Labels.SanitizeLabels(s.labels, cfg.labels);
      ok := Admit(s.name, labels);
    }

    method Dequeue() returns (s: Sample)
      requires Valid() && queue != []
      modifies this`queue
      ensures Valid() && table.Repr == old(table.Repr) && agg.Repr == old(agg.Repr)
      ensures s == old(queue)[0] && State() == old(State()).(queue := old(queue)[1..])
    {
      s := queue[0];
      queue := queue[1..];
    }

    /** Samples with labels must pass the cardinality guard. */
    method Admit(name: string, labels: seq<Labels.Label>) returns (ok: bool)
      requires Valid()
      modifies cardinality
      ensures Valid() && table.Repr == old(table.Repr) && agg.Repr == old(agg.Repr)
      ensures ok == Guarded(cfg, old(State()).guard, name, labels).1
      ensures State() == old(State()).(guard := Guarded(cfg, old(State()).guard, name, labels).0)
    {
      if |labels| == 0 {
        return true;
      }
      var fp := Labels.FingerprintLabels(labels);
      ok := cardinality.Allow(name, fp);
      GuardChanged();
    }

    method Apply(name: string, v: real, labels: seq<Labels.Label>, now: int)
      requires Valid()
      modifies table.Repr, agg.Repr
      ensures Valid() && fresh(table.Repr - old(table.Repr)) && fresh(agg.Repr - old(agg.Repr))
      ensures State() == Applied(cfg, old(State()), name, v, labels, now)
    {
      var m := Tabulate(name, v, labels, now);
      Aggregate(name, v, m, now);
    }

    /** Finds or creates the metric and records the sample into it. */
    method Tabulate(name: string, v: real, labels: seq<Labels.Label>, now: int) returns (m: Metric)
      requires Valid()
      modifies table.Repr
      ensures Valid() && fresh(table.Repr - old(table.Repr)) && fresh(agg.Repr - old(agg.Repr))
      ensures name in table.metrics && m == table.metrics[name]
      ensures var t := Present(cfg, old(State()).table, name, now);
              State() == old(State()).(table := t.(metrics := t.metrics[name := Sampled(t.metrics[name], v, labels,
                  now)]))
    {
      m := table.Ensure(name, now);
      table.Sample(name, v, labels, now);
      TableChanged();
    }

    method Aggregate(name: string, v: real, m: Metric, now: int)
      requires Valid() && m in table.Repr
      modifies agg.Repr
      ensures Valid() && fresh(table.Repr - old(table.Repr)) && fresh(agg.Repr - old(agg.Repr))
      ensures State() == old(State()).(windows := AddedTo(old(State()).windows, name, v, Captured(m.Value()), now))
    {
      agg.Add(name, v, m, now);
      WindowsChanged();
    }

    /** Closes all windows; `order` is the order in which they reach storage. */
    method Flush(now: int) returns (ghost order: seq<string>)
      requires Valid()
      modifies agg, storage
      ensures Valid() && table.Repr == old(table.Repr) && agg.Repr == old(agg.Repr)
      ensures Enumerates(order, old(State()).windows.Keys)
      ensures State() == Flushed(cfg, old(State()), order, now)
    {
      order := agg.FlushAll(storage, now);
    }

    method Snapshots() returns (out: seq<MetricSnapshot>)
      requires Valid()
      ensures out == SnapshotsOf(State().table)
    {
      out := table.Snapshots();
    }

    method History(name: string, dur: int, now: int) returns (h: HistorySeries)
      requires Valid()
      ensures h == HistoryOf(State(), name, dur, now)
    {
      var found := storage.Find(Query(name, Some(now - dur), Some(now), 0));
      if |found| == 0 {
        return HistorySeries(name, [], []);
      }
      var bounds := [];
      if name in table.metrics {
        if table.metrics[name].def.kind == Histogram {
          bounds := table.metrics[name].def.bounds;
        }
      }
      var points := [];
      for i := 0 to |found|
        invariant |points| == i && forall j :: 0 <= j < i ==> points[j] == PointOf(found[j])
      {
        points := points + [PointOf(found[i])];
      }
      h := HistorySeries(name, points, bounds);
    }
  }

  /** Taking a sample off the queue, step by step. */
  lemma ProcessedSteps(cfg: Config, before: World, taken: World, now: int)
    requires Filed(before.table) && before.queue != []
    requires var s := before.queue[0];
             taken == before.(queue := before.queue[1..],
                              guard := Guarded(cfg, before.guard, s.name, CleanLabels(cfg, s)).0)
    ensures var s := before.queue[0];
            Processed(cfg, before, now) ==
            if Guarded(cfg, before.guard, s.name, CleanLabels(cfg, s)).1
            then Applied(cfg, taken, s.name, s.value, CleanLabels(cfg, s), now) else taken
  {
  }
}
