/** The metric table as an object: lookup, registration and eviction in place (registry.go). */
module MetricTables {
  import opened Base
  import opened Metrics
  import opened Tables
  import opened Worlds
  import Labels

  /** The fields of the registry that its mutex guards: the live metrics and their insertion order. */
  class MetricTable {
    const limits: Limits
    var metrics: map<string, Metric>
    var order: seq<string>
    ghost var Repr: set<object>

    ghost predicate Valid()
      reads this, Repr
      ensures Valid() ==> this in Repr
    {
      && this in Repr
      && forall n :: n in metrics ==> metrics[n] in Repr && metrics[n].def.name == n && metrics[n].Valid()
    }

    ghost function State(): Table
      requires Valid()
      reads this, Repr
      ensures Filed(State()) && State().metrics.Keys == metrics.Keys && State().order == order
    {
      Table(map n | n in metrics :: metrics[n].Value(), order)
    }

    constructor (limits: Limits)
      ensures Valid() && fresh(Repr) && this.limits == limits
      ensures State() == Table(map[], [])
    {
      this.limits := limits;
      metrics, order := map[], [];
      Repr := {this};
    }

    method MustRegister(name: string, kind: MetricType, description: string, labels: seq<string>, bounds: seq<real>)
      requires Valid()
      modifies this
      ensures Valid() && fresh(Repr - old(Repr))
      ensures State() == Appended(old(State()), name, Created(name, kind, description, labels, bounds, 0.0, 0.0))
    {
      var m := new Metric(name, kind, description, labels, bounds, 0.0, 0.0);
      Install(m);
    }

    /** Files a metric under its name, at the end of the order. */
    method Install(m: Metric)
      requires Valid() && m.Valid()
      modifies this
      ensures Valid() && Repr == old(Repr) + {m}
      ensures m.def.name in metrics && metrics[m.def.name] == m
      ensures State() == Appended(old(State()), m.def.name, m.Value())
    {
      metrics := metrics[m.def.name := m];
      order := order + [m.def.name];
      Repr := Repr + {m};
      assert State().metrics == old(State()).metrics[m.def.name := m.Value()];
    }

    /** Declares a custom metric, or returns the one that has the name already. */
    method Register(name: string, kind: MetricType, description: string, labels: seq<string>, bounds: seq<real>,
                    gaugeMin: real, gaugeMax: real, now: int) returns (m: Metric)
      requires Valid()
      modifies this
      ensures Valid() && fresh(Repr - old(Repr))
      ensures name in metrics && m == metrics[name]
      ensures State() ==
              Registered(old(State()), limits, name,
                         Created(name, kind, description, labels, bounds, gaugeMin, gaugeMax), now)
    {
      if name in metrics {
        return metrics[name];
      }
      m := new Metric(name, kind, description, labels, bounds, gaugeMin, gaugeMax);
      Insert(m, now);
    }

    /** Files a new metric after making room for it. */
    method Insert(m: Metric, now: int)
      requires Valid() && m.Valid()
      modifies this
      ensures Valid() && Repr == old(Repr) + {m}
      ensures m.def.name in metrics && metrics[m.def.name] == m
      ensures State() == Inserted(old(State()), limits, m.def.name, m.Value(), now)
    {
      MakeRoom(now);
      Install(m);
    }

    method MakeRoom(now: int)
      requires Valid()
      modifies this`metrics, this`order
      ensures Valid()
      ensures State() == WithRoom(old(State()), limits, now)
    {
      assert |State().metrics| == |State().metrics.Keys| == |metrics.Keys| == |metrics|;
      if |metrics| >= limits.maxMetrics {
        EvictLocked(now);
      }
    }

    /** Scans the order for the first idle metric; if there is none, the head goes. */
    method EvictLocked(now: int)
      requires Valid()
      modifies this`metrics, this`order
      ensures Valid()
      ensures State() == Evicted(old(State()), now, limits.ttl)
    {
      if |order| == 0 {
        return;
      }
      ghost var t := State();
      var i := 0;
      while i < |order|
        invariant 0 <= i <= |order| && metrics == old(metrics) && order == old(order)
        invariant FirstIdle(t, now, limits.ttl, 0) == FirstIdle(t, now, limits.ttl, i)
      {
        var name := order[i];
        if name in metrics {
          var m := metrics[name];
          if m.last != 0 && now - m.last > limits.ttl {
            assert IdleAt(t, i, now, limits.ttl);
            Remove(name, i, now);
            return;
          }
        }
        i := i + 1;
      }
      DropHead();
    }

    /** Deletes the idle metric at position `at`, which is the first idle one. */
    method Remove(name: string, ghost at: nat, now: int)
      requires Valid() && at < |order| && order[at] == name
      requires FirstIdle(State(), now, limits.ttl, 0) == at
      modifies this`metrics, this`order
      ensures Valid()
      ensures State() == Table(old(State()).metrics - {name}, Without(old(order), at))
    {
      NoEarlierOccurrence(State(), now, limits.ttl, at);
      metrics := metrics - {name};
      RemoveFromOrder(name, at);
      assert State().metrics == old(State()).metrics - {name};
    }

    method DropHead()
      requires Valid() && |order| > 0
      modifies this`metrics, this`order
      ensures Valid()
      ensures State() == Table(old(State()).metrics - {old(order)[0]}, Without(old(order), 0))
    {
      var name := order[0];
      metrics := metrics - {name};
      order := order[1..];
      assert State().metrics == old(State()).metrics - {name};
    }

    /** Removes the first occurrence of a name, which is at position `at`. */
    method RemoveFromOrder(name: string, ghost at: nat)
      requires at < |order| && order[at] == name && forall j :: 0 <= j < at ==> order[j] != name
      modifies this`order
      ensures order == Without(old(order), at)
    {
      var i := 0;
      while i < |order|
        invariant 0 <= i <= at && order == old(order)
      {
        if order[i] == name {
          order := order[..i] + order[i + 1..];
          return;
        }
        i := i + 1;
      }
    }

    /** The metric of a sample, created as a counter if there is none. */
    method Ensure(name: string, now: int) returns (m: Metric)
      requires Valid()
      modifies this
      ensures Valid() && fresh(Repr - old(Repr))
      ensures name in metrics && m == metrics[name]
      ensures State() == Registered(old(State()), limits, name, Implicit(name), now)
    {
      if name in metrics {
        return metrics[name];
      }
      m := new Metric(name, Counter, "", [], [], 0.0, 0.0);
      Insert(m, now);
    }

    /** Records a sample and its labels into a live metric. */
    method Sample(name: string, v: real, labels: seq<Labels.Label>, now: int)
      requires Valid() && name in metrics
      modifies metrics[name]
      ensures Valid()
      ensures State() ==
              old(State()).(metrics := old(State()).metrics[name := Sampled(old(State()).metrics[name], v,
                                                                            labels, now)])
    {
      var m := metrics[name];
      m.Record(v, now);
      m.SetLabels(labels);
      assert forall n :: n in metrics && n != name ==> metrics[n] != m;
    }

    /** One row per live metric, in insertion order. */
    method Snapshots() returns (out: seq<MetricSnapshot>)
      requires Valid()
      ensures out == SnapshotsOf(State())
    {
      out := [];
      for i := 0 to |order|
        invariant out == Rows(State(), order[..i])
      {
        assert order[..i + 1][..i] == order[..i];
        if order[i] in metrics {
          var row := metrics[order[i]].Snapshot();
          out := out + [row];
        }
      }
      assert order[..|order|] == order;
    }
  }

  /** The first idle position holds the first occurrence of its name. */
  lemma NoEarlierOccurrence(t: Table, now: int, ttl: int, i: nat)
    requires i < |t.order| && FirstIdle(t, now, ttl, 0) == i
    ensures forall j :: 0 <= j < i ==> t.order[j] != t.order[i]
  {
    assert IdleAt(t, i, now, ttl);
    forall j | 0 <= j < i ensures t.order[j] != t.order[i] {
      assert !IdleAt(t, j, now, ttl);
    }
  }
}
