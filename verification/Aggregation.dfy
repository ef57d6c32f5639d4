/** Tumbling-window roll-ups (aggregator.go). */
module Aggregation {
  import opened Base
  import opened Metrics
  import opened Storage

  datatype WindowValue = WindowValue(count: int, sum: real, min: real, max: real, start: int, buckets: map<real, int>)

  /** A window opened for its first sample, which is not yet counted. */
  function Opened(v: real, now: int): WindowValue {
    WindowValue(0, 0.0, v, v, now, map[])
  }

  /** What a window captures of a metric: the bucket counters of a histogram. */
  function Captured(m: MetricValue): map<real, int> {
    if m.def.kind == Histogram then m.data.hist else map[]
  }

  function Added(w: WindowValue, v: real, captured: map<real, int>): WindowValue {
    WindowValue(w.count + 1, w.sum + v, if v < w.min then v else w.min, if v > w.max then v else w.max, w.start,
                w.buckets + captured)
  }

  /** The open windows after one sample. */
  function AddedTo(windows: map<string, WindowValue>, name: string, v: real, captured: map<real, int>,
                   now: int): map<string, WindowValue> {
    windows[name := Added(if name in windows then windows[name] else Opened(v, now), v, captured)]
  }

  /** The record of a window that ends now. */
  function Closed(name: string, w: WindowValue, now: int): AggregatedMetric {
    AggregatedMetric(name, w.count, w.sum, w.min, w.max, w.start, now, w.buckets)
  }

  /** The records of the windows, in the order in which the map was ranged over. */
  function ClosedAll(windows: map<string, WindowValue>, order: seq<string>, now: int): (ms: seq<AggregatedMetric>)
    requires Elements(order) <= windows.Keys
    ensures |ms| == |order|
  {
    seq(|order|, i requires 0 <= i < |order| =>
      assert order[i] in Elements(order); Closed(order[i], windows[order[i]], now))
  }

  /** The store after several windows are handed to it. */
  function StoredAll(buckets: seq<AggregatedMetric>, max: int, ttl: int, ms: seq<AggregatedMetric>,
                     now: int): seq<AggregatedMetric>
    requires max >= 1
  {
    if ms == [] then buckets
    else
      var n := |ms| - 1;
      Stored(StoredAll(buckets, max, ttl, ms[..n], now), max, ttl, ms[n], now)
  }

  class Window {
    /** The metric this window belongs to. */
    ghost const name: string
    var count: int
    var sum: real
    var min: real
    var max: real
    var start: int
    var buckets: map<real, int>

    constructor (ghost name: string, v: real, now: int)
      ensures this.name == name && Value() == Opened(v, now)
    {
      this.name := name;
      count, sum, min, max, start, buckets := 0, 0.0, v, v, now, map[];
    }

    function Value(): WindowValue
      reads this
    {
      WindowValue(count, sum, min, max, start, buckets)
    }

    /** Counts one sample; a histogram's bucket counters are captured along with it. */
    method AddSample(v: real, m: Metric)
      modifies this
      ensures Value() == Added(old(Value()), v, Captured(m.Value()))
    {
      if v < min {
        min := v;
      }
      if v > max {
        max := v;
      }
      count := count + 1;
      sum := sum + v;
      if m.def.kind == Histogram {
        buckets := buckets + m.hist;
      }
      assert buckets + map[] == buckets;
    }
  }

  class Aggregator {
    var windows: map<string, Window>
    ghost var Repr: set<object>

    constructor ()
      ensures Valid() && fresh(Repr) && Values() == map[]
    {
      windows := map[];
      Repr := {this};
    }

    ghost predicate Valid()
      reads this, Repr
      ensures Valid() ==> this in Repr
    {
      && this in Repr
      && forall n :: n in windows ==> windows[n] in Repr && windows[n].name == n
    }

    ghost function Values(): map<string, WindowValue>
      requires Valid()
      reads this, Repr
    {
      map n | n in windows :: windows[n].Value()
    }

    method Add(name: string, v: real, m: Metric, now: int)
      requires Valid() && m !in Repr
      modifies Repr
      ensures Valid() && fresh(Repr - old(Repr))
      ensures Values() == AddedTo(old(Values()), name, v, Captured(m.Value()), now)
    {
      if name !in windows {
        Open(name, v, now);
      }
      Count(name, v, m);
    }

    /** Opens a window for a metric that has none. */
    method Open(name: string, v: real, now: int)
      requires Valid() && name !in windows
      modifies this
      ensures Valid() && fresh(Repr - old(Repr))
      ensures name in windows && Values() == old(Values())[name := Opened(v, now)]
    {
      var w := new Window(name, v, now);
      windows := windows[name := w];
      Repr := Repr + {w};
    }

    /** Counts one sample in an open window. */
    method Count(name: string, v: real, m: Metric)
      requires Valid() && name in windows
      modifies windows[name]
      ensures Valid() && Repr == old(Repr)
      ensures Values() == old(Values())[name := Added(old(Values())[name], v, Captured(m.Value()))]
    {
      windows[name].AddSample(v, m);
    }

    /** Closes every open window and hands the records to storage; `order` is the order of the map range. */
    method FlushAll(storage: MemoryStorage, now: int) returns (ghost order: seq<string>)
      requires Valid() && storage !in Repr && storage.max >= 1
      modifies this, storage
      ensures Valid() && Repr == old(Repr) && Values() == map[]
      ensures Enumerates(order, old(Values()).Keys)
      ensures storage.buckets ==
              StoredAll(old(storage.buckets), storage.max, storage.ttl, ClosedAll(old(Values()), order, now), now)
    {
      var wins := windows;
      ghost var values := Values();
      windows := map[];
      order := [];
      var todo := wins.Keys;
      while todo != {}
        invariant todo <= wins.Keys && NoDup(order) && Elements(order) == wins.Keys - todo
        invariant windows == map[] && Repr == old(Repr)
        invariant forall n :: n in wins ==> wins[n] in old(Repr) && wins[n].Value() == values[n]
        invariant storage.buckets ==
                  StoredAll(old(storage.buckets), storage.max, storage.ttl, ClosedAll(values, order, now), now)
      {
        var name :| name in todo;
        var w := wins[name];
        storage.Store(AggregatedMetric(name, w.count, w.sum, w.min, w.max, w.start, now, w.buckets), now);
        ClosedAllSnoc(values, order, name, now);
        order, todo := order + [name], todo - {name};
      }
    }
  }

  lemma ClosedAllSnoc(windows: map<string, WindowValue>, order: seq<string>, name: string, now: int)
    requires Elements(order) <= windows.Keys && name in windows
    ensures Elements(order + [name]) == Elements(order) + {name}
    ensures ClosedAll(windows, order + [name], now) ==
            ClosedAll(windows, order, now) + [Closed(name, windows[name], now)]
  {
    assert Elements(order + [name]) == Elements(order) + {name};
  }

  /** Count, sum, minimum and maximum of a nonempty run of samples. */
  ghost predicate Summarises(count: int, sum: real, min: real, max: real, samples: seq<real>) {
    && samples != []
    && count == |samples|
    && sum == SumR(samples)
    && min in samples && max in samples
    && forall i :: 0 <= i < |samples| ==> min <= samples[i] <= max
  }

  ghost predicate WindowOf(w: WindowValue, samples: seq<real>) {
    Summarises(w.count, w.sum, w.min, w.max, samples)
  }

  ghost predicate RecordOf(m: AggregatedMetric, samples: seq<real>) {
    Summarises(m.count, m.sum, m.min, m.max, samples)
  }

  /** A window summarises the samples added to it, from its first one on. */
  lemma AddedSummarises(w: WindowValue, samples: seq<real>, v: real, captured: map<real, int>)
    requires WindowOf(w, samples)
    ensures WindowOf(Added(w, v, captured), samples + [v])
  {
    SumRSnoc(samples, v);
    var w', all := Added(w, v, captured), samples + [v];
    assert all[|samples|] == v;
    assert w'.min in all && w'.max in all;
  }

  lemma OpenedSummarises(v: real, captured: map<real, int>, now: int)
    ensures WindowOf(Added(Opened(v, now), v, captured), [v])
  {
    assert [v][..0] == [];
  }

  /** The sum of samples between two values lies between the multiples of those values. */
  lemma {:induction false} SumBetween(samples: seq<real>, lo: real, hi: real)
    requires forall i :: 0 <= i < |samples| ==> lo <= samples[i] <= hi
    ensures |samples| as real * lo <= SumR(samples) <= |samples| as real * hi
  {
    if samples != [] {
      SumBetween(samples[..|samples| - 1], lo, hi);
    }
  }

  /** Count times minimum <= sum <= count times maximum, so the average lies between the two. */
  lemma AverageBetween(count: int, sum: real, min: real, max: real, samples: seq<real>)
    requires Summarises(count, sum, min, max, samples)
    ensures count > 0 && count as real * min <= sum <= count as real * max
    ensures min <= sum / count as real <= max
  {
    SumBetween(samples, min, max);
    var n := count as real;
    var average := sum / n;
    assert average * n == sum;
    assert average < min ==> average * n < min * n;
    assert average > max ==> average * n > max * n;
  }
}
