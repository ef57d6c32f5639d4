/** A metric and its numeric payload: fixed-point counters and gauges, and bucketed histograms (metric.go). */
module Metrics {
  import opened Base
  import Labels

  datatype MetricType = Counter | Gauge | Histogram | Unknown

  /** The declared part of a metric. */
  datatype Definition = Definition(
    name: string, kind: MetricType, description: string, labels: seq<string>,
    bounds: seq<real>, gaugeMin: real, gaugeMax: real)

  /** The recorded part of a metric. */
  datatype Payload = Payload(
    counter: int, gauge: int, hist: map<real, int>, sum: int, count: int,
    last: int, lastLabels: Option<seq<Labels.Label>>)

  datatype MetricValue = MetricValue(def: Definition, data: Payload)

  const SCALE_FACTOR: int := 1_000_000

  const DEFAULT_BOUNDS: seq<real> := [0.005, 0.01, 0.025, 0.05, 0.1, 0.25, 0.5, 1.0, 2.5, 5.0, 10.0]

  /** Go's conversion of a float to an integer: towards zero. */
  function Trunc(x: real): int {
    if x >= 0.0 then x.Floor else -((-x).Floor)
  }

  /** A sample in fixed point. */
  function Scaled(v: real): int {
    Trunc(v * SCALE_FACTOR as real)
  }

  /** A fixed-point number read back. */
  function Unscaled(n: int): real {
    n as real / SCALE_FACTOR as real
  }

  /** The first bound that is at least `v`, or the length of the list. */
  function FirstBound(bounds: seq<real>, v: real): (i: nat)
    ensures i <= |bounds|
    ensures i < |bounds| ==> v <= bounds[i]
    ensures forall j :: 0 <= j < i ==> bounds[j] < v
  {
    if bounds == [] || v <= bounds[0] then 0 else 1 + FirstBound(bounds[1..], v)
  }

  /** The counter that a sample belongs to; key zero is the overflow counter. */
  function KeyOf(bounds: seq<real>, v: real): real {
    var i := FirstBound(bounds, v);
    if i < |bounds| then bounds[i] else 0.0
  }

  /** The counters of a histogram: one per bound, and the overflow counter under key zero. */
  function Keys(bounds: seq<real>): set<real> {
    Elements(bounds) + {0.0}
  }

  function ZeroCounters(bounds: seq<real>): map<real, int> {
    map b | b in Keys(bounds) :: 0
  }

  function Incremented(hist: map<real, int>, key: real): map<real, int>
    requires key in hist
  {
    hist[key := hist[key] + 1]
  }

  /** The bounds a metric is created with: histograms without bounds get the default ones. */
  function EffectiveBounds(kind: MetricType, bounds: seq<real>): seq<real> {
    if kind != Histogram then [] else if bounds == [] then DEFAULT_BOUNDS else bounds
  }

  /** A new metric, nothing recorded. */
  function Created(name: string, kind: MetricType, description: string, labels: seq<string>,
                   bounds: seq<real>, gaugeMin: real, gaugeMax: real): (m: MetricValue)
    ensures WellFormed(m)
  {
    var effective := EffectiveBounds(kind, bounds);
    MetricValue(
      Definition(name, kind, description, labels, effective, gaugeMin, gaugeMax),
      Payload(0, 0, if kind == Histogram then ZeroCounters(effective) else map[], 0, 0, 0, None))
  }

  /** A histogram has exactly the counters of its bounds. */
  predicate WellFormed(m: MetricValue) {
    m.def.kind == Histogram ==> m.data.hist.Keys == Keys(m.def.bounds)
  }

  /** The metric after one sample. */
  function Recorded(m: MetricValue, v: real, now: int): (r: MetricValue)
    requires WellFormed(m)
    ensures WellFormed(r) && r.def == m.def
  {
    var data := m.data.(last := now);
    match m.def.kind
    case Counter => m.(data := data.(counter := data.counter + Scaled(v)))
    case Gauge => m.(data := data.(gauge := Scaled(v)))
    case Histogram =>
      assert KeyOf(m.def.bounds, v) in Keys(m.def.bounds);
      m.(data := data.(count := data.count + 1, sum := data.sum + Scaled(v),
                       hist := Incremented(data.hist, KeyOf(m.def.bounds, v))))
    case Unknown => m.(data := data)
  }

  /** The metric after its labels were last seen as `labels`; an empty list changes nothing. */
  function Relabelled(m: MetricValue, labels: seq<Labels.Label>): MetricValue {
    if labels == [] then m else m.(data := m.data.(lastLabels := Some(labels)))
  }

  datatype BucketSnapshot = BucketSnapshot(upperBound: real, count: int, overflow: bool)

  datatype MetricSnapshot = MetricSnapshot(
    name: string, kind: MetricType, description: string, labels: seq<string>, labelValues: seq<Labels.Label>,
    value: real, count: int, sum: real, avg: real, buckets: seq<BucketSnapshot>,
    updatedAt: int, gaugeMin: real, gaugeMax: real)

  /** The buckets in the order of the bounds, the overflow bucket last. */
  function BucketList(bounds: seq<real>, hist: map<real, int>): seq<BucketSnapshot>
    requires hist.Keys == Keys(bounds)
  {
    seq(|bounds|, i requires 0 <= i < |bounds| => BucketSnapshot(bounds[i], hist[bounds[i]], false)) +
      [BucketSnapshot(0.0, hist[0.0], true)]
  }

  /** The point-in-time view of a metric. */
  function SnapshotOf(m: MetricValue): MetricSnapshot
    requires WellFormed(m)
  {
    var histogram := m.def.kind == Histogram;
    MetricSnapshot(
      m.def.name, m.def.kind, m.def.description, m.def.labels,
      if m.data.lastLabels.Some? then m.data.lastLabels.value else [],
      (match m.def.kind
       case Counter => Unscaled(m.data.counter)
       case Gauge => Unscaled(m.data.gauge)
       case _ => 0.0),
      if histogram then m.data.count else 0,
      if histogram then Unscaled(m.data.sum) else 0.0,
      if histogram && m.data.count > 0 then Unscaled(m.data.sum) / m.data.count as real else 0.0,
      if histogram then BucketList(m.def.bounds, m.data.hist) else [],
      m.data.last, m.def.gaugeMin, m.def.gaugeMax)
  }

  class Metric {
    const def: Definition
    var counter: int
    var gauge: int
    var hist: map<real, int>
    var sum: int
    var count: int
    var last: int
    var lastLabels: Option<seq<Labels.Label>>

    constructor (name: string, kind: MetricType, description: string, labels: seq<string>,
                 bounds: seq<real>, gaugeMin: real, gaugeMax: real)
      ensures Value() == Created(name, kind, description, labels, bounds, gaugeMin, gaugeMax)
    {
      var effective := EffectiveBounds(kind, bounds);
      def := Definition(name, kind, description, labels, effective, gaugeMin, gaugeMax);
      counter, gauge, sum, count, last, lastLabels := 0, 0, 0, 0, 0, None;
      hist := if kind == Histogram then ZeroCounters(effective) else map[];
    }

    function Value(): MetricValue
      reads this
    {
      MetricValue(def, Payload(counter, gauge, hist, sum, count, last, lastLabels))
    }

    ghost predicate Valid()
      reads this
    {
      WellFormed(Value())
    }

    method Record(v: real, now: int)
      requires Valid()
      modifies this
      ensures Valid() && Value() == Recorded(old(Value()), v, now)
    {
      var scaled := Scaled(v);
      last := now;
      match def.kind
      case Counter =>
        counter := counter + scaled;
      case Gauge =>
        gauge := scaled;
      case Histogram =>
        count := count + 1;
        sum := sum + scaled;
        Place(v);
      case Unknown =>
    }

    /** Scans the bounds for the first one that admits the sample, and counts it there or as overflow. */
    method Place(v: real)
      requires Valid() && def.kind == Histogram
      modifies this`hist
      ensures KeyOf(def.bounds, v) in old(hist) && hist == Incremented(old(hist), KeyOf(def.bounds, v))
    {
      var placed := false;
      var i := 0;
      while i < |def.bounds|
        invariant 0 <= i <= |def.bounds| && !placed && hist == old(hist)
        invariant FirstBound(def.bounds, v) >= i
      {
        if v <= def.bounds[i] {
          assert FirstBound(def.bounds, v) == i;
          if def.bounds[i] in hist {
            hist := Incremented(hist, def.bounds[i]);
            placed := true;
          }
          break;
        }
        i := i + 1;
      }
      if !placed {
        if 0.0 in hist {
          hist := Incremented(hist, 0.0);
        }
      }
    }

    method SetLabels(labels: seq<Labels.Label>)
      modifies this`lastLabels
      ensures Value() == Relabelled(old(Value()), labels)
    {
      if |labels| == 0 {
        return;
      }
      lastLabels := Some(labels);
    }

    method Snapshot() returns (s: MetricSnapshot)
      requires Valid()
      ensures s == SnapshotOf(Value())
    {
      var value, n, total, avg, buckets := 0.0, 0, 0.0, 0.0, [];
      match def.kind {
        case Counter =>
          value := Unscaled(counter);
        case Gauge =>
          value := Unscaled(gauge);
        case Histogram =>
          n := count;
          total := Unscaled(sum);
          if n > 0 {
            avg := total / n as real;
          }
          buckets := HistogramBuckets();
        case Unknown =>
      }
      s := MetricSnapshot(
        def.name, def.kind, def.description, def.labels, if lastLabels.Some? then lastLabels.value else [],
        value, n, total, avg, buckets, last, def.gaugeMin, def.gaugeMax);
    }

    method HistogramBuckets() returns (out: seq<BucketSnapshot>)
      requires Valid() && def.kind == Histogram
      ensures out == BucketList(def.bounds, hist)
    {
      out := [];
      for i := 0 to |def.bounds|
        invariant out == BucketList(def.bounds, hist)[..i]
      {
        if def.bounds[i] in hist {
          out := out + [BucketSnapshot(def.bounds[i], hist[def.bounds[i]], false)];
        }
      }
      if 0.0 in hist {
        out := out + [BucketSnapshot(0.0, hist[0.0], true)];
      }
    }
  }
}
