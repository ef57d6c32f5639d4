/** What a metric's payload says about the samples recorded into it. */
module Histograms {
  import opened Base
  import opened Ranks
  import opened Metrics
  import Labels

  /** Sum of the samples in fixed point, each truncated on its own. */
  function SumScaled(samples: seq<real>): int {
    if samples == [] then 0 else SumScaled(samples[..|samples| - 1]) + Scaled(samples[|samples| - 1])
  }

  /** How many samples a counter received. */
  function CountKey(bounds: seq<real>, samples: seq<real>, key: real): nat {
    if samples == [] then 0
    else CountKey(bounds, samples[..|samples| - 1], key) + if KeyOf(bounds, samples[|samples| - 1]) == key then 1 else 0
  }

  /** The counters after all samples. */
  function Counters(bounds: seq<real>, samples: seq<real>): map<real, int> {
    map key | key in Keys(bounds) :: CountKey(bounds, samples, key)
  }

  /** The payload is exactly what the samples, recorded in this order into a new metric, leave behind. */
  ghost predicate Reflects(m: MetricValue, samples: seq<real>) {
    && WellFormed(m)
    && match m.def.kind
       case Counter => m.data.counter == SumScaled(samples)
       case Gauge => m.data.gauge == if samples == [] then 0 else Scaled(samples[|samples| - 1])
       case Histogram =>
         && m.data.count == |samples|
         && m.data.sum == SumScaled(samples)
         && m.data.hist == Counters(m.def.bounds, samples)
       case Unknown => true
  }

  lemma CreatedReflectsNothing(name: string, kind: MetricType, description: string, labels: seq<string>,
                               bounds: seq<real>, gaugeMin: real, gaugeMax: real)
    ensures Reflects(Created(name, kind, description, labels, bounds, gaugeMin, gaugeMax), [])
  {
  }

  /**
   * A histogram has the bounds it was registered with, or the default ones if it came without; other kinds have none.
   */
  lemma CreatedBounds(name: string, kind: MetricType, description: string, labels: seq<string>,
                      bounds: seq<real>, gaugeMin: real, gaugeMax: real)
    ensures var m := Created(name, kind, description, labels, bounds, gaugeMin, gaugeMax);
            && m.def.name == name && m.def.kind == kind && m.def.description == description && m.def.labels == labels
            && m.def.gaugeMin == gaugeMin && m.def.gaugeMax == gaugeMax
            && (kind == Histogram && bounds != [] ==> m.def.bounds == bounds)
            && (kind == Histogram && bounds == [] ==>
                  m.def.bounds == [0.005, 0.01, 0.025, 0.05, 0.1, 0.25, 0.5, 1.0, 2.5, 5.0, 10.0])
            && (kind != Histogram ==> m.def.bounds == [])
  {
  }

  lemma CountersSnoc(bounds: seq<real>, samples: seq<real>, v: real)
    ensures KeyOf(bounds, v) in Counters(bounds, samples)
    ensures Counters(bounds, samples + [v]) == Incremented(Counters(bounds, samples), KeyOf(bounds, v))
  {
    assert (samples + [v])[..|samples|] == samples;
    assert KeyOf(bounds, v) in Keys(bounds);
  }

  /** Recording one more sample keeps the payload faithful. */
  lemma RecordedReflects(m: MetricValue, samples: seq<real>, v: real, now: int)
    requires Reflects(m, samples)
    ensures Reflects(Recorded(m, v, now), samples + [v])
  {
    assert (samples + [v])[..|samples|] == samples;
    if m.def.kind == Histogram {
      CountersSnoc(m.def.bounds, samples, v);
    }
  }

  lemma RelabelledReflects(m: MetricValue, samples: seq<real>, labels: seq<Labels.Label>)
    requires Reflects(m, samples)
    ensures Reflects(Relabelled(m, labels), samples)
  {
  }

  /** Bounds that a histogram reports exactly: strictly increasing, and none equal to the overflow key. */
  ghost predicate ExactBounds(bounds: seq<real>) {
    Increasing(bounds) && 0.0 !in bounds
  }

  /** With such bounds every counter is one interval. */
  lemma KeyIsInterval(bounds: seq<real>, v: real, i: nat)
    requires ExactBounds(bounds) && i <= |bounds|
    ensures KeyOf(bounds, v) == (if i < |bounds| then bounds[i] else 0.0) <==> Holds(bounds, i, v)
  {
    var j := FirstBound(bounds, v);
    assert Holds(bounds, j, v) by {
      assert j > 0 ==> bounds[j - 1] < v;
    }
    if Holds(bounds, i, v) {
      OneBucket(bounds, i, j, v);
    }
    assert i < |bounds| ==> bounds[i] in bounds;
    assert j < |bounds| ==> bounds[j] in bounds;
  }

  lemma {:induction false} CounterIsTally(bounds: seq<real>, samples: seq<real>, i: nat)
    requires ExactBounds(bounds) && i <= |bounds|
    ensures CountKey(bounds, samples, if i < |bounds| then bounds[i] else 0.0) == InBucket(samples, bounds, i)
  {
    if samples != [] {
      CounterIsTally(bounds, samples[..|samples| - 1], i);
      KeyIsInterval(bounds, samples[|samples| - 1], i);
    }
  }

  /** The counts of a bucket list. */
  function CountsOf(buckets: seq<BucketSnapshot>): (counts: seq<int>)
    ensures |counts| == |buckets|
  {
    seq(|buckets|, i requires 0 <= i < |buckets| => buckets[i].count)
  }

  /** Bucket `i` of a snapshot counts exactly the samples in its interval, the overflow bucket the rest. */
  lemma BucketsExact(m: MetricValue, samples: seq<real>)
    requires Reflects(m, samples) && m.def.kind == Histogram && ExactBounds(m.def.bounds)
    ensures CountsOf(BucketList(m.def.bounds, m.data.hist)) == Tally(samples, m.def.bounds)
  {
    var bounds := m.def.bounds;
    var counts := CountsOf(BucketList(bounds, m.data.hist));
    forall i | 0 <= i <= |bounds| ensures counts[i] == InBucket(samples, bounds, i) {
      CounterIsTally(bounds, samples, i);
    }
  }

  /** Positions of a key in a list of keys. */
  function Occurrences(keys: seq<real>, key: real): nat {
    if keys == [] then 0 else Occurrences(keys[..|keys| - 1], key) + if keys[|keys| - 1] == key then 1 else 0
  }

  /** The sum of the listed counters, each as often as it is listed. */
  function ListedSum(keys: seq<real>, bounds: seq<real>, samples: seq<real>): int {
    if keys == [] then 0
    else ListedSum(keys[..|keys| - 1], bounds, samples) + CountKey(bounds, samples, keys[|keys| - 1])
  }

  /** The total of the bucket counts a snapshot reports for a histogram with these bounds. */
  function ReportedTotal(bounds: seq<real>, samples: seq<real>): int {
    ListedSum(bounds + [0.0], bounds, samples)
  }

  lemma {:induction false} ListedSumIsBucketSum(bounds: seq<real>, samples: seq<real>, k: nat)
    requires k <= |bounds|
    ensures ListedSum(bounds[..k], bounds, samples) == Sum(CountsOf(BucketList(bounds, Counters(bounds, samples)))[..k])
  {
    var counts := CountsOf(BucketList(bounds, Counters(bounds, samples)));
    if k > 0 {
      ListedSumIsBucketSum(bounds, samples, k - 1);
      assert counts[..k][..k - 1] == counts[..k - 1] && bounds[..k][..k - 1] == bounds[..k - 1];
    }
  }

  /** `ReportedTotal` is the sum of the snapshot's bucket counts. */
  lemma ReportedTotalIs(bounds: seq<real>, samples: seq<real>)
    ensures ReportedTotal(bounds, samples) == Sum(CountsOf(BucketList(bounds, Counters(bounds, samples))))
  {
    var counts := CountsOf(BucketList(bounds, Counters(bounds, samples)));
    ListedSumIsBucketSum(bounds, samples, |bounds|);
    assert bounds[..|bounds|] == bounds && (bounds + [0.0])[..|bounds|] == bounds;
    assert counts == counts[..|bounds|] + [counts[|bounds|]];
    SumSnoc(counts[..|bounds|], counts[|bounds|]);
  }

  lemma {:induction false} ListedSumSnoc(keys: seq<real>, bounds: seq<real>, samples: seq<real>, v: real)
    ensures ListedSum(keys, bounds, samples + [v]) ==
            ListedSum(keys, bounds, samples) + Occurrences(keys, KeyOf(bounds, v))
  {
    assert (samples + [v])[..|samples|] == samples;
    if keys != [] {
      ListedSumSnoc(keys[..|keys| - 1], bounds, samples, v);
    }
  }

  lemma {:induction false} ListedSumEmpty(keys: seq<real>, bounds: seq<real>)
    ensures ListedSum(keys, bounds, []) == 0
  {
    if keys != [] {
      ListedSumEmpty(keys[..|keys| - 1], bounds);
    }
  }

  /** A bound that some sample can reach: it exceeds every bound before it. */
  predicate Reachable(bounds: seq<real>, i: nat)
    requires i < |bounds|
  {
    forall h | 0 <= h < i :: bounds[h] < bounds[i]
  }

  /** No counter that can receive a sample is listed twice: no bound is zero, and no reachable bound is repeated. */
  predicate DistinctCounters(bounds: seq<real>) {
    && 0.0 !in bounds
    && forall i, j | 0 <= i < j < |bounds| :: bounds[i] == bounds[j] ==> !Reachable(bounds, i)
  }

  lemma {:induction false} OccursOnce(keys: seq<real>, i: nat)
    requires i < |keys| && forall j :: 0 <= j < |keys| && j != i ==> keys[j] != keys[i]
    ensures Occurrences(keys, keys[i]) == 1
  {
    var n := |keys| - 1;
    if i < n {
      OccursOnce(keys[..n], i);
    } else {
      OccursNever(keys[..n], keys[i]);
    }
  }

  lemma {:induction false} OccursNever(keys: seq<real>, key: real)
    requires key !in keys
    ensures Occurrences(keys, key) == 0
  {
    if keys != [] {
      OccursNever(keys[..|keys| - 1], key);
    }
  }

  lemma {:induction false} OccursSomewhere(keys: seq<real>, i: nat)
    requires i < |keys|
    ensures Occurrences(keys, keys[i]) >= 1
  {
    if i < |keys| - 1 {
      OccursSomewhere(keys[..|keys| - 1], i);
    }
  }

  lemma {:induction false} OccursTwice(keys: seq<real>, i: nat, j: nat)
    requires i < j < |keys| && keys[i] == keys[j]
    ensures Occurrences(keys, keys[i]) >= 2
  {
    var n := |keys| - 1;
    if j < n {
      OccursTwice(keys[..n], i, j);
    } else {
      OccursSomewhere(keys[..n], i);
    }
  }

  /** With distinct counters, the counter of any sample is listed once. */
  lemma KeyListedOnce(bounds: seq<real>, v: real)
    requires DistinctCounters(bounds)
    ensures Occurrences(bounds + [0.0], KeyOf(bounds, v)) == 1
  {
    var i := FirstBound(bounds, v);
    var keys := bounds + [0.0];
    assert i < |bounds| ==> Reachable(bounds, i);
    forall j | 0 <= j < |keys| && j != i ensures keys[j] != keys[i] {
      assert j < |bounds| ==> keys[j] == bounds[j] && bounds[j] in bounds;
      assert i < |bounds| ==> bounds[i] in bounds;
    }
    OccursOnce(keys, i);
  }

  lemma {:induction false} DistinctTotal(bounds: seq<real>, samples: seq<real>)
    requires DistinctCounters(bounds)
    ensures ReportedTotal(bounds, samples) == |samples|
  {
    if samples == [] {
      ListedSumEmpty(bounds + [0.0], bounds);
    } else {
      var n := |samples| - 1;
      DistinctTotal(bounds, samples[..n]);
      assert samples == samples[..n] + [samples[n]];
      ListedSumSnoc(bounds + [0.0], bounds, samples[..n], samples[n]);
      KeyListedOnce(bounds, samples[n]);
    }
  }

  /** A value above every bound. */
  function Above(bounds: seq<real>): (v: real)
    ensures forall i :: 0 <= i < |bounds| ==> bounds[i] < v
  {
    if bounds == [] then 0.0
    else
      var rest := Above(bounds[..|bounds| - 1]);
      if bounds[|bounds| - 1] < rest then rest else bounds[|bounds| - 1] + 1.0
  }

  /** Without distinct counters, one sample suffices to make the bucket counts add up to more than the count. */
  lemma OneSampleCountedTwice(bounds: seq<real>) returns (v: real)
    requires !DistinctCounters(bounds)
    ensures ReportedTotal(bounds, [v]) >= 2
  {
    var keys := bounds + [0.0];
    if 0.0 in bounds {
      var i :| 0 <= i < |bounds| && bounds[i] == 0.0;
      v := Above(bounds);
      assert FirstBound(bounds, v) == |bounds|;
      OccursTwice(keys, i, |bounds|);
      assert KeyOf(bounds, v) == keys[i];
    } else {
      var i, j :| 0 <= i < j < |bounds| && bounds[i] == bounds[j] && Reachable(bounds, i);
      v := bounds[i];
      assert FirstBound(bounds, v) == i;
      OccursTwice(keys, i, j);
      assert KeyOf(bounds, v) == keys[i];
    }
    ListedSumEmpty(keys, bounds);
    ListedSumSnoc(keys, bounds, [], v);
    assert [] + [v] == [v];
  }

  /** Exactly which bounds make the bucket counts add up to the number of samples, whatever is recorded. */
  lemma TotalMatchesIff(bounds: seq<real>)
    ensures (forall samples :: ReportedTotal(bounds, samples) == |samples|) <==> DistinctCounters(bounds)
  {
    if DistinctCounters(bounds) {
      forall samples ensures ReportedTotal(bounds, samples) == |samples| {
        DistinctTotal(bounds, samples);
      }
    } else {
      var v := OneSampleCountedTwice(bounds);
      assert ReportedTotal(bounds, [v]) != |[v]|;
    }
  }

  /** A sample that is a whole number of millionths. */
  predicate Exact(v: real) {
    Unscaled(Scaled(v)) == v
  }

  /** Truncation moves a sample by less than a millionth, towards zero. */
  lemma TruncationError(v: real)
    ensures v >= 0.0 ==> 0.0 <= v - Unscaled(Scaled(v)) < 0.000_001
    ensures v <= 0.0 ==> 0.0 <= Unscaled(Scaled(v)) - v < 0.000_001
    ensures Exact(v) <==> exists n: int :: v == Unscaled(n)
  {
    var x := v * SCALE_FACTOR as real;
    assert v == x / SCALE_FACTOR as real;
    if n: int :| v == Unscaled(n) {
      assert x == n as real;
    }
    if Exact(v) {
      assert v == Unscaled(Scaled(v));
    }
  }

  /**
   * A fixed-point total differs from the true sum by less than a millionth per sample, and not at all for exact
   * samples.
   */
  lemma {:induction false} FixedPointError(samples: seq<real>)
    ensures -(|samples| as real * 0.000_001) <= Unscaled(SumScaled(samples)) - SumR(samples) <=
            |samples| as real * 0.000_001
    ensures (forall i :: 0 <= i < |samples| ==> Exact(samples[i])) ==> Unscaled(SumScaled(samples)) == SumR(samples)
  {
    if samples != [] {
      var n := |samples| - 1;
      FixedPointError(samples[..n]);
      TruncationError(samples[n]);
    }
  }
}
