/** The projection of metric snapshots to OTLP data points (otlp.go, buildMetrics). */
module Otlp {
  import opened Base
  import opened Ranks
  import opened Metrics
  import opened Histograms

  datatype NumberPoint = NumberPoint(time: int, asDouble: real)

  datatype HistogramPoint = HistogramPoint(time: int, count: int, sum: real, bounds: seq<real>, bucketCounts: seq<int>)

  datatype Data =
    | NoData
    | GaugeData(point: NumberPoint)
    | SumData(temporality: int, monotonic: bool, point: NumberPoint)
    | HistogramData(temporality: int, hpoint: HistogramPoint)

  datatype OtlpMetric = OtlpMetric(name: string, description: string, data: Data)

  const CUMULATIVE: int := 2

  /** Go's conversion to an unsigned 64-bit integer. */
  function ToUint64(n: int): int {
    n % 0x1_0000_0000_0000_0000
  }

  /** The upper bounds of the buckets that are no overflow bucket. */
  function BoundsOf(buckets: seq<BucketSnapshot>): seq<real> {
    if buckets == [] then []
    else
      var n := |buckets| - 1;
      BoundsOf(buckets[..n]) + if buckets[n].overflow then [] else [buckets[n].upperBound]
  }

  function Unsigned(counts: seq<int>): seq<int> {
    seq(|counts|, i requires 0 <= i < |counts| => ToUint64(counts[i]))
  }

  function Exported(s: MetricSnapshot): OtlpMetric {
    var point := NumberPoint(s.updatedAt, s.value);
    OtlpMetric(s.name, s.description,
               match s.kind
               case Counter => SumData(CUMULATIVE, true, point)
               case Gauge => GaugeData(point)
               case Histogram =>
                 HistogramData(CUMULATIVE,
                               HistogramPoint(s.updatedAt, s.count, s.sum, BoundsOf(s.buckets),
                                              Unsigned(CountsOf(s.buckets))))
               case Unknown => NoData)
  }

  method BuildMetrics(snapshots: seq<MetricSnapshot>) returns (out: seq<OtlpMetric>)
    ensures |out| == |snapshots| && forall i :: 0 <= i < |out| ==> out[i] == Exported(snapshots[i])
  {
    out := [];
    for k := 0 to |snapshots|
      invariant |out| == k && forall i :: 0 <= i < k ==> out[i] == Exported(snapshots[i])
    {
      var s := snapshots[k];
      var data := NoData;
      match s.kind {
        case Counter =>
          data := SumData(CUMULATIVE, true, NumberPoint(s.updatedAt, s.value));
        case Gauge =>
          data := GaugeData(NumberPoint(s.updatedAt, s.value));
        case Histogram =>
          var bounds, counts := SplitBuckets(s.buckets);
          data := HistogramData(CUMULATIVE, HistogramPoint(s.updatedAt, s.count, s.sum, bounds, counts));
        case Unknown =>
      }
      out := out + [OtlpMetric(s.name, s.description, data)];
    }
  }

  method SplitBuckets(buckets: seq<BucketSnapshot>) returns (bounds: seq<real>, counts: seq<int>)
    ensures bounds == BoundsOf(buckets) && counts == Unsigned(CountsOf(buckets))
  {
    bounds, counts := [], [];
    for i := 0 to |buckets|
      invariant bounds == BoundsOf(buckets[..i])
      invariant counts == Unsigned(CountsOf(buckets))[..i]
    {
      var b := buckets[i];
      assert buckets[..i + 1][..i] == buckets[..i];
      if !b.overflow {
        bounds := bounds + [b.upperBound];
      }
      counts := counts + [ToUint64(b.count)];
    }
    assert buckets[..|buckets|] == buckets;
  }

  lemma {:induction false} BoundsOfBucketList(bounds: seq<real>, hist: map<real, int>, k: nat)
    requires hist.Keys == Keys(bounds) && k <= |bounds|
    ensures BoundsOf(BucketList(bounds, hist)[..k]) == bounds[..k]
  {
    if k > 0 {
      BoundsOfBucketList(bounds, hist, k - 1);
      assert BucketList(bounds, hist)[..k][..k - 1] == BucketList(bounds, hist)[..k - 1];
    }
  }

  /** Exporting a histogram reports all its bounds, whatever they are. */
  lemma ExportedBounds(bounds: seq<real>, hist: map<real, int>)
    requires hist.Keys == Keys(bounds)
    ensures BoundsOf(BucketList(bounds, hist)) == bounds
  {
    var buckets := BucketList(bounds, hist);
    BoundsOfBucketList(bounds, hist, |bounds|);
    assert buckets[..|buckets| - 1] == buckets[..|bounds|];
  }

  /** The histogram point exported for a metric. */
  function PointOf(m: MetricValue): HistogramPoint
    requires WellFormed(m) && m.def.kind == Histogram
  {
    Exported(SnapshotOf(m)).data.hpoint
  }

  lemma {:induction false} InBucketAtMost(samples: seq<real>, bounds: seq<real>, i: nat)
    ensures InBucket(samples, bounds, i) <= |samples|
  {
    if samples != [] {
      InBucketAtMost(samples[..|samples| - 1], bounds, i);
    }
  }

  lemma Uint64Exact(n: int)
    requires 0 <= n < 0x1_0000_0000_0000_0000
    ensures ToUint64(n) == n
  {
  }

  /**
   * A histogram with exact bounds exports exactly the distribution of its samples: one count more than bounds, each the
   * number of samples in its interval, adding up to the count. Counts fit 64 bits.
   */
  lemma ExportExact(m: MetricValue, samples: seq<real>)
    requires Reflects(m, samples) && m.def.kind == Histogram && ExactBounds(m.def.bounds)
    requires |samples| < 0x1_0000_0000_0000_0000
    ensures var p := PointOf(m);
            && p.bounds == m.def.bounds
            && |p.bucketCounts| == |p.bounds| + 1
            && p.bucketCounts == Tally(samples, p.bounds)
            && Sum(p.bucketCounts) == p.count == |samples|
  {
    var bounds := m.def.bounds;
    ExportedBounds(bounds, m.data.hist);
    BucketsExact(m, samples);
    TallyTotal(samples, bounds);
    var counts := Tally(samples, bounds);
    forall i | 0 <= i < |counts| ensures ToUint64(counts[i]) == counts[i] {
      InBucketAtMost(samples, bounds, i);
      Uint64Exact(counts[i]);
    }
    assert Unsigned(counts) == counts;
  }

  lemma {:induction false} InBucketGrows(earlier: seq<real>, more: seq<real>, bounds: seq<real>, i: nat)
    ensures InBucket(earlier, bounds, i) <= InBucket(earlier + more, bounds, i)
  {
    if more == [] {
      assert earlier + more == earlier;
    } else {
      var n := |more| - 1;
      assert (earlier + more)[..|earlier + more| - 1] == earlier + more[..n];
      InBucketGrows(earlier, more[..n], bounds, i);
    }
  }

  /** The second point has the bounds of the first, and no bucket count and no count below the first one's. */
  ghost predicate CumulativePoints(p: HistogramPoint, q: HistogramPoint) {
    && p.bounds == q.bounds && p.count <= q.count && |p.bucketCounts| == |q.bucketCounts|
    && forall i :: 0 <= i < |p.bucketCounts| ==> 0 <= p.bucketCounts[i] <= q.bucketCounts[i]
  }

  /** Exports of a histogram and of a later state of it are cumulative. */
  lemma ExportsCumulative(before: MetricValue, after: MetricValue, samples: seq<real>, more: seq<real>)
    requires Reflects(before, samples) && Reflects(after, samples + more) && after.def == before.def
    requires before.def.kind == Histogram && ExactBounds(before.def.bounds)
    requires |samples + more| < 0x1_0000_0000_0000_0000
    ensures CumulativePoints(PointOf(before), PointOf(after))
  {
    ExportExact(before, samples);
    ExportExact(after, samples + more);
    var bounds := before.def.bounds;
    forall i | 0 <= i <= |bounds| ensures Tally(samples, bounds)[i] <= Tally(samples + more, bounds)[i] {
      InBucketGrows(samples, more, bounds, i);
    }
  }
}
