/** What the percentile estimator promises: closeness to the true order statistic, and monotonicity. */
module Percentiles {
  import opened Base
  import opened Ranks
  import opened Latency

  /** The least integer that is at least `x`. */
  function Ceil(x: real): (c: int)
    ensures x <= c as real < x + 1.0
  {
    -((-x).Floor)
  }

  /** The bucket a value falls into. */
  function BucketOf(bounds: seq<real>, x: real): (i: nat)
    requires Increasing(bounds)
    ensures Holds(bounds, i, x)
  {
    if bounds == [] || x <= bounds[0] then 0
    else
      var rest := BucketOf(bounds[1..], x);
      rest + 1
  }

  /** Counters that belong together: one per bucket, none negative, adding up to the total. */
  ghost predicate Consistent(bounds: seq<real>, counts: seq<int>, total: int) {
    && |counts| == |bounds| + 1
    && (forall i :: 0 <= i < |counts| ==> counts[i] >= 0)
    && Sum(counts) == total
  }

  /** The counters kept by a series are consistent. */
  lemma TallyConsistent(bounds: seq<real>, samples: seq<real>)
    requires Increasing(bounds)
    ensures Consistent(bounds, Tally(samples, bounds), |samples|)
  {
    TallyTotal(samples, bounds);
  }

  /** A point strictly inside a positive count interpolates strictly above the lower end and at most at the upper. */
  lemma InterpolateInside(lower: real, upper: real, part: real, count: int)
    requires lower < upper && count > 0 && 0.0 <= part <= count as real
    ensures lower <= Interpolate(lower, upper, part, count) <= upper
    ensures part > 0.0 ==> lower < Interpolate(lower, upper, part, count)
  {
    var width, c := upper - lower, count as real;
    assert width * part <= width * c;
    assert width * part / c <= width * c / c == width;
    if part > 0.0 {
      assert width * part > 0.0;
    }
  }

  lemma InterpolateMonotone(lower: real, upper: real, a: real, b: real, count: int)
    requires lower < upper && count > 0 && a <= b
    ensures Interpolate(lower, upper, a, count) <= Interpolate(lower, upper, b, count)
  {
    var width := upper - lower;
    assert width * a <= width * b;
  }

  /** Where the estimate lies, from the position of the crossing bucket alone. */
  lemma QuantileInBucket(bounds: seq<real>, counts: seq<int>, target: real)
    requires GoodBounds(bounds) && |counts| == |bounds| + 1 && target > 0.0
    ensures var k := Crossing(counts, target, |bounds|, 0);
            var v := Quantile(bounds, counts, target);
            && (k < |bounds| ==> counts[k] > 0 && Lower(bounds, k) < v <= bounds[k])
            && (k == |bounds| ==> v == bounds[k - 1])
  {
    var k := Crossing(counts, target, |bounds|, 0);
    if k < |bounds| {
      CumulativeStep(counts, k);
      assert Cumulative(counts, 0) == 0;
      InterpolateInside(Lower(bounds, k), bounds[k], target - Cumulative(counts, k) as real, counts[k]);
    }
  }

  /** The order statistic of rank `k` falls into the bucket in which the cumulative count reaches `k`. */
  lemma {:induction false} CrossingHoldsOrderStatistic(bounds: seq<real>, samples: seq<real>, target: real)
    requires GoodBounds(bounds) && 0.0 < target <= |samples| as real
    ensures 1 <= Ceil(target) <= |samples|
    ensures Holds(bounds, Crossing(Tally(samples, bounds), target, |bounds|, 0), OrderStatistic(samples, Ceil(target)))
  {
    var counts, k := Tally(samples, bounds), Ceil(target);
    var i := Crossing(counts, target, |bounds|, 0);
    if i < |bounds| {
      PrefixIsRank(samples, bounds, i);
      OrderStatisticRank(samples, k, bounds[i]);
    }
    if i > 0 {
      PrefixIsRank(samples, bounds, i - 1);
      OrderStatisticRank(samples, k, bounds[i - 1]);
      assert (Cumulative(counts, i) as real) < target;
    }
  }

  /** No negative samples. */
  ghost predicate Nonnegative(samples: seq<real>) {
    forall i :: 0 <= i < |samples| ==> samples[i] >= 0.0
  }

  lemma {:induction false} NoneBelowZero(samples: seq<real>, x: real)
    requires Nonnegative(samples) && x < 0.0
    ensures CountLE(samples, x) == 0
  {
    if samples != [] {
      NoneBelowZero(samples[..|samples| - 1], x);
    }
  }

  lemma OrderStatisticNonnegative(samples: seq<real>, k: int)
    requires Nonnegative(samples) && 1 <= k <= |samples|
    ensures OrderStatistic(samples, k) >= 0.0
  {
    var x := OrderStatistic(samples, k);
    OrderStatisticRank(samples, k, x);
    if x < 0.0 {
      NoneBelowZero(samples, x);
    }
  }

  lemma RankRange(p: real, total: int)
    requires 0.0 < p <= 1.0 && total > 0
    ensures 0.0 < Rank(p, total) <= total as real
  {
  }

  lemma QuantileNear(bounds: seq<real>, samples: seq<real>, rank: real)
    requires GoodBounds(bounds) && Nonnegative(samples) && 0.0 < rank <= |samples| as real
    ensures 1 <= Ceil(rank) <= |samples|
    ensures Near(bounds, OrderStatistic(samples, Ceil(rank)), Quantile(bounds, Tally(samples, bounds), rank))
  {
    CrossingHoldsOrderStatistic(bounds, samples, rank);
    var x := OrderStatistic(samples, Ceil(rank));
    OneBucket(bounds, BucketOf(bounds, x), Crossing(Tally(samples, bounds), rank, |bounds|, 0), x);
    OrderStatisticNonnegative(samples, Ceil(rank));
    QuantileInBucket(bounds, Tally(samples, bounds), rank);
  }

  /**
   * A value shares the bucket of `x`, so it differs from `x` by at most the bucket's width; beyond the last bound it is
   * the last bound.
   */
  ghost predicate Near(bounds: seq<real>, x: real, v: real)
    requires GoodBounds(bounds)
  {
    var i := BucketOf(bounds, x);
    && (i < |bounds| ==>
          var width := bounds[i] - Lower(bounds, i);
          Lower(bounds, i) < v <= bounds[i] && -width <= v - x <= width)
    && (i == |bounds| ==> bounds[|bounds| - 1] == v < x)
  }

  /** The estimate is near the true quantile, the sample whose rank is p * n rounded up. */
  lemma QuantileFaithful(bounds: seq<real>, samples: seq<real>, p: real, rank: real)
    requires GoodBounds(bounds) && Nonnegative(samples) && samples != []
    requires 0.0 < p <= 1.0 && rank == p * |samples| as real
    ensures 1 <= Ceil(rank) <= |samples|
    ensures Near(bounds, OrderStatistic(samples, Ceil(rank)),
                 PercentileOf(bounds, Tally(samples, bounds), |samples|, p))
  {
    RankRange(p, |samples|);
    PercentileIsQuantile(bounds, samples, p);
    QuantileNear(bounds, samples, rank);
  }

  /** `v` is as far along from `lower` to `upper` as `part` is along from zero to `count`. */
  predicate Proportional(v: real, lower: real, upper: real, part: real, count: int) {
    (v - lower) * count as real == (upper - lower) * part
  }

  /**
   * Where a value stands among the samples, at a rank: in the bucket of the sample of that rank, as far along the
   * bucket
   * as the rank is along the bucket's samples; or at the last bound, if that sample is beyond it.
   */
  ghost predicate StandsAt(bounds: seq<real>, samples: seq<real>, rank: real, v: real)
    requires GoodBounds(bounds) && 1 <= Ceil(rank) <= |samples|
  {
    var k := BucketOf(bounds, OrderStatistic(samples, Ceil(rank)));
    if k == |bounds| then v == bounds[k - 1]
    else
      var lower := if k == 0 then 0.0 else bounds[k - 1];
      var below := if k == 0 then 0 else CountLE(samples, bounds[k - 1]);
      var upTo := CountLE(samples, bounds[k]);
      below < upTo && Proportional(v, lower, bounds[k], rank - below as real, upTo - below)
  }

  lemma QuantileStandsAt(bounds: seq<real>, samples: seq<real>, rank: real)
    requires GoodBounds(bounds) && 0.0 < rank <= |samples| as real
    ensures 1 <= Ceil(rank) <= |samples|
    ensures StandsAt(bounds, samples, rank, Quantile(bounds, Tally(samples, bounds), rank))
  {
    var counts := Tally(samples, bounds);
    var k := Crossing(counts, rank, |bounds|, 0);
    CrossingHoldsOrderStatistic(bounds, samples, rank);
    OneBucket(bounds, BucketOf(bounds, OrderStatistic(samples, Ceil(rank))), k, OrderStatistic(samples, Ceil(rank)));
    if k < |bounds| {
      QuantileInBucket(bounds, counts, rank);
      BucketIsDifference(samples, bounds, k);
      CumulativeIsRank(samples, bounds, k);
      InterpolationDivides(Lower(bounds, k), bounds[k], rank - Cumulative(counts, k) as real, counts[k]);
    }
  }

  lemma CumulativeIsRank(samples: seq<real>, bounds: seq<real>, k: nat)
    requires Increasing(bounds) && k < |bounds|
    ensures Cumulative(Tally(samples, bounds), k) == if k == 0 then 0 else CountLE(samples, bounds[k - 1])
  {
    if k > 0 {
      PrefixIsRank(samples, bounds, k - 1);
    }
  }

  lemma InterpolationDivides(lower: real, upper: real, part: real, count: int)
    requires count > 0
    ensures Proportional(Interpolate(lower, upper, part, count), lower, upper, part, count)
  {
    var c, whole := count as real, (upper - lower) * part;
    assert whole / c * c == whole;
  }

  /** A percentile is exactly the linear interpolation over the samples of its bucket, at the rank p * n. */
  lemma PercentileStandsAt(bounds: seq<real>, samples: seq<real>, p: real, rank: real)
    requires GoodBounds(bounds) && samples != [] && 0.0 < p <= 1.0 && rank == p * |samples| as real
    ensures 1 <= Ceil(rank) <= |samples|
    ensures StandsAt(bounds, samples, rank, PercentileOf(bounds, Tally(samples, bounds), |samples|, p))
  {
    RankRange(p, |samples|);
    PercentileIsQuantile(bounds, samples, p);
    QuantileStandsAt(bounds, samples, rank);
  }

  lemma PercentileIsQuantile(bounds: seq<real>, samples: seq<real>, p: real)
    requires GoodBounds(bounds) && samples != []
    ensures PercentileOf(bounds, Tally(samples, bounds), |samples|, p) ==
            Quantile(bounds, Tally(samples, bounds), p * |samples| as real)
  {
  }

  /** At zero, the estimate is zero, or the first bound if no sample is at most that; without samples it is zero. */
  lemma PercentileAtZero(bounds: seq<real>, samples: seq<real>)
    requires GoodBounds(bounds)
    ensures PercentileOf(bounds, Tally(samples, bounds), |samples|, 0.0) ==
            if samples != [] && CountLE(samples, bounds[0]) == 0 then bounds[0] else 0.0
  {
    if samples != [] {
      assert Rank(0.0, |samples|) == 0.0;
      QuantileAtZero(bounds, samples);
    }
  }

  lemma QuantileAtZero(bounds: seq<real>, samples: seq<real>)
    requires GoodBounds(bounds)
    ensures Quantile(bounds, Tally(samples, bounds), 0.0) == if CountLE(samples, bounds[0]) == 0 then bounds[0] else 0.0
  {
    var counts := Tally(samples, bounds);
    assert Cumulative(counts, 0) == 0;
    CumulativeStep(counts, 0);
    BucketIsDifference(samples, bounds, 0);
    assert Crossing(counts, 0.0, |bounds|, 0) == 0;
    if counts[0] != 0 {
      InterpolationDivides(0.0, bounds[0], 0.0, counts[0]);
      ZeroProduct(Interpolate(0.0, bounds[0], 0.0, counts[0]), counts[0]);
    }
  }

  lemma ZeroProduct(v: real, count: int)
    requires v * count as real == 0.0 && count > 0
    ensures v == 0.0
  {
  }

  /** Estimates stay between zero and the last bound. */
  lemma QuantileRange(bounds: seq<real>, counts: seq<int>, target: real)
    requires GoodBounds(bounds) && |counts| == |bounds| + 1 && target >= 0.0 && counts[0] >= 0
    ensures 0.0 <= Quantile(bounds, counts, target) <= bounds[|bounds| - 1]
  {
    assert Cumulative(counts, 0) == 0;
    if target > 0.0 {
      QuantileInBucket(bounds, counts, target);
    } else {
      CumulativeStep(counts, 0);
      if counts[0] > 0 {
        InterpolateInside(0.0, bounds[0], 0.0, counts[0]);
      }
    }
  }

  /** A larger target never crosses earlier. */
  lemma CrossingMonotone(counts: seq<int>, s: real, t: real, n: nat)
    requires s <= t && n < |counts|
    ensures Crossing(counts, s, n, 0) <= Crossing(counts, t, n, 0)
  {
    var i, j := Crossing(counts, s, n, 0), Crossing(counts, t, n, 0);
    assert j == n || t <= Cumulative(counts, j + 1) as real;
  }

  lemma QuantileMonotone(bounds: seq<real>, counts: seq<int>, s: real, t: real)
    requires GoodBounds(bounds) && |counts| == |bounds| + 1 && counts[0] >= 0 && 0.0 <= s <= t
    ensures Quantile(bounds, counts, s) <= Quantile(bounds, counts, t)
  {
    var n := |bounds|;
    var i, j := Crossing(counts, s, n, 0), Crossing(counts, t, n, 0);
    CrossingMonotone(counts, s, t, n);
    assert Cumulative(counts, 0) == 0;
    CumulativeStep(counts, 0);
    if s == t {
    } else if i == j < n {
      QuantileInBucket(bounds, counts, t);
      InterpolateMonotone(Lower(bounds, i), bounds[i], s - Cumulative(counts, i) as real,
                          t - Cumulative(counts, i) as real, counts[i]);
    } else if i < j {
      QuantileInBucket(bounds, counts, t);
      if s > 0.0 {
        QuantileInBucket(bounds, counts, s);
      } else if counts[0] > 0 {
        InterpolateInside(0.0, bounds[0], 0.0, counts[0]);
      }
    }
  }

  lemma RankMonotone(p: real, q: real, total: int)
    requires 0.0 <= p <= q && total >= 0
    ensures 0.0 <= Rank(p, total) <= Rank(q, total)
  {
  }

  /** Percentiles are monotone in p and stay within the bucket range. */
  lemma PercentileMonotone(bounds: seq<real>, counts: seq<int>, total: int, p: real, q: real)
    requires GoodBounds(bounds) && Consistent(bounds, counts, total) && 0.0 <= p <= q <= 1.0
    ensures 0.0 <= PercentileOf(bounds, counts, total, p) <= PercentileOf(bounds, counts, total, q) <=
            bounds[|bounds| - 1]
  {
    SumNonnegative(counts);
    if total != 0 {
      RankMonotone(p, q, total);
      QuantileRange(bounds, counts, Rank(p, total));
      QuantileRange(bounds, counts, Rank(q, total));
      QuantileMonotone(bounds, counts, Rank(p, total), Rank(q, total));
    }
  }

  lemma {:induction false} SumNonnegative(s: seq<int>)
    requires forall k :: 0 <= k < |s| ==> s[k] >= 0
    ensures Sum(s) >= 0
  {
    if s != [] {
      SumNonnegative(s[..|s| - 1]);
    }
  }

  /** The branch for an empty bucket is taken only for p = 0, when the first bucket is empty. */
  lemma EmptyBucketOnlyAtZero(bounds: seq<real>, counts: seq<int>, total: int, p: real)
    requires GoodBounds(bounds) && Consistent(bounds, counts, total) && total > 0 && 0.0 <= p <= 1.0
    ensures var k := Crossing(counts, Rank(p, total), |bounds|, 0);
            k < |bounds| && counts[k] == 0 <==> p == 0.0 && counts[0] == 0
  {
    assert Cumulative(counts, 0) == 0;
    CumulativeStep(counts, 0);
    if p > 0.0 {
      RankRange(p, total);
      QuantileInBucket(bounds, counts, Rank(p, total));
    } else {
      assert Rank(p, total) == 0.0;
    }
  }

  /** Every endpoint summary has P50 <= P95 <= P99. */
  lemma SummaryOrdered(bounds: seq<real>, verb: string, path: string, samples: seq<real>)
    requires GoodBounds(bounds)
    ensures var s := Summary(bounds, verb, path, samples);
            0.0 <= s.p50 <= s.p95 <= s.p99 <= bounds[|bounds| - 1]
  {
    TallyConsistent(bounds, samples);
    PercentileMonotone(bounds, Tally(samples, bounds), |samples|, 0.5, 0.95);
    PercentileMonotone(bounds, Tally(samples, bounds), |samples|, 0.95, 0.99);
  }

  /** An endpoint's summary shows the number and the mean of its samples and three of their percentiles. */
  lemma SummaryShows(bounds: seq<real>, verb: string, path: string, samples: seq<real>)
    requires GoodBounds(bounds)
    ensures var s, counts := Summary(bounds, verb, path, samples), Tally(samples, bounds);
            && s.verb == verb && s.path == path && s.count == |samples|
            && s.avg == (if samples == [] then 0.0 else SumR(samples) / |samples| as real)
            && s.p50 == PercentileOf(bounds, counts, |samples|, 0.50)
            && s.p95 == PercentileOf(bounds, counts, |samples|, 0.95)
            && s.p99 == PercentileOf(bounds, counts, |samples|, 0.99)
  {
  }
}
