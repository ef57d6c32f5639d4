/** The per-endpoint latency tracker and its bucketed percentile estimator (endpoint_latency.go). */
module Latency {
  import opened Base
  import opened Ranks
  import Labels

  /** Bucket boundaries in seconds. */
  const ENDPOINT_BOUNDS: seq<real> := [0.001, 0.0025, 0.005, 0.01, 0.025, 0.05, 0.1, 0.25, 0.5, 1.0, 2.5, 5.0, 10.0]

  lemma EndpointBoundsAreGood()
    ensures GoodBounds(ENDPOINT_BOUNDS)
  {
  }

  /** Go's binary search: the first position whose element is at least `x`. */
  method SearchReals(a: seq<real>, x: real) returns (i: nat)
    requires Increasing(a)
    ensures Holds(a, i, x)
  {
    i := 0;
    var j := |a|;
    while i < j
      invariant 0 <= i <= j <= |a|
      invariant i > 0 ==> a[i - 1] < x
      invariant j < |a| ==> x <= a[j]
    {
      var h := (i + j) / 2;
      if a[h] < x { i := h + 1; } else { j := h; }
    }
  }

  /** The count of the first `k` buckets. */
  function Cumulative(counts: seq<int>, k: nat): int
    requires k <= |counts|
  {
    Sum(counts[..k])
  }

  lemma CumulativeStep(counts: seq<int>, k: nat)
    requires k < |counts|
    ensures Cumulative(counts, k + 1) == Cumulative(counts, k) + counts[k]
  {
    assert counts[..k + 1][..k] == counts[..k];
  }

  /** The first bucket from `i` on whose cumulative count reaches the target, or `n` if none does. */
  function Crossing(counts: seq<int>, target: real, n: nat, i: nat): (k: nat)
    requires i <= n < |counts|
    ensures i <= k <= n
    ensures k < n ==> Cumulative(counts, k + 1) as real >= target
    ensures forall j :: i < j <= k ==> (Cumulative(counts, j) as real) < target
    decreases n - i
  {
    if i == n || Cumulative(counts, i + 1) as real >= target then i else Crossing(counts, target, n, i + 1)
  }

  function Lower(bounds: seq<real>, k: nat): real
    requires k <= |bounds|
  {
    if k == 0 then 0.0 else bounds[k - 1]
  }

  /** The point `part` out of `count` along the way from `lower` to `upper`. */
  function Interpolate(lower: real, upper: real, part: real, count: int): real
    requires count != 0
  {
    lower + (upper - lower) * part / (count as real)
  }

  /** The estimate inside bucket `k`: linear interpolation, or the upper bound of an empty bucket. */
  function Estimate(bounds: seq<real>, counts: seq<int>, target: real, k: nat): real
    requires k < |bounds| < |counts|
  {
    if counts[k] == 0 then bounds[k]
    else Interpolate(Lower(bounds, k), bounds[k], target - Cumulative(counts, k) as real, counts[k])
  }

  /** The estimate for a target rank: in the bucket that reaches it, or the last bound. */
  function Quantile(bounds: seq<real>, counts: seq<int>, target: real): real
    requires 0 < |bounds| < |counts|
  {
    var k := Crossing(counts, target, |bounds|, 0);
    if k < |bounds| then Estimate(bounds, counts, target, k) else bounds[|bounds| - 1]
  }

  /** The target rank, not rounded. */
  function Rank(p: real, total: int): real {
    p * total as real
  }

  /** The approximate p-quantile of a histogram with the given total. */
  function PercentileOf(bounds: seq<real>, counts: seq<int>, total: int, p: real): real
    requires 0 < |bounds| < |counts|
  {
    if total == 0 then 0.0 else Quantile(bounds, counts, Rank(p, total))
  }

  class LatencySeries {
    const verb: string
    const path: string
    const counts: array<int>
    var total: int
    var sum: real
    /** Every sample observed so far. */
    ghost var samples: seq<real>

    constructor (verb: string, path: string, bounds: seq<real>)
      ensures this.verb == verb && this.path == path && fresh(counts)
      ensures Valid(bounds) && samples == []
    {
      this.verb := verb;
      this.path := path;
      counts := new int[|bounds| + 1](_ => 0);
      total, sum, samples := 0, 0.0, [];
      new;
      assert counts[..] == Tally([], bounds);
    }

    /** The counters are the histogram of the samples. */
    ghost predicate Valid(bounds: seq<real>)
      reads this, counts
    {
      && counts[..] == Tally(samples, bounds)
      && total == |samples|
      && sum == SumR(samples)
    }

    method Add(bounds: seq<real>, seconds: real)
      requires GoodBounds(bounds) && Valid(bounds)
      modifies this, counts
      ensures Valid(bounds) && samples == old(samples) + [seconds]
    {
      var idx := SearchReals(bounds, seconds);
      TallySnoc(samples, bounds, seconds, idx);
      counts[idx] := counts[idx] + 1;
      total := total + 1;
      sum := sum + seconds;
      SumRSnoc(samples, seconds);
      samples := samples + [seconds];
      assert counts[..] == Tally(samples, bounds);
    }

    method Percentile(bounds: seq<real>, p: real) returns (v: real)
      requires 0 < |bounds| < counts.Length
      ensures v == PercentileOf(bounds, counts[..], total, p)
    {
      if total == 0 {
        return 0.0;
      }
      v := Walk(bounds, Rank(p, total));
    }

    /** Walks the buckets, keeping the cumulative counts before and after the current one. */
    method Walk(bounds: seq<real>, target: real) returns (v: real)
      requires 0 < |bounds| < counts.Length
      ensures v == Quantile(bounds, counts[..], target)
    {
      var cum, prev := 0, 0;
      for i := 0 to |bounds|
        invariant cum == prev == Cumulative(counts[..], i)
        invariant Crossing(counts[..], target, |bounds|, 0) == Crossing(counts[..], target, |bounds|, i)
      {
        CumulativeStep(counts[..], i);
        var ci := counts[i];
        cum := cum + ci;
        if cum as real >= target {
          if ci == 0 {
            return bounds[i];
          }
          var lower := 0.0;
          if i > 0 {
            lower := bounds[i - 1];
          }
          return Interpolate(lower, bounds[i], target - prev as real, ci);
        }
        prev := cum;
      }
      return bounds[|bounds| - 1];
    }
  }

  /** The samples kept per endpoint key. */
  type Book = map<string, seq<real>>

  /** The book after one observation: known endpoints grow, new ones enter while there is room. */
  function Observed(book: Book, max: int, key: string, seconds: real): Book {
    if key in book then book[key := book[key] + [seconds]]
    else if |book| >= max then book
    else book[key := [seconds]]
  }

  /** The summary of one endpoint's samples. */
  function Summary(bounds: seq<real>, verb: string, path: string, samples: seq<real>): Snapshot
    requires bounds != []
  {
    var counts := Tally(samples, bounds);
    Snapshot(verb, path, |samples|,
             if |samples| > 0 then SumR(samples) / |samples| as real else 0.0,
             PercentileOf(bounds, counts, |samples|, 0.5),
             PercentileOf(bounds, counts, |samples|, 0.95),
             PercentileOf(bounds, counts, |samples|, 0.99))
  }

  datatype Snapshot = Snapshot(verb: string, path: string, count: int, avg: real, p50: real, p95: real, p99: real)

  /** The key of an endpoint: method, tab, normalised path. */
  function Key(verb: string, path: string): string {
    verb + "\t" + Labels.Normal(path)
  }

  method EndpointKey(verb: string, path: string) returns (normal: string, key: string)
    ensures key == Key(verb, path) == verb + "\t" + normal
  {
    normal := Labels.NormalizePath(path);
    key := verb + "\t" + normal;
  }

  /** The book with room made for a key, if it has room. */
  function Entered(book: Book, max: int, key: string): Book {
    if key in book || |book| >= max then book else book[key := []]
  }

  /** Entering an endpoint with no samples and then growing it observes the first one. */
  lemma ObservedGrows(book: Book, max: int, key: string, seconds: real)
    ensures var entered := Entered(book, max, key);
            Observed(book, max, key, seconds) ==
              if key in entered then entered[key := entered[key] + [seconds]] else entered
  {
    assert [] + [seconds] == [seconds];
  }

  class EndpointTracker {
    const max: int
    const bounds: seq<real>
    var series: map<string, LatencySeries>
    ghost var owner: map<array<int>, string>
    ghost var Repr: set<object>

    constructor (max: int)
      ensures Valid() && fresh(Repr)
      ensures this.max == (if max <= 0 then 128 else max) && bounds == ENDPOINT_BOUNDS
      ensures Samples() == map[]
    {
      this.max := if max <= 0 then 128 else max;
      bounds := ENDPOINT_BOUNDS;
      series, owner := map[], map[];
      Repr := {this};
    }

    /** Every counter array belongs to one key, and every series is the histogram of its samples. */
    ghost predicate Valid()
      reads this, Repr
      ensures Valid() ==> this in Repr
    {
      && this in Repr
      && GoodBounds(bounds)
      && (forall k :: k in series ==> series[k] in Repr && series[k].counts in Repr && series[k].Valid(bounds))
      && (forall k :: k in series ==> k == series[k].verb + "\t" + series[k].path)
      && (forall k :: k in series ==> series[k].counts in owner && owner[series[k].counts] == k)
    }

    /** The abstract state: the samples of each tracked endpoint. */
    ghost function Samples(): Book
      requires Valid()
      reads this, Repr
      ensures Samples().Keys == series.Keys
    {
      map k | k in series :: series[k].samples
    }

    method Observe(verb: string, path: string, seconds: real)
      requires Valid()
      modifies Repr
      ensures Valid() && fresh(Repr - old(Repr))
      ensures Samples() == Observed(old(Samples()), max, Key(verb, path), seconds)
    {
      var normal, key := EndpointKey(verb, path);
      Note(key, verb, normal, seconds);
    }

    /** Adds a sample to the series of a key, started first if there is room. */
    method Note(key: string, verb: string, path: string, seconds: real)
      requires Valid() && key == verb + "\t" + path
      modifies Repr
      ensures Valid() && fresh(Repr - old(Repr))
      ensures Samples() == Observed(old(Samples()), max, key, seconds)
    {
      ObservedGrows(Samples(), max, key, seconds);
      var tracked := Track(key, verb, path);
      if tracked {
        Grow(key, seconds);
      }
    }

    /** Finds the series of a key, or starts one while there is room. */
    method Track(key: string, verb: string, path: string) returns (tracked: bool)
      requires Valid() && key == verb + "\t" + path
      modifies this
      ensures Valid() && fresh(Repr - old(Repr)) && tracked == (key in series)
      ensures Samples() == Entered(old(Samples()), max, key)
    {
      assert |Samples()| == |Samples().Keys| == |series.Keys| == |series|;
      if key in series {
        return true;
      }
      if |series| >= max {
        return false;
      }
      Enter(key, verb, path);
      return true;
    }

    /** Starts an empty series under a new key. */
    method Enter(key: string, verb: string, path: string)
      requires Valid() && key !in series && key == verb + "\t" + path
      modifies this
      ensures Valid() && fresh(Repr - old(Repr))
      ensures Samples() == old(Samples())[key := []]
    {
      var s := new LatencySeries(verb, path, bounds);
      File(key, s);
      SamplesFiled(key, s);
    }

    /** Files a series that no other key can reach. */
    method File(key: string, s: LatencySeries)
      requires Valid() && s.Valid(bounds) && s.counts !in Repr && key == s.verb + "\t" + s.path
      modifies this
      ensures Valid() && Repr == old(Repr) + {s, s.counts}
      ensures series == old(series)[key := s]
    {
      series, owner := series[key := s], owner[s.counts := key];
      Repr := Repr + {s, s.counts};
    }

    /** Filing a new series changes the samples of its key alone. */
    twostate lemma SamplesFiled(key: string, new s: LatencySeries)
      requires old(Valid()) && Valid() && s.samples == []
      requires series == old(series)[key := s]
      requires forall k :: k in old(series) && k != key ==> series[k].samples == old(series[k].samples)
      ensures Samples() == old(Samples())[key := []]
    {
    }

    /** Adds a sample to a known series. */
    method Grow(key: string, seconds: real)
      requires Valid() && key in series
      modifies series[key], series[key].counts
      ensures Valid() && Repr == old(Repr)
      ensures Samples() == old(Samples())[key := old(Samples())[key] + [seconds]]
    {
      var s := series[key];
      s.Add(bounds, seconds);
      assert forall k :: k in series && k != key ==> series[k].Valid(bounds);
    }

    /** The summary of each tracked endpoint. */
    ghost function Summaries(): map<string, Snapshot>
      requires Valid()
      reads this, Repr
      ensures Summaries().Keys == series.Keys
    {
      map k | k in series :: Summary(bounds, series[k].verb, series[k].path, Samples()[k])
    }

    /** One summary per tracked endpoint; `keys` is the order in which the map was ranged over. */
    method Snapshots() returns (out: seq<Snapshot>, ghost keys: seq<string>)
      requires Valid()
      ensures Enumerates(keys, series.Keys) && |out| == |keys|
      ensures forall i :: 0 <= i < |out| ==> keys[i] in Summaries() && out[i] == Summaries()[keys[i]]
      ensures |out| == |series| && forall k :: k in Summaries() ==> Summaries()[k] in out
    {
      out, keys := [], [];
      ghost var summaries := Summaries();
      var todo := series.Keys;
      while todo != {}
        invariant Ranged(summaries, todo, keys, out)
      {
        var k :| k in todo;
        var snap := SnapshotOf(series[k]);
        RangedNext(summaries, todo, keys, out, k);
        out, keys, todo := out + [snap], keys + [k], todo - {k};
      }
      assert |summaries| == |summaries.Keys| == |series.Keys|;
      RangedAll(summaries, keys, out);
    }

    method SnapshotOf(s: LatencySeries) returns (snap: Snapshot)
      requires GoodBounds(bounds) && s.Valid(bounds)
      ensures snap == Summary(bounds, s.verb, s.path, s.samples)
    {
      var avg := 0.0;
      if s.total > 0 {
        avg := s.sum / s.total as real;
      }
      var p50 := s.Percentile(bounds, 0.5);
      var p95 := s.Percentile(bounds, 0.95);
      var p99 := s.Percentile(bounds, 0.99);
      snap := Snapshot(s.verb, s.path, s.total, avg, p50, p95, p99);
    }
  }
}
