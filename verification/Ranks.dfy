/** Bucketed samples and their order statistics: the mathematics behind the latency percentiles. */
module Ranks {
  import opened Base

  ghost predicate Increasing(b: seq<real>) {
    forall i, j :: 0 <= i < j < |b| ==> b[i] < b[j]
  }

  /** Bucket boundaries: at least one, strictly increasing, positive. */
  ghost predicate GoodBounds(b: seq<real>) {
    b != [] && Increasing(b) && 0.0 < b[0]
  }

  /** Bucket `i` is the interval from the bound before it (exclusive) to its own bound (inclusive). */
  predicate Holds(bounds: seq<real>, i: nat, x: real) {
    i <= |bounds| && (i == 0 || bounds[i - 1] < x) && (i == |bounds| || x <= bounds[i])
  }

  /** How many samples fall into bucket `i`. */
  function InBucket(samples: seq<real>, bounds: seq<real>, i: nat): nat {
    if samples == [] then 0
    else InBucket(samples[..|samples| - 1], bounds, i) + if Holds(bounds, i, samples[|samples| - 1]) then 1 else 0
  }

  /** The histogram of the samples: one count per bucket, the overflow bucket last. */
  function Tally(samples: seq<real>, bounds: seq<real>): (counts: seq<int>)
    ensures |counts| == |bounds| + 1
  {
    seq(|bounds| + 1, i requires 0 <= i => InBucket(samples, bounds, i))
  }

  /** How many samples are at most `x`. */
  function CountLE(samples: seq<real>, x: real): nat {
    if samples == [] then 0
    else CountLE(samples[..|samples| - 1], x) + if samples[|samples| - 1] <= x then 1 else 0
  }

  /** A sample falls into exactly one bucket. */
  lemma OneBucket(bounds: seq<real>, i: nat, j: nat, x: real)
    requires Increasing(bounds) && Holds(bounds, i, x) && Holds(bounds, j, x)
    ensures i == j
  {
  }

  /** One more sample adds one to its own bucket only. */
  lemma TallySnoc(samples: seq<real>, bounds: seq<real>, x: real, i: nat)
    requires Increasing(bounds) && Holds(bounds, i, x)
    ensures Tally(samples + [x], bounds) == Tally(samples, bounds)[i := Tally(samples, bounds)[i] + 1]
  {
    assert (samples + [x])[..|samples|] == samples;
    forall j: nat | j <= |bounds| && j != i ensures !Holds(bounds, j, x) {
      if Holds(bounds, j, x) { OneBucket(bounds, i, j, x); }
    }
  }

  /** A bucket's count is a difference of ranks. */
  lemma {:induction false} BucketIsDifference(samples: seq<real>, bounds: seq<real>, i: nat)
    requires Increasing(bounds) && i <= |bounds|
    ensures InBucket(samples, bounds, i) ==
            (if i == |bounds| then |samples| else CountLE(samples, bounds[i])) -
            (if i == 0 then 0 else CountLE(samples, bounds[i - 1]))
  {
    if samples != [] {
      BucketIsDifference(samples[..|samples| - 1], bounds, i);
    }
  }

  /** Prefix sums of the histogram are ranks. */
  lemma {:induction false} PrefixIsRank(samples: seq<real>, bounds: seq<real>, k: nat)
    requires Increasing(bounds) && k < |bounds|
    ensures Sum(Tally(samples, bounds)[..k + 1]) == CountLE(samples, bounds[k])
  {
    var counts := Tally(samples, bounds);
    assert counts[..k + 1][..k] == counts[..k];
    BucketIsDifference(samples, bounds, k);
    if k > 0 {
      PrefixIsRank(samples, bounds, k - 1);
    }
  }

  /** The histogram accounts for every sample. */
  lemma TallyTotal(samples: seq<real>, bounds: seq<real>)
    requires Increasing(bounds)
    ensures Sum(Tally(samples, bounds)) == |samples|
  {
    var n := |bounds|;
    var counts := Tally(samples, bounds);
    assert counts[..n + 1] == counts;
    BucketIsDifference(samples, bounds, n);
    if n > 0 {
      PrefixIsRank(samples, bounds, n - 1);
    }
  }

  ghost predicate Sorted(s: seq<real>) {
    forall i, j :: 0 <= i < j < |s| ==> s[i] <= s[j]
  }

  function Insert(s: seq<real>, x: real): seq<real> {
    if s == [] || s[|s| - 1] <= x then s + [x] else Insert(s[..|s| - 1], x) + [s[|s| - 1]]
  }

  /** The samples in ascending order. */
  function Ascending(samples: seq<real>): seq<real> {
    if samples == [] then [] else Insert(Ascending(samples[..|samples| - 1]), samples[|samples| - 1])
  }

  ghost predicate AllAtMost(s: seq<real>, b: real) {
    forall i :: 0 <= i < |s| ==> s[i] <= b
  }

  lemma {:induction false} InsertAtMost(s: seq<real>, x: real, b: real)
    requires AllAtMost(s, b) && x <= b
    ensures AllAtMost(Insert(s, x), b)
  {
    if !(s == [] || s[|s| - 1] <= x) {
      InsertAtMost(s[..|s| - 1], x, b);
    }
  }

  lemma {:induction false} InsertSorted(s: seq<real>, x: real)
    requires Sorted(s)
    ensures Sorted(Insert(s, x)) && |Insert(s, x)| == |s| + 1
  {
    if !(s == [] || s[|s| - 1] <= x) {
      var n := |s| - 1;
      InsertSorted(s[..n], x);
      InsertAtMost(s[..n], x, s[n]);
    }
  }

  lemma {:induction false} InsertPermutes(s: seq<real>, x: real)
    ensures multiset(Insert(s, x)) == multiset(s + [x])
  {
    if !(s == [] || s[|s| - 1] <= x) {
      var n := |s| - 1;
      InsertPermutes(s[..n], x);
      assert s == s[..n] + [s[n]];
      assert multiset(Insert(s, x)) == multiset(s[..n]) + multiset{x} + multiset{s[n]};
    }
  }

  /** `Ascending` sorts: it is a sorted permutation of its argument. */
  lemma {:induction false} AscendingSorts(samples: seq<real>)
    ensures Sorted(Ascending(samples)) && |Ascending(samples)| == |samples|
    ensures multiset(Ascending(samples)) == multiset(samples)
  {
    if samples != [] {
      var n := |samples| - 1;
      AscendingSorts(samples[..n]);
      InsertSorted(Ascending(samples[..n]), samples[n]);
      InsertPermutes(Ascending(samples[..n]), samples[n]);
      assert samples == samples[..n] + [samples[n]];
    }
  }

  /** Ranks do not depend on the order of the samples. */
  lemma {:induction false} InsertRank(s: seq<real>, x: real, b: real)
    ensures CountLE(Insert(s, x), b) == CountLE(s, b) + if x <= b then 1 else 0
  {
    if s == [] || s[|s| - 1] <= x {
      assert (s + [x])[..|s|] == s;
    } else {
      var t := Insert(s[..|s| - 1], x);
      InsertRank(s[..|s| - 1], x, b);
      assert (t + [s[|s| - 1]])[..|t|] == t;
    }
  }

  lemma {:induction false} AscendingRank(samples: seq<real>, b: real)
    ensures CountLE(Ascending(samples), b) == CountLE(samples, b)
  {
    if samples != [] {
      var n := |samples| - 1;
      AscendingRank(samples[..n], b);
      InsertRank(Ascending(samples[..n]), samples[n], b);
    }
  }

  /** In a sorted sequence, the elements up to `b` are exactly the first `CountLE` ones. */
  lemma {:induction false} RankInSorted(s: seq<real>, b: real, k: nat)
    requires Sorted(s) && k < |s|
    ensures s[k] <= b <==> k < CountLE(s, b)
    ensures CountLE(s, b) <= |s|
  {
    var n := |s| - 1;
    if k < n {
      RankInSorted(s[..n], b, k);
    } else if n > 0 {
      RankInSorted(s[..n], b, n - 1);
      if s[n] <= b {
        AllLE(s[..n], b);
      }
    }
  }

  lemma {:induction false} AllLE(s: seq<real>, b: real)
    requires AllAtMost(s, b)
    ensures CountLE(s, b) == |s|
  {
    if s != [] {
      AllLE(s[..|s| - 1], b);
    }
  }

  /** The k-th smallest sample, counting from one. */
  function OrderStatistic(samples: seq<real>, k: int): real
    requires 1 <= k <= |samples|
  {
    assert |Ascending(samples)| == |samples| by { AscendingSorts(samples); }
    Ascending(samples)[k - 1]
  }

  /** The k-th smallest sample is at most `b` exactly when at least k samples are. */
  lemma OrderStatisticRank(samples: seq<real>, k: int, b: real)
    requires 1 <= k <= |samples|
    ensures OrderStatistic(samples, k) <= b <==> k <= CountLE(samples, b)
  {
    var s := Ascending(samples);
    assert Sorted(s) && |s| == |samples| by { AscendingSorts(samples); }
    AscendingRank(samples, b);
    RankInSorted(s, b, k - 1);
    assert OrderStatistic(samples, k) == s[k - 1];
  }
}
