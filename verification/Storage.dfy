/** The bounded in-memory store of roll-up windows (storage_memory.go). */
module Storage {
  import opened Base

  /** A roll-up window handed to storage. Times are integers; bucket counts are keyed by bound. */
  datatype AggregatedMetric = AggregatedMetric(
    name: string, count: int, sum: real, min: real, max: real,
    windowStart: int, windowEnd: int, buckets: map<real, int>)

  /** A query; an absent time bound is Go's zero time, an empty name matches every metric. */
  datatype Query = Query(name: string, from: Option<int>, to: Option<int>, limit: int)

  predicate Matches(b: AggregatedMetric, q: Query) {
    && (q.name == "" || b.name == q.name)
    && (q.from.Some? ==> b.windowEnd >= q.from.value)
    && (q.to.Some? ==> b.windowStart <= q.to.value)
  }

  /** The buckets without the stale ones at the head. */
  function DropStale(buckets: seq<AggregatedMetric>, cutoff: int): seq<AggregatedMetric> {
    if buckets != [] && buckets[0].windowEnd < cutoff then DropStale(buckets[1..], cutoff) else buckets
  }

  /** The buckets after one store: stale head dropped, one more dropped at capacity, the new one appended. */
  function Stored(buckets: seq<AggregatedMetric>, max: int, ttl: int, m: AggregatedMetric,
                  now: int): seq<AggregatedMetric>
    requires max >= 1
  {
    var kept := if ttl > 0 then DropStale(buckets, now - ttl) else buckets;
    (if |kept| >= max then kept[1..] else kept) + [m]
  }

  /** The matching buckets, in order. */
  function Matching(buckets: seq<AggregatedMetric>, q: Query): seq<AggregatedMetric> {
    if buckets == [] then []
    else
      var n := |buckets| - 1;
      Matching(buckets[..n], q) + if Matches(buckets[n], q) then [buckets[n]] else []
  }

  /** The first `limit` elements, or all of them when `limit` is not positive. */
  function Limited<T>(s: seq<T>, limit: int): seq<T> {
    if 0 < limit < |s| then s[..limit] else s
  }

  class MemoryStorage {
    var buckets: seq<AggregatedMetric>
    const max: int
    const ttl: int

    constructor (ttl: int)
      ensures this.ttl == ttl && max == 100_000 && buckets == []
    {
      this.ttl := ttl;
      max := 100_000;
      buckets := [];
    }

    method Store(m: AggregatedMetric, now: int)
      requires max >= 1
      modifies this
      ensures buckets == Stored(old(buckets), max, ttl, m, now)
    {
      if ttl > 0 {
        var cutoff := now - ttl;
        while |buckets| > 0 && buckets[0].windowEnd < cutoff
          invariant DropStale(buckets, cutoff) == DropStale(old(buckets), cutoff)
          decreases |buckets|
        {
          buckets := buckets[1..];
        }
      }
      if |buckets| >= max {
        buckets := buckets[1..];
      }
      buckets := buckets + [m];
    }

    method Find(q: Query) returns (out: seq<AggregatedMetric>)
      ensures out == Limited(Matching(buckets, q), q.limit)
    {
      out := [];
      var i := 0;
      while i < |buckets|
        invariant 0 <= i <= |buckets| && out == Matching(buckets[..i], q)
        invariant q.limit > 0 ==> |out| < q.limit
      {
        var b := buckets[i];
        assert buckets[..i + 1][..i] == buckets[..i];
        i := i + 1;
        if q.name != "" && b.name != q.name {
          continue;
        }
        if q.from.Some? && b.windowEnd < q.from.value {
          continue;
        }
        if q.to.Some? && b.windowStart > q.to.value {
          continue;
        }
        out := out + [b];
        if q.limit > 0 && |out| >= q.limit {
          MatchingPrefix(buckets, q, i);
          break;
        }
      }
      if i == |buckets| {
        assert buckets[..i] == buckets;
      }
    }
  }

  /** Matching a prefix of the buckets gives a prefix of the matches. */
  lemma {:induction false} MatchingPrefix(buckets: seq<AggregatedMetric>, q: Query, i: nat)
    requires i <= |buckets|
    ensures Matching(buckets[..i], q) <= Matching(buckets, q)
  {
    var n := |buckets| - 1;
    if i <= n {
      assert buckets[..n][..i] == buckets[..i];
      MatchingPrefix(buckets[..n], q, i);
    } else {
      assert buckets[..i] == buckets;
    }
  }

  /** The positions of the matching buckets, ascending. */
  function Positions(buckets: seq<AggregatedMetric>, q: Query): seq<nat> {
    if buckets == [] then []
    else
      var n := |buckets| - 1;
      Positions(buckets[..n], q) + if Matches(buckets[n], q) then [n] else []
  }

  /** A query returns the buckets at all matching positions and no others, in the order they were stored. */
  lemma {:induction false} MatchingInOrder(buckets: seq<AggregatedMetric>, q: Query)
    ensures var at, out := Positions(buckets, q), Matching(buckets, q);
            && |at| == |out|
            && (forall i :: 0 <= i < |at| ==> at[i] < |buckets| && out[i] == buckets[at[i]])
            && (forall i, j :: 0 <= i < j < |at| ==> at[i] < at[j])
            && (forall k: nat :: k < |buckets| ==> (k in at <==> Matches(buckets[k], q)))
  {
    if buckets != [] {
      MatchingInOrder(buckets[..|buckets| - 1], q);
    }
  }

  /**
   * What a query returns: of the buckets with its name, if it has one, that end no earlier than `from` and start no
   * later
   * than `to`, as far as these are given, the first `limit`, or all if the limit is not positive.
   */
  lemma QueryReturns(buckets: seq<AggregatedMetric>, q: Query)
    ensures var at, out := Positions(buckets, q), Limited(Matching(buckets, q), q.limit);
            && |out| == (if q.limit > 0 && |at| > q.limit then q.limit else |at|)
            && (forall i :: 0 <= i < |out| ==> at[i] < |buckets| && out[i] == buckets[at[i]])
            && (forall i, j :: 0 <= i < j < |at| ==> at[i] < at[j])
            && (forall k: nat :: k < |buckets| ==>
                  (k in at <==>
                    && (q.name != "" ==> buckets[k].name == q.name)
                    && (q.from.Some? ==> buckets[k].windowEnd >= q.from.value)
                    && (q.to.Some? ==> buckets[k].windowStart <= q.to.value)))
  {
    MatchingInOrder(buckets, q);
  }

  /** One Store call. */
  datatype Call = Call(m: AggregatedMetric, now: int)

  /** Everything ever handed to Store. */
  function Handed(calls: seq<Call>): (ms: seq<AggregatedMetric>)
    ensures |ms| == |calls|
  {
    seq(|calls|, i requires 0 <= i < |calls| => calls[i].m)
  }

  /** The buckets after a sequence of Store calls. */
  function After(max: int, ttl: int, calls: seq<Call>): seq<AggregatedMetric>
    requires max >= 1
  {
    if calls == [] then []
    else
      var n := |calls| - 1;
      Stored(After(max, ttl, calls[..n]), max, ttl, calls[n].m, calls[n].now)
  }

  /** `part` is the end of `whole`. */
  predicate IsSuffix<T(==)>(part: seq<T>, whole: seq<T>) {
    |part| <= |whole| && whole[|whole| - |part|..] == part
  }

  lemma {:induction false} DropStaleIs(buckets: seq<AggregatedMetric>, cutoff: int)
    ensures IsSuffix(DropStale(buckets, cutoff), buckets)
    ensures var kept := DropStale(buckets, cutoff); kept != [] ==> kept[0].windowEnd >= cutoff
  {
    if buckets != [] && buckets[0].windowEnd < cutoff {
      DropStaleIs(buckets[1..], cutoff);
    }
  }

  lemma SuffixSnoc<T>(part: seq<T>, whole: seq<T>, x: T)
    requires IsSuffix(part, whole)
    ensures IsSuffix(part + [x], whole + [x])
  {
  }

  lemma StoredIs(buckets: seq<AggregatedMetric>, max: int, ttl: int, m: AggregatedMetric, now: int)
    requires max >= 1
    ensures var after := Stored(buckets, max, ttl, m, now);
            && IsSuffix(after, buckets + [m])
            && 1 <= |after|
            && (|buckets| <= max ==> |after| <= max)
            && after[|after| - 1] == m
  {
    DropStaleIs(buckets, now - ttl);
    var kept := if ttl > 0 then DropStale(buckets, now - ttl) else buckets;
    var rest := if |kept| >= max then kept[1..] else kept;
    assert IsSuffix(rest, buckets);
    SuffixSnoc(rest, buckets, m);
  }

  /**
   * Exactly what a Store keeps: of the buckets from the first one that is not stale on, all but the first if they fill
   * the
   * capacity, and the new one behind them.
   */
  lemma {:induction false} StoreEffect(buckets: seq<AggregatedMetric>, max: int, ttl: int, m: AggregatedMetric,
                                       now: int, k: nat)
    requires max >= 1 && k <= |buckets| && (ttl <= 0 ==> k == 0)
    requires forall j :: 0 <= j < k ==> buckets[j].windowEnd < now - ttl
    requires ttl > 0 && k < |buckets| ==> buckets[k].windowEnd >= now - ttl
    ensures Stored(buckets, max, ttl, m, now) ==
            (if |buckets| - k >= max then buckets[k + 1..] else buckets[k..]) + [m]
  {
    if k == 0 {
      assert buckets[0..] == buckets;
    } else {
      StoreEffect(buckets[1..], max, ttl, m, now, k - 1);
      assert buckets[1..][k - 1..] == buckets[k..];
      assert |buckets| - k >= max ==> buckets[1..][k..] == buckets[k + 1..];
    }
  }

  /** Without a time to live the buckets are the last `max` windows handed over, or all if there are fewer. */
  lemma {:induction false} LastWindowsKept(max: int, ttl: int, calls: seq<Call>)
    requires max >= 1 && ttl <= 0
    ensures After(max, ttl, calls) == Handed(calls)[if |calls| > max then |calls| - max else 0..]
  {
    if calls != [] {
      var n := |calls| - 1;
      LastWindowsKept(max, ttl, calls[..n]);
      StoreEffect(After(max, ttl, calls[..n]), max, ttl, calls[n].m, calls[n].now, 0);
      assert Handed(calls) == Handed(calls[..n]) + [calls[n].m];
    }
  }

  /** The buckets are always the most recent part of the Store history, at most `max` of them. */
  lemma {:induction false} BucketsAreRecentHistory(max: int, ttl: int, calls: seq<Call>)
    requires max >= 1
    ensures IsSuffix(After(max, ttl, calls), Handed(calls)) && |After(max, ttl, calls)| <= max
  {
    if calls != [] {
      var n := |calls| - 1;
      var before := After(max, ttl, calls[..n]);
      BucketsAreRecentHistory(max, ttl, calls[..n]);
      StoredIs(before, max, ttl, calls[n].m, calls[n].now);
      assert Handed(calls) == Handed(calls[..n]) + [calls[n].m];
      SuffixSnoc(before, Handed(calls[..n]), calls[n].m);
      var after := After(max, ttl, calls);
      assert (before + [calls[n].m])[|before| + 1 - |after|..] == after;
    }
  }

  /** Windows arrive in the order of their ends. */
  ghost predicate EndsOrdered(ms: seq<AggregatedMetric>) {
    forall i, j :: 0 <= i < j < |ms| ==> ms[i].windowEnd <= ms[j].windowEnd
  }

  /** No window ends before the cutoff. */
  ghost predicate NoneOlder(ms: seq<AggregatedMetric>, cutoff: int) {
    forall i :: 0 <= i < |ms| ==> ms[i].windowEnd >= cutoff
  }

  lemma OrderedPrefix(calls: seq<Call>)
    requires calls != [] && EndsOrdered(Handed(calls))
    ensures EndsOrdered(Handed(calls[..|calls| - 1]))
  {
    assert Handed(calls[..|calls| - 1]) == Handed(calls)[..|calls| - 1];
  }

  lemma SuffixTransitive<T>(a: seq<T>, b: seq<T>, c: seq<T>)
    requires IsSuffix(a, b) && IsSuffix(b, c)
    ensures IsSuffix(a, c)
  {
  }

  /** If the first window of an ordered suffix is recent enough, all are. */
  lemma OrderedSuffixRecent(kept: seq<AggregatedMetric>, whole: seq<AggregatedMetric>, cutoff: int)
    requires IsSuffix(kept, whole) && EndsOrdered(whole) && (kept != [] ==> kept[0].windowEnd >= cutoff)
    ensures NoneOlder(kept, cutoff)
  {
    var d := |whole| - |kept|;
    assert forall i :: 0 <= i < |kept| ==> kept[i] == whole[d + i];
  }

  lemma StoredKeepsRecent(buckets: seq<AggregatedMetric>, max: int, ttl: int, m: AggregatedMetric, now: int)
    requires max >= 1 && ttl > 0
    requires NoneOlder(DropStale(buckets, now - ttl), now - ttl)
    ensures var after := Stored(buckets, max, ttl, m, now); after != [] && NoneOlder(after[..|after| - 1], now - ttl)
  {
    var kept := DropStale(buckets, now - ttl);
    var rest := if |kept| >= max then kept[1..] else kept;
    var after := Stored(buckets, max, ttl, m, now);
    assert after[..|after| - 1] == rest;
    if |kept| >= max {
      assert forall i :: 0 <= i < |rest| ==> rest[i] == kept[i + 1];
    }
  }

  /**
   * With ordered window ends, no bucket retained by a Store, other than the one it stores, is older than its cutoff.
   */
  lemma NoStaleBucketRetained(max: int, ttl: int, calls: seq<Call>)
    requires max >= 1 && ttl > 0 && calls != [] && EndsOrdered(Handed(calls))
    ensures var after := After(max, ttl, calls);
            after != [] && NoneOlder(after[..|after| - 1], calls[|calls| - 1].now - ttl)
  {
    var n := |calls| - 1;
    var before, cutoff := After(max, ttl, calls[..n]), calls[n].now - ttl;
    var kept := DropStale(before, cutoff);
    BucketsAreRecentHistory(max, ttl, calls[..n]);
    DropStaleIs(before, cutoff);
    OrderedPrefix(calls);
    SuffixTransitive(kept, before, Handed(calls[..n]));
    OrderedSuffixRecent(kept, Handed(calls[..n]), cutoff);
    StoredKeepsRecent(before, max, ttl, calls[n].m, calls[n].now);
  }

  /** Exactly which buckets are freed of every stale one, whatever the cutoff: those in the order of their ends. */
  lemma DropStaleCompleteIff(buckets: seq<AggregatedMetric>)
    ensures (forall cutoff :: NoneOlder(DropStale(buckets, cutoff), cutoff)) <==> EndsOrdered(buckets)
  {
    if EndsOrdered(buckets) {
      forall cutoff ensures NoneOlder(DropStale(buckets, cutoff), cutoff) {
        DropStaleOrdered(buckets, cutoff);
      }
    } else {
      var i, j :| 0 <= i < j < |buckets| && buckets[i].windowEnd > buckets[j].windowEnd;
      DropStaleStops(buckets, buckets[i].windowEnd, i, j);
      assert !NoneOlder(DropStale(buckets, buckets[i].windowEnd), buckets[i].windowEnd);
    }
  }

  lemma DropStaleOrdered(buckets: seq<AggregatedMetric>, cutoff: int)
    requires EndsOrdered(buckets)
    ensures NoneOlder(DropStale(buckets, cutoff), cutoff)
  {
    DropStaleIs(buckets, cutoff);
    OrderedSuffixRecent(DropStale(buckets, cutoff), buckets, cutoff);
  }

  /** A bucket that is not stale protects every bucket behind it. */
  lemma {:induction false} DropStaleStops(buckets: seq<AggregatedMetric>, cutoff: int, i: nat, j: nat)
    requires i < j < |buckets| && buckets[i].windowEnd >= cutoff
    ensures exists k :: 1 <= k < |DropStale(buckets, cutoff)| && DropStale(buckets, cutoff)[k] == buckets[j]
  {
    var kept := DropStale(buckets, cutoff);
    if i > 0 && buckets[0].windowEnd < cutoff {
      DropStaleStops(buckets[1..], cutoff, i - 1, j - 1);
      assert kept == DropStale(buckets[1..], cutoff);
      var k :| 1 <= k < |kept| && kept[k] == buckets[1..][j - 1];
    } else {
      assert kept == buckets && kept[j] == buckets[j];
    }
  }

  /** A Store keeps no bucket, other than the one it stores, that is older than its cutoff. */
  ghost predicate OnlyRecentKept(buckets: seq<AggregatedMetric>, max: int, ttl: int, m: AggregatedMetric, now: int)
    requires max >= 1
  {
    var after := Stored(buckets, max, ttl, m, now);
    NoneOlder(after[..|after| - 1], now - ttl)
  }

  /**
   * The same for a Store call: it leaves no stale bucket behind the new one, whatever the time to live and the clock,
   * exactly if the buckets were in the order of their ends.
   */
  lemma StoreLeavesNoStaleIff(buckets: seq<AggregatedMetric>, max: int, m: AggregatedMetric)
    requires 1 <= max && |buckets| <= max
    ensures (forall ttl, now :: ttl > 0 ==> OnlyRecentKept(buckets, max, ttl, m, now)) <==> EndsOrdered(buckets)
  {
    if EndsOrdered(buckets) {
      forall ttl, now | ttl > 0 ensures OnlyRecentKept(buckets, max, ttl, m, now) {
        DropStaleOrdered(buckets, now - ttl);
        StoredKeepsRecent(buckets, max, ttl, m, now);
      }
    } else {
      var i, j :| 0 <= i < j < |buckets| && buckets[i].windowEnd > buckets[j].windowEnd;
      StaleStays(buckets, max, m, i, j);
    }
  }

  lemma StaleStays(buckets: seq<AggregatedMetric>, max: int, m: AggregatedMetric, i: nat, j: nat)
    requires 1 <= max && i < j < |buckets| && buckets[i].windowEnd > buckets[j].windowEnd
    ensures !OnlyRecentKept(buckets, max, 1, m, buckets[i].windowEnd + 1)
  {
    var cutoff := buckets[i].windowEnd;
    var kept, after := DropStale(buckets, cutoff), Stored(buckets, max, 1, m, cutoff + 1);
    DropStaleStops(buckets, cutoff, i, j);
    var k :| 1 <= k < |kept| && kept[k] == buckets[j];
    var rest := after[..|after| - 1];
    assert rest == if |kept| >= max then kept[1..] else kept;
    assert rest[if |kept| >= max then k - 1 else k] == buckets[j];
  }

  /** The order matters: a stale window behind a fresh one survives the next Store. */
  lemma StaleBucketCanSurvive()
    ensures var recent := AggregatedMetric("a", 1, 0.0, 0.0, 0.0, 0, 100, map[]);
            var stale := recent.(windowEnd := 1);
            After(10, 5, [Call(recent, 100), Call(stale, 100), Call(recent, 100)]) == [recent, stale, recent]
  {
    var recent := AggregatedMetric("a", 1, 0.0, 0.0, 0.0, 0, 100, map[]);
    var stale := recent.(windowEnd := 1);
    var calls := [Call(recent, 100), Call(stale, 100), Call(recent, 100)];
    assert calls[..2] == [Call(recent, 100), Call(stale, 100)] && calls[..2][..1] == [Call(recent, 100)]
           && calls[..2][..1][..0] == [];
    assert After(10, 5, calls[..2][..1]) == [recent];
    assert After(10, 5, calls[..2]) == [recent, stale];
  }
}
