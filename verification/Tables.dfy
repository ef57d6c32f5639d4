/** The capped metric table: the live metrics, their insertion order, and eviction (registry.go). */
module Tables {
  import opened Base
  import opened Metrics

  datatype Table = Table(metrics: map<string, MetricValue>, order: seq<string>)

  /** The cap on live metrics and the idle time after which a metric may be evicted first. */
  datatype Limits = Limits(maxMetrics: int, ttl: int)

  /** Recorded at least once, and not for longer than the time to live. */
  predicate Idle(m: MetricValue, now: int, ttl: int) {
    m.data.last != 0 && now - m.data.last > ttl
  }

  predicate IdleAt(t: Table, i: nat, now: int, ttl: int) {
    i < |t.order| && t.order[i] in t.metrics && Idle(t.metrics[t.order[i]], now, ttl)
  }

  /** The first position from `i` on that holds an idle metric, or the length of the order. */
  function FirstIdle(t: Table, now: int, ttl: int, i: nat): (k: nat)
    requires i <= |t.order|
    ensures i <= k <= |t.order|
    ensures k < |t.order| ==> IdleAt(t, k, now, ttl)
    ensures forall j :: i <= j < k ==> !IdleAt(t, j, now, ttl)
    decreases |t.order| - i
  {
    if i == |t.order| || IdleAt(t, i, now, ttl) then i else FirstIdle(t, now, ttl, i + 1)
  }

  /** The position eviction removes: the first idle metric, or the head. */
  function Victim(t: Table, now: int, ttl: int): (i: nat)
    requires t.order != []
    ensures i < |t.order|
  {
    var k := FirstIdle(t, now, ttl, 0);
    if k < |t.order| then k else 0
  }

  function Evicted(t: Table, now: int, ttl: int): Table {
    if t.order == [] then t
    else
      var i := Victim(t, now, ttl);
      Table(t.metrics - {t.order[i]}, Without(t.order, i))
  }

  /** Makes room when the cap is reached. */
  function WithRoom(t: Table, lim: Limits, now: int): Table {
    if |t.metrics| >= lim.maxMetrics then Evicted(t, now, lim.ttl) else t
  }

  /** The write-locked part of a registration. */
  function Inserted(t: Table, lim: Limits, name: string, m: MetricValue, now: int): Table {
    var room := WithRoom(t, lim, now);
    Table(room.metrics[name := m], room.order + [name])
  }

  /** A registration as one step: an existing metric stays as it is. */
  function Registered(t: Table, lim: Limits, name: string, m: MetricValue, now: int): Table {
    if name in t.metrics then t else Inserted(t, lim, name, m, now)
  }

  const REQUESTS: string := "http_requests_total"
  const ERRORS: string := "http_request_errors_total"
  const DURATION: string := "http_request_duration_seconds"

  function Appended(t: Table, name: string, m: MetricValue): Table {
    Table(t.metrics[name := m], t.order + [name])
  }

  /** The table of a new registry: three metrics, registered without a look at the cap. */
  function InitialTable(): Table {
    var requests := Created(REQUESTS, Counter, "Total HTTP requests", ["method", "path", "status"], [], 0.0, 0.0);
    var errors := Created(ERRORS, Counter, "HTTP errors (status >= 400)", ["method", "path"], [], 0.0, 0.0);
    var duration := Created(DURATION, Histogram, "HTTP request latency", ["method", "path"], DEFAULT_BOUNDS, 0.0, 0.0);
    Appended(Appended(Appended(Table(map[], []), REQUESTS, requests), ERRORS, errors), DURATION, duration)
  }

  /** The largest number of live metrics: the cap, but never fewer than the three initial ones. */
  function Capacity(lim: Limits): int {
    Max(3, lim.maxMetrics)
  }

  /** The order lists exactly the live metrics, each once, and there are not too many of them. */
  ghost predicate Inv(t: Table, lim: Limits) {
    && NoDup(t.order)
    && Elements(t.order) == t.metrics.Keys
    && |t.metrics| <= Capacity(lim)
  }

  /** Each metric is filed under its own name and has its own counters. */
  ghost predicate Filed(t: Table) {
    forall name :: name in t.metrics ==> t.metrics[name].def.name == name && WellFormed(t.metrics[name])
  }

  lemma NamesDiffer()
    ensures REQUESTS != ERRORS && REQUESTS != DURATION && ERRORS != DURATION
  {
    assert |REQUESTS| == 19 && |ERRORS| == 25 && |DURATION| == 29;
  }

  lemma AppendedListing(t: Table, name: string, m: MetricValue)
    requires NoDup(t.order) && Elements(t.order) == t.metrics.Keys && Filed(t)
    requires name !in t.metrics && m.def.name == name && WellFormed(m)
    ensures var t' := Appended(t, name, m);
            NoDup(t'.order) && Elements(t'.order) == t'.metrics.Keys && Filed(t') && |t'.metrics| == |t.metrics| + 1
  {
    NoDupSnoc(t.order, name);
    assert Appended(t, name, m).metrics.Keys == t.metrics.Keys + {name};
  }

  /** Three metrics with different names make a consistent table. */
  lemma ThreeListed(m1: MetricValue, m2: MetricValue, m3: MetricValue)
    requires WellFormed(m1) && WellFormed(m2) && WellFormed(m3)
    requires m1.def.name != m2.def.name && m1.def.name != m3.def.name && m2.def.name != m3.def.name
    ensures var t := Appended(Appended(Appended(Table(map[], []), m1.def.name, m1), m2.def.name, m2), m3.def.name, m3);
            && NoDup(t.order) && Elements(t.order) == t.metrics.Keys && Filed(t)
            && |t.metrics| == 3 && t.order == [m1.def.name, m2.def.name, m3.def.name]
  {
    var t1 := Appended(Table(map[], []), m1.def.name, m1);
    var t2 := Appended(t1, m2.def.name, m2);
    AppendedListing(Table(map[], []), m1.def.name, m1);
    AppendedListing(t1, m2.def.name, m2);
    AppendedListing(t2, m3.def.name, m3);
  }

  /** A new registry is consistent. */
  lemma InitialInv(lim: Limits)
    ensures Inv(InitialTable(), lim) && Filed(InitialTable())
    ensures InitialTable().order == [REQUESTS, ERRORS, DURATION]
  {
    NamesDiffer();
    ThreeListed(Created(REQUESTS, Counter, "Total HTTP requests", ["method", "path", "status"], [], 0.0, 0.0),
                Created(ERRORS, Counter, "HTTP errors (status >= 400)", ["method", "path"], [], 0.0, 0.0),
                Created(DURATION, Histogram, "HTTP request latency", ["method", "path"], DEFAULT_BOUNDS, 0.0, 0.0));
  }

  /** The earliest-inserted metric last recorded longer ago than the time to live goes, and nothing else. */
  lemma EvictionTakesFirstIdle(t: Table, now: int, ttl: int, i: nat)
    requires i < |t.order| && t.order[i] in t.metrics
    requires var last := t.metrics[t.order[i]].data.last; last != 0 && now - last > ttl
    requires forall j :: 0 <= j < i && t.order[j] in t.metrics ==>
               var last := t.metrics[t.order[j]].data.last; last == 0 || now - last <= ttl
    ensures Evicted(t, now, ttl) == Table(t.metrics - {t.order[i]}, t.order[..i] + t.order[i + 1..])
  {
    assert IdleAt(t, i, now, ttl);
    assert forall j :: 0 <= j < i ==> !IdleAt(t, j, now, ttl);
  }

  /** If there is none, the head goes. */
  lemma EvictionTakesHead(t: Table, now: int, ttl: int)
    requires t.order != []
    requires forall j :: 0 <= j < |t.order| && t.order[j] in t.metrics ==>
               var last := t.metrics[t.order[j]].data.last; last == 0 || now - last <= ttl
    ensures Evicted(t, now, ttl) == Table(t.metrics - {t.order[0]}, t.order[1..])
  {
    assert forall j :: 0 <= j < |t.order| ==> !IdleAt(t, j, now, ttl);
    assert Without(t.order, 0) == t.order[1..];
  }

  /** A registration leaves a known name's metric alone, evicts only at the cap, and files the new metric last. */
  lemma RegistrationEffect(t: Table, lim: Limits, name: string, m: MetricValue, now: int)
    ensures var t' := Registered(t, lim, name, m, now);
            && (name in t.metrics ==> t' == t)
            && (name !in t.metrics && |t.metrics| < lim.maxMetrics ==>
                  t' == Table(t.metrics[name := m], t.order + [name]))
            && (name !in t.metrics && |t.metrics| >= lim.maxMetrics ==>
                  var room := Evicted(t, now, lim.ttl);
                  t' == Table(room.metrics[name := m], room.order + [name]))
  {
  }

  /** Removing one position of a duplicate-free list removes exactly one element and keeps the others in order. */
  lemma {:induction false} WithoutIs<T>(s: seq<T>, i: nat)
    requires i < |s| && NoDup(s)
    ensures NoDup(Without(s, i)) && Elements(Without(s, i)) == Elements(s) - {s[i]}
  {
    var r := Without(s, i);
    forall j, k | 0 <= j < k < |r| ensures r[j] != r[k] {
      assert r[j] == s[if j < i then j else j + 1] && r[k] == s[if k < i then k else k + 1];
    }
    forall x | x in Elements(s) - {s[i]} ensures x in r {
      var j :| 0 <= j < |s| && s[j] == x;
      assert r[if j < i then j else j - 1] == x;
    }
  }

  /** Eviction from a consistent table removes exactly the victim, and leaves the table consistent. */
  lemma EvictedInv(t: Table, lim: Limits, now: int)
    requires Inv(t, lim) && t.order != []
    ensures var victim := t.order[Victim(t, now, lim.ttl)];
            var t' := Evicted(t, now, lim.ttl);
            && victim in t.metrics
            && t'.metrics == t.metrics - {victim}
            && |t'.metrics| == |t.metrics| - 1
            && NoDup(t'.order) && Elements(t'.order) == t'.metrics.Keys
  {
    var i := Victim(t, now, lim.ttl);
    WithoutIs(t.order, i);
    assert t.order[i] in Elements(t.order);
    assert Evicted(t, now, lim.ttl).metrics.Keys == t.metrics.Keys - {t.order[i]};
  }

  /** Making room keeps the table consistent and leaves space for one more metric. */
  lemma RoomInv(t: Table, lim: Limits, now: int)
    requires Inv(t, lim)
    ensures var room := WithRoom(t, lim, now);
            && NoDup(room.order) && Elements(room.order) == room.metrics.Keys
            && room.metrics.Keys <= t.metrics.Keys && |room.metrics| < Capacity(lim)
  {
    if t.order == [] {
      assert t.metrics.Keys == {};
    } else if |t.metrics| >= lim.maxMetrics {
      EvictedInv(t, lim, now);
    }
  }

  /** A registration in one step keeps the table consistent and within its capacity. */
  lemma RegisteredInv(t: Table, lim: Limits, name: string, m: MetricValue, now: int)
    requires Inv(t, lim)
    ensures Inv(Registered(t, lim, name, m, now), lim)
    ensures name in Registered(t, lim, name, m, now).metrics
  {
    if name !in t.metrics {
      var room := WithRoom(t, lim, now);
      RoomInv(t, lim, now);
      NoDupSnoc(room.order, name);
      assert room.metrics[name := m].Keys == room.metrics.Keys + {name};
    }
  }

  /** One row per live metric, in the order of the list. */
  function SnapshotsOf(t: Table): seq<MetricSnapshot>
    requires Filed(t)
  {
    Rows(t, t.order)
  }

  function Rows(t: Table, names: seq<string>): seq<MetricSnapshot>
    requires Filed(t)
  {
    if names == [] then []
    else
      var n := |names| - 1;
      Rows(t, names[..n]) + if names[n] in t.metrics then [SnapshotOf(t.metrics[names[n]])] else []
  }

  /** A consistent table lists every live metric exactly once, in insertion order. */
  lemma SnapshotsListEachOnce(t: Table, lim: Limits)
    requires Inv(t, lim) && Filed(t)
    ensures var rows := SnapshotsOf(t);
            && |rows| == |t.order| == |t.metrics|
            && forall i :: 0 <= i < |rows| ==>
               t.order[i] in t.metrics && rows[i] == SnapshotOf(t.metrics[t.order[i]]) && rows[i].name == t.order[i]
  {
    assert forall i :: 0 <= i < |t.order| ==> t.order[i] in Elements(t.order);
    RowsAre(t, t.order);
    NoDupSize(t.order);
    assert |t.metrics| == |t.metrics.Keys|;
  }

  lemma {:induction false} RowsAre(t: Table, names: seq<string>)
    requires Filed(t) && forall i :: 0 <= i < |names| ==> names[i] in t.metrics
    ensures |Rows(t, names)| == |names|
    ensures forall i :: 0 <= i < |names| ==> Rows(t, names)[i] == SnapshotOf(t.metrics[names[i]])
  {
    if names != [] {
      var n := |names| - 1;
      RowsAre(t, names[..n]);
      assert Rows(t, names) == Rows(t, names[..n]) + [SnapshotOf(t.metrics[names[n]])];
    }
  }

  // ---- Recency ----

  /** Every listed name is live. */
  ghost predicate AllLive(t: Table) {
    forall i :: 0 <= i < |t.order| ==> t.order[i] in t.metrics
  }

  function LastAt(t: Table, i: nat): int
    requires AllLive(t) && i < |t.order|
  {
    t.metrics[t.order[i]].data.last
  }

  /** No metric was recorded longer ago; one never recorded, whose time is zero, counts as the oldest. */
  ghost predicate LeastRecent(t: Table, i: nat)
    requires AllLive(t) && i < |t.order|
  {
    forall j :: 0 <= j < |t.order| ==> LastAt(t, i) <= LastAt(t, j)
  }

  /** Some metric is the least recently recorded one. */
  lemma {:induction false} SomeLeastRecent(t: Table, n: nat) returns (i: nat)
    requires AllLive(t) && 0 < n <= |t.order|
    ensures i < n && forall j :: 0 <= j < n ==> LastAt(t, i) <= LastAt(t, j)
  {
    if n == 1 {
      i := 0;
    } else {
      i := SomeLeastRecent(t, n - 1);
      if LastAt(t, n - 1) < LastAt(t, i) {
        i := n - 1;
      }
    }
  }

  /** The eviction at this time, under this time to live, removes a least recently recorded metric. */
  ghost predicate EvictsLeastRecent(t: Table, now: int, ttl: int)
    requires AllLive(t) && t.order != []
  {
    LeastRecent(t, Victim(t, now, ttl))
  }

  /**
   * Exactly which tables are evicted by least recent use, whatever the time and the time to live: those whose head is
   * least recent, and recorded unless nothing is.
   */
  lemma EvictionIsLeastRecentIff(t: Table)
    requires AllLive(t) && t.order != []
    ensures (forall now, ttl :: EvictsLeastRecent(t, now, ttl)) <==>
            LeastRecent(t, 0) && (LastAt(t, 0) != 0 || forall j :: 0 <= j < |t.order| ==> LastAt(t, j) == 0)
  {
    if LeastRecent(t, 0) && (LastAt(t, 0) != 0 || forall j :: 0 <= j < |t.order| ==> LastAt(t, j) == 0) {
      forall now, ttl ensures EvictsLeastRecent(t, now, ttl) {
        HeadGoes(t, now, ttl);
      }
    }
    if forall now, ttl :: EvictsLeastRecent(t, now, ttl) {
      var oldest := SomeLeastRecent(t, |t.order|);
      NothingIdle(t, LastAt(t, oldest));
      assert EvictsLeastRecent(t, LastAt(t, oldest), 0);
      forall j | 0 <= j < |t.order| && LastAt(t, 0) == 0 ensures LastAt(t, j) == 0 {
        var idle := IdleAt(t, j, LastAt(t, j) + 1, 0);
        assert EvictsLeastRecent(t, LastAt(t, j) + 1, 0);
      }
    }
  }

  /** A head that is least recent and recorded is idle whenever anything is. */
  lemma HeadGoes(t: Table, now: int, ttl: int)
    requires AllLive(t) && t.order != [] && LeastRecent(t, 0)
    requires LastAt(t, 0) != 0 || forall j :: 0 <= j < |t.order| ==> LastAt(t, j) == 0
    ensures Victim(t, now, ttl) == 0
  {
    forall k | 0 <= k < |t.order| && IdleAt(t, k, now, ttl) ensures IdleAt(t, 0, now, ttl) {
      assert LastAt(t, 0) <= LastAt(t, k);
    }
  }

  /** As of the time of the oldest recording nothing is idle, so the head goes. */
  lemma NothingIdle(t: Table, now: int)
    requires AllLive(t) && t.order != [] && forall j :: 0 <= j < |t.order| ==> now <= LastAt(t, j)
    ensures Victim(t, now, 0) == 0
  {
    forall j | 0 <= j < |t.order| ensures !IdleAt(t, j, now, 0) {
      assert now <= LastAt(t, j);
    }
  }

  /** A sample of one recorded into a live metric. */
  function RecordedIn(t: Table, name: string, now: int): (r: Table)
    requires Filed(t) && name in t.metrics
    ensures Filed(r) && r.order == t.order && r.metrics.Keys == t.metrics.Keys
    ensures r.metrics[name].data.last == now
    ensures forall n :: n in t.metrics && n != name ==> r.metrics[n] == t.metrics[n]
  {
    t.(metrics := t.metrics[name := Recorded(t.metrics[name], 1.0, now)])
  }

  /** With a cap of three, three metrics recorded within the time to live lose the head to a fourth. */
  lemma HeadMakesRoom(t: Table, a: string, b: string, c: string, name: string, m: MetricValue, now: int, ttl: int)
    requires t.order == [a, b, c] && t.metrics.Keys == {a, b, c} && |t.metrics| == 3 && name !in t.metrics
    requires forall n :: n in t.metrics ==> now - t.metrics[n].data.last <= ttl
    ensures Registered(t, Limits(3, ttl), name, m, now).order == [b, c, name]
  {
    assert Victim(t, now, ttl) == 0;
    assert [b, c] + [name] == [b, c, name];
  }

  lemma ThreeRecorded(t0: Table, a: string, b: string, c: string, name: string, m: MetricValue)
    requires Filed(t0) && t0.order == [a, b, c] && t0.metrics.Keys == {a, b, c} && |t0.metrics| == 3
    requires a != b && a != c && b != c && name !in t0.metrics
    ensures var t := RecordedIn(RecordedIn(RecordedIn(t0, b, 10), c, 15), a, 20);
            && t.metrics[b].data.last < t.metrics[c].data.last < t.metrics[a].data.last
            && Registered(t, Limits(3, 100), name, m, 25).order == [b, c, name]
  {
    var t1 := RecordedIn(t0, b, 10);
    var t2 := RecordedIn(t1, c, 15);
    var t := RecordedIn(t2, a, 20);
    assert |t.metrics| == |t.metrics.Keys| == |t0.metrics.Keys| == |t0.metrics|;
    assert t.metrics[b] == t2.metrics[b] == t1.metrics[b] && t.metrics[c] == t2.metrics[c];
    forall n | n in t.metrics ensures 25 - t.metrics[n].data.last <= 100 {
      assert n in {a, b, c};
    }
    HeadMakesRoom(t, a, b, c, name, m, 25, 100);
  }

  /** The metrics of a new registry. */
  lemma InitialNames()
    ensures Filed(InitialTable()) && InitialTable().order == [REQUESTS, ERRORS, DURATION]
    ensures InitialTable().metrics.Keys == {REQUESTS, ERRORS, DURATION} && |InitialTable().metrics| == 3
  {
    InitialInv(Limits(3, 0));
    NoDupSize(InitialTable().order);
    assert |InitialTable().metrics| == |InitialTable().metrics.Keys|;
    ElementsOfThree(REQUESTS, ERRORS, DURATION);
  }

  /** What a new registry measures: requests and errors as counters, durations as a histogram with these bounds. */
  lemma InitialMetrics()
    ensures InitialTable().metrics.Keys == {REQUESTS, ERRORS, DURATION}
    ensures InitialTable().metrics[REQUESTS].def.kind == Counter && InitialTable().metrics[ERRORS].def.kind == Counter
    ensures InitialTable().metrics[DURATION].def.kind == Histogram
    ensures InitialTable().metrics[DURATION].def.bounds ==
            [0.005, 0.01, 0.025, 0.05, 0.1, 0.25, 0.5, 1.0, 2.5, 5.0, 10.0]
  {
    NamesDiffer();
    InitialNames();
  }

  lemma ElementsOfThree(a: string, b: string, c: string)
    ensures Elements([a, b, c]) == {a, b, c}
  {
    var s := [a, b, c];
    assert s[0] in Elements(s) && s[1] in Elements(s) && s[2] in Elements(s);
  }

  /**
   * Eviction is not by least recent use, whatever its comment says: in a new registry with a cap of three the three
   * metrics are recorded, the requests last; a fourth name then drops the requests, though nothing is idle.
   */
  lemma EvictionIsNotLeastRecentlyUsed(name: string, m: MetricValue)
    requires name !in {REQUESTS, ERRORS, DURATION}
    ensures InitialTable().metrics.Keys == {REQUESTS, ERRORS, DURATION} && Filed(InitialTable())
    ensures var t := RecordedIn(RecordedIn(RecordedIn(InitialTable(), ERRORS, 10), DURATION, 15), REQUESTS, 20);
            && t.metrics[ERRORS].data.last < t.metrics[DURATION].data.last < t.metrics[REQUESTS].data.last
            && Registered(t, Limits(3, 100), name, m, 25).order == [ERRORS, DURATION, name]
  {
    NamesDiffer();
    InitialNames();
    ThreeRecorded(InitialTable(), REQUESTS, ERRORS, DURATION, name, m);
  }
}
