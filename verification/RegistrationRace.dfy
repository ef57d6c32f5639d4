/**
 * Registration as it really runs (registry.go): Register looks the name up under the read lock, releases it, and
 * inserts later under the write lock without looking again. Between the two, other registrations and the ingestion
 * loop may change the table.
 */
module RegistrationRace {
  import opened Base
  import opened Metrics
  import opened Tables

  /**
   * The table; the names whose lookup failed and whose insert is still to come; how many inserts found their name
   * present after all; how many evictions dropped a head that no live metric answered to.
   */
  datatype State = State(t: Table, pending: multiset<string>, repeats: nat, staleDrops: nat)

  datatype Event =
    | Check(name: string)                                // Register, read-locked half
    | Insert(name: string, m: MetricValue, now: int)     // Register, write-locked half
    | Ingest(name: string, m: MetricValue, now: int)     // process: lookup and insert under one write lock
    | Touch(name: string, m: MetricValue)                // any recording into a live metric

  predicate Enabled(s: State, e: Event) {
    match e
    case Check(_) => true
    case Insert(name, _, _) => name in s.pending
    case Ingest(_, _, _) => true
    case Touch(name, _) => name in s.t.metrics
  }

  /** Eviction takes place and removes a list entry that belongs to no live metric. */
  predicate DropsStale(t: Table, lim: Limits, now: int) {
    && |t.metrics| >= lim.maxMetrics
    && t.order != []
    && t.order[Victim(t, now, lim.ttl)] !in t.metrics
  }

  function Add(s: State, lim: Limits, name: string, m: MetricValue, now: int): State {
    s.(t := Inserted(s.t, lim, name, m, now),
       repeats := s.repeats + (if name in WithRoom(s.t, lim, now).metrics then 1 else 0),
       staleDrops := s.staleDrops + (if DropsStale(s.t, lim, now) then 1 else 0))
  }

  /** One step; an event that is not enabled does not happen. */
  function Step(lim: Limits, s: State, e: Event): State {
    if !Enabled(s, e) then s else
    match e
    case Check(name) => if name in s.t.metrics then s else s.(pending := s.pending + multiset{name})
    case Insert(name, m, now) => Add(s.(pending := s.pending - multiset{name}), lim, name, m, now)
    case Ingest(name, m, now) => if name in s.t.metrics then s else Add(s, lim, name, m, now)
    case Touch(name, m) => s.(t := s.t.(metrics := s.t.metrics[name := m]))
  }

  function Init(): State {
    State(InitialTable(), multiset{}, 0, 0)
  }

  /** The state after a sequence of events: every reachable state is of this form. */
  function After(lim: Limits, events: seq<Event>): State {
    if events == [] then Init() else Step(lim, After(lim, events[..|events| - 1]), events[|events| - 1])
  }

  /**
   * What survives the race: every live name is listed; the surplus of the list over the live metrics is exactly the
   * repeated inserts less the stale drops; and the list is longer than the capacity by no more than the repeats.
   */
  ghost predicate Inv(lim: Limits, s: State) {
    && s.t.metrics.Keys <= Elements(s.t.order)
    && |s.t.order| - |s.t.metrics| == s.repeats - s.staleDrops
    && |s.t.order| <= Capacity(lim) + s.repeats
  }

  lemma LiveAtMostListed(t: Table)
    requires t.metrics.Keys <= Elements(t.order)
    ensures |t.metrics| <= |t.order|
  {
    SubsetSize(t.metrics.Keys, Elements(t.order));
    NoDupSize(t.order);
  }

  /** Eviction removes one list entry and, unless it was stale, one live metric; the other live names stay listed. */
  lemma EvictedShape(t: Table, lim: Limits, now: int)
    requires t.metrics.Keys <= Elements(t.order) && t.order != []
    ensures var t' := Evicted(t, now, lim.ttl);
            var victim := t.order[Victim(t, now, lim.ttl)];
            && |t'.order| == |t.order| - 1
            && |t'.metrics| == |t.metrics| - (if victim in t.metrics then 1 else 0)
            && t'.metrics.Keys <= Elements(t'.order)
  {
    var i := Victim(t, now, lim.ttl);
    var t' := Evicted(t, now, lim.ttl);
    assert t'.metrics.Keys == t.metrics.Keys - {t.order[i]};
    forall name | name in t'.metrics ensures name in Elements(t'.order) {
      assert name in Elements(t.order);
      var j :| 0 <= j < |t.order| && t.order[j] == name;
      assert t'.order[if j < i then j else j - 1] == name;
    }
  }

  lemma RoomShape(t: Table, lim: Limits, now: int)
    requires t.metrics.Keys <= Elements(t.order)
    ensures var room := WithRoom(t, lim, now);
            && room.metrics.Keys <= Elements(room.order)
            && |room.order| - |room.metrics| == |t.order| - |t.metrics| - (if DropsStale(t, lim, now) then 1 else 0)
            && (|room.order| < |t.order| || |t.metrics| < lim.maxMetrics || t.order == [])
            && |room.order| <= |t.order|
  {
    if |t.metrics| >= lim.maxMetrics && t.order != [] {
      EvictedShape(t, lim, now);
    }
  }

  lemma AppendShape(room: Table, name: string, m: MetricValue)
    requires room.metrics.Keys <= Elements(room.order)
    ensures var t' := Appended(room, name, m);
            && t'.metrics.Keys <= Elements(t'.order)
            && |t'.order| == |room.order| + 1
            && |t'.metrics| == |room.metrics| + if name in room.metrics then 0 else 1
  {
    var t' := Appended(room, name, m);
    assert t'.metrics.Keys == room.metrics.Keys + {name};
    assert Elements(t'.order) == Elements(room.order) + {name};
    assert name in room.metrics ==> room.metrics.Keys + {name} == room.metrics.Keys;
    assert |t'.metrics| == |t'.metrics.Keys| && |room.metrics| == |room.metrics.Keys|;
  }

  lemma AddInv(lim: Limits, s: State, name: string, m: MetricValue, now: int)
    requires Inv(lim, s)
    ensures Inv(lim, Add(s, lim, name, m, now))
  {
    LiveAtMostListed(s.t);
    RoomShape(s.t, lim, now);
    AppendShape(WithRoom(s.t, lim, now), name, m);
    assert Inserted(s.t, lim, name, m, now) == Appended(WithRoom(s.t, lim, now), name, m);
  }

  lemma StepInv(lim: Limits, s: State, e: Event)
    requires Inv(lim, s)
    ensures Inv(lim, Step(lim, s, e))
  {
    match e
    case Check(_) =>
    case Insert(name, m, now) =>
      AddInv(lim, s.(pending := s.pending - multiset{name}), name, m, now);
    case Ingest(name, m, now) =>
      if name !in s.t.metrics {
        AddInv(lim, s, name, m, now);
      }
    case Touch(name, m) =>
      var t' := Step(lim, s, e).t;
      assert t'.metrics.Keys == s.t.metrics.Keys;
      assert |t'.metrics.Keys| == |t'.metrics|;
  }

  /** The invariant in every reachable state. */
  lemma {:induction false} RunInv(lim: Limits, events: seq<Event>)
    ensures Inv(lim, After(lim, events))
  {
    if events == [] {
      InitialInv(lim);
      NoDupSize(InitialTable().order);
      assert |InitialTable().metrics| == |InitialTable().metrics.Keys|;
    } else {
      RunInv(lim, events[..|events| - 1]);
      StepInv(lim, After(lim, events[..|events| - 1]), events[|events| - 1]);
    }
  }

  /**
   * The race in numbers, for every reachable state: live metrics are listed, |metrics| <= |order| <= capacity + R with
   * R the repeated inserts, and the cap itself is exceeded by at most the stale drops, of which there are at most R.
   */
  lemma {:induction false} RaceBounds(lim: Limits, events: seq<Event>)
    ensures var s := After(lim, events);
            && (forall name :: name in s.t.metrics ==> name in s.t.order)
            && |s.t.metrics| <= |s.t.order| <= Capacity(lim) + s.repeats
            && |s.t.metrics| <= Capacity(lim) + s.staleDrops
            && s.staleDrops <= s.repeats
  {
    var t := After(lim, events).t;
    RunInv(lim, events);
    LiveAtMostListed(t);
    forall name | name in t.metrics ensures name in t.order {
      assert name in Elements(t.order);
    }
  }

  /** A list with as many elements as positions has no duplicate. */
  lemma {:induction false} FullSizeNoDup<T>(s: seq<T>)
    requires |Elements(s)| == |s|
    ensures NoDup(s)
  {
    if s != [] {
      var n := |s| - 1;
      var front, last, rest := s[..n], s[n], Elements(s[..n]);
      assert Elements(s) == rest + {last};
      assert last in rest ==> rest + {last} == rest;
      NoDupSize(front);
      FullSizeNoDup(front);
    }
  }

  /** As long as no insert has been repeated, the strong invariant of one-step registration holds here too. */
  lemma {:induction false} NoRepeatNoDamage(lim: Limits, events: seq<Event>)
    requires After(lim, events).repeats == 0
    ensures Tables.Inv(After(lim, events).t, lim)
  {
    var t := After(lim, events).t;
    RaceBounds(lim, events);
    RunInv(lim, events);
    NoDupSize(t.order);
    assert |t.metrics.Keys| == |t.metrics|;
    EqualSize(t.metrics.Keys, Elements(t.order));
    FullSizeNoDup(t.order);
  }

  /** Repeats are never taken back. */
  lemma {:induction false} RepeatsGrow(lim: Limits, events: seq<Event>, k: nat)
    requires k <= |events|
    ensures After(lim, events[..k]).repeats <= After(lim, events).repeats
  {
    if k < |events| {
      RepeatsGrow(lim, events[..|events| - 1], k);
      assert events[..|events| - 1][..k] == events[..k];
    } else {
      assert events[..k] == events;
    }
  }

  /** A repeated insert into a consistent table lists a name twice: nothing stale could be dropped for it. */
  lemma RepeatDamages(lim: Limits, s: State, e: Event)
    requires Inv(lim, s) && Tables.Inv(s.t, lim) && s.repeats == s.staleDrops
    requires Step(lim, s, e).repeats > s.repeats
    ensures !Tables.Inv(Step(lim, s, e).t, lim)
  {
    var t := Step(lim, s, e).t;
    StepInv(lim, s, e);
    if s.t.order != [] {
      assert s.t.order[Victim(s.t, e.now, lim.ttl)] in Elements(s.t.order);
    }
    assert |t.order| == |t.metrics| + 1;
    if Tables.Inv(t, lim) {
      NoDupSize(t.order);
      assert |t.metrics| == |t.metrics.Keys|;
    }
  }

  /**
   * The first repeated insert ends consistency: the one-step invariant holds all along a run if and only if no insert
   * of the run found its name present.
   */
  lemma ConsistentIffNoRepeat(lim: Limits, events: seq<Event>)
    ensures (forall k :: 0 <= k <= |events| ==> Tables.Inv(After(lim, events[..k]).t, lim)) <==>
            After(lim, events).repeats == 0
  {
    if After(lim, events).repeats == 0 {
      forall k | 0 <= k <= |events| ensures Tables.Inv(After(lim, events[..k]).t, lim) {
        RepeatsGrow(lim, events, k);
        NoRepeatNoDamage(lim, events[..k]);
      }
    } else {
      var k := FirstRepeat(lim, events);
      assert !Tables.Inv(After(lim, events[..k]).t, lim);
    }
  }

  /** Where the damage is done. */
  lemma {:induction false} FirstRepeat(lim: Limits, events: seq<Event>) returns (k: nat)
    requires After(lim, events).repeats > 0
    ensures k <= |events| && !Tables.Inv(After(lim, events[..k]).t, lim)
  {
    var n := |events| - 1;
    if After(lim, events[..n]).repeats > 0 {
      k := FirstRepeat(lim, events[..n]);
      assert events[..n][..k] == events[..k];
    } else {
      k := |events|;
      assert events[..k] == events;
      RunInv(lim, events[..n]);
      RaceBounds(lim, events[..n]);
      NoRepeatNoDamage(lim, events[..n]);
      RepeatDamages(lim, After(lim, events[..n]), events[n]);
    }
  }

  /** The insert of an event: it adds a metric to the table, under a name that may be live already. */
  predicate Inserts(s: State, e: Event) {
    Enabled(s, e) && (e.Insert? || (e.Ingest? && e.name !in s.t.metrics))
  }

  /** A full table makes room by dropping an entry that no live metric answers to, for a name that is not live. */
  predicate Overfills(lim: Limits, s: State, e: Event) {
    Inserts(s, e) && |s.t.metrics| >= Capacity(lim) && DropsStale(s.t, lim, e.now) && e.name !in s.t.metrics
  }

  /** Only such a step takes a table over its capacity. */
  lemma StepOverCap(lim: Limits, s: State, e: Event)
    requires Inv(lim, s) && |s.t.metrics| <= Capacity(lim)
    ensures |Step(lim, s, e).t.metrics| > Capacity(lim) <==> Overfills(lim, s, e)
  {
    if Inserts(s, e) {
      RoomShape(s.t, lim, e.now);
      AppendShape(WithRoom(s.t, lim, e.now), e.name, e.m);
      RoomSize(s.t, lim, e.name, e.now);
      assert Inserted(s.t, lim, e.name, e.m, e.now) == Appended(WithRoom(s.t, lim, e.now), e.name, e.m);
    } else if e.Touch? && Enabled(s, e) {
      assert s.t.metrics[e.name := e.m].Keys == s.t.metrics.Keys;
      assert |s.t.metrics[e.name := e.m]| == |s.t.metrics[e.name := e.m].Keys| == |s.t.metrics.Keys| == |s.t.metrics|;
    }
  }

  /** What making room does to the number of live metrics. */
  lemma RoomSize(t: Table, lim: Limits, name: string, now: int)
    requires t.metrics.Keys <= Elements(t.order)
    ensures var room := WithRoom(t, lim, now);
            && (|t.metrics| < lim.maxMetrics ==> room == t)
            && (DropsStale(t, lim, now) ==> |room.metrics| == |t.metrics| && room.metrics.Keys == t.metrics.Keys)
            && (|t.metrics| >= lim.maxMetrics && !DropsStale(t, lim, now) ==> |room.metrics| == Max(0, |t.metrics| - 1))
  {
    if t.order == [] {
      assert t.metrics.Keys == {};
    } else if |t.metrics| >= lim.maxMetrics {
      EvictedShape(t, lim, now);
      if DropsStale(t, lim, now) {
        assert WithRoom(t, lim, now).metrics == t.metrics;
      }
    }
  }

  predicate WithinCap(lim: Limits, events: seq<Event>) {
    |After(lim, events).t.metrics| <= Capacity(lim)
  }

  predicate OverfillsAt(lim: Limits, events: seq<Event>, k: nat)
    requires k < |events|
  {
    Overfills(lim, After(lim, events[..k]), events[k])
  }

  /** The number of live metrics stays within the capacity all along the run. */
  ghost predicate CapKept(lim: Limits, events: seq<Event>) {
    forall k :: 0 <= k <= |events| ==> WithinCap(lim, events[..k])
  }

  ghost predicate NeverOverfilled(lim: Limits, events: seq<Event>) {
    forall k :: 0 <= k < |events| ==> !OverfillsAt(lim, events, k)
  }

  /** Exactly when the cap is kept along a run: when no step overfills the table. */
  lemma {:induction false} CapKeptIff(lim: Limits, events: seq<Event>)
    ensures CapKept(lim, events) <==> NeverOverfilled(lim, events)
  {
    if events == [] {
      RaceBounds(lim, []);
    } else {
      CapKeptIff(lim, events[..|events| - 1]);
      CapKeptSnoc(lim, events);
      NeverOverfilledSnoc(lim, events);
      LastStepOverCap(lim, events);
    }
  }

  lemma LastStepOverCap(lim: Limits, events: seq<Event>)
    requires events != []
    ensures CapKept(lim, events[..|events| - 1]) ==>
            (WithinCap(lim, events) <==> !OverfillsAt(lim, events, |events| - 1))
  {
    var front := events[..|events| - 1];
    RunInv(lim, front);
    if CapKept(lim, front) {
      assert front[..|front|] == front;
      StepOverCap(lim, After(lim, front), events[|events| - 1]);
    }
  }

  lemma CapKeptSnoc(lim: Limits, events: seq<Event>)
    requires events != []
    ensures CapKept(lim, events) <==> CapKept(lim, events[..|events| - 1]) && WithinCap(lim, events)
  {
    var front := events[..|events| - 1];
    assert events[..|events|] == events;
    if CapKept(lim, events) {
      forall k | 0 <= k <= |front| ensures WithinCap(lim, front[..k]) {
        assert front[..k] == events[..k];
      }
    }
    if CapKept(lim, front) {
      forall k | 0 <= k < |events| ensures WithinCap(lim, events[..k]) {
        assert front[..k] == events[..k];
      }
    }
  }

  lemma NeverOverfilledSnoc(lim: Limits, events: seq<Event>)
    requires events != []
    ensures NeverOverfilled(lim, events) <==>
            NeverOverfilled(lim, events[..|events| - 1]) && !OverfillsAt(lim, events, |events| - 1)
  {
    var front := events[..|events| - 1];
    forall k: nat | k < |front| ensures OverfillsAt(lim, front, k) == OverfillsAt(lim, events, k) {
      assert front[..k] == events[..k];
    }
  }

  /** A subset of the same size or larger is the whole set. */
  lemma EqualSize<T>(a: set<T>, b: set<T>)
    requires a <= b && |a| >= |b|
    ensures a == b
  {
    if a != b {
      var x :| x in b && x !in a;
      SubsetSize(a, b - {x});
    }
  }

  /** The ingestion loop never repeats an insert. */
  lemma IngestNeverRepeats(lim: Limits, s: State, name: string, m: MetricValue, now: int)
    ensures Step(lim, s, Ingest(name, m, now)).repeats == s.repeats
  {
  }

  /** A counter nobody has recorded into. */
  function New(name: string): MetricValue {
    Created(name, Counter, "", [], [], 0.0, 0.0)
  }

  /** The live names and the list, nothing ever recorded. */
  ghost predicate Looks(t: Table, live: set<string>, order: seq<string>) {
    && t.metrics.Keys == live && t.order == order
    && forall name :: name in t.metrics ==> t.metrics[name].data.last == 0
  }

  /** At the cap with nothing idle, adding a name drops the head of the list, whether or not it is live. */
  lemma AddDropsHead(lim: Limits, s: State, live: set<string>, order: seq<string>, name: string)
    requires Looks(s.t, live, order) && order != [] && |live| >= lim.maxMetrics
    ensures Looks(Add(s, lim, name, New(name), 0).t, live - {order[0]} + {name}, order[1..] + [name])
  {
    assert |s.t.metrics| == |s.t.metrics.Keys|;
    assert Victim(s.t, 0, lim.ttl) == 0;
  }

  /** Below the cap, adding a name drops nothing. */
  lemma AddBelowCap(lim: Limits, s: State, live: set<string>, order: seq<string>, name: string)
    requires Looks(s.t, live, order) && |live| < lim.maxMetrics
    ensures Looks(Add(s, lim, name, New(name), 0).t, live + {name}, order + [name])
  {
    assert |s.t.metrics| == |s.t.metrics.Keys|;
  }

  /** One more event of a run that adds a name at the cap. */
  lemma NextDropsHead(lim: Limits, events: seq<Event>, e: Event, live: set<string>, order: seq<string>)
    requires Looks(After(lim, events).t, live, order) && order != [] && |live| >= lim.maxMetrics
    requires Enabled(After(lim, events), e) && ((e.Ingest? && e.name !in live) || e.Insert?) && e.m == New(e.name)
             && e.now == 0
    ensures Looks(After(lim, events + [e]).t, live - {order[0]} + {e.name}, order[1..] + [e.name])
    ensures After(lim, events + [e]).pending ==
            After(lim, events).pending - if e.Insert? then multiset{e.name} else multiset{}
  {
    var s := After(lim, events);
    assert (events + [e])[..|events|] == events;
    AddDropsHead(lim, if e.Insert? then s.(pending := s.pending - multiset{e.name}) else s, live, order, e.name);
  }

  /** One more event of a run that adds a name below the cap. */
  lemma NextBelowCap(lim: Limits, events: seq<Event>, e: Event, live: set<string>, order: seq<string>)
    requires Looks(After(lim, events).t, live, order) && |live| < lim.maxMetrics
    requires e.Ingest? && e.name !in live && e.m == New(e.name) && e.now == 0
    ensures Looks(After(lim, events + [e]).t, live + {e.name}, order + [e.name])
  {
    assert (events + [e])[..|events|] == events;
    AddBelowCap(lim, After(lim, events), live, order, e.name);
  }

  /** Replacing one element of a set by another. */
  lemma SwapSize(s: set<string>, gone: string, added: string)
    ensures |s - {gone} + {added}| == |s| - (if gone in s then 1 else 0) + (if added in s - {gone} then 0 else 1)
  {
    var rest := s - {gone};
    assert gone !in s ==> rest == s;
    assert gone in s ==> rest + {gone} == s;
    assert added in rest ==> rest + {added} == rest;
  }

  lemma TwoChecks(lim: Limits, x: string) returns (events: seq<Event>)
    requires x !in Init().t.metrics
    ensures After(lim, events) == Init().(pending := multiset{x, x})
  {
    var check := Check(x);
    events := [check, check];
    assert events[..1] == [check] && [check][..0] == [];
    assert After(lim, [check]) == Init().(pending := multiset{x});
    assert multiset{x} + multiset{x} == multiset{x, x};
  }

  lemma InitialLook()
    ensures Looks(Init().t, {REQUESTS, ERRORS, DURATION}, [REQUESTS, ERRORS, DURATION])
    ensures |{REQUESTS, ERRORS, DURATION}| == 3
  {
    InitialInv(Limits(3, 10));
    NamesDiffer();
    assert Elements([REQUESTS, ERRORS, DURATION]) == {REQUESTS, ERRORS, DURATION};
  }

  lemma FirstInsert(lim: Limits, x: string) returns (events: seq<Event>, live: set<string>)
    requires lim.maxMetrics == 3 && x !in {REQUESTS, ERRORS, DURATION}
    ensures Looks(After(lim, events).t, live, [ERRORS, DURATION, x]) && |live| == 3 && ERRORS in live
            && DURATION in live && x in live
    ensures x in After(lim, events).pending
  {
    InitialLook();
    NamesDiffer();
    events := TwoChecks(lim, x);
    assert ([REQUESTS, ERRORS, DURATION])[1..] + [x] == [ERRORS, DURATION, x];
    events, live := InsertAtCap(lim, events, {REQUESTS, ERRORS, DURATION}, [REQUESTS, ERRORS, DURATION], x);
  }

  /** Two lookups of a new name that both fail, and the two inserts: the name is listed twice. */
  lemma TwoChecksTwoInserts(lim: Limits, x: string) returns (events: seq<Event>, live: set<string>)
    requires lim.maxMetrics == 3 && x !in {REQUESTS, ERRORS, DURATION}
    ensures Looks(After(lim, events).t, live, [DURATION, x, x]) && |live| == 2 && DURATION in live && x in live
  {
    events, live := FirstInsert(lim, x);
    NamesDiffer();
    assert [ERRORS, DURATION, x][1..] + [x] == [DURATION, x, x];
    events, live := InsertAtCap(lim, events, live, [ERRORS, DURATION, x], x);
  }

  lemma InsertAtCap(lim: Limits, before: seq<Event>, live: set<string>, order: seq<string>, name: string)
    returns (events: seq<Event>, live': set<string>)
    requires Looks(After(lim, before).t, live, order) && order != [] && |live| >= lim.maxMetrics
    requires name in After(lim, before).pending
    ensures live' == live - {order[0]} + {name}
    ensures |live'| == |live| - (if order[0] in live then 1 else 0) + (if name in live - {order[0]} then 0 else 1)
    ensures Looks(After(lim, events).t, live', order[1..] + [name])
    ensures After(lim, events).pending == After(lim, before).pending - multiset{name}
  {
    NextDropsHead(lim, before, Insert(name, New(name), 0), live, order);
    SwapSize(live, order[0], name);
    events, live' := before + [Insert(name, New(name), 0)], live - {order[0]} + {name};
  }

  lemma IngestAtCap(lim: Limits, before: seq<Event>, live: set<string>, order: seq<string>, name: string)
    returns (events: seq<Event>, live': set<string>)
    requires Looks(After(lim, before).t, live, order) && order != [] && |live| >= lim.maxMetrics && name !in live
    ensures live' == live - {order[0]} + {name}
    ensures |live'| == |live| + if order[0] in live then 0 else 1
    ensures Looks(After(lim, events).t, live', order[1..] + [name])
  {
    NextDropsHead(lim, before, Ingest(name, New(name), 0), live, order);
    SwapSize(live, order[0], name);
    events, live' := before + [Ingest(name, New(name), 0)], live - {order[0]} + {name};
  }

  lemma MovedUp(r: string, x: string, d: string, e: string)
    ensures [r, x, x] + [d] == [r, x, x, d] && [r, x, x, d][1..] + [e] == [x, x, d, e]
  {
  }

  lemma TwoMoreNames(lim: Limits, before: seq<Event>, live: set<string>, r: string, x: string, d: string, e: string)
    returns (events: seq<Event>, live': set<string>)
    requires lim.maxMetrics == 3 && |live| == 2 && r in live && x in live && r != x
    requires Looks(After(lim, before).t, live, [r, x, x]) && d !in live && e !in live + {d}
    ensures Looks(After(lim, events).t, live', [x, x, d, e]) && |live'| == 3 && x in live' && live' <= live + {d, e}
  {
    NextBelowCap(lim, before, Ingest(d, New(d), 0), live, [r, x, x]);
    events := before + [Ingest(d, New(d), 0)];
    MovedUp(r, x, d, e);
    events, live' := IngestAtCap(lim, events, live + {d}, [r, x, x, d], e);
  }

  /** Names ingested one after the other; the second entry of `x` is dropped instead of a live metric. */
  lemma StaleEntryDropped(lim: Limits, before: seq<Event>, live: set<string>, x: string, d: string, e: string,
                          f: string, g: string)
    returns (events: seq<Event>)
    requires lim.maxMetrics == 3 && |live| == 3 && x in live && f !in live && g !in live + {f}
    requires Looks(After(lim, before).t, live, [x, x, d, e])
    ensures |After(lim, events).t.metrics| == 4
  {
    var l;
    assert [x, x, d, e][1..] + [f] == [x, d, e, f];
    events, l := IngestAtCap(lim, before, live, [x, x, d, e], f);
    events, l := IngestAtCap(lim, events, l, [x, d, e, f], g);
    assert |After(lim, events).t.metrics| == |After(lim, events).t.metrics.Keys|;
  }

  /** The cap can be exceeded: four live metrics under a cap of three, for any five new names. */
  lemma CapExceeded(lim: Limits, x: string, d: string, e: string, f: string, g: string) returns (events: seq<Event>)
    requires lim.maxMetrics == 3
    requires x !in {REQUESTS, ERRORS, DURATION}
    requires d !in {REQUESTS, ERRORS, DURATION, x} && e !in {REQUESTS, ERRORS, DURATION, x, d}
    requires f !in {REQUESTS, ERRORS, DURATION, x, d, e} && g !in {REQUESTS, ERRORS, DURATION, x, d, e, f}
    ensures |After(lim, events).t.metrics| == 4 > Capacity(lim)
  {
    var live;
    events, live := TwoChecksTwoInserts(lim, x);
    var pair := {DURATION, x};
    assert pair <= live;
    assert live == pair by {
      NamesDiffer();
      assert |pair| == 2;
      EqualSize(pair, live);
    }
    events, live := TwoMoreNames(lim, events, live, DURATION, x, d, e);
    events := StaleEntryDropped(lim, events, live, x, d, e, f, g);
  }
}
