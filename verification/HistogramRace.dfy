/**
 * Many goroutines recording into one histogram at once (metric.go): a Record call is three separate atomic additions,
 * to the count, to the sum and to a bucket, and calls interleave freely.
 */
module HistogramRace {
  import opened Base
  import opened Metrics
  import opened Histograms

  /** How far a Record call has got. */
  datatype Phase = Begun | Counted | Summed | Done

  datatype Recorder = Recorder(value: real, phase: Phase)

  /** The shared counters, and every Record call ever begun, in the order of their beginning. */
  datatype State = State(hist: map<real, int>, count: int, sum: int, recorders: seq<Recorder>)

  /** A call begins, or call number `i` performs its next atomic addition. */
  datatype Event = Begin(v: real) | Advance(i: nat)

  function Init(bounds: seq<real>): State {
    State(ZeroCounters(bounds), 0, 0, [])
  }

  predicate Enabled(s: State, e: Event) {
    e.Advance? ==> e.i < |s.recorders| && s.recorders[e.i].phase != Done
  }

  function Step(bounds: seq<real>, s: State, e: Event): State
    requires s.hist.Keys == Keys(bounds) && Enabled(s, e)
  {
    match e
    case Begin(v) => s.(recorders := s.recorders + [Recorder(v, Begun)])
    case Advance(i) =>
      var v := s.recorders[i].value;
      match s.recorders[i].phase
      case Begun => s.(count := s.count + 1, recorders := s.recorders[i := Recorder(v, Counted)])
      case Counted => s.(sum := s.sum + Scaled(v), recorders := s.recorders[i := Recorder(v, Summed)])
      case Summed =>
        assert KeyOf(bounds, v) in Keys(bounds);
        s.(hist := Incremented(s.hist, KeyOf(bounds, v)), recorders := s.recorders[i := Recorder(v, Done)])
      case Done => s
  }

  /** The states of a run: the first is the initial one, each later one follows by an enabled step. */
  ghost predicate IsRun(bounds: seq<real>, states: seq<State>, events: seq<Event>) {
    && |states| == |events| + 1
    && states[0] == Init(bounds)
    && forall k :: 0 <= k < |events| ==>
         states[k].hist.Keys == Keys(bounds) && Enabled(states[k], events[k])
           && states[k + 1] == Step(bounds, states[k], events[k])
  }

  function Rank(p: Phase): nat {
    match p case Begun => 0 case Counted => 1 case Summed => 2 case Done => 3
  }

  /** One for each call that has performed at least `r` additions. */
  function Past(rs: seq<Recorder>, r: nat): (ones: seq<int>)
    ensures |ones| == |rs|
  {
    seq(|rs|, i requires 0 <= i < |rs| => if Rank(rs[i].phase) >= r then 1 else 0)
  }

  /** What each call has added to the sum so far. */
  function Paid(rs: seq<Recorder>): (amounts: seq<int>)
    ensures |amounts| == |rs|
  {
    seq(|rs|, i requires 0 <= i < |rs| => if Rank(rs[i].phase) >= 2 then Scaled(rs[i].value) else 0)
  }

  /** One for each finished call that counted in the given bucket. */
  function PlacedAt(bounds: seq<real>, rs: seq<Recorder>, key: real): (ones: seq<int>)
    ensures |ones| == |rs|
  {
    seq(|rs|, i requires 0 <= i < |rs| => if rs[i].phase == Done && KeyOf(bounds, rs[i].value) == key then 1 else 0)
  }

  /** The sum of the listed counters in one state. */
  function TotalAt(keys: seq<real>, hist: map<real, int>): int
    requires forall i :: 0 <= i < |keys| ==> keys[i] in hist
  {
    if keys == [] then 0
    else
      TotalAt(keys[..|keys| - 1], hist) + hist[keys[|keys| - 1]]
  }

  /** The counters a snapshot lists. */
  function Listed(bounds: seq<real>): seq<real> {
    bounds + [0.0]
  }

  /** Calls past the count addition but before their bucket addition. */
  function InFlight(rs: seq<Recorder>): nat {
    |set i | 0 <= i < |rs| && rs[i].phase in {Counted, Summed}|
  }

  /** Every shared counter is the contribution of the calls that have reached it. */
  ghost predicate Inv(bounds: seq<real>, s: State) {
    && s.hist.Keys == Keys(bounds)
    && s.count == Sum(Past(s.recorders, 1))
    && s.sum == Sum(Paid(s.recorders))
    && forall key :: key in s.hist ==> s.hist[key] == Sum(PlacedAt(bounds, s.recorders, key))
  }

  lemma InitInv(bounds: seq<real>)
    ensures Inv(bounds, Init(bounds))
  {
  }

  lemma StepInv(bounds: seq<real>, s: State, e: Event)
    requires Inv(bounds, s) && Enabled(s, e)
    ensures Inv(bounds, Step(bounds, s, e))
  {
    match e
    case Begin(v) =>
      BegunAddsNothing(s.recorders, v);
      forall key | key in s.hist ensures s.hist[key] == Sum(PlacedAt(bounds, Step(bounds, s, e).recorders, key)) {
        BegunPlacesNothing(bounds, s.recorders, v, key);
      }
    case Advance(i) =>
      AdvanceInv(bounds, s, i);
  }

  lemma BegunAddsNothing(rs: seq<Recorder>, v: real)
    ensures var more := rs + [Recorder(v, Begun)];
            Sum(Past(more, 1)) == Sum(Past(rs, 1)) && Sum(Paid(more)) == Sum(Paid(rs))
  {
    var more := rs + [Recorder(v, Begun)];
    SumSnoc(Past(rs, 1), 0);
    SumSnoc(Paid(rs), 0);
    assert Past(more, 1) == Past(rs, 1) + [0];
    assert Paid(more) == Paid(rs) + [0];
  }

  lemma BegunPlacesNothing(bounds: seq<real>, rs: seq<Recorder>, v: real, key: real)
    ensures Sum(PlacedAt(bounds, rs + [Recorder(v, Begun)], key)) == Sum(PlacedAt(bounds, rs, key))
  {
    SumSnoc(PlacedAt(bounds, rs, key), 0);
    assert PlacedAt(bounds, rs + [Recorder(v, Begun)], key) == PlacedAt(bounds, rs, key) + [0];
  }

  lemma AdvanceInv(bounds: seq<real>, s: State, i: nat)
    requires Inv(bounds, s) && Enabled(s, Advance(i))
    ensures Inv(bounds, Step(bounds, s, Advance(i)))
  {
    var t := Step(bounds, s, Advance(i));
    var v, phase := s.recorders[i].value, t.recorders[i].phase;
    assert t.recorders == s.recorders[i := Recorder(v, phase)];
    PastUpdate(s.recorders, i, phase);
    PaidUpdate(s.recorders, i, phase);
    forall key | key in t.hist ensures t.hist[key] == Sum(PlacedAt(bounds, t.recorders, key)) {
      PlacedUpdate(bounds, s.recorders, i, phase, key);
    }
  }

  lemma PastUpdate(rs: seq<Recorder>, i: nat, phase: Phase)
    requires i < |rs|
    ensures Sum(Past(rs[i := rs[i].(phase := phase)], 1)) ==
            Sum(Past(rs, 1)) - (if Rank(rs[i].phase) >= 1 then 1 else 0) + (if Rank(phase) >= 1 then 1 else 0)
  {
    var one := if Rank(phase) >= 1 then 1 else 0;
    SumUpdate(Past(rs, 1), i, one);
    assert Past(rs[i := rs[i].(phase := phase)], 1) == Past(rs, 1)[i := one];
  }

  lemma PaidUpdate(rs: seq<Recorder>, i: nat, phase: Phase)
    requires i < |rs|
    ensures Sum(Paid(rs[i := rs[i].(phase := phase)])) ==
            Sum(Paid(rs)) - (if Rank(rs[i].phase) >= 2 then Scaled(rs[i].value) else 0) +
              (if Rank(phase) >= 2 then Scaled(rs[i].value) else 0)
  {
    var paid := if Rank(phase) >= 2 then Scaled(rs[i].value) else 0;
    SumUpdate(Paid(rs), i, paid);
    assert Paid(rs[i := rs[i].(phase := phase)]) == Paid(rs)[i := paid];
  }

  lemma PlacedUpdate(bounds: seq<real>, rs: seq<Recorder>, i: nat, phase: Phase, key: real)
    requires i < |rs| && rs[i].phase != Done
    ensures Sum(PlacedAt(bounds, rs[i := rs[i].(phase := phase)], key)) ==
            Sum(PlacedAt(bounds, rs, key)) + if phase == Done && KeyOf(bounds, rs[i].value) == key then 1 else 0
  {
    var one := if phase == Done && KeyOf(bounds, rs[i].value) == key then 1 else 0;
    SumUpdate(PlacedAt(bounds, rs, key), i, one);
    assert PlacedAt(bounds, rs[i := rs[i].(phase := phase)], key) == PlacedAt(bounds, rs, key)[i := one];
  }

  /** The invariant holds in every reachable state. */
  lemma {:induction false} RunInv(bounds: seq<real>, states: seq<State>, events: seq<Event>, k: nat)
    requires IsRun(bounds, states, events) && k <= |events|
    ensures Inv(bounds, states[k])
  {
    if k == 0 {
      InitInv(bounds);
    } else {
      RunInv(bounds, states, events, k - 1);
      StepInv(bounds, states[k - 1], events[k - 1]);
    }
  }

  /** Occurrences of a value among the listed keys that finished calls went to. */
  lemma {:induction false} DoneAreListed(bounds: seq<real>, rs: seq<Recorder>)
    requires DistinctCounters(bounds)
    ensures PlacedTotal(Listed(bounds), bounds, rs) == Sum(Past(rs, 3))
  {
    if rs == [] {
      NothingPlaced(Listed(bounds), bounds);
    } else {
      var n := |rs| - 1;
      DoneAreListed(bounds, rs[..n]);
      assert Past(rs, 3)[..n] == Past(rs[..n], 3);
      KeyListedOnce(bounds, rs[n].value);
      PlacedTotalSnoc(Listed(bounds), bounds, rs);
    }
  }

  /** The listed counters, computed from the calls. */
  function PlacedTotal(keys: seq<real>, bounds: seq<real>, rs: seq<Recorder>): int {
    if keys == [] then 0 else PlacedTotal(keys[..|keys| - 1], bounds, rs) + Sum(PlacedAt(bounds, rs, keys[|keys| - 1]))
  }

  lemma {:induction false} NothingPlaced(keys: seq<real>, bounds: seq<real>)
    ensures PlacedTotal(keys, bounds, []) == 0
  {
    if keys != [] {
      NothingPlaced(keys[..|keys| - 1], bounds);
    }
  }

  lemma {:induction false} PlacedTotalSnoc(keys: seq<real>, bounds: seq<real>, rs: seq<Recorder>)
    requires rs != []
    ensures var r := rs[|rs| - 1];
            PlacedTotal(keys, bounds, rs) ==
            PlacedTotal(keys, bounds, rs[..|rs| - 1]) +
            if r.phase == Done then Occurrences(keys, KeyOf(bounds, r.value)) else 0
  {
    if keys != [] {
      var n := |rs| - 1;
      PlacedTotalSnoc(keys[..|keys| - 1], bounds, rs);
      assert PlacedAt(bounds, rs, keys[|keys| - 1])[..n] == PlacedAt(bounds, rs[..n], keys[|keys| - 1]);
    }
  }

  lemma {:induction false} TotalIsPlaced(keys: seq<real>, bounds: seq<real>, s: State)
    requires Inv(bounds, s) && forall i :: 0 <= i < |keys| ==> keys[i] in s.hist
    ensures TotalAt(keys, s.hist) == PlacedTotal(keys, bounds, s.recorders)
  {
    if keys != [] {
      TotalIsPlaced(keys[..|keys| - 1], bounds, s);
    }
  }

  lemma InFlightSnoc(rs: seq<Recorder>, r: Recorder)
    ensures InFlight(rs + [r]) == InFlight(rs) + if r.phase in {Counted, Summed} then 1 else 0
  {
    var more := rs + [r];
    var here := set i | 0 <= i < |more| && more[i].phase in {Counted, Summed};
    var before := set i | 0 <= i < |rs| && rs[i].phase in {Counted, Summed};
    assert here == if r.phase in {Counted, Summed} then before + {|rs|} else before;
  }

  lemma {:induction false} InFlightIs(rs: seq<Recorder>)
    ensures Sum(Past(rs, 1)) - Sum(Past(rs, 3)) == InFlight(rs)
  {
    if rs != [] {
      var n := |rs| - 1;
      InFlightIs(rs[..n]);
      assert Past(rs, 1)[..n] == Past(rs[..n], 1) && Past(rs, 3)[..n] == Past(rs[..n], 3);
      InFlightSnoc(rs[..n], rs[n]);
      assert rs[..n] + [rs[n]] == rs;
    }
  }

  lemma ListedAreKeys(bounds: seq<real>)
    ensures forall i :: 0 <= i <= |bounds| ==> Listed(bounds)[i] in Keys(bounds)
  {
    forall i | 0 <= i <= |bounds| ensures Listed(bounds)[i] in Keys(bounds) {
      assert i < |bounds| ==> Listed(bounds)[i] == bounds[i];
    }
  }

  /** In every reachable state, count minus the listed buckets is the number of calls between their two additions. */
  lemma {:induction false} CountMinusBuckets(bounds: seq<real>, s: State)
    requires Inv(bounds, s) && DistinctCounters(bounds)
    ensures forall i :: 0 <= i <= |bounds| ==> Listed(bounds)[i] in s.hist
    ensures s.count - TotalAt(Listed(bounds), s.hist) == InFlight(s.recorders)
  {
    ListedAreKeys(bounds);
    TotalIsPlaced(Listed(bounds), bounds, s);
    DoneAreListed(bounds, s.recorders);
    InFlightIs(s.recorders);
  }

  function Values(rs: seq<Recorder>): (vs: seq<real>)
    ensures |vs| == |rs|
  {
    seq(|rs|, i requires 0 <= i < |rs| => rs[i].value)
  }

  ghost predicate Quiescent(s: State) {
    forall i :: 0 <= i < |s.recorders| ==> s.recorders[i].phase == Done
  }

  lemma {:induction false} DoneContributions(bounds: seq<real>, rs: seq<Recorder>, key: real)
    requires forall i :: 0 <= i < |rs| ==> rs[i].phase == Done
    ensures Sum(Past(rs, 1)) == |rs|
    ensures Sum(Paid(rs)) == SumScaled(Values(rs))
    ensures Sum(PlacedAt(bounds, rs, key)) == CountKey(bounds, Values(rs), key)
  {
    if rs != [] {
      var n := |rs| - 1;
      DoneContributions(bounds, rs[..n], key);
      assert Past(rs, 1)[..n] == Past(rs[..n], 1) && Paid(rs)[..n] == Paid(rs[..n]);
      assert PlacedAt(bounds, rs, key)[..n] == PlacedAt(bounds, rs[..n], key) && Values(rs)[..n] == Values(rs[..n]);
    }
  }

  /**
   * At quiescence the interleaved calls have left exactly what recording the same samples one after the other leaves.
   */
  lemma QuiescentIsSequential(bounds: seq<real>, s: State)
    requires Inv(bounds, s) && Quiescent(s)
    ensures s.count == |s.recorders|
    ensures s.sum == SumScaled(Values(s.recorders))
    ensures s.hist == Counters(bounds, Values(s.recorders))
  {
    DoneContributions(bounds, s.recorders, 0.0);
    forall key | key in s.hist ensures s.hist[key] == CountKey(bounds, Values(s.recorders), key) {
      DoneContributions(bounds, s.recorders, key);
    }
  }

  /** Bucket counters never decrease along a run. */
  lemma {:induction false} CountersGrow(bounds: seq<real>, states: seq<State>, events: seq<Event>, j: nat, k: nat,
                                        key: real)
    requires IsRun(bounds, states, events) && j <= k <= |events| && key in Keys(bounds)
    ensures key in states[j].hist && key in states[k].hist && states[j].hist[key] <= states[k].hist[key]
  {
    RunInv(bounds, states, events, j);
    RunInv(bounds, states, events, k);
    if j < k {
      CountersGrow(bounds, states, events, j, k - 1, key);
    }
  }

  /** What a snapshot that reads the listed counter `i` in state `at[i]` adds up to. */
  function ReadTotal(keys: seq<real>, states: seq<State>, at: seq<nat>): int
    requires |at| == |keys| && forall i :: 0 <= i < |at| ==> at[i] < |states| && keys[i] in states[at[i]].hist
  {
    if keys == [] then 0
    else
      var n := |keys| - 1;
      ReadTotal(keys[..n], states, at[..n]) + states[at[n]].hist[keys[n]]
  }

  lemma {:induction false} ReadTotalBetween(bounds: seq<real>, states: seq<State>, events: seq<Event>,
                                            keys: seq<real>, at: seq<nat>, first: nat, last: nat)
    requires IsRun(bounds, states, events) && first <= last <= |events|
    requires |at| == |keys| && (forall i :: 0 <= i < |at| ==> first <= at[i] <= last && keys[i] in Keys(bounds))
    ensures forall i :: 0 <= i < |at| ==> keys[i] in states[at[i]].hist
    ensures forall i :: 0 <= i < |keys| ==> keys[i] in states[first].hist && keys[i] in states[last].hist
    ensures TotalAt(keys, states[first].hist) <= ReadTotal(keys, states, at) <= TotalAt(keys, states[last].hist)
  {
    if keys == [] {
    } else {
      var n := |keys| - 1;
      ReadTotalBetween(bounds, states, events, keys[..n], at[..n], first, last);
      CountersGrow(bounds, states, events, first, at[n], keys[n]);
      CountersGrow(bounds, states, events, at[n], last, keys[n]);
      forall i | 0 <= i < |at| ensures keys[i] in states[at[i]].hist {
        assert i < n ==> keys[i] == keys[..n][i] && at[i] == at[..n][i];
      }
      forall i | 0 <= i < |keys| ensures keys[i] in states[first].hist && keys[i] in states[last].hist {
        assert i < n ==> keys[i] == keys[..n][i];
      }
    }
  }

  /** The states in which a snapshot loads the listed counters, all between its first and its last load. */
  ghost predicate Loads(bounds: seq<real>, at: seq<nat>, first: nat, last: nat) {
    |at| == |Listed(bounds)| && forall i :: 0 <= i < |at| ==> first <= at[i] <= last
  }

  /** The bucket total of a snapshot with these loads. */
  ghost function SnapshotTotal(bounds: seq<real>, states: seq<State>, events: seq<Event>, at: seq<nat>, first: nat,
                               last: nat): int
    requires IsRun(bounds, states, events) && first <= last <= |events| && Loads(bounds, at, first, last)
  {
    ListedAreKeys(bounds);
    ReadTotalBetween(bounds, states, events, Listed(bounds), at, first, last);
    ReadTotal(Listed(bounds), states, at)
  }

  /** The calls finished in a state: counted, and not in flight. */
  function Finished(s: State): int {
    s.count - InFlight(s.recorders)
  }

  /**
   * A snapshot loads the count first (state `first`) and the buckets one by one later, up to state `last`. Its bucket
   * total lies between the calls finished at the first load and those finished at the last.
   */
  lemma TornSnapshot(bounds: seq<real>, states: seq<State>, events: seq<Event>, at: seq<nat>, first: nat, last: nat)
    requires IsRun(bounds, states, events) && DistinctCounters(bounds) && first <= last <= |events|
    requires Loads(bounds, at, first, last)
    ensures Finished(states[first]) <= SnapshotTotal(bounds, states, events, at, first, last) <= Finished(states[last])
  {
    ListedAreKeys(bounds);
    RunInv(bounds, states, events, first);
    RunInv(bounds, states, events, last);
    ReadTotalBetween(bounds, states, events, Listed(bounds), at, first, last);
    CountMinusBuckets(bounds, states[first]);
    CountMinusBuckets(bounds, states[last]);
  }

  /** Loading every counter in one state gives the calls finished in that state. */
  lemma LoadedAtOnce(bounds: seq<real>, states: seq<State>, events: seq<Event>, k: nat, first: nat, last: nat)
      returns (at: seq<nat>)
    requires IsRun(bounds, states, events) && DistinctCounters(bounds) && first <= k <= last <= |events|
    ensures Loads(bounds, at, first, last)
            && SnapshotTotal(bounds, states, events, at, first, last) == Finished(states[k])
  {
    at := seq(|Listed(bounds)|, _ => k);
    TornSnapshot(bounds, states, events, at, k, k);
  }

  /** However its loads fall between the first and the last, the snapshot's bucket total is the count it loaded. */
  ghost predicate NeverTorn(bounds: seq<real>, states: seq<State>, events: seq<Event>, first: nat, last: nat)
    requires IsRun(bounds, states, events) && first <= last <= |events|
  {
    forall at | Loads(bounds, at, first, last) ::
      SnapshotTotal(bounds, states, events, at, first, last) == states[first].count
  }

  /**
   * Exactly when that is so: no call is in flight at the first load, and none finishes before the last. Calls that only
   * begin or add to the count in between do no harm.
   */
  lemma NeverTornIff(bounds: seq<real>, states: seq<State>, events: seq<Event>, first: nat, last: nat)
    requires IsRun(bounds, states, events) && DistinctCounters(bounds) && first <= last <= |events|
    ensures NeverTorn(bounds, states, events, first, last) <==>
            InFlight(states[first].recorders) == 0 && Finished(states[last]) == states[first].count
  {
    if NeverTorn(bounds, states, events, first, last) {
      var early := LoadedAtOnce(bounds, states, events, first, first, last);
      var late := LoadedAtOnce(bounds, states, events, last, first, last);
    }
    if InFlight(states[first].recorders) == 0 && Finished(states[last]) == states[first].count {
      forall at | Loads(bounds, at, first, last)
        ensures SnapshotTotal(bounds, states, events, at, first, last) == states[first].count
      {
        TornSnapshot(bounds, states, events, at, first, last);
      }
    }
  }

  /** The exported count and bucket total can disagree: the count is loaded before a call, the buckets after it. */
  lemma TornWitness() returns (states: seq<State>, events: seq<Event>)
    ensures IsRun([1.0], states, events) && |states| == 5
    ensures states[4].hist.Keys == Keys([1.0])
    ensures ReadTotal(Listed([1.0]), states, [4, 4]) == 1 > states[0].count == 0
  {
    var bounds := [1.0];
    var s0 := Init(bounds);
    var s1 := Step(bounds, s0, Begin(0.5));
    var s2 := Step(bounds, s1, Advance(0));
    var s3 := Step(bounds, s2, Advance(0));
    assert s3.recorders == [Recorder(0.5, Summed)];
    assert KeyOf(bounds, 0.5) == 1.0;
    var s4 := Step(bounds, s3, Advance(0));
    assert s4.hist == ZeroCounters(bounds)[1.0 := 1];
    states, events := [s0, s1, s2, s3, s4], [Begin(0.5), Advance(0), Advance(0), Advance(0)];
    var keys, at := Listed(bounds), [4, 4];
    assert keys == [1.0, 0.0] && keys[..1] == [1.0] && at[..1] == [4] && keys[..1][..0] == [] && at[..1][..0] == [];
    assert ReadTotal(keys[..1], states, at[..1]) == states[4].hist[1.0];
  }
}
