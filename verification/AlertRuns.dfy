/** Whole runs of the alerter: agreement of its rules with the store, and the schedule on which a rule fires. */
module AlertRuns {
  import opened Base
  import opened Metrics
  import opened AlertStores
  import opened Alerts

  /** The state after a sequence of operations, from a given one. */
  ghost function After(cooldown: int, s: Rulebook, events: seq<Event>): Rulebook {
    if events == [] then s else Step(cooldown, After(cooldown, s, events[..|events| - 1]), events[|events| - 1])
  }

  // ---- Cache and store ----

  function Unfired(r: AlertRule): AlertRule {
    r.(lastFired := None)
  }

  /** The same IDs, and rules that agree in every field but the time of the last firing. */
  ghost predicate Agree(s: Rulebook) {
    && Keyed(s.cache)
    && s.cache.Keys == s.store.rules.Keys
    && forall id :: id in s.cache ==> Unfired(s.cache[id]) == Unfired(s.store.rules[id])
  }

  lemma StepAgree(cooldown: int, s: Rulebook, e: Event)
    requires Agree(s)
    ensures Agree(Step(cooldown, s, e))
  {
    match e
    case Add(r, generated) => FiledAgree(s, Prepared(r, generated, cooldown, s.cache));
    case Toggle(id, enabled) =>
      if id in s.cache {
        FiledAgree(s, s.cache[id].(enabled := enabled));
      }
    case Remove(_) =>
    case Evaluate(snapshots, now, order) =>
      if Possible(s, e) {
        AppendedAllRules(s.store, EntriesOf(s.cache, order, ByName(snapshots), now));
      }
      assert Step(cooldown, s, e).cache.Keys == s.cache.Keys;
  }

  /** Filing the same rule in both places keeps them in agreement. */
  lemma FiledAgree(s: Rulebook, r: AlertRule)
    requires Agree(s)
    ensures Agree(Rulebook(s.cache[r.id := r], s.store.(rules := s.store.rules[r.id := r])))
  {
  }

  /** Agreement, once established, survives every sequence of operations. */
  lemma {:induction false} RunAgree(cooldown: int, s: Rulebook, events: seq<Event>)
    requires Agree(s)
    ensures Agree(After(cooldown, s, events))
  {
    if events != [] {
      RunAgree(cooldown, s, events[..|events| - 1]);
      StepAgree(cooldown, After(cooldown, s, events[..|events| - 1]), events[|events| - 1]);
    }
  }

  /** Some rule is configured with this ID. */
  ghost predicate Configured(config: seq<AlertRule>, id: string) {
    exists i :: 0 <= i < |config| && config[i].id == id
  }

  lemma {:induction false} FromConfigKeys(config: seq<AlertRule>, generated: seq<string>, cooldown: int, id: string)
    requires |generated| == |config|
    ensures id in FromConfig(config, generated, cooldown) <==>
            exists i :: 0 <= i < |config| && id == if config[i].id == "" then generated[i] else config[i].id
  {
    if config != [] {
      var n := |config| - 1;
      FromConfigKeys(config[..n], generated[..n], cooldown, id);
      if i :| 0 <= i < |config| && id == if config[i].id == "" then generated[i] else config[i].id {
        assert i < n ==> config[..n][i] == config[i] && generated[..n][i] == generated[i];
      }
      if i :| 0 <= i < n && id == if config[..n][i].id == "" then generated[..n][i] else config[..n][i].id {
        assert config[i] == config[..n][i] && generated[i] == generated[..n][i];
      }
    }
  }

  /**
   * Exactly when a new registry starts in agreement, provided the random IDs hit no configured one: when every
   * configured rule has an ID. A rule without one is stored under the empty ID and kept under a random one as well.
   */
  lemma {:induction false} InitialAgreeIff(config: seq<AlertRule>, generated: seq<string>, cooldown: int)
    requires |generated| == |config| && forall i :: 0 <= i < |config| ==> !Configured(config, generated[i])
    ensures Agree(Initial(config, generated, cooldown)) <==> forall i :: 0 <= i < |config| ==> config[i].id != ""
  {
    var s := Initial(config, generated, cooldown);
    forall id ensures id in s.store.rules <==> Configured(config, id) {
      SeededIsFirst(config, id);
    }
    FromConfigKeyed(config, generated, cooldown);
    forall id | id in s.store.rules ensures s.store.rules[id].id == id {
      SeededIsFirst(config, id);
    }
    if forall i :: 0 <= i < |config| ==> config[i].id != "" {
      forall id | id in FromConfig(config, generated, cooldown) ensures id in s.store.rules {
        FromConfigKeys(config, generated, cooldown, id);
      }
    } else {
      var i :| 0 <= i < |config| && config[i].id == "";
      FromConfigKeys(config, generated, cooldown, generated[i]);
      assert generated[i] in s.cache && generated[i] !in s.store.rules;
    }
  }

  /**
   * With every rule given an ID, the stored rules replace all the defaults the alerter had filled in: each rule starts
   * exactly as first configured, disabled or without cooldown if it was configured that way.
   */
  lemma DefaultsOverwritten(config: seq<AlertRule>, generated: seq<string>, cooldown: int, id: string)
    requires |generated| == |config| && forall i :: 0 <= i < |config| ==> config[i].id != ""
    ensures var cache := Initial(config, generated, cooldown).cache;
            if id in cache then FirstWith(config, id) == Some(cache[id]) else FirstWith(config, id) == None
  {
    SeededIsFirst(config, id);
    FromConfigKeys(config, generated, cooldown, id);
  }

  /** So after any operations on a registry whose rules all have IDs, rules and store agree. */
  lemma {:induction false} CacheAndStoreAgree(config: seq<AlertRule>, generated: seq<string>, cooldown: int,
                                              events: seq<Event>)
    requires |generated| == |config| && forall i :: 0 <= i < |config| ==> config[i].id != ""
    ensures Agree(After(cooldown, Initial(config, generated, cooldown), events))
  {
    var s := Initial(config, generated, cooldown);
    FromConfigKeyed(config, generated, cooldown);
    forall id ensures id in FromConfig(config, generated, cooldown) ==> id in s.store.rules {
      FromConfigKeys(config, generated, cooldown, id);
      SeededIsFirst(config, id);
    }
    forall id | id in s.store.rules ensures s.store.rules[id].id == id {
      SeededIsFirst(config, id);
    }
    RunAgree(cooldown, s, events);
  }

  /**
   * Exactly when rules and store agree whatever is done to a new registry, the random IDs again hitting no configured
   * one.
   */
  lemma {:induction false} AlwaysAgreeIff(config: seq<AlertRule>, generated: seq<string>, cooldown: int)
    requires |generated| == |config| && forall i :: 0 <= i < |config| ==> !Configured(config, generated[i])
    ensures (forall events :: Agree(After(cooldown, Initial(config, generated, cooldown), events))) <==>
            forall i :: 0 <= i < |config| ==> config[i].id != ""
  {
    InitialAgreeIff(config, generated, cooldown);
    var s := Initial(config, generated, cooldown);
    assert After(cooldown, s, []) == s;
    if Agree(s) {
      forall events ensures Agree(After(cooldown, s, events)) {
        RunAgree(cooldown, s, events);
      }
    }
  }

  // ---- The schedule of one rule ----

  /** No event adds, replaces or removes the rule. */
  ghost predicate Untouched(events: seq<Event>, id: string) {
    forall i :: 0 <= i < |events| ==>
      && (events[i].Add? ==> (if events[i].r.id == "" then events[i].generated else events[i].r.id) != id)
      && (events[i].Remove? ==> events[i].id != id)
  }

  /** An evaluation pass that takes place. */
  ghost predicate IsPass(s: Rulebook, e: Event) {
    e.Evaluate? && Possible(s, e)
  }

  /** The times of the passes in which the rule was eligible: enabled, metric present, condition true. */
  ghost function EligibleTimes(cooldown: int, s: Rulebook, events: seq<Event>, id: string): seq<int> {
    if events == [] then []
    else
      var n := |events| - 1;
      var before, e := After(cooldown, s, events[..n]), events[n];
      EligibleTimes(cooldown, s, events[..n], id) +
      if IsPass(before, e) && id in before.cache && Eligible(before.cache[id], ByName(e.snapshots)) then [e.now] else []
  }

  /** The times at which the rule fired. */
  ghost function FiringTimes(cooldown: int, s: Rulebook, events: seq<Event>, id: string): seq<int> {
    if events == [] then []
    else
      var n := |events| - 1;
      var before, e := After(cooldown, s, events[..n]), events[n];
      FiringTimes(cooldown, s, events[..n], id) +
      if IsPass(before, e) && id in before.cache && Fires(before.cache[id], ByName(e.snapshots), e.now)
      then [e.now] else []
  }

  function Last(ts: seq<int>): Option<int> {
    if ts == [] then None else Some(ts[|ts| - 1])
  }

  /** At least `gap` after the last one, if there is a last one and the gap is positive. */
  predicate Spaced(last: Option<int>, t: int, gap: int) {
    gap <= 0 || last.None? || t - last.value >= gap
  }

  /** The greedy selection: take every time that is far enough from the last one taken. */
  function Greedy(ts: seq<int>, gap: int): seq<int> {
    if ts == [] then []
    else
      var g := Greedy(ts[..|ts| - 1], gap);
      if Spaced(Last(g), ts[|ts| - 1], gap) then g + [ts[|ts| - 1]] else g
  }

  /** Durations are 64-bit, so saturation does not change the cooldown test. */
  lemma CoolingDownIsSpacing(r: AlertRule, now: int)
    requires r.cooldown <= MAX_DURATION
    ensures CoolingDown(r, now) <==> !Spaced(r.lastFired, now, r.cooldown)
  {
  }

  /** A rule that starts unfired and is not touched fires exactly on the greedy selection of its eligible passes. */
  lemma {:induction false} FiringsAreGreedy(cooldown: int, s: Rulebook, events: seq<Event>, id: string)
    requires id in s.cache && s.cache[id].id == id && s.cache[id].lastFired == None
             && s.cache[id].cooldown <= MAX_DURATION
    requires Untouched(events, id)
    ensures var t := After(cooldown, s, events);
            && id in t.cache && t.cache[id].id == id && t.cache[id].cooldown == s.cache[id].cooldown
            && t.cache[id].lastFired == Last(FiringTimes(cooldown, s, events, id))
            && FiringTimes(cooldown, s, events, id) ==
               Greedy(EligibleTimes(cooldown, s, events, id), s.cache[id].cooldown)
  {
    if events != [] {
      var n := |events| - 1;
      var before, e := After(cooldown, s, events[..n]), events[n];
      FiringsAreGreedy(cooldown, s, events[..n], id);
      StepKeepsRule(cooldown, before, e, id);
      var eligible, fired := EligibleTimes(cooldown, s, events[..n], id), FiringTimes(cooldown, s, events[..n], id);
      if IsPass(before, e) && Eligible(before.cache[id], ByName(e.snapshots)) {
        CoolingDownIsSpacing(before.cache[id], e.now);
        GreedySnoc(eligible, e.now, s.cache[id].cooldown);
      } else {
        assert eligible + [] == eligible && fired + [] == fired;
      }
    }
  }

  /** What one event does to a rule it does not add or remove: at most, it fires. */
  lemma StepKeepsRule(cooldown: int, s: Rulebook, e: Event, id: string)
    requires id in s.cache && Untouched([e], id)
    ensures var t := Step(cooldown, s, e);
            && id in t.cache && t.cache[id].id == s.cache[id].id && t.cache[id].cooldown == s.cache[id].cooldown
            && t.cache[id].lastFired ==
               if IsPass(s, e) && Fires(s.cache[id], ByName(e.snapshots), e.now)
               then Some(e.now) else s.cache[id].lastFired
  {
    assert [e][0] == e;
  }

  lemma GreedySnoc(ts: seq<int>, t: int, gap: int)
    ensures var g := Greedy(ts, gap);
            Greedy(ts + [t], gap) == if Spaced(Last(g), t, gap) then g + [t] else g
  {
    assert (ts + [t])[..|ts|] == ts;
  }

  /** Consecutive greedy choices are at least the gap apart. */
  lemma {:induction false} GreedySpaced(ts: seq<int>, gap: int, i: nat)
    requires gap > 0 && i + 1 < |Greedy(ts, gap)|
    ensures Greedy(ts, gap)[i + 1] - Greedy(ts, gap)[i] >= gap
  {
    var g := Greedy(ts[..|ts| - 1], gap);
    if i + 1 < |g| {
      GreedySpaced(ts[..|ts| - 1], gap, i);
    }
  }

  ghost predicate Nondecreasing(ts: seq<int>) {
    forall i, j :: 0 <= i < j < |ts| ==> ts[i] <= ts[j]
  }

  /** A selection of positions, ascending, whose times are pairwise at least the gap apart. */
  ghost predicate Selection(sel: seq<nat>, ts: seq<int>, gap: int) {
    && (forall i :: 0 <= i < |sel| ==> sel[i] < |ts|)
    && (forall i, j :: 0 <= i < j < |sel| ==> sel[i] < sel[j] && ts[sel[j]] - ts[sel[i]] >= gap)
  }

  /** Greedy stays ahead: no selection is larger, and one of equal size does not end earlier. */
  lemma {:induction false} GreedyStaysAhead(sel: seq<nat>, ts: seq<int>, gap: int)
    requires gap > 0 && Nondecreasing(ts) && Selection(sel, ts, gap)
    ensures var g := Greedy(ts, gap);
            && |sel| <= |g|
            && (|sel| == |g| > 0 ==> g[|g| - 1] <= ts[sel[|sel| - 1]])
  {
    if sel != [] {
      assert sel[0] < |ts|;
      var n, m := |ts| - 1, |sel| - 1;
      var front := ts[..n];
      assert ts == front + [ts[n]];
      GreedySnoc(front, ts[n], gap);
      SelectionPrefix(sel, ts, gap);
      if sel[m] < n {
        GreedyStaysAhead(sel, front, gap);
      } else {
        GreedyStaysAhead(sel[..m], front, gap);
        GreedyMember(ts, gap);
      }
    }
  }

  /** A selection, or all of it but its last choice, selects from all times but the last. */
  lemma SelectionPrefix(sel: seq<nat>, ts: seq<int>, gap: int)
    requires Selection(sel, ts, gap) && sel != [] && ts != [] && Nondecreasing(ts)
    ensures var n, m := |ts| - 1, |sel| - 1;
            && Nondecreasing(ts[..n])
            && (if sel[m] < n then Selection(sel, ts[..n], gap) else sel[m] == n && Selection(sel[..m], ts[..n], gap))
            && (m > 0 ==> ts[sel[m]] - ts[sel[m - 1]] >= gap)
  {
    var m := |sel| - 1;
    assert forall i :: 0 <= i < m ==> sel[i] < sel[m];
  }

  /** The last greedy choice is not after the last time. */
  lemma {:induction false} GreedyMember(ts: seq<int>, gap: int)
    requires Nondecreasing(ts)
    ensures var g := Greedy(ts, gap);
            g != [] ==> ts != [] && g[|g| - 1] <= ts[|ts| - 1]
  {
    if ts != [] {
      GreedyMember(ts[..|ts| - 1], gap);
    }
  }

  /** The evaluation passes happen on a clock that does not go back. */
  ghost predicate Clocked(events: seq<Event>) {
    forall i, j :: 0 <= i < j < |events| && events[i].Evaluate? && events[j].Evaluate? ==>
      events[i].now <= events[j].now
  }

  lemma {:induction false} EligibleTimesOrdered(cooldown: int, s: Rulebook, events: seq<Event>, id: string, now: int)
    requires Clocked(events) && forall i :: 0 <= i < |events| && events[i].Evaluate? ==> events[i].now <= now
    ensures var ts := EligibleTimes(cooldown, s, events, id);
            Nondecreasing(ts) && forall i :: 0 <= i < |ts| ==> ts[i] <= now
  {
    if events != [] {
      var n := |events| - 1;
      EligibleTimesOrdered(cooldown, s, events[..n], id, if events[n].Evaluate? then events[n].now else now);
    }
  }

  /**
   * The alert schedule: the rule fires on the greedy selection of its eligible passes, so its firings are at least the
   * cooldown apart, and no other selection of eligible passes with that spacing is larger.
   */
  lemma {:induction false} AlertSchedule(cooldown: int, s: Rulebook, events: seq<Event>, id: string, now: int,
                                         sel: seq<nat>)
    requires id in s.cache && s.cache[id].id == id && s.cache[id].lastFired == None
             && 0 < s.cache[id].cooldown <= MAX_DURATION
    requires Untouched(events, id) && Clocked(events)
    requires forall i :: 0 <= i < |events| && events[i].Evaluate? ==> events[i].now <= now
    requires Selection(sel, EligibleTimes(cooldown, s, events, id), s.cache[id].cooldown)
    ensures var fired := FiringTimes(cooldown, s, events, id);
            && (forall i: nat :: i + 1 < |fired| ==> fired[i + 1] - fired[i] >= s.cache[id].cooldown)
            && |sel| <= |fired|
  {
    var ts, gap := EligibleTimes(cooldown, s, events, id), s.cache[id].cooldown;
    FiringsAreGreedy(cooldown, s, events, id);
    EligibleTimesOrdered(cooldown, s, events, id, now);
    GreedyStaysAhead(sel, ts, gap);
    forall i: nat | i + 1 < |Greedy(ts, gap)| ensures Greedy(ts, gap)[i + 1] - Greedy(ts, gap)[i] >= gap {
      GreedySpaced(ts, gap, i);
    }
  }

  /** How many entries are about a rule. */
  function EntriesAbout(entries: seq<LogEntry>, id: string): nat {
    if entries == [] then 0
    else EntriesAbout(entries[..|entries| - 1], id) + if entries[|entries| - 1].ruleId == id then 1 else 0
  }

  lemma EntriesAboutSnoc(entries: seq<LogEntry>, e: LogEntry, id: string)
    ensures EntriesAbout(entries + [e], id) == EntriesAbout(entries, id) + if e.ruleId == id then 1 else 0
  {
    assert (entries + [e])[..|entries|] == entries;
  }

  /** A pass logs each rule that fires exactly once, and no other rule. */
  lemma {:induction false} FiringsLoggedOnce(rules: map<string, AlertRule>, order: seq<string>,
                                             snaps: map<string, MetricSnapshot>, now: int, id: string)
    requires Keyed(rules) && NoDup(order) && Elements(order) <= rules.Keys
    ensures EntriesAbout(EntriesOf(rules, order, snaps, now), id) ==
            if id in order && Fires(rules[id], snaps, now) then 1 else 0
  {
    if order != [] {
      var n := |order| - 1;
      assert forall x :: x in order[..n] ==> x in Elements(order);
      assert order[n] in Elements(order);
      FiringsLoggedOnce(rules, order[..n], snaps, now, id);
      var entries := EntriesOf(rules, order[..n], snaps, now);
      if Fires(rules[order[n]], snaps, now) {
        EntriesAboutSnoc(entries, EntryFor(rules[order[n]], snaps, now), id);
      } else {
        assert EntriesOf(rules, order, snaps, now) == entries;
      }
      assert order == order[..n] + [order[n]];
    }
  }

  // ---- The log ----

  lemma {:induction false} AppendedAllRules(s: StoreState, entries: seq<LogEntry>)
    ensures AppendedAll(s, entries).rules == s.rules
  {
    if entries != [] {
      AppendedAllRules(s, entries[..|entries| - 1]);
    }
  }

  /** The log does not depend on the rules in the store. */
  lemma {:induction false} LogIgnoresRules(s: StoreState, rules: map<string, AlertRule>, entries: seq<LogEntry>)
    ensures AppendedAll(s.(rules := rules), entries) == AppendedAll(s, entries).(rules := rules)
  {
    if entries != [] {
      LogIgnoresRules(s, rules, entries[..|entries| - 1]);
    }
  }

  /** The entries of all firings of a run, oldest first. */
  ghost function Logged(cooldown: int, s: Rulebook, events: seq<Event>): seq<LogEntry> {
    if events == [] then []
    else
      var n := |events| - 1;
      Logged(cooldown, s, events[..n]) + PassEntries(After(cooldown, s, events[..n]), events[n])
  }

  /** The entries of one event. */
  ghost function PassEntries(s: Rulebook, e: Event): seq<LogEntry> {
    if IsPass(s, e) then EntriesOf(s.cache, e.order, ByName(e.snapshots), e.now) else []
  }

  /** What one event does to the log. */
  lemma StepLogs(cooldown: int, s: Rulebook, e: Event)
    ensures var t := Step(cooldown, s, e); t.store == AppendedAll(s.store, PassEntries(s, e)).(rules := t.store.rules)
  {
  }

  /** The log of a run is that of its firings. */
  lemma {:induction false} RunLogs(cooldown: int, s: Rulebook, events: seq<Event>)
    ensures var t := After(cooldown, s, events);
            t.store == AppendedAll(s.store, Logged(cooldown, s, events)).(rules := t.store.rules)
  {
    if events != [] {
      var n := |events| - 1;
      var before, entries := After(cooldown, s, events[..n]), PassEntries(After(cooldown, s, events[..n]), events[n]);
      RunLogs(cooldown, s, events[..n]);
      StepLogs(cooldown, before, events[n]);
      LogIgnoresRules(AppendedAll(s.store, Logged(cooldown, s, events[..n])), before.store.rules, entries);
      AppendedAllSplit(s.store, Logged(cooldown, s, events[..n]), entries);
    }
  }

  lemma {:induction false} LogOfRun(cooldown: int, s: Rulebook, events: seq<Event>)
    ensures After(cooldown, s, events).store.log == AppendedAll(s.store, Logged(cooldown, s, events)).log
  {
    RunLogs(cooldown, s, events);
  }

  /**
   * After any operations on a new registry the log is its last 1000 firings, newest first, numbered from the first
   * one on.
   */
  lemma {:induction false} LogHoldsRecentFirings(config: seq<AlertRule>, generated: seq<string>, cooldown: int,
                                                 events: seq<Event>)
    requires |generated| == |config|
    ensures var s := Initial(config, generated, cooldown);
            var entries, log := Logged(cooldown, s, events), After(cooldown, s, events).store.log;
            && |log| == (if |entries| < 1000 then |entries| else 1000)
            && forall i :: 0 <= i < |log| ==> log[i] == entries[|entries| - 1 - i].(id := |entries| - i)
  {
    var s := Initial(config, generated, cooldown);
    LogOfRun(cooldown, s, events);
    LogIsRing(s.store.rules, Logged(cooldown, s, events));
  }

  /** Along a run the log received one entry about a rule for each of its firings, and no other. */
  lemma {:induction false} RunLogsEachFiring(cooldown: int, s: Rulebook, events: seq<Event>, id: string)
    requires Agree(s)
    ensures EntriesAbout(Logged(cooldown, s, events), id) == |FiringTimes(cooldown, s, events, id)|
  {
    if events != [] {
      var n := |events| - 1;
      var before, e := After(cooldown, s, events[..n]), events[n];
      RunLogsEachFiring(cooldown, s, events[..n], id);
      RunAgree(cooldown, s, events[..n]);
      EntriesAboutConcat(Logged(cooldown, s, events[..n]), PassEntries(before, e), id);
      PassLogs(before, e, id);
    }
  }

  lemma PassLogs(s: Rulebook, e: Event, id: string)
    requires Keyed(s.cache)
    ensures EntriesAbout(PassEntries(s, e), id) ==
            if IsPass(s, e) && id in s.cache && Fires(s.cache[id], ByName(e.snapshots), e.now) then 1 else 0
  {
    if IsPass(s, e) {
      FiringsLoggedOnce(s.cache, e.order, ByName(e.snapshots), e.now, id);
      assert id in e.order <==> id in Elements(e.order);
    }
  }

  lemma {:induction false} EntriesAboutConcat(entries: seq<LogEntry>, more: seq<LogEntry>, id: string)
    ensures EntriesAbout(entries + more, id) == EntriesAbout(entries, id) + EntriesAbout(more, id)
  {
    if more == [] {
      assert entries + more == entries;
    } else {
      var n := |more| - 1;
      EntriesAboutConcat(entries, more[..n], id);
      assert more == more[..n] + [more[n]];
      assert entries + more == (entries + more[..n]) + [more[n]];
      EntriesAboutSnoc(entries + more[..n], more[n], id);
    }
  }
}
