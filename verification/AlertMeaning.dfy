/** What conditions, firings, log entries and rule operations mean, in terms of metric values and times (alert.go). */
module AlertMeaning {
  import opened Base
  import opened Metrics
  import opened AlertStores
  import opened Alerts
  import opened AlertRuns

  /** The value a rule sees in a metric: the average of a histogram with samples, of others the value itself. */
  ghost predicate SeenIn(snap: MetricSnapshot, v: real) {
    v == if snap.kind == Histogram && snap.count > 0 then snap.avg else snap.value
  }

  /** The snapshot a rule looks at: the last one of its metric. */
  ghost predicate LastOf(snapshots: seq<MetricSnapshot>, metric: string, i: nat) {
    && i < |snapshots| && snapshots[i].name == metric
    && forall j :: i < j < |snapshots| ==> snapshots[j].name != metric
  }

  lemma {:induction false} ByNameIsLast(snapshots: seq<MetricSnapshot>, metric: string, i: nat)
    requires LastOf(snapshots, metric, i)
    ensures metric in ByName(snapshots) && ByName(snapshots)[metric] == snapshots[i]
  {
    var n := |snapshots| - 1;
    if i < n {
      ByNameIsLast(snapshots[..n], metric, i);
    }
  }

  /** The snapshot of a metric that is present. */
  lemma {:induction false} FindLast(snapshots: seq<MetricSnapshot>, metric: string) returns (i: nat)
    requires metric in ByName(snapshots)
    ensures LastOf(snapshots, metric, i)
  {
    var n := |snapshots| - 1;
    if snapshots[n].name == metric {
      i := n;
    } else {
      i := FindLast(snapshots[..n], metric);
    }
  }

  /**
   * What a pass does to a rule whose metric is present: if it is enabled, its value compares with its threshold the way
   * its condition says, and it has not fired within its cooldown, it fires now; otherwise nothing about it changes.
   */
  lemma PassFires(cooldown: int, s: Rulebook, e: Event, id: string, i: nat, v: real)
    requires IsPass(s, e) && id in s.cache && s.cache[id].cooldown <= MAX_DURATION
    requires LastOf(e.snapshots, s.cache[id].metric, i) && SeenIn(e.snapshots[i], v)
    ensures var r, t := s.cache[id], Step(cooldown, s, e);
            && id in t.cache
            && t.cache[id] ==
               if r.enabled
                  && (r.cooldown <= 0 || r.lastFired == None || e.now - r.lastFired.value >= r.cooldown)
                  && ((r.condition == "gt" && v > r.threshold) || (r.condition == "gte" && v >= r.threshold)
                      || (r.condition == "lt" && v < r.threshold) || (r.condition == "lte" && v <= r.threshold)
                      || (r.condition == "eq" && v == r.threshold))
               then r.(lastFired := Some(e.now)) else r
  {
    ByNameIsLast(e.snapshots, s.cache[id].metric, i);
    CoolingDownIsSpacing(s.cache[id], e.now);
    ConditionMeans(v, s.cache[id].condition, s.cache[id].threshold);
  }

  lemma ConditionMeans(v: real, condition: string, threshold: real)
    ensures EvaluateCondition(v, condition, threshold) <==>
            || (condition == "gt" && v > threshold) || (condition == "gte" && v >= threshold)
            || (condition == "lt" && v < threshold) || (condition == "lte" && v <= threshold)
            || (condition == "eq" && v == threshold)
  {
    assert |"gt"| == |"lt"| == |"eq"| == 2 && |"gte"| == |"lte"| == 3;
    assert "gt"[0] != "lt"[0] && "gt"[0] != "eq"[0] && "lt"[0] != "eq"[0] && "gte"[0] != "lte"[0];
  }

  /** A rule whose metric is absent is left alone. */
  lemma PassWithoutMetric(cooldown: int, s: Rulebook, e: Event, id: string)
    requires IsPass(s, e) && id in s.cache
    requires forall i :: 0 <= i < |e.snapshots| ==> e.snapshots[i].name != s.cache[id].metric
    ensures id in Step(cooldown, s, e).cache && Step(cooldown, s, e).cache[id] == s.cache[id]
  {
    if s.cache[id].metric in ByName(e.snapshots) {
      var i := FindLast(e.snapshots, s.cache[id].metric);
    }
  }

  /** The value of an entry compares with its threshold the way its condition says; no other conditions are logged. */
  ghost predicate Justified(e: LogEntry) {
    || (e.condition == "gt" && e.value > e.threshold)
    || (e.condition == "gte" && e.value >= e.threshold)
    || (e.condition == "lt" && e.value < e.threshold)
    || (e.condition == "lte" && e.value <= e.threshold)
    || (e.condition == "eq" && e.value == e.threshold)
  }

  /** An entry of a pass tells of an enabled rule: its fields, the value it saw, and the time of the pass. */
  ghost predicate TellsOf(entry: LogEntry, s: Rulebook, e: Event)
    requires e.Evaluate?
  {
    && entry.ruleId in s.cache
    && var r := s.cache[entry.ruleId];
       && r.enabled && entry.ruleName == r.name && entry.metric == r.metric
       && entry.threshold == r.threshold && entry.condition == r.condition && entry.firedAt == e.now
       && exists i: nat :: LastOf(e.snapshots, r.metric, i) && SeenIn(e.snapshots[i], entry.value)
  }

  lemma {:induction false} EntriesTell(s: Rulebook, e: Event, order: seq<string>, k: nat)
    requires e.Evaluate? && Keyed(s.cache) && Elements(order) <= s.cache.Keys
    requires k < |EntriesOf(s.cache, order, ByName(e.snapshots), e.now)|
    ensures var entry := EntriesOf(s.cache, order, ByName(e.snapshots), e.now)[k];
            TellsOf(entry, s, e) && Justified(entry)
  {
    var n, snaps := |order| - 1, ByName(e.snapshots);
    assert forall x :: x in order[..n] ==> x in Elements(order);
    assert order[n] in Elements(order);
    var earlier := EntriesOf(s.cache, order[..n], snaps, e.now);
    if k < |earlier| {
      EntriesTell(s, e, order[..n], k);
    } else {
      EntryTells(s, e, order[n]);
    }
  }

  lemma EntryTells(s: Rulebook, e: Event, id: string)
    requires e.Evaluate? && Keyed(s.cache) && id in s.cache && Fires(s.cache[id], ByName(e.snapshots), e.now)
    ensures var entry := EntryFor(s.cache[id], ByName(e.snapshots), e.now); TellsOf(entry, s, e) && Justified(entry)
  {
    var r, snaps := s.cache[id], ByName(e.snapshots);
    var i := FindLast(e.snapshots, r.metric);
    ByNameIsLast(e.snapshots, r.metric, i);
    assert SeenIn(e.snapshots[i], Observed(snaps[r.metric]));
    ConditionMeans(Observed(snaps[r.metric]), r.condition, r.threshold);
  }

  lemma PassEntriesTell(s: Rulebook, e: Event, k: nat)
    requires Keyed(s.cache) && k < |PassEntries(s, e)|
    ensures IsPass(s, e) && TellsOf(PassEntries(s, e)[k], s, e) && Justified(PassEntries(s, e)[k])
  {
    EntriesTell(s, e, e.order, k);
  }

  /** Every entry ever logged along a run is justified by its value, and tells of the pass that logged it. */
  lemma {:induction false} LoggedAreJustified(cooldown: int, s: Rulebook, events: seq<Event>, k: nat) returns (at: nat)
    requires Agree(s) && k < |Logged(cooldown, s, events)|
    ensures Justified(Logged(cooldown, s, events)[k])
    ensures at < |events| && IsPass(After(cooldown, s, events[..at]), events[at])
    ensures TellsOf(Logged(cooldown, s, events)[k], After(cooldown, s, events[..at]), events[at])
  {
    var n := |events| - 1;
    var before := After(cooldown, s, events[..n]);
    var earlier := Logged(cooldown, s, events[..n]);
    RunAgree(cooldown, s, events[..n]);
    if k < |earlier| {
      at := LoggedAreJustified(cooldown, s, events[..n], k);
      assert events[..n][..at] == events[..at];
    } else {
      at := n;
      PassEntriesTell(before, events[n], k - |earlier|);
    }
  }

  /** So is every entry in the log of a registry whose rules all have IDs. */
  lemma {:induction false} LogIsJustified(config: seq<AlertRule>, generated: seq<string>, cooldown: int,
                                          events: seq<Event>, i: nat)
    requires |generated| == |config| && forall i :: 0 <= i < |config| ==> config[i].id != ""
    requires i < |After(cooldown, Initial(config, generated, cooldown), events).store.log|
    ensures Justified(After(cooldown, Initial(config, generated, cooldown), events).store.log[i])
  {
    var s := Initial(config, generated, cooldown);
    CacheAndStoreAgree(config, generated, cooldown, []);
    LogHoldsRecentFirings(config, generated, cooldown, events);
    var at := LoggedAreJustified(cooldown, s, events, |Logged(cooldown, s, events)| - 1 - i);
  }

  // ---- Rule operations ----

  /** Only the rule with this ID may have changed. */
  ghost predicate OthersSame(before: map<string, AlertRule>, after: map<string, AlertRule>, id: string) {
    forall other :: other != id ==>
      (other in after <==> other in before) && (other in before ==> after[other] == before[other])
  }

  /** A toggled rule has the flag it was given, here and in the store; nothing else changes. */
  lemma ToggledHasFlag(cooldown: int, s: Rulebook, id: string, flag: bool)
    requires Agree(s) && id in s.cache
    ensures var t := Step(cooldown, s, Toggle(id, flag));
            && id in t.cache && id in t.store.rules
            && t.cache[id].enabled == flag && t.cache[id].(enabled := s.cache[id].enabled) == s.cache[id]
            && t.store.rules[id] == t.cache[id]
            && OthersSame(s.cache, t.cache, id) && OthersSame(s.store.rules, t.store.rules, id)
               && t.store.log == s.store.log
  {
  }

  /**
   * An added rule is filed under its ID, or under the generated one, here and in the store, with the default cooldown
   * if
   * it has none; one not known before is enabled, one that replaces another has the flag it came with.
   */
  lemma AddedIsFiled(cooldown: int, s: Rulebook, r: AlertRule, generated: string)
    ensures var t := Step(cooldown, s, Add(r, generated));
            var id := if r.id == "" then generated else r.id;
            && id in t.cache && id in t.store.rules && t.store.rules[id] == t.cache[id]
            && t.cache[id].id == id
            && t.cache[id].cooldown == (if r.cooldown == 0 then cooldown else r.cooldown)
            && t.cache[id].enabled == (r.enabled || id !in s.cache)
            && t.cache[id].(id := r.id, cooldown := r.cooldown, enabled := r.enabled) == r
            && OthersSame(s.cache, t.cache, id) && OthersSame(s.store.rules, t.store.rules, id)
               && t.store.log == s.store.log
  {
  }

  /** No event adds a rule under this ID. */
  ghost predicate NeverAdded(events: seq<Event>, id: string) {
    forall i :: 0 <= i < |events| && events[i].Add? ==>
      (if events[i].r.id == "" then events[i].generated else events[i].r.id) != id
  }

  /** A removed rule is gone, here and in the store, and does not fire, whatever happens but its being added again. */
  lemma {:induction false} RemovedStaysGone(cooldown: int, s: Rulebook, id: string, events: seq<Event>)
    requires Agree(s) && NeverAdded(events, id)
    ensures var removed := Step(cooldown, s, Remove(id));
            var t := After(cooldown, removed, events);
            && id !in t.cache && id !in t.store.rules
            && FiringTimes(cooldown, removed, events, id) == []
            && EntriesAbout(Logged(cooldown, removed, events), id) == 0
  {
    var removed := Step(cooldown, s, Remove(id));
    StepAgree(cooldown, s, Remove(id));
    if events != [] {
      var n := |events| - 1;
      RemovedStaysGone(cooldown, s, id, events[..n]);
      RunAgree(cooldown, removed, events[..n]);
      StepAgree(cooldown, After(cooldown, removed, events[..n]), events[n]);
      StepAddsNone(cooldown, After(cooldown, removed, events[..n]), events[n], id);
    }
    RunLogsEachFiring(cooldown, removed, events, id);
  }

  lemma StepAddsNone(cooldown: int, s: Rulebook, e: Event, id: string)
    requires id !in s.cache && NeverAdded([e], id)
    ensures id !in Step(cooldown, s, e).cache
  {
    assert [e][0] == e;
  }
}
