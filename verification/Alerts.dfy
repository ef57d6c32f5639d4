/** The alert evaluator (alert.go). */
module Alerts {
  import opened Base
  import opened Metrics
  import opened AlertStores

  /** Whether a value satisfies a condition; unknown conditions never hold. */
  function EvaluateCondition(v: real, condition: string, threshold: real): bool {
    if condition == "gt" then v > threshold
    else if condition == "gte" then v >= threshold
    else if condition == "lt" then v < threshold
    else if condition == "lte" then v <= threshold
    else condition == "eq" && v == threshold
  }

  const MAX_DURATION: int := 0x7fff_ffff_ffff_ffff
  const MIN_DURATION: int := -0x8000_0000_0000_0000

  /** Go's time difference: saturating, and saturated for a rule that has never fired. */
  function Sub(now: int, lastFired: Option<int>): int {
    match lastFired
    case None => MAX_DURATION
    case Some(t) =>
      if now - t > MAX_DURATION then MAX_DURATION else if now - t < MIN_DURATION then MIN_DURATION else now - t
  }

  /** The snapshots by name; of several with one name the last counts. */
  function ByName(snapshots: seq<MetricSnapshot>): map<string, MetricSnapshot> {
    if snapshots == [] then map[]
    else
      var n := |snapshots| - 1;
      ByName(snapshots[..n])[snapshots[n].name := snapshots[n]]
  }

  /** The value a rule looks at: the average of a histogram that has samples, otherwise the plain value. */
  function Observed(snap: MetricSnapshot): real {
    if snap.kind == Histogram && snap.count > 0 then snap.avg else snap.value
  }

  /** The rule is enabled, its metric is present, and its condition holds. */
  predicate Eligible(r: AlertRule, snaps: map<string, MetricSnapshot>) {
    r.enabled && r.metric in snaps && EvaluateCondition(Observed(snaps[r.metric]), r.condition, r.threshold)
  }

  predicate CoolingDown(r: AlertRule, now: int) {
    r.cooldown > 0 && Sub(now, r.lastFired) < r.cooldown
  }

  predicate Fires(r: AlertRule, snaps: map<string, MetricSnapshot>, now: int) {
    Eligible(r, snaps) && !CoolingDown(r, now)
  }

  function Evaluated(r: AlertRule, snaps: map<string, MetricSnapshot>, now: int): AlertRule {
    if Fires(r, snaps, now) then r.(lastFired := Some(now)) else r
  }

  function EvaluatedAll(rules: map<string, AlertRule>, snaps: map<string, MetricSnapshot>,
                        now: int): map<string, AlertRule> {
    map id | id in rules :: Evaluated(rules[id], snaps, now)
  }

  function EntryFor(r: AlertRule, snaps: map<string, MetricSnapshot>, now: int): LogEntry
    requires r.metric in snaps
  {
    LogEntry(0, r.id, r.name, r.metric, Observed(snaps[r.metric]), r.threshold, r.condition, now)
  }

  /** The log entries of one pass that visits the rules in the order `order`. */
  function EntriesOf(rules: map<string, AlertRule>, order: seq<string>, snaps: map<string, MetricSnapshot>,
                     now: int): seq<LogEntry>
    requires Elements(order) <= rules.Keys
  {
    if order == [] then []
    else
      var n := |order| - 1;
      assert forall x :: x in order[..n] ==> x in Elements(order);
      assert order[n] in Elements(order);
      EntriesOf(rules, order[..n], snaps, now) +
        if Fires(rules[order[n]], snaps, now) then [EntryFor(rules[order[n]], snaps, now)] else []
  }

  /**
   * The rules an alerter is created with: every configured rule enabled, missing IDs generated, missing cooldowns
   * defaulted.
   */
  function FromConfig(config: seq<AlertRule>, generated: seq<string>, cooldown: int): map<string, AlertRule>
    requires |generated| == |config|
  {
    if config == [] then map[]
    else
      var n := |config| - 1;
      var r := config[n];
      var id := if r.id == "" then generated[n] else r.id;
      FromConfig(config[..n], generated[..n], cooldown)[id :=
        r.(id := id, cooldown := if r.cooldown == 0 then cooldown else r.cooldown, enabled := true)]
  }

  /** A rule as AddRule files it. */
  function Prepared(r: AlertRule, generated: string, cooldown: int, known: map<string, AlertRule>): AlertRule {
    var id := if r.id == "" then generated else r.id;
    r.(id := id, cooldown := if r.cooldown == 0 then cooldown else r.cooldown, enabled := id !in known || r.enabled)
  }

  /** The alerter's rules and its store. */
  datatype Rulebook = Rulebook(cache: map<string, AlertRule>, store: StoreState)

  /** The rules of a new registry, and an empty log. */
  function Initial(config: seq<AlertRule>, generated: seq<string>, cooldown: int): Rulebook
    requires |generated| == |config|
  {
    var stored := Seeded(map[], config);
    Rulebook(FromConfig(config, generated, cooldown) + stored, StoreState(stored, [], 0))
  }

  /** An operation of the alerter; a pass comes with the order in which it visits the enabled rules. */
  datatype Event =
    | Add(r: AlertRule, generated: string)
    | Remove(id: string)
    | Toggle(id: string, enabled: bool)
    | Evaluate(snapshots: seq<MetricSnapshot>, now: int, order: seq<string>)

  /** The rules a pass visits. */
  function Enabled(rules: map<string, AlertRule>): set<string> {
    set id | id in rules && rules[id].enabled
  }

  /** A pass visits every enabled rule once. */
  ghost predicate Possible(b: Rulebook, e: Event) {
    e.Evaluate? ==> Enumerates(e.order, Enabled(b.cache))
  }

  /** One operation; an event that is not possible does not happen. */
  ghost function Step(cooldown: int, b: Rulebook, e: Event): Rulebook {
    if !Possible(b, e) then b else
    match e
    case Add(r, generated) =>
      var filed := Prepared(r, generated, cooldown, b.cache);
      Rulebook(b.cache[filed.id := filed], b.store.(rules := b.store.rules[filed.id := filed]))
    case Remove(id) => Rulebook(b.cache - {id}, b.store.(rules := b.store.rules - {id}))
    case Toggle(id, enabled) =>
      if id !in b.cache then b
      else
        var r := b.cache[id].(enabled := enabled);
        Rulebook(b.cache[id := r], b.store.(rules := b.store.rules[r.id := r]))
    case Evaluate(snapshots, now, order) =>
      Rulebook(EvaluatedAll(b.cache, ByName(snapshots), now),
               AppendedAll(b.store, EntriesOf(b.cache, order, ByName(snapshots), now)))
  }

  class Alerter {
    const store: MemoryAlertStore
    const cooldown: int
    var rules: map<string, AlertRule>

    /** The whole state as one value. */
    function Book(): Rulebook
      reads this, store
    {
      Rulebook(rules, store.State())
    }

    /** Rules are filed under their own IDs, here and in the store. */
    ghost predicate Valid()
      reads this, store
    {
      Keyed(rules) && Keyed(store.rules)
    }

    /**
     * Creation within a new registry: the store is seeded from the configuration, the alerter is filled from the
     * configuration, and then every stored rule is loaded over it. `generated` are the random IDs drawn on the way.
     */
    constructor (config: seq<AlertRule>, generated: seq<string>, cooldown: int)
      requires |generated| == |config|
      ensures Valid() && fresh(store) && this.cooldown == cooldown
      ensures Book() == Initial(config, generated, cooldown)
    {
      var s := new MemoryAlertStore();
      if |config| > 0 {
        s.SeedFromConfig(config);
      }
      store, this.cooldown := s, cooldown;
      rules := map[];
      new;
      FillFromConfig(config, generated);
      forall id | id in store.rules ensures store.rules[id].id == id {
        SeededIsFirst(config, id);
      }
      FromConfigKeyed(config, generated, cooldown);
      LoadStored();
    }

    method FillFromConfig(config: seq<AlertRule>, generated: seq<string>)
      requires |generated| == |config| && rules == map[]
      modifies this`rules
      ensures rules == FromConfig(config, generated, cooldown)
    {
      for i := 0 to |config|
        invariant rules == FromConfig(config[..i], generated[..i], cooldown)
      {
        var rule := config[i];
        if rule.id == "" {
          rule := rule.(id := generated[i]);
        }
        if rule.cooldown == 0 {
          rule := rule.(cooldown := cooldown);
        }
        rule := rule.(enabled := true);
        rules := rules[rule.id := rule];
        assert config[..i + 1][..i] == config[..i] && generated[..i + 1][..i] == generated[..i];
      }
      assert config[..|config|] == config && generated[..|config|] == generated;
    }

    method LoadStored()
      requires Keyed(store.rules)
      modifies this`rules
      ensures rules == old(rules) + store.rules
    {
      var stored, order := store.LoadRules();
      for i := 0 to |stored|
        invariant rules == old(rules) + Part(store.rules, order[..i])
      {
        PartSnoc(old(rules), store.rules, order, i);
        rules := rules[stored[i].id := stored[i]];
      }
      PartAll(store.rules, order);
      assert order[..|stored|] == order;
    }

    /** Registers a rule or replaces the one with its ID; rules not known before start enabled. */
    method AddRule(r: AlertRule, generated: string) returns (filed: AlertRule)
      requires Valid()
      modifies this`rules, store`rules
      ensures Valid() && filed == Prepared(r, generated, cooldown, old(rules))
      ensures Book() == Step(cooldown, old(Book()), Add(r, generated))
    {
      filed := r;
      if filed.id == "" {
        filed := filed.(id := generated);
      }
      if filed.cooldown == 0 {
        filed := filed.(cooldown := cooldown);
      }
      if filed.id !in rules {
        filed := filed.(enabled := true);
      }
      rules := rules[filed.id := filed];
      store.SaveRule(filed);
    }

    method RemoveRule(id: string)
      requires Valid()
      modifies this`rules, store`rules
      ensures Valid() && Book() == Step(cooldown, old(Book()), Remove(id))
    {
      rules := rules - {id};
      store.DeleteRule(id);
    }

    method ToggleRule(id: string, enabled: bool)
      requires Valid()
      modifies this`rules, store`rules
      ensures Valid() && Book() == Step(cooldown, old(Book()), Toggle(id, enabled))
    {
      if id !in rules {
        return;
      }
      rules := rules[id := rules[id].(enabled := enabled)];
      store.SaveRule(rules[id]);
    }

    /** The enabled rules, in the order of the map range. */
    method EnabledRules() returns (ids: seq<string>)
      ensures Enumerates(ids, Enabled(rules))
    {
      ids := [];
      var todo := rules.Keys;
      while todo != {}
        invariant todo <= rules.Keys && NoDup(ids)
        invariant Elements(ids) == set id | id in rules && id !in todo && rules[id].enabled
      {
        var id :| id in todo;
        todo := todo - {id};
        if rules[id].enabled {
          assert id !in Elements(ids) && Elements(ids + [id]) == Elements(ids) + {id};
          ids := ids + [id];
        }
      }
    }

    /**
     * One evaluation pass: every enabled rule whose metric is present and whose condition holds fires unless it is
     * cooling down; firing updates the rule and appends to the log. `order` is the order of the visits.
     */
    method Evaluate(snapshots: seq<MetricSnapshot>, now: int) returns (ghost order: seq<string>)
      requires Valid()
      modifies this`rules, store`log, store`count
      ensures Valid() && Possible(old(Book()), Event.Evaluate(snapshots, now, order))
      ensures Book() == Step(cooldown, old(Book()), Event.Evaluate(snapshots, now, order))
    {
      var ids := EnabledRules();
      order := ids;
      ghost var none := EntriesOf(rules, [], ByName(snapshots), now);
      if |ids| == 0 {
        assert forall id :: id in rules && rules[id].enabled ==> id in Elements(ids);
        NothingEnabled(rules, ByName(snapshots), now);
        return;
      }
      var snaps := SnapshotMap(snapshots);
      for i := 0 to |ids|
        invariant rules == EvaluatedSome(old(rules), ids[..i], snaps, now)
        invariant Elements(ids[..i]) <= old(rules).Keys
        invariant store.State() == AppendedAll(old(store.State()), EntriesOf(old(rules), ids[..i], snaps, now))
      {
        VisitSteps(old(rules), ids, i, snaps, now);
        EntriesSnoc(old(store.State()), old(rules), ids, i, snaps, now);
        Visit(ids[i], snaps, now);
      }
      assert ids[..|ids|] == ids;
      AllVisited(old(rules), ids, snaps, now);
    }

    method SnapshotMap(snapshots: seq<MetricSnapshot>) returns (snaps: map<string, MetricSnapshot>)
      ensures snaps == ByName(snapshots)
    {
      snaps := map[];
      for i := 0 to |snapshots|
        invariant snaps == ByName(snapshots[..i])
      {
        snaps := snaps[snapshots[i].name := snapshots[i]];
        assert snapshots[..i + 1][..i] == snapshots[..i];
      }
      assert snapshots[..|snapshots|] == snapshots;
    }

    /** Looks at one enabled rule. */
    method Visit(id: string, snaps: map<string, MetricSnapshot>, now: int)
      requires id in rules && rules[id].enabled
      modifies this`rules, store`log, store`count
      ensures rules == old(rules)[id := Evaluated(old(rules)[id], snaps, now)]
      ensures store.State() == if Fires(old(rules)[id], snaps, now)
                               then Appended(old(store.State()), EntryFor(old(rules)[id], snaps, now))
                               else old(store.State())
    {
      var rule := rules[id];
      if rule.metric !in snaps {
        return;
      }
      var snap := snaps[rule.metric];
      var v := snap.value;
      if snap.kind == Histogram && snap.count > 0 {
        v := snap.avg;
      }
      if !EvaluateCondition(v, rule.condition, rule.threshold) {
        return;
      }
      if rule.cooldown > 0 && Sub(now, rule.lastFired) < rule.cooldown {
        return;
      }
      rules := rules[id := rule.(lastFired := Some(now))];
      store.AppendLog(LogEntry(0, rule.id, rule.name, rule.metric, v, rule.threshold, rule.condition, now));
    }
  }

  /** Rules are filed under their own IDs. */
  ghost predicate Keyed(rules: map<string, AlertRule>) {
    forall id :: id in rules ==> rules[id].id == id
  }

  lemma {:induction false} FromConfigKeyed(config: seq<AlertRule>, generated: seq<string>, cooldown: int)
    requires |generated| == |config|
    ensures Keyed(FromConfig(config, generated, cooldown))
  {
    if config != [] {
      FromConfigKeyed(config[..|config| - 1], generated[..|config| - 1], cooldown);
    }
  }

  /** The ID a configured rule is filed under. */
  function FiledId(config: seq<AlertRule>, generated: seq<string>, i: nat): string
    requires i < |config| == |generated|
  {
    if config[i].id == "" then generated[i] else config[i].id
  }

  /** Of several rules filed under one ID the last stays: enabled, and with the default cooldown if it has none. */
  lemma {:induction false} FromConfigLast(config: seq<AlertRule>, generated: seq<string>, cooldown: int, i: nat)
    requires i < |config| == |generated|
    requires forall j :: i < j < |config| ==> FiledId(config, generated, j) != FiledId(config, generated, i)
    ensures var id, filed := FiledId(config, generated, i), FromConfig(config, generated, cooldown);
            && id in filed && filed[id].id == id && filed[id].enabled
            && filed[id].cooldown == (if config[i].cooldown == 0 then cooldown else config[i].cooldown)
            && filed[id].(id := config[i].id, enabled := config[i].enabled, cooldown := config[i].cooldown) == config[i]
  {
    var n := |config| - 1;
    if i < n {
      assert FiledId(config[..n], generated[..n], i) == FiledId(config, generated, i);
      forall j | i < j < n ensures FiledId(config[..n], generated[..n], j) != FiledId(config[..n], generated[..n], i) {
        assert FiledId(config[..n], generated[..n], j) == FiledId(config, generated, j);
      }
      FromConfigLast(config[..n], generated[..n], cooldown, i);
      assert FiledId(config, generated, n) != FiledId(config, generated, i);
    }
  }

  /** The rules with the given IDs. */
  function Part(rules: map<string, AlertRule>, ids: seq<string>): map<string, AlertRule> {
    map id | id in rules && id in ids :: rules[id]
  }

  lemma PartSnoc(base: map<string, AlertRule>, rules: map<string, AlertRule>, ids: seq<string>, i: nat)
    requires i < |ids| && ids[i] in rules
    ensures base + Part(rules, ids[..i + 1]) == (base + Part(rules, ids[..i]))[ids[i] := rules[ids[i]]]
  {
    assert ids[..i + 1] == ids[..i] + [ids[i]];
  }

  lemma PartAll(rules: map<string, AlertRule>, ids: seq<string>)
    requires Enumerates(ids, rules.Keys)
    ensures Part(rules, ids) == rules
  {
    assert forall id :: id in rules ==> id in Elements(ids);
  }

  /** The log after one more visit. */
  lemma EntriesSnoc(s: StoreState, rules: map<string, AlertRule>, ids: seq<string>, i: nat,
                    snaps: map<string, MetricSnapshot>, now: int)
    requires i < |ids| && Elements(ids[..i + 1]) <= rules.Keys && ids[i] in rules && Elements(ids[..i]) <= rules.Keys
    ensures var before := AppendedAll(s, EntriesOf(rules, ids[..i], snaps, now));
            AppendedAll(s, EntriesOf(rules, ids[..i + 1], snaps, now)) ==
            if Fires(rules[ids[i]], snaps, now) then Appended(before, EntryFor(rules[ids[i]], snaps, now)) else before
  {
    var entries := EntriesOf(rules, ids[..i], snaps, now);
    assert ids[..i + 1][..i] == ids[..i];
    if Fires(rules[ids[i]], snaps, now) {
      var e := EntryFor(rules[ids[i]], snaps, now);
      assert (entries + [e])[..|entries|] == entries;
    } else {
      assert entries + [] == entries;
    }
  }

  /** The rules after the given ones have been visited. */
  function EvaluatedSome(rules: map<string, AlertRule>, visited: seq<string>, snaps: map<string, MetricSnapshot>,
                         now: int): map<string, AlertRule> {
    map id | id in rules :: if id in visited then Evaluated(rules[id], snaps, now) else rules[id]
  }

  /** One more visit. */
  lemma VisitSteps(rules: map<string, AlertRule>, ids: seq<string>, i: nat, snaps: map<string, MetricSnapshot>,
                   now: int)
    requires i < |ids| && Enumerates(ids, Enabled(rules))
    ensures ids[i] in rules && EvaluatedSome(rules, ids[..i], snaps, now)[ids[i]] == rules[ids[i]]
            && rules[ids[i]].enabled
    ensures Elements(ids[..i + 1]) <= rules.Keys
    ensures EvaluatedSome(rules, ids[..i + 1], snaps, now) ==
            EvaluatedSome(rules, ids[..i], snaps, now)[ids[i] := Evaluated(rules[ids[i]], snaps, now)]
  {
    assert forall j :: 0 <= j < |ids| ==> ids[j] in Elements(ids);
    assert ids[..i + 1] == ids[..i] + [ids[i]];
  }

  /** Rules that are not enabled are unaffected, so visiting the enabled ones is visiting all. */
  lemma AllVisited(rules: map<string, AlertRule>, ids: seq<string>, snaps: map<string, MetricSnapshot>, now: int)
    requires Enumerates(ids, Enabled(rules))
    ensures EvaluatedSome(rules, ids, snaps, now) == EvaluatedAll(rules, snaps, now)
  {
    assert forall id :: id in ids <==> id in Elements(ids);
  }

  lemma NothingEnabled(rules: map<string, AlertRule>, snaps: map<string, MetricSnapshot>, now: int)
    requires forall id :: id in rules ==> !rules[id].enabled
    ensures EvaluatedAll(rules, snaps, now) == rules
  {
  }
}
