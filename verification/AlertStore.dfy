/** Alert rules, the firing log, and the in-memory store that keeps both (alert_store.go). */
module AlertStores {
  import opened Base

  /** A threshold rule; a rule that has never fired has no `lastFired` (Go's zero time). */
  datatype AlertRule = AlertRule(
    id: string, name: string, metric: string, condition: string, threshold: real, cooldown: int, enabled: bool,
    emailTo: seq<string>, emailSubject: string, emailBody: string, emailHTML: bool, lastFired: Option<int>)

  datatype LogEntry = LogEntry(
    id: int, ruleId: string, ruleName: string, metric: string, value: real, threshold: real, condition: string,
    firedAt: int)

  const LOG_CAP: nat := 1000

  /** The rules, the log newest first, and the number of entries ever appended. */
  datatype StoreState = StoreState(rules: map<string, AlertRule>, log: seq<LogEntry>, count: int)

  const EMPTY_STORE: StoreState := StoreState(map[], [], 0)

  /** Seeding keeps rules that exist already; among new ones with the same ID the first wins. */
  function Seeded(rules: map<string, AlertRule>, config: seq<AlertRule>): map<string, AlertRule> {
    if config == [] then rules
    else
      var n := |config| - 1;
      var before := Seeded(rules, config[..n]);
      if config[n].id in before then before else before[config[n].id := config[n]]
  }

  function Appended(s: StoreState, e: LogEntry): StoreState {
    var log := [e.(id := s.count + 1)] + s.log;
    StoreState(s.rules, if |log| > LOG_CAP then log[..LOG_CAP] else log, s.count + 1)
  }

  class MemoryAlertStore {
    var rules: map<string, AlertRule>
    var log: seq<LogEntry>
    var count: int

    constructor ()
      ensures State() == EMPTY_STORE
    {
      rules, log, count := map[], [], 0;
    }

    function State(): StoreState
      reads this
    {
      StoreState(rules, log, count)
    }

    method SeedFromConfig(config: seq<AlertRule>)
      modifies this`rules
      ensures State() == old(State()).(rules := Seeded(old(rules), config))
    {
      for i := 0 to |config|
        invariant rules == Seeded(old(rules), config[..i])
      {
        assert config[..i + 1][..i] == config[..i];
        if config[i].id !in rules {
          rules := rules[config[i].id := config[i]];
        }
      }
      assert config[..|config|] == config;
    }

    /** All rules; `order` is the order in which the map was ranged over. */
    method LoadRules() returns (out: seq<AlertRule>, ghost order: seq<string>)
      ensures Enumerates(order, rules.Keys) && |out| == |order|
      ensures forall i :: 0 <= i < |out| ==> order[i] in rules && out[i] == rules[order[i]]
      ensures |out| == |rules| && forall id :: id in rules ==> rules[id] in out
    {
      out, order := [], [];
      var todo := rules.Keys;
      while todo != {}
        invariant Ranged(rules, todo, order, out)
      {
        var id :| id in todo;
        RangedNext(rules, todo, order, out, id);
        out, order, todo := out + [rules[id]], order + [id], todo - {id};
      }
      RangedAll(rules, order, out);
    }

    method SaveRule(r: AlertRule)
      modifies this`rules
      ensures State() == old(State()).(rules := old(rules)[r.id := r])
    {
      rules := rules[r.id := r];
    }

    method DeleteRule(id: string)
      modifies this`rules
      ensures State() == old(State()).(rules := old(rules) - {id})
    {
      rules := rules - {id};
    }

    method AppendLog(e: LogEntry)
      modifies this`log, this`count
      ensures State() == Appended(old(State()), e)
    {
      count := count + 1;
      log := [e.(id := count)] + log;
      if |log| > LOG_CAP {
        log := log[..LOG_CAP];
      }
    }

    /** The newest entries, at most `limit` of them when `limit` is positive. */
    method ListLog(limit: int) returns (out: seq<LogEntry>)
      ensures out <= log
      ensures |out| == if 0 < limit < |log| then limit else |log|
    {
      var n := if limit <= 0 || limit > |log| then |log| else limit;
      out := log[..n];
    }
  }

  /** The store after appending entries one by one. */
  function AppendedAll(s: StoreState, entries: seq<LogEntry>): StoreState {
    if entries == [] then s else Appended(AppendedAll(s, entries[..|entries| - 1]), entries[|entries| - 1])
  }

  /** After n appends the log holds the last min(n, 1000) entries, newest first, numbered n, n - 1, and so on. */
  lemma {:induction false} LogIsRing(rules: map<string, AlertRule>, entries: seq<LogEntry>)
    ensures var n := |entries|;
            var s := AppendedAll(StoreState(rules, [], 0), entries);
            && s.rules == rules && s.count == n
            && |s.log| == (if n < 1000 then n else 1000)
            && forall i :: 0 <= i < |s.log| ==> s.log[i] == entries[n - 1 - i].(id := n - i)
  {
    if entries != [] {
      LogIsRing(rules, entries[..|entries| - 1]);
    }
  }

  lemma {:induction false} AppendedAllSplit(s: StoreState, first: seq<LogEntry>, more: seq<LogEntry>)
    ensures AppendedAll(s, first + more) == AppendedAll(AppendedAll(s, first), more)
  {
    if more == [] {
      assert first + more == first;
    } else {
      var n := |more| - 1;
      assert (first + more)[..|first + more| - 1] == first + more[..n];
      AppendedAllSplit(s, first, more[..n]);
    }
  }

  /** The first configured rule with an ID. */
  function FirstWith(config: seq<AlertRule>, id: string): Option<AlertRule> {
    if config == [] then None
    else
      var earlier := FirstWith(config[..|config| - 1], id);
      if earlier.Some? then earlier else if config[|config| - 1].id == id then Some(config[|config| - 1]) else None
  }

  /** Seeding an empty store keeps, per ID, the first rule configured with it. */
  lemma {:induction false} SeededIsFirst(config: seq<AlertRule>, id: string)
    ensures var stored := Seeded(map[], config);
            && (id in stored <==> FirstWith(config, id).Some?)
            && (id in stored ==> FirstWith(config, id) == Some(stored[id]) && stored[id].id == id)
            && (id in stored <==> exists i :: 0 <= i < |config| && config[i].id == id)
  {
    if config != [] {
      var n := |config| - 1;
      SeededIsFirst(config[..n], id);
      if config[n].id == id {
        assert config[n].id == id;
      } else if i :| 0 <= i < |config| && config[i].id == id {
        assert config[..n][i].id == id;
      }
    }
  }
}
