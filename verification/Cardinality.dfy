/** The cardinality guard: caps the distinct label fingerprints accepted per metric (labels.go). */
module Cardinality {
  import opened Base

  /** What the guard remembers: accepted fingerprints and refusal counts, per metric name. */
  datatype Guard = Guard(seen: map<string, set<string>>, dropped: map<string, nat>)

  const EMPTY: Guard := Guard(map[], map[])

  function Seen(g: Guard, name: string): set<string> {
    if name in g.seen then g.seen[name] else {}
  }

  function Dropped(g: Guard, name: string): nat {
    if name in g.dropped then g.dropped[name] else 0
  }

  /** One call: the guard afterwards and the verdict. */
  function Offer(g: Guard, maxPer: int, name: string, fp: string): (Guard, bool) {
    if maxPer == 0 then (g, true)
    else
      var known := Seen(g, name);
      var entered := if name in g.seen then g else g.(seen := g.seen[name := {}]);
      if fp in known then (entered, true)
      else if |known| >= maxPer then (entered.(dropped := g.dropped[name := Dropped(g, name) + 1]), false)
      else (entered.(seen := g.seen[name := known + {fp}]), true)
  }

  class CardinalityTracker {
    const maxPer: int
    var seen: map<string, set<string>>
    var dropped: map<string, nat>

    constructor (maxPer: int)
      ensures this.maxPer == maxPer && State() == EMPTY
    {
      this.maxPer := maxPer;
      seen := map[];
      dropped := map[];
    }

    function State(): Guard
      reads this
    {
      Guard(seen, dropped)
    }

    method Allow(name: string, fp: string) returns (ok: bool)
      modifies this
      ensures var after := Offer(old(State()), maxPer, name, fp); State() == after.0 && ok == after.1
    {
      if maxPer == 0 {
        return true;
      }
      if name !in seen {
        seen := seen[name := {}];
      }
      if fp in seen[name] {
        return true;
      }
      if |seen[name]| >= maxPer {
        dropped := dropped[name := (if name in dropped then dropped[name] else 0) + 1];
        return false;
      }
      seen := seen[name := seen[name] + {fp}];
      return true;
    }

    /** Distinct series accepted for a metric. */
    method SeriesCount(name: string) returns (n: nat)
      ensures n == |Seen(State(), name)|
    {
      return if name in seen then |seen[name]| else 0;
    }

    /** Samples refused for a metric. */
    method DroppedCount(name: string) returns (n: nat)
      ensures n == Dropped(State(), name)
    {
      return if name in dropped then dropped[name] else 0;
    }
  }

  datatype Call = Call(name: string, fp: string)

  /** The guard after a sequence of calls. */
  function After(maxPer: int, calls: seq<Call>): Guard {
    if calls == [] then EMPTY
    else
      var n := |calls| - 1;
      Offer(After(maxPer, calls[..n]), maxPer, calls[n].name, calls[n].fp).0
  }

  /** The verdict on the call at position `i`, given when it was made. */
  function Verdict(maxPer: int, calls: seq<Call>, i: nat): bool
    requires i < |calls|
  {
    Offer(After(maxPer, calls[..i]), maxPer, calls[i].name, calls[i].fp).1
  }

  /** The fingerprints offered for one name, in order. */
  function Offered(calls: seq<Call>, name: string): seq<string> {
    if calls == [] then []
    else
      var n := |calls| - 1;
      Offered(calls[..n], name) + if calls[n].name == name then [calls[n].fp] else []
  }

  /** The distinct elements in order of first appearance. */
  function Distinct(s: seq<string>): seq<string> {
    if s == [] then []
    else
      var d := Distinct(s[..|s| - 1]);
      if s[|s| - 1] in d then d else d + [s[|s| - 1]]
  }

  /** The first `k` distinct elements, or all of them when there are fewer. */
  function FirstDistinct(s: seq<string>, k: int): seq<string> {
    var d := Distinct(s);
    if k < 0 then [] else if k < |d| then d[..k] else d
  }

  /** How many calls for `name` were refused. */
  function Refusals(maxPer: int, calls: seq<Call>, name: string): nat {
    if calls == [] then 0
    else
      var n := |calls| - 1;
      Refusals(maxPer, calls[..n], name) + if calls[n].name == name && !Verdict(maxPer, calls, n) then 1 else 0
  }

  lemma {:induction false} DistinctIs(s: seq<string>)
    ensures NoDup(Distinct(s)) && Elements(Distinct(s)) == Elements(s)
  {
    if s != [] {
      DistinctIs(s[..|s| - 1]);
      assert Elements(s) == Elements(s[..|s| - 1]) + {s[|s| - 1]};
      var d := Distinct(s[..|s| - 1]);
      assert s[|s| - 1] in d <==> s[|s| - 1] in Elements(d);
      assert Elements(d + [s[|s| - 1]]) == Elements(d) + {s[|s| - 1]};
    }
  }

  lemma FirstDistinctSize(s: seq<string>, k: int)
    ensures var f := FirstDistinct(s, k);
            NoDup(f) && |Elements(f)| == |f| && (|f| < k ==> f == Distinct(s)) && (k >= 0 ==> |f| <= k)
  {
    DistinctIs(s);
    NoDupSize(FirstDistinct(s, k));
  }

  lemma FirstDistinctSnoc(s: seq<string>, x: string, k: int)
    ensures var f := FirstDistinct(s, k);
            FirstDistinct(s + [x], k) == if x in f || |f| >= k then f else f + [x]
  {
    assert (s + [x])[..|s|] == s;
    FirstDistinctSize(s, k);
  }

  /** What one call does to the accepted set and the refusal count of every metric. */
  lemma OfferEffect(g: Guard, maxPer: int, call: Call, name: string)
    requires maxPer != 0
    ensures var (g', ok) := Offer(g, maxPer, call.name, call.fp);
            var known := Seen(g, name);
            && (call.name != name ==> Seen(g', name) == known && Dropped(g', name) == Dropped(g, name))
            && (call.name == name ==>
                && (ok <==> call.fp in known || |known| < maxPer)
                && Seen(g', name) == (if ok then known + {call.fp} else known)
                && Dropped(g', name) == Dropped(g, name) + if ok then 0 else 1)
  {
  }

  /** The accepted set after one more fingerprint, in the terms of a call. */
  lemma AcceptStep(s: seq<string>, x: string, k: int)
    ensures var known := Elements(FirstDistinct(s, k));
            Elements(FirstDistinct(s + [x], k)) == if x in known || |known| < k then known + {x} else known
  {
    var f := FirstDistinct(s, k);
    FirstDistinctSize(s, k);
    FirstDistinctSnoc(s, x, k);
    ElementsSnoc(f, x);
    assert x in f ==> Elements(f) + {x} == Elements(f);
  }

  /** With a cap, the accepted set is always the first distinct fingerprints offered, as many as the cap allows. */
  lemma {:induction false} GuardRefinesFirstDistinct(maxPer: int, calls: seq<Call>, name: string)
    requires maxPer != 0
    ensures Seen(After(maxPer, calls), name) == Elements(FirstDistinct(Offered(calls, name), maxPer))
    ensures Dropped(After(maxPer, calls), name) == Refusals(maxPer, calls, name)
  {
    if calls == [] {
      assert FirstDistinct([], maxPer) == [];
    } else {
      var n := |calls| - 1;
      var offered := Offered(calls[..n], name);
      GuardRefinesFirstDistinct(maxPer, calls[..n], name);
      OfferEffect(After(maxPer, calls[..n]), maxPer, calls[n], name);
      if calls[n].name == name {
        AcceptStep(offered, calls[n].fp, maxPer);
      } else {
        assert Offered(calls, name) == offered;
      }
    }
  }

  lemma ElementsSnoc(f: seq<string>, x: string)
    ensures Elements(f + [x]) == Elements(f) + {x}
    ensures x in f <==> x in Elements(f)
  {
  }

  /** The verdict on a call agrees with the guard's state: allowed means seen, refused means unseen and no room. */
  predicate Settled(maxPer: int, g: Guard, call: Call, ok: bool) {
    var seen := Seen(g, call.name);
    (ok <==> call.fp in seen) && (!ok ==> |seen| >= maxPer)
  }

  lemma OfferSettles(g: Guard, maxPer: int, call: Call)
    requires maxPer != 0
    ensures var (g', ok) := Offer(g, maxPer, call.name, call.fp); Settled(maxPer, g', call, ok)
  {
    OfferEffect(g, maxPer, call, call.name);
  }

  lemma OfferKeepsSettled(g: Guard, maxPer: int, call: Call, earlier: Call, ok: bool)
    requires maxPer != 0 && Settled(maxPer, g, earlier, ok)
    ensures Settled(maxPer, Offer(g, maxPer, call.name, call.fp).0, earlier, ok)
  {
    OfferEffect(g, maxPer, call, earlier.name);
    var known := Seen(g, earlier.name);
    assert call.fp in known ==> known + {call.fp} == known;
  }

  lemma VerdictOfPrefix(maxPer: int, calls: seq<Call>, n: nat, i: nat)
    requires i < n <= |calls|
    ensures Verdict(maxPer, calls[..n], i) == Verdict(maxPer, calls, i)
  {
    assert calls[..n][..i] == calls[..i];
  }

  /** Once accepted, a fingerprint stays accepted; once refused, it stays refused. */
  lemma {:induction false} VerdictsAreFinal(maxPer: int, calls: seq<Call>, i: nat)
    requires maxPer != 0 && i < |calls|
    ensures Settled(maxPer, After(maxPer, calls), calls[i], Verdict(maxPer, calls, i))
  {
    var n := |calls| - 1;
    var before := After(maxPer, calls[..n]);
    if i == n {
      OfferSettles(before, maxPer, calls[n]);
    } else {
      VerdictsAreFinal(maxPer, calls[..n], i);
      VerdictOfPrefix(maxPer, calls, n, i);
      OfferKeepsSettled(before, maxPer, calls[n], calls[i], Verdict(maxPer, calls, i));
    }
  }

  /** Without a cap every call is allowed and nothing is remembered. */
  lemma {:induction false} NoCapAllowsAll(calls: seq<Call>)
    ensures After(0, calls) == EMPTY
    ensures forall i :: 0 <= i < |calls| ==> Verdict(0, calls, i)
  {
    if calls != [] {
      NoCapAllowsAll(calls[..|calls| - 1]);
    }
  }

  /** No metric ever has more series than the cap. */
  lemma {:induction false} SeriesBounded(maxPer: int, calls: seq<Call>, name: string)
    requires maxPer > 0
    ensures |Seen(After(maxPer, calls), name)| <= maxPer
  {
    GuardRefinesFirstDistinct(maxPer, calls, name);
    FirstDistinctSize(Offered(calls, name), maxPer);
  }
}
