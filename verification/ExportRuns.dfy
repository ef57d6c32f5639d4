/** Successive exports of one histogram along a run of the pipeline (otlp.go, registry.go). */
module ExportRuns {
  import opened Metrics
  import opened Histograms
  import Otlp
  import opened Worlds
  import opened Pipeline
  import opened WindowBuckets
  import Tables

  lemma {:induction false} AppliedToConcat(applied: seq<AppliedSample>, more: seq<AppliedSample>, name: string)
    ensures AppliedTo(applied + more, name) == AppliedTo(applied, name) + AppliedTo(more, name)
  {
    if more == [] {
      assert applied + more == applied;
    } else {
      var n := |more| - 1;
      AppliedToConcat(applied, more[..n], name);
      assert applied + more == (applied + more[..n]) + [AppliedSample(more[n].name, more[n].value)];
      AppliedToSnoc(applied + more[..n], more[n].name, more[n].value, name);
    }
  }

  /** A later state has applied the same samples and perhaps more, evicted the same names and perhaps more. */
  ghost predicate Follows(before: State, after: State) {
    && before.h.applied <= after.h.applied
    && DefinitionsKept(before.w.table.metrics, before.h.evicted, after.w.table.metrics, after.h.evicted)
  }

  lemma StepFollows(cfg: Config, s: State, e: Event)
    requires cfg.storageMax >= 1 && Tables.Filed(s.w.table)
    ensures Follows(s, Step(cfg, s, e))
  {
    StepKeepsDefinitions(cfg, s, e);
  }

  lemma FollowsTransitive(a: State, b: State, c: State)
    requires Follows(a, b) && Follows(b, c)
    ensures Follows(a, c)
  {
  }

  lemma {:induction false} RunFollows(cfg: Config, events: seq<Event>, i: nat)
    requires cfg.storageMax >= 1 && i <= |events|
    ensures Follows(Pipeline.After(cfg, events[..i]), Pipeline.After(cfg, events))
  {
    var n := |events| - 1;
    if i <= n {
      assert events[..n][..i] == events[..i];
      RunFollows(cfg, events[..n], i);
      StepFollows(cfg, Pipeline.After(cfg, events[..n]), events[n]);
      FollowsTransitive(Pipeline.After(cfg, events[..i]), Pipeline.After(cfg, events[..n]),
                        Pipeline.After(cfg, events));
    } else {
      assert events[..i] == events;
    }
  }

  /** A live metric that was never evicted reflects all the samples applied under its name. */
  lemma {:induction false} ReflectsApplied(cfg: Config, events: seq<Event>, name: string)
    requires cfg.storageMax >= 1
    requires var s := Pipeline.After(cfg, events); name in s.w.table.metrics && name !in s.h.evicted
    ensures var s := Pipeline.After(cfg, events); Reflects(s.w.table.metrics[name], AppliedTo(s.h.applied, name))
  {
    RunLiveInv(cfg, events);
    var s := Pipeline.After(cfg, events);
    assert s.h.since[name] == Of(s.h.since, name);
  }

  lemma AppliedToGrows(before: seq<AppliedSample>, after: seq<AppliedSample>, name: string) returns (more: seq<real>)
    requires before <= after
    ensures AppliedTo(after, name) == AppliedTo(before, name) + more
  {
    assert after == before + after[|before|..];
    AppliedToConcat(before, after[|before|..], name);
    more := AppliedTo(after[|before|..], name);
  }

  /**
   * Exports at two points of a run, between which the histogram is not evicted, are cumulative: the same bounds, and no
   * bucket count or count that decreases. Counts fit 64 bits.
   */
  lemma {:induction false} RunExportsCumulative(cfg: Config, events: seq<Event>, i: nat, name: string)
    requires cfg.storageMax >= 1 && i <= |events|
    requires var before, after := Pipeline.After(cfg, events[..i]), Pipeline.After(cfg, events);
             && name in before.w.table.metrics && name !in after.h.evicted
             && before.w.table.metrics[name].def.kind == Histogram
                && ExactBounds(before.w.table.metrics[name].def.bounds)
             && |AppliedTo(after.h.applied, name)| < 0x1_0000_0000_0000_0000
    ensures var before, after := Pipeline.After(cfg, events[..i]), Pipeline.After(cfg, events);
            && name in after.w.table.metrics && after.w.table.metrics[name].def == before.w.table.metrics[name].def
            && Otlp.CumulativePoints(Otlp.PointOf(before.w.table.metrics[name]),
                                     Otlp.PointOf(after.w.table.metrics[name]))
  {
    var before, after := Pipeline.After(cfg, events[..i]), Pipeline.After(cfg, events);
    RunFollows(cfg, events, i);
    ReflectsApplied(cfg, events[..i], name);
    ReflectsApplied(cfg, events, name);
    var more := AppliedToGrows(before.h.applied, after.h.applied, name);
    Otlp.ExportsCumulative(before.w.table.metrics[name], after.w.table.metrics[name],
                           AppliedTo(before.h.applied, name), more);
  }
}
