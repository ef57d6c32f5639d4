/**
 * Which samples belong to one series, and what follows for the guard's verdicts along a run (registry.go, labels.go).
 */
module SeriesRuns {
  import opened Base
  import opened Cardinality
  import opened Worlds
  import opened Pipeline
  import opened Admission
  import Labels

  /** Two labels that differ, if at all, in nonempty paths that normalisation identifies. */
  ghost predicate SameLabel(a: Labels.Label, b: Labels.Label) {
    && a.name == b.name
    && (a.value == b.value || (a.name == "path" && a.value != "" && b.value != "" && Labels.SamePath(a.value, b.value)))
  }

  /** Two samples of one series. */
  ghost predicate SameSeries(a: Sample, b: Sample) {
    && a.name == b.name && |a.labels| == |b.labels|
    && forall i :: 0 <= i < |a.labels| ==> SameLabel(a.labels[i], b.labels[i])
  }

  lemma SameLabelCleaned(cfg: Labels.LabelsConfig, a: Labels.Label, b: Labels.Label)
    requires cfg.normalizePaths && SameLabel(a, b)
    ensures Labels.Sanitized(a.name, a.value, cfg) == Labels.Sanitized(b.name, b.value, cfg)
  {
    if a.value != b.value {
      Labels.NormalizeEqualIff(a.value, b.value);
    }
  }

  lemma SameSeriesCleaned(cfg: Config, a: Sample, b: Sample)
    requires cfg.labels.normalizePaths && SameSeries(a, b)
    ensures CleanLabels(cfg, a) == CleanLabels(cfg, b)
  {
    forall i | 0 <= i < |a.labels| ensures CleanLabels(cfg, a)[i] == CleanLabels(cfg, b)[i] {
      SameLabelCleaned(cfg.labels, a.labels[i], b.labels[i]);
    }
  }

  /** The guard as a caller of one series sees it: its verdict on a sample is settled. */
  ghost predicate Decided(cfg: Config, g: Guard, sample: Sample, ok: bool) {
    var labels := CleanLabels(cfg, sample);
    if labels == [] || cfg.maxSeries == 0 then ok
    else Settled(cfg.maxSeries, g, Call(sample.name, Labels.Fingerprint(labels)), ok)
  }

  /** The first look at a sample settles the verdict, and later looks at any samples leave it as it is. */
  lemma {:induction false} VerdictDecided(cfg: Config, samples: seq<Sample>, i: nat, k: nat)
    requires i < k <= |samples|
    ensures Decided(cfg, GuardAfter(cfg, samples[..k]), samples[i], Passes(cfg, samples[..i], samples[i]))
  {
    var n := k - 1;
    assert samples[..k] == samples[..n] + [samples[n]];
    TakenSnoc(cfg, samples[..n], samples[n]);
    if i < n {
      VerdictDecided(cfg, samples, i, n);
      LookKeepsDecided(cfg, GuardAfter(cfg, samples[..n]), samples[n], samples[i],
                       Passes(cfg, samples[..i], samples[i]));
    } else {
      LookDecides(cfg, GuardAfter(cfg, samples[..n]), samples[n]);
    }
  }

  lemma LookDecides(cfg: Config, g: Guard, sample: Sample)
    ensures var (g', ok) := Guarded(cfg, g, sample.name, CleanLabels(cfg, sample)); Decided(cfg, g', sample, ok)
  {
    var labels := CleanLabels(cfg, sample);
    if cfg.maxSeries != 0 && labels != [] {
      OfferSettles(g, cfg.maxSeries, Call(sample.name, Labels.Fingerprint(labels)));
    }
  }

  lemma LookKeepsDecided(cfg: Config, g: Guard, sample: Sample, earlier: Sample, ok: bool)
    requires Decided(cfg, g, earlier, ok)
    ensures Decided(cfg, Guarded(cfg, g, sample.name, CleanLabels(cfg, sample)).0, earlier, ok)
  {
    var labels, known := CleanLabels(cfg, sample), CleanLabels(cfg, earlier);
    if cfg.maxSeries != 0 && labels != [] && known != [] {
      OfferKeepsSettled(g, cfg.maxSeries, Call(sample.name, Labels.Fingerprint(labels)),
                        Call(earlier.name, Labels.Fingerprint(known)), ok);
    }
  }

  /** A settled verdict is the one the guard gives again. */
  lemma DecidedAgain(cfg: Config, g: Guard, sample: Sample, ok: bool)
    requires Decided(cfg, g, sample, ok)
    ensures Guarded(cfg, g, sample.name, CleanLabels(cfg, sample)).1 == ok
  {
  }

  /** With paths normalised, all samples of one series get the verdict of the first. */
  lemma SeriesShareVerdict(cfg: Config, samples: seq<Sample>, i: nat, j: nat)
    requires cfg.labels.normalizePaths && i < j < |samples| && SameSeries(samples[i], samples[j])
    ensures Passes(cfg, samples[..j], samples[j]) == Passes(cfg, samples[..i], samples[i])
  {
    VerdictDecided(cfg, samples, i, j);
    SameSeriesCleaned(cfg, samples[i], samples[j]);
    DecidedAgain(cfg, GuardAfter(cfg, samples[..j]), samples[j], Passes(cfg, samples[..i], samples[i]));
  }

  /** Samples without labels always pass. */
  lemma UnlabelledPass(cfg: Config, earlier: seq<Sample>, sample: Sample)
    requires sample.labels == []
    ensures Passes(cfg, earlier, sample)
  {
  }

  /**
   * Along a run: once a sample has been applied, the next one, if it is of the same series, is applied too; once one
   * has
   * been refused, it is refused.
   */
  lemma {:induction false} NextOfSeries(cfg: Config, events: seq<Event>, now: int, i: nat)
    requires cfg.storageMax >= 1 && cfg.labels.normalizePaths
    requires var s := Pipeline.After(cfg, events);
             && s.phase == Running && s.w.queue != []
             && i < |s.h.accepted| - |s.w.queue| && SameSeries(s.h.accepted[i], s.w.queue[0])
    ensures var s, t := Pipeline.After(cfg, events), Pipeline.After(cfg, events + [Event.Process(now)]);
            var head := s.w.queue[0];
            if Passes(cfg, s.h.accepted[..i], s.h.accepted[i])
            then t.h.applied == s.h.applied + [AppliedSample(head.name, head.value)] && t.h.refused == s.h.refused
            else t.h.applied == s.h.applied && t.h.refused == s.h.refused + [head.name]
  {
    assert (events + [Event.Process(now)])[..|events|] == events;
    RunAdmission(cfg, events);
    NextVerdict(cfg, Pipeline.After(cfg, events), i);
    ProcessEffect(cfg, Pipeline.After(cfg, events), now);
  }

  lemma NextVerdict(cfg: Config, s: State, i: nat)
    requires AdmissionInv(cfg, s) && cfg.labels.normalizePaths && s.w.queue != []
    requires i < |s.h.accepted| - |s.w.queue| && SameSeries(s.h.accepted[i], s.w.queue[0])
    ensures var head := s.w.queue[0];
            Guarded(cfg, s.w.guard, head.name, CleanLabels(cfg, head)).1 ==
              Passes(cfg, s.h.accepted[..i], s.h.accepted[i])
  {
    var p := |s.h.accepted| - |s.w.queue|;
    assert s.h.accepted[p] == s.w.queue[0] && s.h.accepted[..p] == Taken(s);
    SeriesShareVerdict(cfg, s.h.accepted, i, p);
  }
}
