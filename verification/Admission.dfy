/** Which of the samples accepted by the queue reach the metrics, and in which order (registry.go, process). */
module Admission {
  import opened Cardinality
  import opened Tables
  import opened Worlds
  import opened Pipeline

  /** The guard after it has looked at these samples, one after the other. */
  function GuardAfter(cfg: Config, samples: seq<Sample>): Guard {
    if samples == [] then EMPTY
    else
      var n := |samples| - 1;
      Guarded(cfg, GuardAfter(cfg, samples[..n]), samples[n].name, CleanLabels(cfg, samples[n])).0
  }

  /** Whether the guard, having seen the earlier samples, lets the next one pass. */
  function Passes(cfg: Config, earlier: seq<Sample>, sample: Sample): bool {
    Guarded(cfg, GuardAfter(cfg, earlier), sample.name, CleanLabels(cfg, sample)).1
  }

  /** The samples that pass, in order. */
  function Passed(cfg: Config, samples: seq<Sample>): seq<AppliedSample> {
    if samples == [] then []
    else
      var n := |samples| - 1;
      Passed(cfg, samples[..n]) +
      if Passes(cfg, samples[..n], samples[n]) then [AppliedSample(samples[n].name, samples[n].value)] else []
  }

  /** The names of the samples that do not, in order. */
  function Stopped(cfg: Config, samples: seq<Sample>): seq<string> {
    if samples == [] then []
    else
      var n := |samples| - 1;
      Stopped(cfg, samples[..n]) + if Passes(cfg, samples[..n], samples[n]) then [] else [samples[n].name]
  }

  /** Accepted samples that have left the queue. */
  function Taken(s: State): seq<Sample> {
    s.h.accepted[..if |s.w.queue| <= |s.h.accepted| then |s.h.accepted| - |s.w.queue| else 0]
  }

  /**
   * The accepted samples are those taken and those queued; what was taken alone decides guard, refusals and
   * applications.
   */
  ghost predicate AdmissionInv(cfg: Config, s: State) {
    && s.h.accepted == Taken(s) + s.w.queue
    && s.w.guard == GuardAfter(cfg, Taken(s))
    && s.h.applied == Passed(cfg, Taken(s))
    && s.h.refused == Stopped(cfg, Taken(s))
  }

  lemma RecordAdmission(cfg: Config, s: State, sample: Sample)
    requires cfg.storageMax >= 1 && Filed(s.w.table) && AdmissionInv(cfg, s)
    ensures AdmissionInv(cfg, Step(cfg, s, Event.Record(sample)))
  {
    var t := Step(cfg, s, Event.Record(sample));
    assert Taken(t) == Taken(s);
  }

  lemma TakenSnoc(cfg: Config, taken: seq<Sample>, sample: Sample)
    ensures GuardAfter(cfg, taken + [sample]) ==
            Guarded(cfg, GuardAfter(cfg, taken), sample.name, CleanLabels(cfg, sample)).0
    ensures Passed(cfg, taken + [sample]) ==
            Passed(cfg, taken) + if Passes(cfg, taken, sample) then [AppliedSample(sample.name, sample.value)] else []
    ensures Stopped(cfg, taken + [sample]) ==
            Stopped(cfg, taken) + if Passes(cfg, taken, sample) then [] else [sample.name]
  {
    assert (taken + [sample])[..|taken|] == taken;
  }

  /** Moving the head of the queue to the samples taken. */
  lemma MoveHead(s: State, t: State)
    requires s.h.accepted == Taken(s) + s.w.queue && s.w.queue != []
    requires t.h.accepted == s.h.accepted && t.w.queue == s.w.queue[1..]
    ensures Taken(t) == Taken(s) + [s.w.queue[0]] && t.h.accepted == Taken(t) + t.w.queue
  {
    assert t.h.accepted == (Taken(s) + [s.w.queue[0]]) + t.w.queue;
  }

  lemma ProcessAdmission(cfg: Config, s: State, now: int)
    requires Filed(s.w.table) && s.w.queue != [] && AdmissionInv(cfg, s)
    ensures AdmissionInv(cfg, Processing(cfg, s, now))
  {
    ProcessEffect(cfg, s, now);
    MoveHead(s, Processing(cfg, s, now));
    TakenSnoc(cfg, Taken(s), s.w.queue[0]);
  }

  lemma StepAdmission(cfg: Config, s: State, e: Event)
    requires cfg.storageMax >= 1 && Filed(s.w.table) && AdmissionInv(cfg, s)
    ensures AdmissionInv(cfg, Step(cfg, s, e))
  {
    match e
    case Record(sample) => RecordAdmission(cfg, s, sample);
    case Process(now) =>
      if Enabled(s, e) {
        ProcessAdmission(cfg, s, now);
      }
    case _ =>
      assert Taken(Step(cfg, s, e)) == Taken(s);
  }

  /** In every reachable state, which samples were applied and which refused follows from the accepted ones alone. */
  lemma {:induction false} RunAdmission(cfg: Config, events: seq<Event>)
    requires cfg.storageMax >= 1
    ensures AdmissionInv(cfg, Pipeline.After(cfg, events))
  {
    if events != [] {
      RunAdmission(cfg, events[..|events| - 1]);
      StepAdmission(cfg, Pipeline.After(cfg, events[..|events| - 1]), events[|events| - 1]);
    }
  }
}
