/** Every entry that passes the warm-up is evaluated exactly once by every detector. */
module EngineEvaluation {
  import opened Domain
  import opened Engine

  /** How often an entry passed the warm-up in a run. */
  function Accepted(setup: Setup, steps: seq<Step>, entry: LogEntry): nat {
    if |steps| == 0 then 0
    else
      var last := steps[|steps| - 1];
      Accepted(setup, steps[..|steps| - 1], entry)
      + if last.Begin? && last.now >= setup.warmupUntil && last.entry == entry then 1 else 0
  }

  /** How often detector i has evaluated it. */
  function Evaluations(log: seq<DetectorEvent>, i: nat, entry: LogEntry): nat {
    if |log| == 0 then 0
    else
      var last := log[|log| - 1];
      Evaluations(log[..|log| - 1], i, entry) + if last.Evaluated? && last.det == i && last.entry == entry then 1 else 0
  }

  lemma EvaluationsSnoc(log: seq<DetectorEvent>, e: DetectorEvent, i: nat, entry: LogEntry)
    ensures Evaluations(log + [e], i, entry)
         == Evaluations(log, i, entry) + if e.Evaluated? && e.det == i && e.entry == entry then 1 else 0
  {
    assert (log + [e])[..|log|] == log;
  }

  /** A goroutine has yet to pass the entry to detector i. */
  predicate Due(thread: Thread, i: nat, entry: LogEntry) {
    !thread.Idle? && thread.task.Pipeline? && thread.task.next <= i && thread.task.entry == entry
  }

  function AllDue(threads: seq<Thread>, i: nat, entry: LogEntry): nat {
    if |threads| == 0 then 0
    else AllDue(threads[1..], i, entry) + if Due(threads[0], i, entry) then 1 else 0
  }

  lemma {:induction false} DueUpdate(threads: seq<Thread>, t: nat, thread: Thread, i: nat, entry: LogEntry)
    requires t < |threads|
    ensures AllDue(threads[t := thread], i, entry) + (if Due(threads[t], i, entry) then 1 else 0)
         == AllDue(threads, i, entry) + (if Due(thread, i, entry) then 1 else 0)
  {
    if t == 0 {
      assert threads[t := thread][1..] == threads[1..];
    } else {
      assert threads[t := thread][1..] == threads[1..][t - 1 := thread];
      DueUpdate(threads[1..], t - 1, thread, i, entry);
    }
  }

  lemma {:induction false} NoneDue(threads: seq<Thread>, i: nat, entry: LogEntry)
    requires forall t :: 0 <= t < |threads| ==> threads[t].Idle?
    ensures AllDue(threads, i, entry) == 0
  {
    if |threads| == 0 {
    } else {
      NoneDue(threads[1..], i, entry);
    }
  }

  /** What detector i has seen of an entry or is going to see. */
  function Share(st: State, i: nat, entry: LogEntry): nat {
    Evaluations(st.log, i, entry) + AllDue(st.threads, i, entry)
  }

  lemma ShareBegin(setup: Setup, st: State, t: nat, entry: LogEntry, now: int, i: nat, e: LogEntry)
    requires Ready(setup, st) && Enabled(setup, st, Begin(t, entry, now))
    ensures Share(Next(setup, st, Begin(t, entry, now)), i, e)
         == Share(st, i, e) + if now >= setup.warmupUntil && entry == e then 1 else 0
  {
    DueUpdate(st.threads, t, Running(Pipeline(entry, 0)), i, e);
  }

  lemma ShareCall(setup: Setup, st: State, t: nat, now: int, firedAt: int, outcome: Option<Anomaly>, i: nat, e: LogEntry)
    requires Ready(setup, st) && Enabled(setup, st, Call(t, now, firedAt, outcome))
    ensures Share(CallDetector(setup, st, t, now, firedAt, outcome), i, e) == Share(st, i, e)
  {
    var Pipeline(entry, called) := st.threads[t].task;
    var st' := CallDetector(setup, st, t, now, firedAt, outcome);
    DueUpdate(st.threads, t, st'.threads[t], i, e);
    EvaluationsSnoc(st.log, Evaluated(called, entry, now), i, e);
  }

  lemma ShareVisit(setup: Setup, st: State, det: nat, key: string, evictAt: int, countAt: int, i: nat, e: LogEntry)
    requires Ready(setup, st) && det < |setup.detectors|
    ensures Share(VisitWindow(setup, st, det, key, evictAt, countAt), i, e) == Share(st, i, e)
  {
    EvaluationsSnoc(st.log, Visited(det, key, evictAt, countAt), i, e);
  }

  /** A cooldown check, an increment or a send leaves the rest of its goroutine's task: an
      anomaly that is suppressed or dropped does not keep its entry from other detectors. */
  lemma ShareAnomaly(setup: Setup, st: State, step: Step, i: nat, e: LogEntry)
    requires Ready(setup, st) && Enabled(setup, st, step) && (step.Check? || step.Increment? || step.Send?)
    ensures Share(Next(setup, st, step), i, e) == Share(st, i, e)
  {
    DueUpdate(st.threads, step.t, Next(setup, st, step).threads[step.t], i, e);
  }

  lemma ShareTask(setup: Setup, st: State, step: Step, i: nat, e: LogEntry)
    requires Ready(setup, st) && Enabled(setup, st, step) && i < |setup.detectors|
    requires step.Heartbeat? || step.Pick? || step.Finish?
    ensures Share(Next(setup, st, step), i, e) == Share(st, i, e)
  {
    DueUpdate(st.threads, step.t, Next(setup, st, step).threads[step.t], i, e);
  }

  lemma ShareNext(setup: Setup, st: State, step: Step, i: nat, e: LogEntry)
    requires Ready(setup, st) && Enabled(setup, st, step) && i < |setup.detectors|
    ensures Share(Next(setup, st, step), i, e)
         == Share(st, i, e) + if step.Begin? && step.now >= setup.warmupUntil && step.entry == e then 1 else 0
  {
    if step.Begin? {
      ShareBegin(setup, st, step.t, step.entry, step.now, i, e);
    } else if step.Call? {
      ShareCall(setup, st, step.t, step.now, step.firedAt, step.outcome, i, e);
    } else if step.Visit? {
      ShareVisit(setup, st, step.det, step.key, step.evictAt, step.countAt, i, e);
    } else if step.Check? || step.Increment? || step.Send? {
      ShareAnomaly(setup, st, step, i, e);
    } else if step.Heartbeat? || step.Pick? || step.Finish? {
      ShareTask(setup, st, step, i, e);
    }
  }

  /** In every interleaving, counted with multiplicity: every entry that passed the warm-up
      has been evaluated by detector i exactly once, or its goroutine is still to pass it on. */
  lemma {:induction false} EveryDetectorSeesEveryEntry(setup: Setup, start: int, steps: seq<Step>, i: nat, entry: LogEntry)
    requires IsRun(setup, start, steps) && i < |setup.detectors|
    ensures var st := Reached(setup, start, steps);
            Accepted(setup, steps, entry) == Evaluations(st.log, i, entry) + AllDue(st.threads, i, entry)
    ensures (forall t :: 0 <= t < |Reached(setup, start, steps).threads| ==> Reached(setup, start, steps).threads[t].Idle?) ==>
              Accepted(setup, steps, entry) == Evaluations(Reached(setup, start, steps).log, i, entry)
  {
    var st := Reached(setup, start, steps);
    if |steps| == 0 {
      NoneDue(st.threads, i, entry);
    } else {
      EveryDetectorSeesEveryEntry(setup, start, steps[..|steps| - 1], i, entry);
      ShareNext(setup, Reached(setup, start, steps[..|steps| - 1]), steps[|steps| - 1], i, entry);
    }
    if forall t :: 0 <= t < |st.threads| ==> st.threads[t].Idle? {
      NoneDue(st.threads, i, entry);
    }
  }
}
