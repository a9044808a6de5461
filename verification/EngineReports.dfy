/** Every anomaly that a detector or the watcher brings up gets its cooldown check. */
module EngineReports {
  import opened Domain
  import opened Engine

  /** How often an anomaly occurs. */
  function Times(s: seq<Anomaly>, a: Anomaly): nat {
    if |s| == 0 then 0 else Times(s[..|s| - 1], a) + if s[|s| - 1] == a then 1 else 0
  }

  lemma TimesSnoc(s: seq<Anomaly>, x: Anomaly, a: Anomaly)
    ensures Times(s + [x], a) == Times(s, a) + if x == a then 1 else 0
  {
    assert (s + [x])[..|s|] == s;
  }

  lemma {:induction false} TimesFirst(s: seq<Anomaly>, a: Anomaly)
    requires |s| > 0
    ensures Times(s, a) == Times(s[1..], a) + if s[0] == a then 1 else 0
  {
    if |s| == 1 {
      assert s[..0] == s[1..] == [];
    } else {
      TimesFirst(s[..|s| - 1], a);
      assert s[..|s| - 1][1..] == s[1..][..|s| - 2];
    }
  }

  /** Reports that a goroutine still has to pick. */
  function Pending(thread: Thread, a: Anomaly): nat {
    if !thread.Idle? && thread.task.Reported? then Times(thread.task.rest, a) else 0
  }

  /** It holds the anomaly before its cooldown check. */
  function Unchecked(thread: Thread, a: Anomaly): nat {
    if thread.Checking? && thread.a == a then 1 else 0
  }

  function AllPending(threads: seq<Thread>, a: Anomaly): nat {
    if |threads| == 0 then 0 else Pending(threads[0], a) + AllPending(threads[1..], a)
  }

  function AllUnchecked(threads: seq<Thread>, a: Anomaly): nat {
    if |threads| == 0 then 0 else Unchecked(threads[0], a) + AllUnchecked(threads[1..], a)
  }

  lemma {:induction false} MoveThread(threads: seq<Thread>, t: nat, thread: Thread, a: Anomaly)
    requires t < |threads|
    ensures AllPending(threads[t := thread], a) + Pending(threads[t], a) == AllPending(threads, a) + Pending(thread, a)
    ensures AllUnchecked(threads[t := thread], a) + Unchecked(threads[t], a) == AllUnchecked(threads, a) + Unchecked(thread, a)
  {
    if t == 0 {
      assert threads[t := thread][1..] == threads[1..];
    } else {
      assert threads[t := thread][1..] == threads[1..][t - 1 := thread];
      MoveThread(threads[1..], t - 1, thread, a);
    }
  }

  lemma {:induction false} NothingHeld(threads: seq<Thread>, a: Anomaly)
    requires forall t :: 0 <= t < |threads| ==> threads[t].Idle?
    ensures AllPending(threads, a) == 0 && AllUnchecked(threads, a) == 0
  {
    if |threads| == 0 {
    } else {
      NothingHeld(threads[1..], a);
    }
  }

  // ----- What a step brings up, and what it checks -----

  /** What calling a detector answers. */
  function AnswerTo(setup: Setup, st: State, step: Step): Option<Anomaly>
    requires Ready(setup, st) && Enabled(setup, st, step) && step.Call?
  {
    var Pipeline(entry, i) := st.threads[step.t].task;
    if setup.detectors[i].Other? then step.outcome
    else Evaluate(setup.detectors[i], st.states[i], entry, step.now, step.firedAt, step.outcome).1
  }

  /** A call brings up its answer; a tick of the watcher after the warm-up, all reports. */
  function Brings(setup: Setup, st: State, step: Step, a: Anomaly): nat
    requires Ready(setup, st) && Enabled(setup, st, step)
  {
    if step.Call? then
      if AnswerTo(setup, st, step) == Some(a) then 1 else 0
    else if step.Heartbeat? && step.now >= setup.warmupUntil then Times(step.reports, a)
    else 0
  }

  function Checks(setup: Setup, st: State, step: Step, a: Anomaly): nat
    requires Ready(setup, st) && Enabled(setup, st, step)
  {
    if step.Check? && st.threads[step.t].a == a then 1 else 0
  }

  ghost function BroughtUp(setup: Setup, start: int, steps: seq<Step>, a: Anomaly): nat
    requires IsRun(setup, start, steps)
  {
    if |steps| == 0 then 0
    else
      var front := steps[..|steps| - 1];
      BroughtUp(setup, start, front, a) + Brings(setup, Reached(setup, start, front), steps[|steps| - 1], a)
  }

  ghost function Checked(setup: Setup, start: int, steps: seq<Step>, a: Anomaly): nat
    requires IsRun(setup, start, steps)
  {
    if |steps| == 0 then 0
    else
      var front := steps[..|steps| - 1];
      Checked(setup, start, front, a) + Checks(setup, Reached(setup, start, front), steps[|steps| - 1], a)
  }

  /** A step keeps the books: what is brought up is fired or pending, and what is fired is
      checked or held for its check. */
  ghost predicate Balanced(st: State, st': State, brings: nat, checks: nat, a: Anomaly) {
    && Times(st'.fired, a) + AllPending(st'.threads, a) == Times(st.fired, a) + AllPending(st.threads, a) + brings
    && Times(st.fired, a) + AllUnchecked(st'.threads, a) + checks == Times(st'.fired, a) + AllUnchecked(st.threads, a)
  }

  lemma BalancedHeartbeat(setup: Setup, st: State, step: Step, a: Anomaly)
    requires Ready(setup, st) && Enabled(setup, st, step) && step.Heartbeat?
    ensures Balanced(st, Next(setup, st, step), Brings(setup, st, step, a), 0, a)
  {
    if step.now >= setup.warmupUntil {
      MoveThread(st.threads, step.t, Running(Reported(step.reports)), a);
    }
  }

  lemma BalancedBegin(setup: Setup, st: State, step: Step, a: Anomaly)
    requires Ready(setup, st) && Enabled(setup, st, step) && (step.Begin? || step.Finish?)
    ensures Balanced(st, Next(setup, st, step), 0, 0, a)
  {
    MoveThread(st.threads, step.t, Next(setup, st, step).threads[step.t], a);
    assert st.threads[step.t := st.threads[step.t]] == st.threads;
  }

  lemma BalancedCall(setup: Setup, st: State, step: Step, a: Anomaly)
    requires Ready(setup, st) && Enabled(setup, st, step) && step.Call?
    ensures Balanced(st, Next(setup, st, step), Brings(setup, st, step, a), 0, a)
  {
    var answer := AnswerTo(setup, st, step);
    MoveThread(st.threads, step.t, Next(setup, st, step).threads[step.t], a);
    if answer.Some? {
      TimesSnoc(st.fired, answer.value, a);
    } else {
      assert st.fired + [] == st.fired;
    }
  }

  lemma BalancedPick(setup: Setup, st: State, step: Step, a: Anomaly)
    requires Ready(setup, st) && Enabled(setup, st, step) && step.Pick?
    ensures Balanced(st, Next(setup, st, step), 0, 0, a)
  {
    var rest := st.threads[step.t].task.rest;
    MoveThread(st.threads, step.t, Checking(rest[0], Reported(rest[1..])), a);
    TimesSnoc(st.fired, rest[0], a);
    TimesFirst(rest, a);
  }

  lemma BalancedAnomaly(setup: Setup, st: State, step: Step, a: Anomaly)
    requires Ready(setup, st) && Enabled(setup, st, step) && (step.Check? || step.Increment? || step.Send?)
    ensures Balanced(st, Next(setup, st, step), 0, Checks(setup, st, step, a), a)
  {
    MoveThread(st.threads, step.t, Next(setup, st, step).threads[step.t], a);
  }

  lemma BalancedNext(setup: Setup, st: State, step: Step, a: Anomaly)
    requires Ready(setup, st) && Enabled(setup, st, step)
    ensures Balanced(st, Next(setup, st, step), Brings(setup, st, step, a), Checks(setup, st, step, a), a)
  {
    if step.Heartbeat? {
      BalancedHeartbeat(setup, st, step, a);
    } else if step.Begin? || step.Finish? {
      BalancedBegin(setup, st, step, a);
    } else if step.Call? {
      BalancedCall(setup, st, step, a);
    } else if step.Pick? {
      BalancedPick(setup, st, step, a);
    } else if step.Check? || step.Increment? || step.Send? {
      BalancedAnomaly(setup, st, step, a);
    }
  }

  /** In every interleaving, counted with multiplicity: every anomaly that a detector of any
      kind answered, or that the watcher's check reported after the warm-up, has been fired
      or is still to be picked, and every anomaly fired has had its cooldown check or is held
      for it. */
  lemma {:induction false} EveryAnomalyIsChecked(setup: Setup, start: int, steps: seq<Step>, a: Anomaly)
    requires IsRun(setup, start, steps)
    ensures var st := Reached(setup, start, steps);
            && BroughtUp(setup, start, steps, a) == Times(st.fired, a) + AllPending(st.threads, a)
            && Times(st.fired, a) == Checked(setup, start, steps, a) + AllUnchecked(st.threads, a)
  {
    var st := Reached(setup, start, steps);
    if |steps| == 0 {
      NothingHeld(st.threads, a);
    } else {
      var front, step := steps[..|steps| - 1], steps[|steps| - 1];
      EveryAnomalyIsChecked(setup, start, front, a);
      BalancedNext(setup, Reached(setup, start, front), step, a);
    }
  }

  /** When all goroutines are idle, every one of them has been checked. */
  lemma IdleMeansChecked(setup: Setup, start: int, steps: seq<Step>, a: Anomaly)
    requires IsRun(setup, start, steps)
    requires forall t :: 0 <= t < |Reached(setup, start, steps).threads| ==> Reached(setup, start, steps).threads[t].Idle?
    ensures BroughtUp(setup, start, steps, a) == Checked(setup, start, steps, a)
  {
    EveryAnomalyIsChecked(setup, start, steps, a);
    NothingHeld(Reached(setup, start, steps).threads, a);
  }
}
