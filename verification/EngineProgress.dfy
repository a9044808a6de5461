/** No goroutine of the engine is ever stuck: whatever the others do and however full the
    channel is, it can go on, and it is idle again after boundedly many steps of its own. */
module EngineProgress {
  import opened Domain
  import opened Engine

  /** The goroutine that takes a step; None for the dispatcher and the eviction loop. */
  function Actor(step: Step): Option<nat> {
    match step
    case Begin(t, _, _) => Some(t)
    case Heartbeat(t, _, _) => Some(t)
    case Call(t, _, _, _) => Some(t)
    case Pick(t) => Some(t)
    case Finish(t) => Some(t)
    case Check(t, _, _) => Some(t)
    case Increment(t) => Some(t)
    case Send(t) => Some(t)
    case _ => None
  }

  /** The goroutine is about to call a detector that is not modelled, of the given rule. */
  predicate CallsOther(setup: Setup, st: State, t: nat, rule: string) {
    && t < |st.threads| && st.threads[t].Running? && st.threads[t].task.Pipeline?
    && st.threads[t].task.next < |setup.detectors|
    && setup.detectors[st.threads[t].task.next] == Detector.Other(rule)
  }

  /** Such a detector may bring up any anomaly of its rule, or none. */
  lemma AnyOutcomeMayCome(setup: Setup, st: State, t: nat, a: Anomaly, now: int, later: int)
    requires Ready(setup, st) && st.clock <= now <= later && CallsOther(setup, st, t, a.ruleID)
    ensures Enabled(setup, st, Call(t, now, later, Some(a))) && Enabled(setup, st, Call(t, now, later, None))
  {
  }

  /** Whatever comes from outside is possible at any time: any entry and any reports of
      the silence rule for an idle goroutine, any visit of a window or a cooldown entry, with
      any readings of the clock. */
  lemma AnythingMayHappen(setup: Setup, st: State, now: int, later: int)
    requires Ready(setup, st) && st.clock <= now <= later
    ensures forall t: nat, entry :: t < setup.threads && st.threads[t].Idle? ==> Enabled(setup, st, Begin(t, entry, now))
    ensures forall t: nat, reports: seq<Anomaly> :: t < setup.threads && st.threads[t].Idle? ==>
              (Enabled(setup, st, Heartbeat(t, now, reports))
               <==> forall j :: 0 <= j < |reports| ==> reports[j].ruleID == "service_silence")
    ensures forall t: nat :: t < setup.threads && st.threads[t].Checking? ==> Enabled(setup, st, Check(t, now, later))
    ensures forall det: nat, key :: det < |setup.detectors| ==> Enabled(setup, st, Visit(det, key, now, later))
    ensures forall alert :: Enabled(setup, st, Expire(alert, now))
    ensures forall ok :: st.dispatcher.Storing? ==> Enabled(setup, st, Store(ok))
    ensures forall ok :: st.dispatcher.Alerting? ==> Enabled(setup, st, Alert(ok))
    ensures st.dispatcher.Waiting? ==> Enabled(setup, st, StopDispatch)
  {
  }

  /** Four steps at most for every detector still to call or report still to pick. */
  function TaskLeft(setup: Setup, task: Task): nat {
    match task
    case Pipeline(_, next) => if next < |setup.detectors| then 4 * (|setup.detectors| - next) else 0
    case Reported(rest) => 4 * |rest|
  }

  function WorkLeft(setup: Setup, thread: Thread): nat {
    match thread
    case Idle => 0
    case Running(task) => TaskLeft(setup, task) + 1
    case Sending(_, task) => TaskLeft(setup, task) + 2
    case Tallying(_, task) => TaskLeft(setup, task) + 3
    case Checking(_, task) => TaskLeft(setup, task) + 4
  }

  /** A busy goroutine can always take a step. */
  lemma NeverStuck(setup: Setup, st: State, t: nat) returns (step: Step)
    requires Ready(setup, st) && t < |st.threads| && !st.threads[t].Idle?
    ensures Enabled(setup, st, step) && Actor(step) == Some(t)
  {
    match st.threads[t]
    case Running(Pipeline(_, next)) =>
      step := if next < |setup.detectors| then Call(t, st.clock, st.clock, None) else Finish(t);
    case Running(Reported(rest)) =>
      step := if |rest| > 0 then Pick(t) else Finish(t);
    case Checking(_, _) =>
      step := Check(t, st.clock, st.clock);
    case Tallying(_, _) =>
      step := Increment(t);
    case Sending(_, _) =>
      step := Send(t);
  }

  lemma CallShrinksWork(setup: Setup, st: State, t: nat, step: Step)
    requires Ready(setup, st) && Enabled(setup, st, step) && step.Call? && step.t == t
    ensures WorkLeft(setup, Next(setup, st, step).threads[t]) < WorkLeft(setup, st.threads[t])
  {
  }

  /** And each step of its own brings it closer to being idle. */
  lemma WorkShrinks(setup: Setup, st: State, t: nat, step: Step)
    requires Ready(setup, st) && Enabled(setup, st, step)
    requires Actor(step) == Some(t) && t < |st.threads| && !st.threads[t].Idle?
    ensures t < |Next(setup, st, step).threads|
    ensures WorkLeft(setup, Next(setup, st, step).threads[t]) < WorkLeft(setup, st.threads[t])
  {
    if step.Call? {
      CallShrinksWork(setup, st, t, step);
    }
  }

  /** While no other step interferes with it. */
  lemma OthersLeaveWork(setup: Setup, st: State, t: nat, step: Step)
    requires Ready(setup, st) && Enabled(setup, st, step)
    requires Actor(step) != Some(t) && t < |st.threads|
    ensures t < |Next(setup, st, step).threads| && Next(setup, st, step).threads[t] == st.threads[t]
  {
  }

  /** How many steps a goroutine has taken since the first n. */
  function OwnSteps(steps: seq<Step>, n: nat, t: nat): nat
    requires n <= |steps|
    decreases |steps|
  {
    if |steps| == n then 0
    else OwnSteps(steps[..|steps| - 1], n, t) + if Actor(steps[|steps| - 1]) == Some(t) then 1 else 0
  }

  /** It stays busy after the first n steps. */
  ghost predicate BusySince(setup: Setup, start: int, steps: seq<Step>, n: nat, t: nat)
    requires IsRun(setup, start, steps) && n <= |steps|
    decreases |steps|
  {
    && t < |Reached(setup, start, steps).threads| && !Reached(setup, start, steps).threads[t].Idle?
    && (n < |steps| ==> BusySince(setup, start, steps[..|steps| - 1], n, t))
  }

  /** A goroutine that stays busy takes fewer steps than its work is worth: in every
      interleaving it is idle again after boundedly many steps of its own. */
  lemma {:induction false} BusyIsBounded(setup: Setup, start: int, steps: seq<Step>, n: nat, t: nat)
    requires IsRun(setup, start, steps) && n <= |steps| && BusySince(setup, start, steps, n, t)
    ensures IsRun(setup, start, steps[..n]) && t < |Reached(setup, start, steps[..n]).threads|
    ensures OwnSteps(steps, n, t) + WorkLeft(setup, Reached(setup, start, steps).threads[t])
         <= WorkLeft(setup, Reached(setup, start, steps[..n]).threads[t])
    decreases |steps|
  {
    if |steps| == n {
      assert steps[..n] == steps;
    } else {
      var front, step := steps[..|steps| - 1], steps[|steps| - 1];
      BusyIsBounded(setup, start, front, n, t);
      assert front[..n] == steps[..n];
      if Actor(step) == Some(t) {
        WorkShrinks(setup, Reached(setup, start, front), t, step);
      } else {
        OthersLeaveWork(setup, Reached(setup, start, front), t, step);
      }
    }
  }

  /** Nor is the dispatcher ever stuck, unless it was stopped or has nothing to do. */
  lemma DispatcherNeverStuck(setup: Setup, st: State) returns (step: Step)
    requires Ready(setup, st) && !st.dispatcher.Stopped? && (st.dispatcher.Waiting? ==> |st.queue| > 0)
    ensures Enabled(setup, st, step) && (step.Take? || step.Store? || step.Alert?)
    ensures Next(setup, st, step).dispatcher != st.dispatcher
  {
    match st.dispatcher
    case Waiting => step := Take;
    case Storing(_) => step := Store(true);
    case Alerting(_) => step := Alert(true);
  }
}
