/** No anomaly is lost or invented between its admission and its alert. */
module EngineConservation {
  import opened Domain
  import opened Engine

  function OfRule(s: seq<Anomaly>, rule: string): nat {
    if |s| == 0 then 0
    else OfRule(s[..|s| - 1], rule) + if s[|s| - 1].ruleID == rule then 1 else 0
  }

  lemma OfRuleSnoc(s: seq<Anomaly>, a: Anomaly, rule: string)
    ensures OfRule(s + [a], rule) == OfRule(s, rule) + if a.ruleID == rule then 1 else 0
  {
    assert (s + [a])[..|s|] == s;
  }

  /** The stations between admission and the channel. */
  datatype Station = BeforeMetric | BeforeSend

  predicate At(thread: Thread, station: Station, rule: string) {
    match station
    case BeforeMetric => thread.Tallying? && thread.a.ruleID == rule
    case BeforeSend => thread.Sending? && thread.a.ruleID == rule
  }

  /** How many goroutines hold an anomaly of a rule at a station. */
  function Holding(threads: seq<Thread>, station: Station, rule: string): nat {
    if |threads| == 0 then 0
    else Holding(threads[1..], station, rule) + if At(threads[0], station, rule) then 1 else 0
  }

  lemma {:induction false} HoldingUpdate(threads: seq<Thread>, t: nat, thread: Thread, station: Station, rule: string)
    requires t < |threads|
    ensures Holding(threads[t := thread], station, rule) + (if At(threads[t], station, rule) then 1 else 0)
         == Holding(threads, station, rule) + (if At(thread, station, rule) then 1 else 0)
  {
    if t == 0 {
      assert threads[t := thread][1..] == threads[1..];
    } else {
      assert threads[t := thread][1..] == threads[1..][t - 1 := thread];
      HoldingUpdate(threads[1..], t - 1, thread, station, rule);
    }
  }

  lemma {:induction false} NoneHolding(threads: seq<Thread>, station: Station, rule: string)
    requires forall i :: 0 <= i < |threads| ==> threads[i].Idle?
    ensures Holding(threads, station, rule) == 0
  {
    if |threads| == 0 {
    } else {
      NoneHolding(threads[1..], station, rule);
    }
  }

  /** Per rule: everything admitted has been counted or is about to be, and everything
      counted has been enqueued, dropped, or is about to be sent. */
  ghost predicate Counted(st: State, rule: string) {
    && OfRule(st.admitted, rule) == Metric(st, rule) + Holding(st.threads, BeforeMetric, rule)
    && Metric(st, rule)
       == OfRule(st.enqueued, rule) + OfRule(st.dropped, rule) + Holding(st.threads, BeforeSend, rule)
  }

  /** The channel is a bounded queue: what was enqueued has been taken or is still there,
      in order. */
  ghost predicate Queued(st: State) {
    st.enqueued == st.taken + st.queue && |st.queue| <= 1024
  }

  function InHand(st: State, storing: bool): seq<Anomaly> {
    match st.dispatcher
    case Storing(a) => [a]
    case Alerting(a) => if storing then [] else [a]
    case _ => []
  }

  /** Every anomaly taken gets a store attempt and, when alerts are configured, an alert
      attempt, in order, whatever the outcome of either. */
  ghost predicate Dispatched(setup: Setup, st: State) {
    && st.taken == st.stored + InHand(st, true)
    && (if setup.alerts then st.taken == st.alerted + InHand(st, false) else st.alerted == [])
    && (st.dispatcher.Alerting? ==> setup.alerts)
  }

  lemma MoveThread(st: State, t: nat, thread: Thread, rule: string)
    requires t < |st.threads|
    ensures Holding(Goto(st, t, thread).threads, BeforeMetric, rule)
            + (if At(st.threads[t], BeforeMetric, rule) then 1 else 0)
         == Holding(st.threads, BeforeMetric, rule) + (if At(thread, BeforeMetric, rule) then 1 else 0)
    ensures Holding(Goto(st, t, thread).threads, BeforeSend, rule)
            + (if At(st.threads[t], BeforeSend, rule) then 1 else 0)
         == Holding(st.threads, BeforeSend, rule) + (if At(thread, BeforeSend, rule) then 1 else 0)
  {
    HoldingUpdate(st.threads, t, thread, BeforeMetric, rule);
    HoldingUpdate(st.threads, t, thread, BeforeSend, rule);
  }

  /** A goroutine that moves between places outside the stations changes no count. */
  lemma CountedElsewhere(st: State, st': State, t: nat, rule: string)
    requires Counted(st, rule) && t < |st.threads| == |st'.threads|
    requires st'.threads == st.threads[t := st'.threads[t]]
    requires !st.threads[t].Tallying? && !st.threads[t].Sending?
    requires !st'.threads[t].Tallying? && !st'.threads[t].Sending?
    requires st'.metrics == st.metrics && st'.admitted == st.admitted
    requires st'.enqueued == st.enqueued && st'.dropped == st.dropped
    ensures Counted(st', rule)
  {
    MoveThread(st, t, st'.threads[t], rule);
  }

  lemma CountedCheck(setup: Setup, st: State, t: nat, read: int, write: int, rule: string)
    requires Counted(st, rule) && t < |st.threads| && st.threads[t].Checking?
    ensures Counted(CheckCooldown(setup, st, t, read, write), rule)
  {
    var st' := CheckCooldown(setup, st, t, read, write);
    MoveThread(st, t, st'.threads[t], rule);
    OfRuleSnoc(st.admitted, st.threads[t].a, rule);
    assert st.admitted + [] == st.admitted;
  }

  lemma CountedIncrement(setup: Setup, st: State, t: nat, rule: string)
    requires Ready(setup, st) && Enabled(setup, st, Increment(t)) && Counted(st, rule)
    ensures Counted(Next(setup, st, Increment(t)), rule)
  {
    var st' := Next(setup, st, Increment(t));
    MoveThread(st, t, st'.threads[t], rule);
  }

  lemma CountedSend(st: State, t: nat, rule: string)
    requires Counted(st, rule) && t < |st.threads| && st.threads[t].Sending?
    ensures Counted(SendAnomaly(st, t), rule)
  {
    var st' := SendAnomaly(st, t);
    MoveThread(st, t, st'.threads[t], rule);
    OfRuleSnoc(st.enqueued, st.threads[t].a, rule);
    OfRuleSnoc(st.dropped, st.threads[t].a, rule);
  }

  /** Starting, calling detectors and finishing happen outside the stations. */
  lemma CountedStart(setup: Setup, st: State, step: Step, rule: string)
    requires Ready(setup, st) && Enabled(setup, st, step) && Counted(st, rule)
    requires step.Begin? || step.Heartbeat?
    ensures Counted(Next(setup, st, step), rule)
  {
    if step.now >= setup.warmupUntil {
      CountedElsewhere(st, Next(setup, st, step), step.t, rule);
    }
  }

  lemma CountedMove(setup: Setup, st: State, step: Step, rule: string)
    requires Ready(setup, st) && Enabled(setup, st, step) && Counted(st, rule)
    requires step.Pick? || step.Finish?
    ensures Counted(Next(setup, st, step), rule)
  {
    CountedElsewhere(st, Next(setup, st, step), step.t, rule);
  }

  lemma CountedCall(setup: Setup, st: State, t: nat, now: int, firedAt: int, outcome: Option<Anomaly>, rule: string)
    requires Ready(setup, st) && Enabled(setup, st, Call(t, now, firedAt, outcome)) && Counted(st, rule)
    ensures Counted(CallDetector(setup, st, t, now, firedAt, outcome), rule)
  {
    CountedElsewhere(st, CallDetector(setup, st, t, now, firedAt, outcome), t, rule);
  }

  lemma CountedNext(setup: Setup, st: State, step: Step, rule: string)
    requires Ready(setup, st) && Enabled(setup, st, step) && Counted(st, rule)
    ensures Counted(Next(setup, st, step), rule)
  {
    if step.Begin? || step.Heartbeat? {
      CountedStart(setup, st, step, rule);
    } else if step.Pick? || step.Finish? {
      CountedMove(setup, st, step, rule);
    } else if step.Call? {
      CountedCall(setup, st, step.t, step.now, step.firedAt, step.outcome, rule);
    } else if step.Check? {
      CountedCheck(setup, st, step.t, step.read, step.write, rule);
    } else if step.Increment? {
      CountedIncrement(setup, st, step.t, rule);
    } else if step.Send? {
      CountedSend(st, step.t, rule);
    }
  }

  lemma QueuedMoves(setup: Setup, st: State, step: Step)
    requires Ready(setup, st) && Enabled(setup, st, step) && Queued(st) && (step.Send? || step.Take?)
    ensures Queued(Next(setup, st, step))
  {
    if step.Take? {
      assert st.queue == [st.queue[0]] + st.queue[1..];
    }
  }

  lemma DispatchMoves(setup: Setup, st: State, step: Step)
    requires Ready(setup, st) && Enabled(setup, st, step) && Dispatched(setup, st)
    requires step.Take? || step.Store? || step.Alert? || step.StopDispatch?
    ensures Dispatched(setup, Next(setup, st, step))
  {
  }

  /** Every other step leaves the channel and the dispatcher alone. */
  lemma OtherMoves(setup: Setup, st: State, step: Step)
    requires Ready(setup, st) && Enabled(setup, st, step)
    ensures var st' := Next(setup, st, step);
            && (!step.Send? && !step.Take? ==> st'.queue == st.queue && st'.enqueued == st.enqueued)
            && (!step.Take? ==> st'.taken == st.taken)
            && (!step.Take? && !step.Store? && !step.Alert? && !step.StopDispatch? ==>
                  st'.dispatcher == st.dispatcher && st'.stored == st.stored && st'.alerted == st.alerted)
  {
  }

  lemma QueuedNext(setup: Setup, st: State, step: Step)
    requires Ready(setup, st) && Enabled(setup, st, step) && Queued(st)
    ensures Queued(Next(setup, st, step))
  {
    if step.Send? || step.Take? {
      QueuedMoves(setup, st, step);
    } else {
      OtherMoves(setup, st, step);
    }
  }

  lemma DispatchedNext(setup: Setup, st: State, step: Step)
    requires Ready(setup, st) && Enabled(setup, st, step) && Dispatched(setup, st)
    ensures Dispatched(setup, Next(setup, st, step))
  {
    if step.Take? || step.Store? || step.Alert? || step.StopDispatch? {
      DispatchMoves(setup, st, step);
    } else {
      OtherMoves(setup, st, step);
    }
  }

  /** Conservation at every step of every interleaving, for every rule. */
  lemma {:induction false} Conservation(setup: Setup, start: int, steps: seq<Step>, rule: string)
    requires IsRun(setup, start, steps)
    ensures var st := Reached(setup, start, steps);
            Counted(st, rule) && Queued(st) && Dispatched(setup, st)
  {
    if |steps| == 0 {
      NoneHolding(Initial(setup, start).threads, BeforeMetric, rule);
      NoneHolding(Initial(setup, start).threads, BeforeSend, rule);
    } else {
      var front, step := steps[..|steps| - 1], steps[|steps| - 1];
      Conservation(setup, start, front, rule);
      var before := Reached(setup, start, front);
      CountedNext(setup, before, step, rule);
      QueuedNext(setup, before, step);
      DispatchedNext(setup, before, step);
    }
  }

  /** An anomaly is dropped only when the channel is full at the moment of sending. */
  lemma DropsOnlyWhenFull(setup: Setup, st: State, step: Step)
    requires Ready(setup, st) && Enabled(setup, st, step) && Queued(st)
    ensures var st' := Next(setup, st, step);
            st'.dropped != st.dropped <==> step.Send? && |st.queue| == 1024
  {
  }
}
