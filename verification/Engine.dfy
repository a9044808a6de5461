/** The detector engine as a step system: pipeline workers, the silence watcher, the
    eviction loop and the dispatcher interleave arbitrarily.

    A step is what one goroutine does between two points where another may run: a call
    into a detector, the critical section of the cooldown mutex, the metric increment,
    the channel send, the channel receive, a store or alert attempt. Calls into detectors
    are taken to be atomic, which the program does not itself enforce for every rule. */
module Engine {
  import opened Domain
  import opened KeyedWindows
  import CountingRules
  import Cooldown

  const CHANNEL_SIZE := 1024

  /** The rule name on every report of the silence watcher. */
  const SILENCE_RULE := "service_silence"

  /** A counting rule, or any other detector; nothing is assumed about the latter except
      the rule name that its anomalies carry. */
  datatype Detector =
    | Counting(kind: CountingRules.Kind, cfg: CountingRules.Config, cap: nat)
    | Other(rule: string)

  /** A detector's windows, and whether it has ever been called. */
  datatype DetectorState = DetectorState(ws: Windows<string>, called: bool)

  datatype Key = Key(ruleID: string, service: string)

  function KeyOf(a: Anomaly): Key {
    Key(a.ruleID, a.service)
  }

  /** The rest of what a goroutine is doing: an entry with the detectors still to call, or
      the watcher's remaining reports. */
  datatype Task =
    | Pipeline(entry: LogEntry, next: nat)
    | Reported(rest: seq<Anomaly>)

  datatype Thread =
    | Idle
    | Running(task: Task)
    | Checking(a: Anomaly, task: Task)  // before the cooldown check
    | Tallying(a: Anomaly, task: Task) // admitted, before the metric increment
    | Sending(a: Anomaly, task: Task)   // counted, before the channel send

  datatype Dispatcher =
    | Waiting
    | Storing(a: Anomaly)
    | Alerting(a: Anomaly)
    | Stopped

  /** What the detectors went through. */
  datatype DetectorEvent =
    | Evaluated(det: nat, entry: LogEntry, now: int)
    | Visited(det: nat, key: string, evictAt: int, countAt: int)

  datatype Setup = Setup(
    detectors: seq<Detector>,
    cooldown: int,
    warmupUntil: int,
    threads: nat,
    alerts: bool)  // whether an alert channel is configured

  datatype State = State(
    clock: int,
    states: seq<DetectorState>,
    threads: seq<Thread>,
    cooldowns: map<Key, int>,
    metrics: map<string, nat>,
    queue: seq<Anomaly>,
    dispatcher: Dispatcher,
    // everything that has happened so far
    log: seq<DetectorEvent>,
    sections: seq<Cooldown.Section<Key>>,
    fired: seq<Anomaly>,
    admitted: seq<Anomaly>,
    admittedAt: seq<nat>,  // the critical sections that admitted them
    enqueued: seq<Anomaly>,
    dropped: seq<Anomaly>,
    taken: seq<Anomaly>,
    stored: seq<Anomaly>,
    alerted: seq<Anomaly>)

  /** Clock readings are part of a step; t is the goroutine that takes it. */
  datatype Step =
    | Begin(t: nat, entry: LogEntry, now: int)
    | Heartbeat(t: nat, now: int, reports: seq<Anomaly>)
    | Call(t: nat, now: int, firedAt: int, outcome: Option<Anomaly>)
    | Pick(t: nat)
    | Finish(t: nat)
    | Check(t: nat, read: int, write: int)
    | Increment(t: nat)
    | Send(t: nat)
    | Take
    | Store(ok: bool)
    | Alert(ok: bool)
    | StopDispatch
    | Visit(det: nat, key: string, evictAt: int, countAt: int)
    | Expire(alert: Key, read: int)

  function Initial(setup: Setup, start: int): State {
    State(start,
          seq(|setup.detectors|, i => DetectorState(map[], false)),
          seq(setup.threads, i => Idle),
          map[], map[], [], Waiting, [], [], [], [], [], [], [], [], [], [])
  }

  ghost predicate Ready(setup: Setup, st: State) {
    && |st.states| == |setup.detectors|
    && |st.threads| == setup.threads
    && forall i :: 0 <= i < |st.states| && setup.detectors[i].Counting? ==>
         AllValid(st.states[i].ws, setup.detectors[i].cap)
  }

  /** What calling a detector yields; `outcome` is the answer of a detector that is not
      modelled. */
  function Evaluate(d: Detector, s: DetectorState, entry: LogEntry, now: int, firedAt: int, outcome: Option<Anomaly>): (DetectorState, Option<Anomaly>)
    requires d.Counting? ==> AllValid(s.ws, d.cap)
  {
    match d
    case Counting(kind, cfg, cap) =>
      var (ws, answer) := CountingRules.Answer(kind, cfg, cap, s.ws, entry, now, firedAt);
      (DetectorState(ws, true), answer)
    case Other(_) =>
      (DetectorState(s.ws, true), outcome)
  }

  predicate Enabled(setup: Setup, st: State, step: Step) {
    match step
    case Begin(t, _, now) => t < |st.threads| && st.threads[t].Idle? && st.clock <= now
    case Heartbeat(t, now, reports) =>
      && t < |st.threads| && st.threads[t].Idle? && st.clock <= now
      && forall j :: 0 <= j < |reports| ==> reports[j].ruleID == SILENCE_RULE
    case Call(t, now, firedAt, outcome) =>
      && t < |st.threads| && st.threads[t].Running? && st.threads[t].task.Pipeline?
      && st.threads[t].task.next < |setup.detectors|
      && st.clock <= now <= firedAt
      && var d := setup.detectors[st.threads[t].task.next];
         d.Other? && outcome.Some? ==> outcome.value.ruleID == d.rule
    case Pick(t) =>
      t < |st.threads| && st.threads[t].Running? && st.threads[t].task.Reported? && |st.threads[t].task.rest| > 0
    case Finish(t) =>
      && t < |st.threads| && st.threads[t].Running?
      && match st.threads[t].task {
           case Pipeline(_, next) => next >= |setup.detectors|
           case Reported(rest) => |rest| == 0
         }
    case Check(t, read, write) => t < |st.threads| && st.threads[t].Checking? && st.clock <= read <= write
    case Increment(t) => t < |st.threads| && st.threads[t].Tallying?
    case Send(t) => t < |st.threads| && st.threads[t].Sending?
    case Take => st.dispatcher.Waiting? && |st.queue| > 0
    case Store(_) => st.dispatcher.Storing?
    case Alert(_) => st.dispatcher.Alerting?
    case StopDispatch => st.dispatcher.Waiting?
    case Visit(det, _, evictAt, countAt) =>
      det < |setup.detectors| && st.clock <= evictAt <= countAt
    case Expire(_, read) => st.clock <= read
  }

  /** The metric of a rule. */
  function Metric(st: State, rule: string): nat {
    if rule in st.metrics then st.metrics[rule] else 0
  }

  /** A goroutine reaches `thread`. */
  function Goto(st: State, t: nat, thread: Thread): State
    requires t < |st.threads|
  {
    st.(threads := st.threads[t := thread])
  }

  function CallDetector(setup: Setup, st: State, t: nat, now: int, firedAt: int, outcome: Option<Anomaly>): State
    requires Ready(setup, st) && Enabled(setup, st, Call(t, now, firedAt, outcome))
  {
    var Pipeline(entry, i) := st.threads[t].task;
    var (s, answer) := Evaluate(setup.detectors[i], st.states[i], entry, now, firedAt, outcome);
    var rest := Pipeline(entry, i + 1);
    Goto(st, t, if answer.None? then Running(rest) else Checking(answer.value, rest)).(
      clock := firedAt,
      states := st.states[i := s],
      log := st.log + [Evaluated(i, entry, now)],
      fired := st.fired + if answer.None? then [] else [answer.value])
  }

  function CheckCooldown(setup: Setup, st: State, t: nat, read: int, write: int): State
    requires t < |st.threads| && st.threads[t].Checking?
  {
    var Checking(a, task) := st.threads[t];
    var section := Cooldown.Fired(KeyOf(a), read, write);
    var suppress := Cooldown.Suppresses(st.cooldowns, setup.cooldown, KeyOf(a), read);
    Goto(st, t, if suppress then Running(task) else Tallying(a, task)).(
      clock := write,
      cooldowns := Cooldown.Enter(st.cooldowns, setup.cooldown, section),
      sections := st.sections + [section],
      admitted := st.admitted + if suppress then [] else [a],
      admittedAt := st.admittedAt + if suppress then [] else [|st.sections|])
  }

  function SendAnomaly(st: State, t: nat): State
    requires t < |st.threads| && st.threads[t].Sending?
  {
    var Sending(a, task) := st.threads[t];
    if |st.queue| < CHANNEL_SIZE then
      Goto(st, t, Running(task)).(queue := st.queue + [a], enqueued := st.enqueued + [a])
    else
      Goto(st, t, Running(task)).(dropped := st.dropped + [a])
  }

  function VisitWindow(setup: Setup, st: State, det: nat, key: string, evictAt: int, countAt: int): State
    requires Ready(setup, st) && det < |setup.detectors|
  {
    match setup.detectors[det]
    case Counting(kind, cfg, cap) =>
      var ws := VisitKey(st.states[det].ws, cap, CountingRules.PolicyOf(kind), cfg.window, key, evictAt, countAt);
      st.(clock := countAt,
          states := st.states[det := DetectorState(ws, st.states[det].called)],
          log := st.log + [Visited(det, key, evictAt, countAt)])
    case Other(_) => st.(clock := countAt)
  }

  function Next(setup: Setup, st: State, step: Step): State
    requires Ready(setup, st) && Enabled(setup, st, step)
  {
    match step
    case Begin(t, entry, now) =>
      if now < setup.warmupUntil then st.(clock := now)
      else Goto(st, t, Running(Pipeline(entry, 0))).(clock := now)
    case Heartbeat(t, now, reports) =>
      if now < setup.warmupUntil then st.(clock := now)
      else Goto(st, t, Running(Reported(reports))).(clock := now)
    case Call(t, now, firedAt, outcome) => CallDetector(setup, st, t, now, firedAt, outcome)
    case Pick(t) =>
      var reports := st.threads[t].task.rest;
      Goto(st, t, Checking(reports[0], Reported(reports[1..]))).(fired := st.fired + [reports[0]])
    case Finish(t) => Goto(st, t, Idle)
    case Check(t, read, write) => CheckCooldown(setup, st, t, read, write)
    case Increment(t) =>
      var Tallying(a, task) := st.threads[t];
      Goto(st, t, Sending(a, task)).(metrics := st.metrics[a.ruleID := Metric(st, a.ruleID) + 1])
    case Send(t) => SendAnomaly(st, t)
    case Take =>
      st.(queue := st.queue[1..], taken := st.taken + [st.queue[0]], dispatcher := Storing(st.queue[0]))
    case Store(_) =>
      var a := st.dispatcher.a;
      st.(stored := st.stored + [a], dispatcher := if setup.alerts then Alerting(a) else Waiting)
    case Alert(_) =>
      st.(alerted := st.alerted + [st.dispatcher.a], dispatcher := Waiting)
    case StopDispatch => st.(dispatcher := Stopped)
    case Visit(det, key, evictAt, countAt) => VisitWindow(setup, st, det, key, evictAt, countAt)
    case Expire(key, read) =>
      var section := Cooldown.Examined(key, read);
      st.(clock := read,
          cooldowns := Cooldown.Enter(st.cooldowns, setup.cooldown, section),
          sections := st.sections + [section])
  }

  lemma NextReady(setup: Setup, st: State, step: Step)
    requires Ready(setup, st) && Enabled(setup, st, step)
    ensures Ready(setup, Next(setup, st, step))
  {
    if step.Call? {
      CallReady(setup, st, step);
    }
  }

  lemma CallReady(setup: Setup, st: State, step: Step)
    requires Ready(setup, st) && Enabled(setup, st, step) && step.Call?
    ensures Ready(setup, Next(setup, st, step))
  {
  }

  // ----- Runs -----

  ghost predicate Proper(setup: Setup) {
    forall i :: 0 <= i < |setup.detectors| && setup.detectors[i].Counting? ==> 0 < setup.detectors[i].cap
  }

  /** Every step of the run can be taken in the state that the steps before it lead to. */
  ghost predicate IsRun(setup: Setup, start: int, steps: seq<Step>)
    decreases |steps|, 0
  {
    if |steps| == 0 then Proper(setup)
    else
      var front := steps[..|steps| - 1];
      && IsRun(setup, start, front)
      && Enabled(setup, Reached(setup, start, front), steps[|steps| - 1])
  }

  ghost function Reached(setup: Setup, start: int, steps: seq<Step>): (st: State)
    requires IsRun(setup, start, steps)
    ensures Ready(setup, st)
    decreases |steps|, 1
  {
    if |steps| == 0 then Initial(setup, start)
    else
      var before, step := Reached(setup, start, steps[..|steps| - 1]), steps[|steps| - 1];
      NextReady(setup, before, step);
      Next(setup, before, step)
  }
}
