/** End-to-end soundness: whatever the interleaving, an anomaly of a counting rule that
    reaches the store or the alert channel is backed by that many matching entries. */
module EngineSoundness {
  import opened Domain
  import opened Samples
  import opened KeyedWindows
  import opened RingRuns
  import opened Engine
  import EngineConservation
  import R = KeyedRuns
  import C = CountingRules

  // ----- What a counting detector went through -----

  function EventStep(kind: C.Kind, e: DetectorEvent): R.Step<string> {
    match e
    case Evaluated(_, entry, _) => C.StepOf(kind, entry)
    case Visited(_, key, evictAt, countAt) => R.Visited(key, evictAt, countAt)
  }

  /** The part of the engine's log that concerns detector i, as a run of its rule. */
  function RunOf(log: seq<DetectorEvent>, i: nat, kind: C.Kind): seq<R.Step<string>> {
    if |log| == 0 then []
    else
      var front, e := RunOf(log[..|log| - 1], i, kind), log[|log| - 1];
      if e.det == i then front + [EventStep(kind, e)] else front
  }

  predicate Counts(setup: Setup, i: nat) {
    i < |setup.detectors| && setup.detectors[i].Counting? && 0 < setup.detectors[i].cap
  }

  /** The run of detector i up to event n. */
  function RunBefore(setup: Setup, log: seq<DetectorEvent>, n: nat, i: nat): seq<R.Step<string>>
    requires Counts(setup, i) && n <= |log|
  {
    RunOf(log[..n], i, setup.detectors[i].kind)
  }

  function WindowsAfter(setup: Setup, run: seq<R.Step<string>>, i: nat): Windows<string>
    requires Counts(setup, i)
  {
    var Counting(kind, cfg, cap) := setup.detectors[i];
    R.State(C.PolicyOf(kind), cfg.window, cap, run)
  }

  lemma RunOfSnoc(log: seq<DetectorEvent>, e: DetectorEvent, i: nat, kind: C.Kind)
    ensures RunOf(log + [e], i, kind)
         == if e.det == i then RunOf(log, i, kind) + [EventStep(kind, e)] else RunOf(log, i, kind)
  {
    assert (log + [e])[..|log|] == log;
  }

  lemma StateSnoc(policy: Policy, d: int, cap: nat, run: seq<R.Step<string>>, step: R.Step<string>)
    requires 0 < cap
    ensures R.State(policy, d, cap, run + [step]) == R.After(policy, d, cap, R.State(policy, d, cap, run), step)
  {
    assert (run + [step])[..|run|] == run;
  }

  /** A detector's windows are those of its own run. */
  ghost predicate Tracks(setup: Setup, st: State, i: nat) {
    && Counts(setup, i) && i < |st.states|
    && st.states[i].ws == WindowsAfter(setup, RunBefore(setup, st.log, |st.log|, i), i)
  }

  lemma TracksLogged(setup: Setup, st: State, e: DetectorEvent, i: nat)
    requires Tracks(setup, st, i)
    ensures var run := RunBefore(setup, st.log + [e], |st.log| + 1, i);
            if e.det == i then
              WindowsAfter(setup, run, i)
              == R.After(C.PolicyOf(setup.detectors[i].kind), setup.detectors[i].cfg.window, setup.detectors[i].cap,
                         WindowsAfter(setup, RunBefore(setup, st.log, |st.log|, i), i),
                         EventStep(setup.detectors[i].kind, e))
            else
              WindowsAfter(setup, run, i) == st.states[i].ws
  {
    var Counting(kind, cfg, cap) := setup.detectors[i];
    assert st.log[..|st.log|] == st.log && (st.log + [e])[..|st.log| + 1] == st.log + [e];
    RunOfSnoc(st.log, e, i, kind);
    if e.det == i {
      StateSnoc(C.PolicyOf(kind), cfg.window, cap, RunOf(st.log, i, kind), EventStep(kind, e));
    }
  }

  lemma TracksCall(setup: Setup, st: State, t: nat, now: int, firedAt: int, outcome: Option<Anomaly>, i: nat)
    requires Ready(setup, st) && Enabled(setup, st, Call(t, now, firedAt, outcome)) && Tracks(setup, st, i)
    ensures Tracks(setup, CallDetector(setup, st, t, now, firedAt, outcome), i)
  {
    var Pipeline(entry, called) := st.threads[t].task;
    TracksLogged(setup, st, Evaluated(called, entry, now), i);
  }

  lemma TracksVisit(setup: Setup, st: State, det: nat, key: string, evictAt: int, countAt: int, i: nat)
    requires Ready(setup, st) && det < |setup.detectors| && Tracks(setup, st, i)
    ensures Tracks(setup, VisitWindow(setup, st, det, key, evictAt, countAt), i)
  {
    TracksLogged(setup, st, Visited(det, key, evictAt, countAt), i);
  }

  /** Only calls and visits concern detectors, and only calls and picks bring up anomalies. */
  lemma OtherDetectorSteps(setup: Setup, st: State, step: Step)
    requires Ready(setup, st) && Enabled(setup, st, step)
    ensures var st' := Next(setup, st, step);
            && (!step.Call? && !step.Visit? ==> st'.states == st.states && st'.log == st.log)
            && (!step.Call? && !step.Pick? ==> st'.fired == st.fired)
  {
  }

  lemma {:induction false} TracksRun(setup: Setup, start: int, steps: seq<Step>, i: nat)
    requires IsRun(setup, start, steps) && Counts(setup, i)
    ensures Tracks(setup, Reached(setup, start, steps), i)
  {
    if |steps| == 0 {
    } else {
      var front, step := steps[..|steps| - 1], steps[|steps| - 1];
      var before := Reached(setup, start, front);
      TracksRun(setup, start, front, i);
      OtherDetectorSteps(setup, before, step);
      if step.Call? {
        TracksCall(setup, before, step.t, step.now, step.firedAt, step.outcome, i);
      } else if step.Visit? {
        TracksVisit(setup, before, step.det, step.key, step.evictAt, step.countAt, i);
      }
    }
  }

  // ----- Where anomalies come from -----

  predicate IsCountingRule(rule: string) {
    rule in {"error_rate_spike", "repeated_failure", "auth_failure_burst"}
  }

  /** No other detector uses the name of a counting rule. */
  ghost predicate Separate(setup: Setup) {
    forall i :: 0 <= i < |setup.detectors| && setup.detectors[i].Other? ==> !IsCountingRule(setup.detectors[i].rule)
  }

  /** Detector i fires on an entry after the events of a log. */
  ghost predicate FiresAfter(setup: Setup, log: seq<DetectorEvent>, i: nat, entry: LogEntry, now: int)
    requires Counts(setup, i)
  {
    var Counting(kind, cfg, cap) := setup.detectors[i];
    && C.KeyOf(kind, entry).Some?
    && C.Decides(C.PolicyOf(kind), cfg, cap, RunOf(log, i, kind), C.KeyOf(kind, entry).value, entry.timestamp, now)
  }

  /** Anomaly a is what detector i reports about an entry. */
  ghost predicate Describes(setup: Setup, i: nat, entry: LogEntry, now: int, a: Anomaly)
    requires Counts(setup, i)
  {
    && a.ruleID == C.RuleID(setup.detectors[i].kind)
    && a.service == entry.service && a.evidence == [entry] && now <= a.detectedAt
  }

  /** Event n is the evaluation that fired anomaly a, as decided by its rule. */
  ghost predicate Origin(setup: Setup, log: seq<DetectorEvent>, i: nat, n: nat, a: Anomaly) {
    && Counts(setup, i) && n < |log| && log[n].Evaluated? && log[n].det == i
    && Describes(setup, i, log[n].entry, log[n].now, a)
    && FiresAfter(setup, log[..n], i, log[n].entry, log[n].now)
  }

  ghost predicate HasOrigin(setup: Setup, log: seq<DetectorEvent>, a: Anomaly) {
    exists i: nat, n: nat :: Origin(setup, log, i, n, a)
  }

  lemma OriginStays(setup: Setup, log: seq<DetectorEvent>, e: DetectorEvent, i: nat, n: nat, a: Anomaly)
    requires Origin(setup, log, i, n, a)
    ensures Origin(setup, log + [e], i, n, a)
  {
    var all := log + [e];
    assert all[n] == log[n] && all[..n] == log[..n];
  }

  lemma OriginGrows(setup: Setup, log: seq<DetectorEvent>, e: DetectorEvent, a: Anomaly)
    requires HasOrigin(setup, log, a)
    ensures HasOrigin(setup, log + [e], a)
  {
    var i: nat, n: nat :| Origin(setup, log, i, n, a);
    OriginStays(setup, log, e, i, n, a);
  }

  ghost predicate AllHaveOrigins(setup: Setup, log: seq<DetectorEvent>, s: seq<Anomaly>) {
    forall j :: 0 <= j < |s| && IsCountingRule(s[j].ruleID) ==> HasOrigin(setup, log, s[j])
  }

  lemma OriginsGrow(setup: Setup, log: seq<DetectorEvent>, e: DetectorEvent, s: seq<Anomaly>)
    requires AllHaveOrigins(setup, log, s)
    ensures AllHaveOrigins(setup, log + [e], s)
  {
    forall j | 0 <= j < |s| && IsCountingRule(s[j].ruleID)
      ensures HasOrigin(setup, log + [e], s[j])
    {
      OriginGrows(setup, log, e, s[j]);
    }
  }

  /** The answer of a detector is an anomaly of a counting rule only by that rule's decision. */
  lemma AnswerHasOrigin(setup: Setup, st: State, t: nat, now: int, firedAt: int, outcome: Option<Anomaly>)
    requires Ready(setup, st) && Enabled(setup, st, Call(t, now, firedAt, outcome)) && Separate(setup)
    requires Counts(setup, st.threads[t].task.next) ==> Tracks(setup, st, st.threads[t].task.next)
    requires Proper(setup)
    ensures var Pipeline(entry, i) := st.threads[t].task;
            var answer := Evaluate(setup.detectors[i], st.states[i], entry, now, firedAt, outcome).1;
            answer.Some? && IsCountingRule(answer.value.ruleID) ==>
              HasOrigin(setup, st.log + [Evaluated(i, entry, now)], answer.value)
  {
    var Pipeline(entry, i) := st.threads[t].task;
    var answer := Evaluate(setup.detectors[i], st.states[i], entry, now, firedAt, outcome).1;
    if answer.Some? && IsCountingRule(answer.value.ruleID) {
      assert setup.detectors[i].Counting?;
      assert (st.log + [Evaluated(i, entry, now)])[..|st.log|] == st.log == st.log[..|st.log|];
      assert Origin(setup, st.log + [Evaluated(i, entry, now)], i, |st.log|, answer.value);
    }
  }

  /** The reports a goroutine still holds bear the watcher's own rule name. */
  ghost predicate Reporting(task: Task) {
    task.Reported? ==> forall j :: 0 <= j < |task.rest| ==> task.rest[j].ruleID == SILENCE_RULE
  }

  ghost predicate ReportsAreNamed(st: State) {
    forall t :: 0 <= t < |st.threads| && !st.threads[t].Idle? ==> Reporting(st.threads[t].task)
  }

  lemma ReportsCall(setup: Setup, st: State, step: Step)
    requires Ready(setup, st) && Enabled(setup, st, step) && ReportsAreNamed(st) && (step.Call? || step.Check?)
    ensures ReportsAreNamed(Next(setup, st, step))
  {
  }

  lemma ReportsNext(setup: Setup, st: State, step: Step)
    requires Ready(setup, st) && Enabled(setup, st, step) && ReportsAreNamed(st)
    ensures ReportsAreNamed(Next(setup, st, step))
  {
    if step.Call? || step.Check? {
      ReportsCall(setup, st, step);
    }
  }

  lemma OriginsCall(setup: Setup, st: State, t: nat, now: int, firedAt: int, outcome: Option<Anomaly>)
    requires Ready(setup, st) && Enabled(setup, st, Call(t, now, firedAt, outcome)) && Separate(setup) && Proper(setup)
    requires Counts(setup, st.threads[t].task.next) ==> Tracks(setup, st, st.threads[t].task.next)
    requires AllHaveOrigins(setup, st.log, st.fired)
    ensures var st' := CallDetector(setup, st, t, now, firedAt, outcome);
            AllHaveOrigins(setup, st'.log, st'.fired)
  {
    var Pipeline(entry, i) := st.threads[t].task;
    AnswerHasOrigin(setup, st, t, now, firedAt, outcome);
    OriginsGrow(setup, st.log, Evaluated(i, entry, now), st.fired);
  }

  lemma OriginsVisit(setup: Setup, st: State, det: nat, key: string, evictAt: int, countAt: int)
    requires Ready(setup, st) && det < |setup.detectors| && AllHaveOrigins(setup, st.log, st.fired)
    ensures var st' := VisitWindow(setup, st, det, key, evictAt, countAt);
            AllHaveOrigins(setup, st'.log, st'.fired)
  {
    OriginsGrow(setup, st.log, Visited(det, key, evictAt, countAt), st.fired);
  }

  lemma OriginsPick(setup: Setup, st: State, t: nat)
    requires Ready(setup, st) && Enabled(setup, st, Pick(t)) && ReportsAreNamed(st)
    requires AllHaveOrigins(setup, st.log, st.fired)
    ensures var st' := Next(setup, st, Pick(t)); AllHaveOrigins(setup, st'.log, st'.fired)
  {
    assert Reporting(st.threads[t].task);
    assert !IsCountingRule(SILENCE_RULE);
  }

  lemma ProperRun(setup: Setup, start: int, steps: seq<Step>)
    requires IsRun(setup, start, steps)
    ensures Proper(setup)
  {
    if |steps| > 0 {
      ProperRun(setup, start, steps[..|steps| - 1]);
    }
  }

  lemma {:induction false} OriginsRun(setup: Setup, start: int, steps: seq<Step>)
    requires IsRun(setup, start, steps) && Separate(setup)
    ensures ReportsAreNamed(Reached(setup, start, steps))
    ensures AllHaveOrigins(setup, Reached(setup, start, steps).log, Reached(setup, start, steps).fired)
  {
    if |steps| == 0 {
    } else {
      var front, step := steps[..|steps| - 1], steps[|steps| - 1];
      var before := Reached(setup, start, front);
      OriginsRun(setup, start, front);
      ReportsNext(setup, before, step);
      OtherDetectorSteps(setup, before, step);
      if step.Call? {
        ProperRun(setup, start, front);
        if Counts(setup, before.threads[step.t].task.next) {
          TracksRun(setup, start, front, before.threads[step.t].task.next);
        }
        OriginsCall(setup, before, step.t, step.now, step.firedAt, step.outcome);
      } else if step.Visit? {
        OriginsVisit(setup, before, step.det, step.key, step.evictAt, step.countAt);
      } else if step.Pick? {
        OriginsPick(setup, before, step.t);
      }
    }
  }

  // ----- Nothing is made up on the way to the dispatcher -----

  ghost predicate Holds(thread: Thread, fired: seq<Anomaly>) {
    thread.Checking? || thread.Tallying? || thread.Sending? ==> thread.a in fired
  }

  ghost predicate OnlyFired(st: State) {
    && (forall t :: 0 <= t < |st.threads| ==> Holds(st.threads[t], st.fired))
    && (forall j :: 0 <= j < |st.enqueued| ==> st.enqueued[j] in st.fired)
  }

  lemma OnlyFiredCall(setup: Setup, st: State, step: Step)
    requires Ready(setup, st) && Enabled(setup, st, step) && OnlyFired(st) && (step.Call? || step.Pick?)
    ensures OnlyFired(Next(setup, st, step))
  {
  }

  lemma OnlyFiredAnomaly(setup: Setup, st: State, step: Step)
    requires Ready(setup, st) && Enabled(setup, st, step) && OnlyFired(st)
    requires step.Check? || step.Increment? || step.Send?
    ensures OnlyFired(Next(setup, st, step))
  {
  }

  lemma OnlyFiredNext(setup: Setup, st: State, step: Step)
    requires Ready(setup, st) && Enabled(setup, st, step) && OnlyFired(st)
    ensures OnlyFired(Next(setup, st, step))
  {
    if step.Call? || step.Pick? {
      OnlyFiredCall(setup, st, step);
    } else if step.Check? || step.Increment? || step.Send? {
      OnlyFiredAnomaly(setup, st, step);
    }
  }

  lemma {:induction false} OnlyFiredRun(setup: Setup, start: int, steps: seq<Step>)
    requires IsRun(setup, start, steps)
    ensures OnlyFired(Reached(setup, start, steps))
  {
    if |steps| == 0 {
    } else {
      var front, step := steps[..|steps| - 1], steps[|steps| - 1];
      OnlyFiredRun(setup, start, front);
      OnlyFiredNext(setup, Reached(setup, start, front), step);
    }
  }

  // ----- Counting entries without windows -----

  /** How many entries detector i has evaluated so far that count under the key and are
      newer than the cutoff. */
  function Matching(kind: C.Kind, log: seq<DetectorEvent>, i: nat, key: string, cutoff: int): nat {
    if |log| == 0 then 0
    else
      var e := log[|log| - 1];
      Matching(kind, log[..|log| - 1], i, key, cutoff)
      + if e.Evaluated? && e.det == i && C.KeyOf(kind, e.entry) == Some(key) && e.entry.timestamp > cutoff then 1 else 0
  }

  lemma CountLogged(run: seq<R.Step<string>>, kind: C.Kind, e: DetectorEvent, key: string, cutoff: int)
    ensures R.LogCount(run + [EventStep(kind, e)], key, cutoff)
         == R.LogCount(run, key, cutoff)
            + if e.Evaluated? && C.KeyOf(kind, e.entry) == Some(key) && e.entry.timestamp > cutoff then 1 else 0
  {
    var step := EventStep(kind, e);
    R.LogSnoc(run, step, key);
    if R.LoggedAs(step, key) == [] {
      assert R.Log(run, key) + [] == R.Log(run, key);
    } else {
      RecentSnoc(R.Log(run, key), step.x, cutoff);
    }
  }

  lemma {:induction false} MatchingIsLog(kind: C.Kind, log: seq<DetectorEvent>, i: nat, key: string, cutoff: int)
    ensures R.LogCount(RunOf(log, i, kind), key, cutoff) == Matching(kind, log, i, key, cutoff)
  {
    if |log| == 0 {
    } else {
      var front, e := log[..|log| - 1], log[|log| - 1];
      MatchingIsLog(kind, front, i, key, cutoff);
      if e.det == i {
        CountLogged(RunOf(front, i, kind), kind, e, key, cutoff);
      }
    }
  }

  /** Those that count under the key of this entry and are newer than detector i's window
      at the time `now`. */
  function Matches(setup: Setup, log: seq<DetectorEvent>, i: nat, entry: LogEntry, now: int): nat
    requires Counts(setup, i) && C.KeyOf(setup.detectors[i].kind, entry).Some?
  {
    var Counting(kind, cfg, _) := setup.detectors[i];
    Matching(kind, log, i, C.KeyOf(kind, entry).value, now - cfg.window)
  }

  /** The recent log that a decision is compared with is a count of evaluated entries. */
  lemma RecentIsMatching(setup: Setup, log: seq<DetectorEvent>, entry: LogEntry, now: int, i: nat, key: string)
    requires Counts(setup, i) && C.KeyOf(setup.detectors[i].kind, entry) == Some(key)
    ensures |R.RecentLog(setup.detectors[i].cfg.window, RunOf(log, i, setup.detectors[i].kind), key, Event(entry.timestamp), now)|
         == Matches(setup, log + [Evaluated(i, entry, now)], i, entry, now)
  {
    var Counting(kind, cfg, cap) := setup.detectors[i];
    var later := RunOf(log + [Evaluated(i, entry, now)], i, kind);
    RunOfSnoc(log, Evaluated(i, entry, now), i, kind);
    R.RecentLogCount(cfg.window, RunOf(log, i, kind), later, key, Event(entry.timestamp), now);
    MatchingIsLog(kind, log + [Evaluated(i, entry, now)], i, key, now - cfg.window);
  }

  // ----- The end-to-end theorems -----

  /** Detector i's windows for the key were never overwritten by a compaction. */
  ghost predicate Intact(setup: Setup, log: seq<DetectorEvent>, i: nat, key: string)
    requires Counts(setup, i)
  {
    var Counting(kind, cfg, cap) := setup.detectors[i];
    R.Intact(C.PolicyOf(kind), cfg.window, cap, RunOf(log, i, kind), key)
  }

  /** The entry counts, and the threshold of detector i is met by entries evaluated so far
      that count under the same key and are newer than the window. */
  ghost predicate Enough(setup: Setup, log: seq<DetectorEvent>, i: nat, entry: LogEntry, now: int)
    requires Counts(setup, i)
  {
    && C.KeyOf(setup.detectors[i].kind, entry).Some?
    && Matches(setup, log, i, entry, now) >= setup.detectors[i].cfg.threshold
  }

  /** Evaluation n is of the entry that anomaly a shows as its evidence, and the threshold
      was met when it was made. */
  ghost predicate Backed(setup: Setup, log: seq<DetectorEvent>, i: nat, n: nat, a: Anomaly) {
    && Counts(setup, i) && n < |log| && log[n].Evaluated? && log[n].det == i
    && Describes(setup, i, log[n].entry, log[n].now, a)
    && Enough(setup, log[..n + 1], i, log[n].entry, log[n].now)
  }

  lemma FiringHasEnough(setup: Setup, log: seq<DetectorEvent>, i: nat, entry: LogEntry, now: int)
    requires Counts(setup, i) && FiresAfter(setup, log, i, entry, now)
    requires Intact(setup, log, i, C.KeyOf(setup.detectors[i].kind, entry).value)
    ensures Enough(setup, log + [Evaluated(i, entry, now)], i, entry, now)
  {
    var Counting(kind, cfg, cap) := setup.detectors[i];
    var key := C.KeyOf(kind, entry).value;
    C.FiringIsJustified(C.PolicyOf(kind), cfg, cap, RunOf(log, i, kind), key, entry.timestamp, now);
    RecentIsMatching(setup, log, entry, now, i, key);
  }

  /** Event n fired anomaly a, and if no compaction had overwritten the window of its key
      by then, the anomaly is backed. */
  ghost predicate BackedIfIntact(setup: Setup, log: seq<DetectorEvent>, i: nat, n: nat, a: Anomaly) {
    && Origin(setup, log, i, n, a)
    && (Intact(setup, log[..n], i, C.KeyOf(setup.detectors[i].kind, log[n].entry).value) ==> Backed(setup, log, i, n, a))
  }

  lemma EnoughNext(setup: Setup, before: seq<DetectorEvent>, upTo: seq<DetectorEvent>, i: nat, entry: LogEntry, now: int)
    requires Counts(setup, i) && FiresAfter(setup, before, i, entry, now) && upTo == before + [Evaluated(i, entry, now)]
    requires Intact(setup, before, i, C.KeyOf(setup.detectors[i].kind, entry).value)
    ensures Enough(setup, upTo, i, entry, now)
  {
    FiringHasEnough(setup, before, i, entry, now);
  }

  lemma OriginIsBacked(setup: Setup, log: seq<DetectorEvent>, i: nat, n: nat, a: Anomaly)
    requires Origin(setup, log, i, n, a)
    ensures BackedIfIntact(setup, log, i, n, a)
  {
    if Intact(setup, log[..n], i, C.KeyOf(setup.detectors[i].kind, log[n].entry).value) {
      EnoughNext(setup, log[..n], log[..n + 1], i, log[n].entry, log[n].now);
    }
  }

  lemma TakenHasOrigin(setup: Setup, start: int, steps: seq<Step>, a: Anomaly)
    requires IsRun(setup, start, steps) && Separate(setup) && IsCountingRule(a.ruleID)
    requires a in Reached(setup, start, steps).taken
    ensures HasOrigin(setup, Reached(setup, start, steps).log, a)
  {
    var st := Reached(setup, start, steps);
    EngineConservation.Conservation(setup, start, steps, a.ruleID);
    OnlyFiredRun(setup, start, steps);
    OriginsRun(setup, start, steps);
    var j :| 0 <= j < |st.taken| && st.taken[j] == a;
    assert st.enqueued[j] == a;
    var m :| 0 <= m < |st.fired| && st.fired[m] == a;
  }

  /** In every run, whatever the interleaving: every anomaly of a counting rule that the
      dispatcher takes, and so every one it stores or alerts, goes back to an evaluation of
      its entry, and is backed by at least the threshold of matching entries unless a
      compaction had overwritten the window of that very key before. */
  lemma AlertsAreBacked(setup: Setup, start: int, steps: seq<Step>, a: Anomaly)
    requires IsRun(setup, start, steps) && Separate(setup) && IsCountingRule(a.ruleID)
    requires a in Reached(setup, start, steps).taken
    ensures exists i: nat, n: nat :: BackedIfIntact(setup, Reached(setup, start, steps).log, i, n, a)
  {
    var log := Reached(setup, start, steps).log;
    TakenHasOrigin(setup, start, steps, a);
    var i: nat, n: nat :| Origin(setup, log, i, n, a);
    OriginIsBacked(setup, log, i, n, a);
  }

  /** How many error entries of a service detector i has evaluated, newer than the cutoff. */
  function ErrorsEvaluated(log: seq<DetectorEvent>, i: nat, service: string, cutoff: int): nat {
    if |log| == 0 then 0
    else
      var e := log[|log| - 1];
      ErrorsEvaluated(log[..|log| - 1], i, service, cutoff)
      + if e.Evaluated? && e.det == i && e.entry.level == "error" && e.entry.service == service
           && cutoff < e.entry.timestamp
        then 1 else 0
  }

  lemma {:induction false} ErrorsAreMatching(log: seq<DetectorEvent>, i: nat, service: string, cutoff: int)
    ensures Matching(C.ErrorRate, log, i, service, cutoff) == ErrorsEvaluated(log, i, service, cutoff)
  {
    if |log| == 0 {
    } else {
      ErrorsAreMatching(log[..|log| - 1], i, service, cutoff);
    }
  }

  ghost predicate EnoughErrors(setup: Setup, log: seq<DetectorEvent>, i: nat, service: string, now: int)
    requires Counts(setup, i)
  {
    ErrorsEvaluated(log, i, service, now - setup.detectors[i].cfg.window) >= setup.detectors[i].cfg.threshold
  }

  lemma EnoughAreErrors(setup: Setup, log: seq<DetectorEvent>, i: nat, entry: LogEntry, now: int)
    requires Counts(setup, i) && setup.detectors[i].kind.ErrorRate? && Enough(setup, log, i, entry, now)
    ensures EnoughErrors(setup, log, i, entry.service, now)
  {
    ErrorsAreMatching(log, i, entry.service, now - setup.detectors[i].cfg.window);
  }

  lemma SpikesAreErrorRate(kind: C.Kind)
    requires C.RuleID(kind) == "error_rate_spike"
    ensures kind.ErrorRate?
  {
    assert |"error_rate_spike"| == |"repeated_failure"| && "error_rate_spike"[0] != "repeated_failure"[0];
    assert |"error_rate_spike"| != |"auth_failure_burst"|;
  }

  /** Evaluation n, by an error-rate rule, was of the entry that the anomaly shows, and by
      then the rule had evaluated at least the threshold of error entries of that service
      with timestamps inside its window. */
  ghost predicate SpikeBacked(setup: Setup, log: seq<DetectorEvent>, i: nat, n: nat, a: Anomaly) {
    && Counts(setup, i) && setup.detectors[i].kind.ErrorRate?
    && n < |log| && log[n].Evaluated? && log[n].det == i
    && a.evidence == [log[n].entry] && a.service == log[n].entry.service && log[n].now <= a.detectedAt
    && EnoughErrors(setup, log[..n + 1], i, a.service, log[n].now)
  }

  /** Event n fired the spike, and if no compaction had overwritten the window of its
      service by then, the spike is backed. */
  ghost predicate SpikeBackedIfIntact(setup: Setup, log: seq<DetectorEvent>, i: nat, n: nat, a: Anomaly) {
    && Origin(setup, log, i, n, a)
    && (Intact(setup, log[..n], i, a.service) ==> SpikeBacked(setup, log, i, n, a))
  }

  lemma BackedSpike(setup: Setup, log: seq<DetectorEvent>, i: nat, n: nat, a: Anomaly)
    requires BackedIfIntact(setup, log, i, n, a) && a.ruleID == "error_rate_spike"
    ensures SpikeBackedIfIntact(setup, log, i, n, a)
  {
    SpikesAreErrorRate(setup.detectors[i].kind);
    if Intact(setup, log[..n], i, a.service) {
      EnoughAreErrors(setup, log[..n + 1], i, log[n].entry, log[n].now);
    }
  }

  /** In every run, whatever the interleaving: every error_rate_spike that the dispatcher
      takes was preceded by at least the threshold of evaluated error entries of that service
      with timestamps inside the window at the time of firing, unless a compaction had
      overwritten the window of that very service before. */
  lemma ErrorSpikesAreBacked(setup: Setup, start: int, steps: seq<Step>, a: Anomaly)
    requires IsRun(setup, start, steps) && Separate(setup) && a.ruleID == "error_rate_spike"
    requires a in Reached(setup, start, steps).taken
    ensures exists i: nat, n: nat :: SpikeBackedIfIntact(setup, Reached(setup, start, steps).log, i, n, a)
  {
    AlertsAreBacked(setup, start, steps, a);
    var log := Reached(setup, start, steps).log;
    var i: nat, n: nat :| BackedIfIntact(setup, log, i, n, a);
    BackedSpike(setup, log, i, n, a);
  }

  // ----- Counting alike entries, without keys -----

  /** How many entries detector i has evaluated that its rule counts together with this one
      and that are newer than the cutoff. */
  ghost function AlikeEvaluated(kind: C.Kind, log: seq<DetectorEvent>, i: nat, entry: LogEntry, cutoff: int): nat {
    if |log| == 0 then 0
    else
      var e := log[|log| - 1];
      AlikeEvaluated(kind, log[..|log| - 1], i, entry, cutoff)
      + if e.Evaluated? && e.det == i && C.Alike(kind, entry, e.entry) && cutoff < e.entry.timestamp then 1 else 0
  }

  /** No entry that detector i has evaluated has a service name that could be mistaken. */
  ghost predicate Unbarred(kind: C.Kind, log: seq<DetectorEvent>, i: nat) {
    forall n :: 0 <= n < |log| && log[n].Evaluated? && log[n].det == i ==> !C.Barred(kind, log[n].entry)
  }

  lemma {:induction false} AlikeAreMatching(kind: C.Kind, log: seq<DetectorEvent>, i: nat, entry: LogEntry, cutoff: int)
    requires C.KeyOf(kind, entry).Some? && !C.Barred(kind, entry) && Unbarred(kind, log, i)
    ensures Matching(kind, log, i, C.KeyOf(kind, entry).value, cutoff) == AlikeEvaluated(kind, log, i, entry, cutoff)
  {
    if |log| == 0 {
    } else {
      var e := log[|log| - 1];
      AlikeAreMatching(kind, log[..|log| - 1], i, entry, cutoff);
      if e.Evaluated? && e.det == i {
        C.AlikeIff(kind, entry, e.entry);
      }
    }
  }

  /** The entry counts, and the threshold of detector i is met by entries alike that are
      newer than the window. */
  ghost predicate EnoughAlike(setup: Setup, log: seq<DetectorEvent>, i: nat, entry: LogEntry, now: int)
    requires Counts(setup, i)
  {
    var Counting(kind, cfg, _) := setup.detectors[i];
    C.Eligible(kind, entry) && AlikeEvaluated(kind, log, i, entry, now - cfg.window) >= cfg.threshold
  }

  lemma EnoughIff(setup: Setup, log: seq<DetectorEvent>, i: nat, entry: LogEntry, now: int)
    requires Counts(setup, i) && Unbarred(setup.detectors[i].kind, log, i) && !C.Barred(setup.detectors[i].kind, entry)
    ensures Enough(setup, log, i, entry, now) <==> EnoughAlike(setup, log, i, entry, now)
  {
    var Counting(kind, cfg, _) := setup.detectors[i];
    C.EligibleIff(kind, entry);
    if C.KeyOf(kind, entry).Some? {
      AlikeAreMatching(kind, log, i, entry, now - cfg.window);
    }
  }

  /** The rule's name. */
  ghost predicate IsNamed(kind: C.Kind, rule: string) {
    match kind
    case ErrorRate => rule == "error_rate_spike"
    case RepeatedFailure => rule == "repeated_failure"
    case AuthBurst(_, _) => rule == "auth_failure_burst"
  }

  /** Evaluation n was of the entry that anomaly a shows, and by then enough entries alike
      had been evaluated. */
  ghost predicate AlikeBacked(setup: Setup, log: seq<DetectorEvent>, i: nat, n: nat, a: Anomaly) {
    && Counts(setup, i) && n < |log| && log[n].Evaluated? && log[n].det == i
    && IsNamed(setup.detectors[i].kind, a.ruleID)
    && a.evidence == [log[n].entry] && a.service == log[n].entry.service && log[n].now <= a.detectedAt
    && EnoughAlike(setup, log[..n + 1], i, log[n].entry, log[n].now)
  }

  /** That is so unless a compaction had overwritten the window of the entry's key, or the
      service names of repeated failures could be mistaken. */
  ghost predicate AlikeBackedIf(setup: Setup, log: seq<DetectorEvent>, i: nat, n: nat, a: Anomaly) {
    && Origin(setup, log, i, n, a)
    && (Intact(setup, log[..n], i, C.KeyOf(setup.detectors[i].kind, log[n].entry).value)
        && Unbarred(setup.detectors[i].kind, log[..n + 1], i)
        ==> AlikeBacked(setup, log, i, n, a))
  }

  lemma BackedByAlike(setup: Setup, log: seq<DetectorEvent>, i: nat, n: nat, a: Anomaly)
    requires BackedIfIntact(setup, log, i, n, a)
    ensures AlikeBackedIf(setup, log, i, n, a)
  {
    var kind := setup.detectors[i].kind;
    if Intact(setup, log[..n], i, C.KeyOf(kind, log[n].entry).value) && Unbarred(kind, log[..n + 1], i) {
      assert log[..n + 1][n] == log[n];
      EnoughIff(setup, log[..n + 1], i, log[n].entry, log[n].now);
    }
  }

  /** In every run, whatever the interleaving, for all three counting rules in their own
      terms: an anomaly that the dispatcher takes was preceded by at least the threshold of
      evaluated entries like the one it shows, with timestamps inside the window. */
  lemma AlertsCountAlike(setup: Setup, start: int, steps: seq<Step>, a: Anomaly)
    requires IsRun(setup, start, steps) && Separate(setup) && IsCountingRule(a.ruleID)
    requires a in Reached(setup, start, steps).taken
    ensures exists i: nat, n: nat :: AlikeBackedIf(setup, Reached(setup, start, steps).log, i, n, a)
  {
    AlertsAreBacked(setup, start, steps, a);
    var log := Reached(setup, start, steps).log;
    var i: nat, n: nat :| BackedIfIntact(setup, log, i, n, a);
    BackedByAlike(setup, log, i, n, a);
  }

  /** What the dispatcher stored or alerted, it had taken. */
  lemma HandledWasTaken(setup: Setup, start: int, steps: seq<Step>, a: Anomaly)
    requires IsRun(setup, start, steps)
    requires a in Reached(setup, start, steps).stored || (setup.alerts && a in Reached(setup, start, steps).alerted)
    ensures a in Reached(setup, start, steps).taken
  {
    EngineConservation.Conservation(setup, start, steps, a.ruleID);
  }

  // ----- Exactness of every call -----

  /** Every clock reading in the log lies in the past. */
  ghost predicate PastReadings(log: seq<DetectorEvent>, clock: int) {
    forall n :: 0 <= n < |log| && log[n].Visited? ==> log[n].evictAt <= log[n].countAt <= clock
  }

  lemma PastDetectors(setup: Setup, st: State, step: Step)
    requires Ready(setup, st) && Enabled(setup, st, step) && PastReadings(st.log, st.clock)
    requires step.Call? || step.Visit?
    ensures PastReadings(Next(setup, st, step).log, Next(setup, st, step).clock)
  {
  }

  lemma PastNext(setup: Setup, st: State, step: Step)
    requires Ready(setup, st) && Enabled(setup, st, step) && PastReadings(st.log, st.clock)
    ensures PastReadings(Next(setup, st, step).log, Next(setup, st, step).clock)
  {
    if step.Call? || step.Visit? {
      PastDetectors(setup, st, step);
    } else {
      OtherDetectorSteps(setup, st, step);
      ClockAdvances(setup, st, step);
    }
  }

  lemma ClockAdvances(setup: Setup, st: State, step: Step)
    requires Ready(setup, st) && Enabled(setup, st, step)
    ensures st.clock <= Next(setup, st, step).clock
  {
  }

  lemma {:induction false} PastRun(setup: Setup, start: int, steps: seq<Step>)
    requires IsRun(setup, start, steps)
    ensures PastReadings(Reached(setup, start, steps).log, Reached(setup, start, steps).clock)
  {
    if |steps| == 0 {
    } else {
      var front, step := steps[..|steps| - 1], steps[|steps| - 1];
      PastRun(setup, start, front);
      PastNext(setup, Reached(setup, start, front), step);
    }
  }

  lemma {:induction false} PastIsReadBy(log: seq<DetectorEvent>, clock: int, now: int, policy: Policy, kind: C.Kind, i: nat, key: string)
    requires PastReadings(log, clock) && clock <= now
    ensures ReadBy(R.OpsOf(policy, RunOf(log, i, kind), key), now)
  {
    if |log| == 0 {
    } else {
      var front, e := log[..|log| - 1], log[|log| - 1];
      PastIsReadBy(front, clock, now, policy, kind, i, key);
      if e.det == i {
        R.ReadByStep(policy, RunOf(front, i, kind), EventStep(kind, e), key, now);
      }
    }
  }

  /** Detector i's window for the key never overflowed between evictions and has room. */
  ghost predicate Roomy(setup: Setup, log: seq<DetectorEvent>, i: nat, key: string)
    requires Counts(setup, i)
  {
    var Counting(kind, cfg, cap) := setup.detectors[i];
    R.Roomy(C.PolicyOf(kind), cfg.window, cap, RunOf(log, i, kind), key)
  }

  lemma FiringIsEnough(setup: Setup, log: seq<DetectorEvent>, clock: int, i: nat, entry: LogEntry, now: int)
    requires Counts(setup, i) && PastReadings(log, clock) && clock <= now
    requires C.KeyOf(setup.detectors[i].kind, entry).Some?
    requires Roomy(setup, log, i, C.KeyOf(setup.detectors[i].kind, entry).value)
    ensures FiresAfter(setup, log, i, entry, now) <==> Enough(setup, log + [Evaluated(i, entry, now)], i, entry, now)
  {
    var Counting(kind, cfg, cap) := setup.detectors[i];
    var key := C.KeyOf(kind, entry).value;
    PastIsReadBy(log, clock, now, C.PolicyOf(kind), kind, i, key);
    C.FiresExactly(C.PolicyOf(kind), cfg, cap, RunOf(log, i, kind), key, entry.timestamp, now);
    RecentIsMatching(setup, log, entry, now, i, key);
  }

  /** In every run, whatever the interleaving: while the window concerned has not overflowed
      between evictions, a call to a counting rule brings up an anomaly if and only if the
      entry counts and the threshold is met by the entries evaluated so far. */
  lemma CallFiresExactly(setup: Setup, start: int, steps: seq<Step>, t: nat, now: int, firedAt: int, outcome: Option<Anomaly>)
    requires IsRun(setup, start, steps) && Enabled(setup, Reached(setup, start, steps), Call(t, now, firedAt, outcome))
    requires var st := Reached(setup, start, steps);
             var Pipeline(entry, i) := st.threads[t].task;
             && Counts(setup, i)
             && (C.KeyOf(setup.detectors[i].kind, entry).Some? ==>
                   Roomy(setup, st.log, i, C.KeyOf(setup.detectors[i].kind, entry).value))
    ensures var st := Reached(setup, start, steps);
            var st' := CallDetector(setup, st, t, now, firedAt, outcome);
            var Pipeline(entry, i) := st.threads[t].task;
            && st'.log == st.log + [Evaluated(i, entry, now)]
            && (st'.threads[t].Checking? <==> Enough(setup, st'.log, i, entry, now))
  {
    var st := Reached(setup, start, steps);
    var Pipeline(entry, i) := st.threads[t].task;
    TracksRun(setup, start, steps, i);
    CallFiresAfter(setup, st, t, now, firedAt, outcome);
    if C.KeyOf(setup.detectors[i].kind, entry).Some? {
      PastRun(setup, start, steps);
      FiringIsEnough(setup, st.log, st.clock, i, entry, now);
    }
  }

  lemma CallFiresAfter(setup: Setup, st: State, t: nat, now: int, firedAt: int, outcome: Option<Anomaly>)
    requires Ready(setup, st) && Enabled(setup, st, Call(t, now, firedAt, outcome))
    requires Tracks(setup, st, st.threads[t].task.next)
    ensures var Pipeline(entry, i) := st.threads[t].task;
            CallDetector(setup, st, t, now, firedAt, outcome).threads[t].Checking? <==> FiresAfter(setup, st.log, i, entry, now)
  {
    assert st.log[..|st.log|] == st.log;
  }

  /** The anomaly that a call brings up: it names the rule and the entry's service, shows
      the entry and bears the time of firing. */
  ghost predicate ReportsEntry(kind: C.Kind, entry: LogEntry, firedAt: int, thread: Thread) {
    && thread.Checking? && IsNamed(kind, thread.a.ruleID)
    && thread.a.service == entry.service && thread.a.evidence == [entry] && thread.a.detectedAt == firedAt
  }

  lemma CallReportsEntry(setup: Setup, st: State, t: nat, now: int, firedAt: int, outcome: Option<Anomaly>)
    requires Ready(setup, st) && Enabled(setup, st, Call(t, now, firedAt, outcome))
    requires Counts(setup, st.threads[t].task.next)
    ensures var Pipeline(entry, i) := st.threads[t].task;
            var st' := CallDetector(setup, st, t, now, firedAt, outcome);
            if st'.threads[t].Checking? then
              ReportsEntry(setup.detectors[i].kind, entry, firedAt, st'.threads[t]) && st'.fired == st.fired + [st'.threads[t].a]
            else
              st'.fired == st.fired
  {
  }

  /** The same in the rules' own terms: a call brings up an anomaly if and only if the entry
      counts and enough entries like it have been evaluated. */
  lemma CallFiresOnAlike(setup: Setup, start: int, steps: seq<Step>, t: nat, now: int, firedAt: int, outcome: Option<Anomaly>)
    requires IsRun(setup, start, steps) && Enabled(setup, Reached(setup, start, steps), Call(t, now, firedAt, outcome))
    requires var st := Reached(setup, start, steps);
             var Pipeline(entry, i) := st.threads[t].task;
             && Counts(setup, i)
             && (C.KeyOf(setup.detectors[i].kind, entry).Some? ==>
                   Roomy(setup, st.log, i, C.KeyOf(setup.detectors[i].kind, entry).value))
             && Unbarred(setup.detectors[i].kind, st.log + [Evaluated(i, entry, now)], i)
    ensures var st := Reached(setup, start, steps);
            var st' := CallDetector(setup, st, t, now, firedAt, outcome);
            var Pipeline(entry, i) := st.threads[t].task;
            && st'.log == st.log + [Evaluated(i, entry, now)]
            && (if EnoughAlike(setup, st'.log, i, entry, now) then
                  ReportsEntry(setup.detectors[i].kind, entry, firedAt, st'.threads[t]) && st'.fired == st.fired + [st'.threads[t].a]
                else
                  st'.threads[t] == Running(Pipeline(entry, i + 1)) && st'.fired == st.fired)
  {
    var st := Reached(setup, start, steps);
    var Pipeline(entry, i) := st.threads[t].task;
    var log := st.log + [Evaluated(i, entry, now)];
    CallFiresExactly(setup, start, steps, t, now, firedAt, outcome);
    CallReportsEntry(setup, st, t, now, firedAt, outcome);
    assert log[|st.log|] == Evaluated(i, entry, now);
    EnoughIff(setup, log, i, entry, now);
  }
}
