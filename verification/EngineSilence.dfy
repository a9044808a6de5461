/** The silence rule inside the engine: an alert about a silent service is the report of a
    check that found it quiet, whatever the interleaving. */
module EngineSilence {
  import opened Domain
  import opened Engine
  import EngineConservation
  import EngineSoundness
  import SilenceCalls
  import S = Silence
  import C = CountingRules

  type Turns = seq<S.Turn<string>>

  /** Detector q is the silence rule, and no other detector uses its name. */
  ghost predicate HasSilenceRule(setup: Setup, q: nat) {
    && q < |setup.detectors| && setup.detectors[q] == Detector.Other(SILENCE_RULE)
    && forall i :: 0 <= i < |setup.detectors| && i != q && setup.detectors[i].Other? ==> setup.detectors[i].rule != SILENCE_RULE
  }

  /** The anomalies that the watcher gets for the reports of a check, in order. */
  ghost predicate Announces(reports: seq<Anomaly>, found: seq<(string, int)>) {
    && |reports| == |found|
    && forall j :: 0 <= j < |reports| ==>
         && reports[j].ruleID == "service_silence" && reports[j].evidence == []
         && reports[j].service == found[j].0 && found[j].1 <= reports[j].detectedAt
  }

  /** What the silence rule, in state t, goes through during a step of the engine: a call
      logs the entry's service and never fires, a tick of the watcher after the warm-up is a
      CheckSilence, and the eviction loop's visit is a Reset. */
  ghost predicate Fits(setup: Setup, q: nat, cfg: S.Config, st: State, t: S.Tracker<string>, step: Step, turns: Turns)
    requires Ready(setup, st) && Enabled(setup, st, step)
  {
    match step
    case Call(g, _, _, outcome) =>
      if st.threads[g].task.next == q then
        outcome.None? && |turns| == 1 && turns[0].Logged? && turns[0].service == st.threads[g].task.entry.service
      else
        turns == []
    case Heartbeat(_, now, reports) =>
      if now < setup.warmupUntil then turns == []
      else
        && S.Covers(turns, t.lastSeen.Keys) && (forall i :: 0 <= i < |turns| ==> turns[i].Checked?)
        && Announces(reports, S.ReportsOf(cfg, t, turns))
    case Visit(det, _, _, _) =>
      if det == q then
        S.Covers(turns, t.lastSeen.Keys) && forall i :: 0 <= i < |turns| ==> turns[i].Examined?
      else
        turns == []
    case _ => turns == []
  }

  function All(turns: seq<Turns>): Turns {
    if |turns| == 0 then [] else All(turns[..|turns| - 1]) + turns[|turns| - 1]
  }

  /** A run of the engine with what its silence rule goes through at every step. */
  ghost predicate IsSilenceRun(setup: Setup, q: nat, cfg: S.Config, start: int, steps: seq<Step>, turns: seq<Turns>)
    decreases |steps|
  {
    && IsRun(setup, start, steps) && |turns| == |steps|
    && (|steps| > 0 ==>
          var n := |steps| - 1;
          && IsSilenceRun(setup, q, cfg, start, steps[..n], turns[..n])
          && Fits(setup, q, cfg, Reached(setup, start, steps[..n]), S.TakeAll(cfg, S.Initial(), All(turns[..n])),
                  steps[n], turns[n]))
  }

  // ----- Its logs are the entries that the engine passes to it -----

  /** How many entries of a service detector q has evaluated. */
  function EntriesSeen(log: seq<DetectorEvent>, q: nat, service: string): nat {
    if |log| == 0 then 0
    else
      var e := log[|log| - 1];
      EntriesSeen(log[..|log| - 1], q, service) + if e.Evaluated? && e.det == q && e.entry.service == service then 1 else 0
  }

  lemma EntriesSnoc(log: seq<DetectorEvent>, e: DetectorEvent, q: nat, service: string)
    ensures EntriesSeen(log + [e], q, service)
         == EntriesSeen(log, q, service) + if e.Evaluated? && e.det == q && e.entry.service == service then 1 else 0
  {
    assert (log + [e])[..|log|] == log;
  }

  lemma {:induction false} LogCountConcat(a: Turns, b: Turns, service: string)
    ensures S.LogCount(a + b, service) == S.LogCount(a, service) + S.LogCount(b, service)
  {
    if |b| == 0 {
      assert a + b == a;
    } else {
      LogCountConcat(a, b[..|b| - 1], service);
      assert (a + b)[..|a + b| - 1] == a + b[..|b| - 1];
    }
  }

  lemma {:induction false} NoLogs(turns: Turns, service: string)
    requires forall i :: 0 <= i < |turns| ==> !turns[i].Logged?
    ensures S.LogCount(turns, service) == 0
  {
    if |turns| == 0 {
    } else {
      NoLogs(turns[..|turns| - 1], service);
    }
  }

  lemma LogsOfStep(setup: Setup, q: nat, cfg: S.Config, st: State, t: S.Tracker<string>, step: Step, turns: Turns, service: string)
    requires Ready(setup, st) && Enabled(setup, st, step) && Fits(setup, q, cfg, st, t, step, turns)
    ensures EntriesSeen(Next(setup, st, step).log, q, service) == EntriesSeen(st.log, q, service) + S.LogCount(turns, service)
  {
    EngineSoundness.OtherDetectorSteps(setup, st, step);
    if step.Call? && st.threads[step.t].task.next == q {
      assert turns == [turns[0]] && turns[..0] == [];
    } else {
      NoLogs(turns, service);
    }
    if step.Call? {
      var Pipeline(entry, i) := st.threads[step.t].task;
      EntriesSnoc(st.log, Evaluated(i, entry, step.now), q, service);
    } else if step.Visit? {
      EntriesSnoc(st.log, Visited(step.det, step.key, step.evictAt, step.countAt), q, service);
    }
  }

  /** In every run the rule's log count of a service is the number of its entries that the
      engine has passed to the rule. */
  lemma {:induction false} LogsAreEntries(setup: Setup, q: nat, cfg: S.Config, start: int, steps: seq<Step>, turns: seq<Turns>, service: string)
    requires IsSilenceRun(setup, q, cfg, start, steps, turns)
    ensures S.LogCount(All(turns), service) == EntriesSeen(Reached(setup, start, steps).log, q, service)
  {
    if |steps| == 0 {
    } else {
      var n := |steps| - 1;
      LogsAreEntries(setup, q, cfg, start, steps[..n], turns[..n], service);
      LogsOfStep(setup, q, cfg, Reached(setup, start, steps[..n]), S.TakeAll(cfg, S.Initial(), All(turns[..n])),
                 steps[n], turns[n], service);
      LogCountConcat(All(turns[..n]), turns[n], service);
    }
  }

  // ----- Where reports come from -----

  /** Turn i is a check that reports the service of this anomaly. */
  ghost predicate ReportOf(cfg: S.Config, all: Turns, i: nat, a: Anomaly) {
    && i < |all| && S.ReportedAt(cfg, S.Initial(), all, i)
    && all[i].service == a.service && all[i].now <= a.detectedAt
  }

  ghost predicate IsReported(cfg: S.Config, all: Turns, a: Anomaly) {
    exists i: nat :: ReportOf(cfg, all, i, a)
  }

  lemma ReportedGrows(cfg: S.Config, all: Turns, more: Turns, a: Anomaly)
    requires IsReported(cfg, all, a)
    ensures IsReported(cfg, all + more, a)
  {
    var i: nat :| ReportOf(cfg, all, i, a);
    assert (all + more)[..i] == all[..i];
    assert ReportOf(cfg, all + more, i, a);
  }

  ghost predicate AllReported(cfg: S.Config, all: Turns, s: seq<Anomaly>) {
    forall j :: 0 <= j < |s| && s[j].ruleID == SILENCE_RULE ==> IsReported(cfg, all, s[j])
  }

  lemma AllReportedGrows(cfg: S.Config, all: Turns, more: Turns, s: seq<Anomaly>)
    requires AllReported(cfg, all, s)
    ensures AllReported(cfg, all + more, s)
  {
    forall j | 0 <= j < |s| && s[j].ruleID == SILENCE_RULE
      ensures IsReported(cfg, all + more, s[j])
    {
      ReportedGrows(cfg, all, more, s[j]);
    }
  }

  /** Every report of a check is the report of one of its turns. */
  lemma {:induction false} ReportTurn(cfg: S.Config, t: S.Tracker<string>, turns: Turns, j: nat) returns (i: nat)
    requires j < |S.ReportsOf(cfg, t, turns)|
    ensures i < |turns| && S.ReportedAt(cfg, t, turns, i)
    ensures S.ReportsOf(cfg, t, turns)[j] == (turns[i].service, turns[i].now)
  {
    var n := |turns| - 1;
    if j < |S.ReportsOf(cfg, t, turns[..n])| {
      i := ReportTurn(cfg, t, turns[..n], j);
      assert turns[..n][..i] == turns[..i];
    } else {
      i := n;
    }
  }

  lemma AnnouncedIsReported(cfg: S.Config, all: Turns, turns: Turns, reports: seq<Anomaly>)
    requires Announces(reports, S.ReportsOf(cfg, S.TakeAll(cfg, S.Initial(), all), turns))
    ensures AllReported(cfg, all + turns, reports)
  {
    forall j | 0 <= j < |reports|
      ensures IsReported(cfg, all + turns, reports[j])
    {
      var i := ReportTurn(cfg, S.TakeAll(cfg, S.Initial(), all), turns, j);
      SilenceCalls.TakeAllConcat(cfg, S.Initial(), all, turns[..i]);
      assert (all + turns)[..|all| + i] == all + turns[..i];
      assert ReportOf(cfg, all + turns, |all| + i, reports[j]);
    }
  }

  // ----- What the engine does with them -----

  ghost predicate RestReported(cfg: S.Config, all: Turns, thread: Thread) {
    !thread.Idle? && thread.task.Reported? ==> AllReported(cfg, all, thread.task.rest)
  }

  /** Every silence anomaly that has come up, or is still to be picked, is a report. */
  ghost predicate OnlyReports(cfg: S.Config, all: Turns, st: State) {
    && AllReported(cfg, all, st.fired)
    && forall g :: 0 <= g < |st.threads| ==> RestReported(cfg, all, st.threads[g])
  }

  lemma OnlyReportsGrow(cfg: S.Config, all: Turns, more: Turns, st: State)
    requires OnlyReports(cfg, all, st)
    ensures OnlyReports(cfg, all + more, st)
  {
    AllReportedGrows(cfg, all, more, st.fired);
    forall g | 0 <= g < |st.threads|
      ensures RestReported(cfg, all + more, st.threads[g])
    {
      if !st.threads[g].Idle? && st.threads[g].task.Reported? {
        AllReportedGrows(cfg, all, more, st.threads[g].task.rest);
      }
    }
  }

  lemma ReportsHeartbeat(setup: Setup, st: State, cfg: S.Config, all: Turns, g: nat, now: int, reports: seq<Anomaly>)
    requires Ready(setup, st) && Enabled(setup, st, Heartbeat(g, now, reports)) && OnlyReports(cfg, all, st)
    requires now < setup.warmupUntil || AllReported(cfg, all, reports)
    ensures OnlyReports(cfg, all, Next(setup, st, Heartbeat(g, now, reports)))
  {
  }

  /** No other detector brings up an anomaly of that name. */
  lemma AnswerIsNoReport(setup: Setup, st: State, q: nat, g: nat, now: int, firedAt: int, outcome: Option<Anomaly>)
    requires Ready(setup, st) && Enabled(setup, st, Call(g, now, firedAt, outcome)) && HasSilenceRule(setup, q)
    requires st.threads[g].task.next == q ==> outcome.None?
    ensures var Pipeline(entry, i) := st.threads[g].task;
            var answer := Evaluate(setup.detectors[i], st.states[i], entry, now, firedAt, outcome).1;
            answer.Some? ==> answer.value.ruleID != SILENCE_RULE
  {
    var i := st.threads[g].task.next;
    assert |SILENCE_RULE| == 15;
    if setup.detectors[i].Counting? {
      assert |C.RuleID(setup.detectors[i].kind)| > 15;
    }
  }

  lemma ReportsCall(setup: Setup, st: State, cfg: S.Config, all: Turns, q: nat, g: nat, now: int, firedAt: int, outcome: Option<Anomaly>)
    requires Ready(setup, st) && Enabled(setup, st, Call(g, now, firedAt, outcome)) && HasSilenceRule(setup, q)
    requires st.threads[g].task.next == q ==> outcome.None?
    requires OnlyReports(cfg, all, st)
    ensures OnlyReports(cfg, all, CallDetector(setup, st, g, now, firedAt, outcome))
  {
    AnswerIsNoReport(setup, st, q, g, now, firedAt, outcome);
  }

  lemma ReportsPick(setup: Setup, st: State, cfg: S.Config, all: Turns, g: nat)
    requires Ready(setup, st) && Enabled(setup, st, Pick(g)) && OnlyReports(cfg, all, st)
    ensures OnlyReports(cfg, all, Next(setup, st, Pick(g)))
  {
    assert RestReported(cfg, all, st.threads[g]);
  }

  lemma ReportsElsewhere(setup: Setup, st: State, cfg: S.Config, all: Turns, step: Step)
    requires Ready(setup, st) && Enabled(setup, st, step) && OnlyReports(cfg, all, st)
    requires !step.Heartbeat? && !step.Call? && !step.Pick?
    ensures OnlyReports(cfg, all, Next(setup, st, step))
  {
  }

  lemma ReportsNext(setup: Setup, q: nat, cfg: S.Config, st: State, all: Turns, step: Step, turns: Turns)
    requires Ready(setup, st) && Enabled(setup, st, step) && HasSilenceRule(setup, q)
    requires Fits(setup, q, cfg, st, S.TakeAll(cfg, S.Initial(), all), step, turns) && OnlyReports(cfg, all, st)
    ensures OnlyReports(cfg, all + turns, Next(setup, st, step))
  {
    OnlyReportsGrow(cfg, all, turns, st);
    if step.Heartbeat? {
      if step.now >= setup.warmupUntil {
        AnnouncedIsReported(cfg, all, turns, step.reports);
      }
      ReportsHeartbeat(setup, st, cfg, all + turns, step.t, step.now, step.reports);
    } else if step.Call? {
      ReportsCall(setup, st, cfg, all + turns, q, step.t, step.now, step.firedAt, step.outcome);
    } else if step.Pick? {
      ReportsPick(setup, st, cfg, all + turns, step.t);
    } else {
      ReportsElsewhere(setup, st, cfg, all + turns, step);
    }
  }

  lemma {:induction false} OnlyReportsRun(setup: Setup, q: nat, cfg: S.Config, start: int, steps: seq<Step>, turns: seq<Turns>)
    requires IsSilenceRun(setup, q, cfg, start, steps, turns) && HasSilenceRule(setup, q)
    ensures OnlyReports(cfg, All(turns), Reached(setup, start, steps))
  {
    if |steps| == 0 {
    } else {
      var n := |steps| - 1;
      OnlyReportsRun(setup, q, cfg, start, steps[..n], turns[..n]);
      ReportsNext(setup, q, cfg, Reached(setup, start, steps[..n]), All(turns[..n]), steps[n], turns[n]);
    }
  }

  /** Turn i reports a service that has logged often enough and of which no log before it is
      more recent than the configured time. */
  ghost predicate ReallyQuiet(cfg: S.Config, all: Turns, i: nat, a: Anomaly) {
    && ReportOf(cfg, all, i, a)
    && S.LogCount(all[..i], a.service) >= cfg.minLogCount
    && forall j :: 0 <= j < i && all[j].Logged? && all[j].service == a.service ==>
         all[i].now - all[j].now > cfg.silenceAfter
  }

  /** End to end, in every run and interleaving: every silence anomaly that the dispatcher
      takes is the report of a check that found the service quiet for longer than the
      configured time, after it had logged often enough. */
  lemma SilenceAlertsAreTrue(setup: Setup, q: nat, cfg: S.Config, start: int, steps: seq<Step>, turns: seq<Turns>, a: Anomaly)
    returns (i: nat)
    requires IsSilenceRun(setup, q, cfg, start, steps, turns) && HasSilenceRule(setup, q) && S.ClockRuns(All(turns))
    requires a.ruleID == "service_silence" && a in Reached(setup, start, steps).taken
    ensures ReallyQuiet(cfg, All(turns), i, a)
  {
    var st := Reached(setup, start, steps);
    EngineConservation.Conservation(setup, start, steps, a.ruleID);
    EngineSoundness.OnlyFiredRun(setup, start, steps);
    OnlyReportsRun(setup, q, cfg, start, steps, turns);
    var j :| 0 <= j < |st.taken| && st.taken[j] == a;
    assert st.enqueued[j] == a;
    var m :| 0 <= m < |st.fired| && st.fired[m] == a;
    i :| ReportOf(cfg, All(turns), i, a);
    S.ReportIsTrue(cfg, All(turns), i);
  }
}
