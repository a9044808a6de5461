/** The silence rule as it is used: whole calls of Evaluate, CheckSilence and Reset, each
    under the rule's mutex, and checks on a schedule. */
module SilenceCalls {
  import opened Silence

  datatype Kind = Evaluate | CheckSilence | Reset

  /** One call: when it starts and ends, and the turns it takes, each with a clock reading. */
  datatype Call<K> = Call(kind: Kind, start: int, turns: seq<Turn<K>>, finish: int)

  /** The turns are those that the rule's method takes in this state. */
  ghost predicate Fits<K>(t: Tracker<K>, call: Call<K>) {
    match call.kind
    case Evaluate => |call.turns| == 1 && call.turns[0].Logged?
    case CheckSilence =>
      Covers(call.turns, t.lastSeen.Keys) && forall i :: 0 <= i < |call.turns| ==> call.turns[i].Checked?
    case Reset =>
      Covers(call.turns, t.lastSeen.Keys) && forall i :: 0 <= i < |call.turns| ==> call.turns[i].Examined?
  }

  function TurnsOf<K>(calls: seq<Call<K>>): seq<Turn<K>> {
    if |calls| == 0 then [] else TurnsOf(calls[..|calls| - 1]) + calls[|calls| - 1].turns
  }

  function StateAfter<K>(cfg: Config, t: Tracker<K>, calls: seq<Call<K>>): Tracker<K> {
    TakeAll(cfg, t, TurnsOf(calls))
  }

  ghost predicate FitsAt<K>(cfg: Config, t: Tracker<K>, calls: seq<Call<K>>, k: nat)
    requires k < |calls|
  {
    Fits(StateAfter(cfg, t, calls[..k]), calls[k])
  }

  ghost predicate Follows<K>(cfg: Config, t: Tracker<K>, calls: seq<Call<K>>) {
    forall k :: 0 <= k < |calls| ==> FitsAt(cfg, t, calls, k)
  }

  /** Calls follow each other in time, from `since` on. */
  ghost predicate Timed<K>(calls: seq<Call<K>>, since: int) {
    && (forall k :: 0 <= k < |calls| ==> since <= calls[k].start <= calls[k].finish)
    && (forall k, i :: 0 <= k < |calls| && 0 <= i < |calls[k].turns| ==>
          calls[k].start <= calls[k].turns[i].now <= calls[k].finish)
    && (forall j, k :: 0 <= j < k < |calls| ==> calls[j].finish <= calls[k].start)
  }

  /** When the latest CheckSilence call started. */
  function LatestStart<K>(calls: seq<Call<K>>, since: int): int {
    if |calls| == 0 then since
    else
      var last := calls[|calls| - 1];
      if last.kind.CheckSilence? then last.start else LatestStart(calls[..|calls| - 1], since)
  }

  /** Consecutive CheckSilence calls are at most `gap` apart, from the start of one to the
      end of the next, and nothing happens later than that after the last. */
  ghost predicate OnSchedule<K>(calls: seq<Call<K>>, since: int, gap: int) {
    forall k :: 0 <= k < |calls| ==> OnTimeAt(calls, since, gap, k)
  }

  ghost predicate OnTimeAt<K>(calls: seq<Call<K>>, since: int, gap: int, k: nat)
    requires k < |calls|
  {
    calls[k].finish - LatestStart(calls[..k], since) <= gap
  }

  // ----- Calls and turns -----

  lemma {:induction false} TakeAllConcat<K>(cfg: Config, t: Tracker<K>, a: seq<Turn<K>>, b: seq<Turn<K>>)
    ensures TakeAll(cfg, t, a + b) == TakeAll(cfg, TakeAll(cfg, t, a), b)
  {
    if |b| == 0 {
      assert a + b == a;
    } else {
      TakeAllConcat(cfg, t, a, b[..|b| - 1]);
      assert (a + b)[..|a + b| - 1] == a + b[..|b| - 1];
    }
  }

  lemma {:induction false} LatestCheckConcat<K>(a: seq<Turn<K>>, b: seq<Turn<K>>, s: K, lastLog: int)
    ensures LatestCheck(a + b, s, lastLog) == LatestCheck(b, s, LatestCheck(a, s, lastLog))
  {
    if |b| == 0 {
      assert a + b == a;
    } else {
      LatestCheckConcat(a, b[..|b| - 1], s, lastLog);
      assert (a + b)[..|a + b| - 1] == a + b[..|b| - 1];
    }
  }

  /** The latest check within some turns is one of them, or there is none. */
  lemma {:induction false} LatestCheckWithin<K>(turns: seq<Turn<K>>, s: K, lastLog: int, low: int)
    requires forall i :: 0 <= i < |turns| ==> low <= turns[i].now
    ensures LatestCheck(turns, s, lastLog) == lastLog || LatestCheck(turns, s, lastLog) >= low
    ensures (exists i :: 0 <= i < |turns| && turns[i].Checked? && turns[i].service == s) ==>
              LatestCheck(turns, s, lastLog) >= low
  {
    if |turns| == 0 {
    } else {
      LatestCheckWithin(turns[..|turns| - 1], s, lastLog, low);
    }
  }

  lemma QuietParts<K>(a: seq<Turn<K>>, b: seq<Turn<K>>, s: K)
    ensures Quiet(a + b, s) <==> Quiet(a, s) && Quiet(b, s)
  {
    var all := a + b;
    assert forall i :: 0 <= i < |a| ==> all[i] == a[i];
    assert forall i :: 0 <= i < |b| ==> all[|a| + i] == b[i];
  }

  /** Calls that follow the rule, one after the other, with checks on schedule. */
  ghost predicate Scheduled<K>(cfg: Config, t: Tracker<K>, calls: seq<Call<K>>, since: int, gap: int) {
    Follows(cfg, t, calls) && Timed(calls, since) && OnSchedule(calls, since, gap)
  }

  lemma ScheduledPrefix<K>(cfg: Config, t: Tracker<K>, calls: seq<Call<K>>, since: int, gap: int, n: nat)
    requires n <= |calls| && Scheduled(cfg, t, calls, since, gap)
    ensures Scheduled(cfg, t, calls[..n], since, gap)
  {
    var front := calls[..n];
    forall k | 0 <= k < n
      ensures FitsAt(cfg, t, front, k) && OnTimeAt(front, since, gap, k)
    {
      assert front[..k] == calls[..k];
      assert FitsAt(cfg, t, calls, k) && OnTimeAt(calls, since, gap, k);
    }
  }

  /** The latest check before a call started before it. */
  lemma {:induction false} StartBefore<K>(calls: seq<Call<K>>, since: int, n: nat)
    requires n < |calls| && Timed(calls, since)
    ensures LatestStart(calls[..n], since) <= calls[n].start
  {
    if n == 0 {
    } else {
      StartBefore(calls, since, n - 1);
      assert calls[..n][..n - 1] == calls[..n - 1];
    }
  }

  /** One more call: a CheckSilence call examines a service that it finds tracked. */
  lemma CallChecks<K>(before: Tracker<K>, call: Call<K>, s: K, latest: int, since: int)
    requires Fits(before, call) && s in before.lastSeen
    requires since <= latest && since <= call.start
    requires forall i :: 0 <= i < |call.turns| ==> call.start <= call.turns[i].now
    ensures (if call.kind.CheckSilence? then call.start else since) <= LatestCheck(call.turns, s, latest)
  {
    LatestCheckWithin(call.turns, s, latest, call.start);
  }

  /** A quiet service that is still tracked was examined by every CheckSilence call. */
  lemma {:induction false} CheckedSinceStart<K>(cfg: Config, t: Tracker<K>, calls: seq<Call<K>>, s: K, since: int, gap: int)
    requires s in t.lastSeen && since <= t.lastSeen[s] && Scheduled(cfg, t, calls, since, gap)
    requires Quiet(TurnsOf(calls), s) && s in StateAfter(cfg, t, calls).lastSeen
    ensures LatestStart(calls, since) <= LatestCheck(TurnsOf(calls), s, t.lastSeen[s])
  {
    if |calls| == 0 {
    } else {
      var n := |calls| - 1;
      var front, last, lastLog := calls[..n], calls[n], t.lastSeen[s];
      var turns := TurnsOf(front);
      ScheduledPrefix(cfg, t, calls, since, gap, n);
      QuietParts(turns, last.turns, s);
      TrackedBefore(cfg, t, TurnsOf(calls), s, |turns|);
      assert TurnsOf(calls)[..|turns|] == turns;
      CheckedSinceStart(cfg, t, front, s, since, gap);
      StartBefore(calls, since, n);
      assert FitsAt(cfg, t, calls, n);
      CallChecks(StateAfter(cfg, t, front), last, s, LatestCheck(turns, s, lastLog), LatestStart(front, since));
      LatestCheckConcat(turns, last.turns, s, lastLog);
    }
  }

  lemma OftenInCall<K>(cfg: Config, t: Tracker<K>, calls: seq<Call<K>>, s: K, since: int, gap: int, c: nat, j: nat)
    requires s in t.lastSeen && since <= t.lastSeen[s] && Scheduled(cfg, t, calls, since, gap)
    requires c < |calls| && j < |calls[c].turns|
    requires Quiet(TurnsOf(calls[..c]) + calls[c].turns[..j], s)
    ensures UpToDate(cfg, t, TurnsOf(calls[..c]) + calls[c].turns[..j], s, gap, calls[c].turns[j].now)
  {
    var turns, part, lastLog := TurnsOf(calls[..c]), calls[c].turns[..j], t.lastSeen[s];
    if s in TakeAll(cfg, t, turns + part).lastSeen {
      assert OnTimeAt(calls, since, gap, c);
      QuietParts(turns, part, s);
      TrackedBefore(cfg, t, turns + part, s, |turns|);
      assert (turns + part)[..|turns|] == turns;
      ScheduledPrefix(cfg, t, calls, since, gap, c);
      CheckedSinceStart(cfg, t, calls[..c], s, since, gap);
      StartBefore(calls, since, c);
      LatestCheckConcat(turns, part, s, lastLog);
      LatestCheckWithin(part, s, LatestCheck(turns, s, lastLog), calls[c].start);
    }
  }

  /** Turn i of some calls is turn j of call c. */
  lemma {:induction false} Locate<K>(calls: seq<Call<K>>, i: nat) returns (c: nat, j: nat)
    requires i < |TurnsOf(calls)|
    ensures c < |calls| && j < |calls[c].turns|
    ensures TurnsOf(calls)[i] == calls[c].turns[j]
    ensures TurnsOf(calls)[..i] == TurnsOf(calls[..c]) + calls[c].turns[..j]
  {
    var front := calls[..|calls| - 1];
    if i < |TurnsOf(front)| {
      c, j := Locate(front, i);
      assert front[..c] == calls[..c];
    } else {
      c, j := |calls| - 1, i - |TurnsOf(front)|;
    }
  }

  /** Checks on a schedule are frequent enough for every service while it is tracked. */
  lemma ScheduleIsOften<K>(cfg: Config, t: Tracker<K>, calls: seq<Call<K>>, s: K, since: int, gap: int)
    requires s in t.lastSeen && since <= t.lastSeen[s] && Scheduled(cfg, t, calls, since, gap)
    requires Quiet(TurnsOf(calls), s)
    ensures CheckedOften(cfg, t, TurnsOf(calls), s, gap)
  {
    var turns := TurnsOf(calls);
    forall i: nat | i < |turns|
      ensures UpToDate(cfg, t, turns[..i], s, gap, turns[i].now)
    {
      var c, j := Locate(calls, i);
      OftenInCall(cfg, t, calls, s, since, gap, c, j);
    }
  }

  // ----- Detection by the calls -----

  lemma {:induction false} ReportListed<K>(cfg: Config, t: Tracker<K>, turns: seq<Turn<K>>, j: nat)
    requires j < |turns| && ReportedAt(cfg, t, turns, j)
    ensures (turns[j].service, turns[j].now) in ReportsOf(cfg, t, turns)
  {
    var n := |turns| - 1;
    if j == n {
    } else {
      assert turns[..n][..j] == turns[..j];
      ReportListed(cfg, t, turns[..n], j);
    }
  }

  /** Call c is a CheckSilence call that reports s, between silenceAfter and
      silenceAfter + gap after the time of its last log. */
  ghost predicate ReportsInTime<K>(cfg: Config, t: Tracker<K>, calls: seq<Call<K>>, c: nat, s: K, lastLog: int, gap: int) {
    && c < |calls| && calls[c].kind.CheckSilence?
    && exists at :: cfg.silenceAfter < at - lastLog <= cfg.silenceAfter + gap
                    && (s, at) in ReportsOf(cfg, StateAfter(cfg, t, calls[..c]), calls[c].turns)
  }

  lemma ReportingCall<K>(cfg: Config, t: Tracker<K>, calls: seq<Call<K>>, i: nat, lastLog: int, gap: int) returns (c: nat)
    requires Follows(cfg, t, calls) && i < |TurnsOf(calls)| && ReportedAt(cfg, t, TurnsOf(calls), i)
    requires cfg.silenceAfter < TurnsOf(calls)[i].now - lastLog <= cfg.silenceAfter + gap
    ensures ReportsInTime(cfg, t, calls, c, TurnsOf(calls)[i].service, lastLog, gap)
  {
    var j: nat;
    c, j := Locate(calls, i);
    var before := StateAfter(cfg, t, calls[..c]);
    assert FitsAt(cfg, t, calls, c);
    TakeAllConcat(cfg, t, TurnsOf(calls[..c]), calls[c].turns[..j]);
    ReportListed(cfg, before, calls[c].turns, j);
  }

  /** Before time runs out the service has been untracked. */
  lemma UntrackedInTime<K>(cfg: Config, t: Tracker<K>, calls: seq<Call<K>>, s: K, since: int, gap: int, m: nat)
    requires s in t.lastSeen && since <= t.lastSeen[s] && 0 <= cfg.silenceAfter
    requires Scheduled(cfg, t, calls, since, gap) && m < |calls| && Quiet(TurnsOf(calls[..m]), s)
    requires calls[m].finish - t.lastSeen[s] > cfg.silenceAfter + gap
    ensures s !in StateAfter(cfg, t, calls[..m]).lastSeen
  {
    if s in StateAfter(cfg, t, calls[..m]).lastSeen {
      assert OnTimeAt(calls, since, gap, m);
      ScheduledPrefix(cfg, t, calls, since, gap, m);
      CheckedSinceStart(cfg, t, calls[..m], s, since, gap);
      CheckedTooEarly(cfg, t, TurnsOf(calls[..m]), s);
    }
  }

  lemma {:induction false} QuietBefore<K>(calls: seq<Call<K>>, s: K, m: nat)
    requires m <= |calls| && Quiet(TurnsOf(calls), s)
    ensures Quiet(TurnsOf(calls[..m]), s)
  {
    if m == |calls| {
      assert calls[..m] == calls;
    } else {
      var front := calls[..|calls| - 1];
      QuietParts(TurnsOf(front), calls[|calls| - 1].turns, s);
      QuietBefore(front, s, m);
      assert front[..m] == calls[..m];
    }
  }

  /** The service is tracked since its last log and stays quiet, with checks on schedule. */
  ghost predicate Watched<K>(cfg: Config, t: Tracker<K>, calls: seq<Call<K>>, s: K, since: int, gap: int, lastLog: int) {
    && s in t.lastSeen && t.lastSeen[s] == lastLog && since <= lastLog
    && Scheduled(cfg, t, calls, since, gap) && Quiet(TurnsOf(calls), s)
  }

  lemma ReportsSooner<K>(cfg: Config, t: Tracker<K>, calls: seq<Call<K>>, m: nat, c: nat, s: K, lastLog: int, gap: int)
    requires m <= |calls| && ReportsInTime(cfg, t, calls[..m], c, s, lastLog, gap)
    ensures ReportsInTime(cfg, t, calls, c, s, lastLog, gap)
  {
    assert calls[..m][..c] == calls[..c];
  }

  lemma ReportedBefore<K>(cfg: Config, t: Tracker<K>, calls: seq<Call<K>>, s: K, since: int, gap: int, lastLog: int)
    returns (c: nat)
    requires 0 <= cfg.silenceAfter && gap <= 2 * cfg.silenceAfter
    requires Watched(cfg, t, calls, s, since, gap, lastLog) && s !in StateAfter(cfg, t, calls).lastSeen
    ensures ReportsInTime(cfg, t, calls, c, s, lastLog, gap)
  {
    var turns := TurnsOf(calls);
    ScheduleIsOften(cfg, t, calls, s, since, gap);
    TrackingEndsWithReport(cfg, t, turns, s, gap);
    var i :| 0 <= i < |turns| && turns[i].service == s && ReportedAt(cfg, t, turns, i)
             && cfg.silenceAfter < turns[i].now - lastLog <= cfg.silenceAfter + gap;
    c := ReportingCall(cfg, t, calls, i, lastLog, gap);
  }

  /** Whatever state the calls start in: it is then reported in time, in any history that
      gets past that time. */
  lemma QuietIsReported<K>(cfg: Config, t: Tracker<K>, calls: seq<Call<K>>, s: K, since: int, gap: int, lastLog: int, m: nat)
    returns (c: nat)
    requires 0 <= cfg.silenceAfter && gap <= 2 * cfg.silenceAfter
    requires Watched(cfg, t, calls, s, since, gap, lastLog)
    requires m < |calls| && calls[m].finish - lastLog > cfg.silenceAfter + gap
    ensures ReportsInTime(cfg, t, calls, c, s, lastLog, gap)
  {
    QuietBefore(calls, s, m);
    UntrackedInTime(cfg, t, calls, s, since, gap, m);
    ScheduledPrefix(cfg, t, calls, since, gap, m);
    c := ReportedBefore(cfg, t, calls[..m], s, since, gap, lastLog);
    ReportsSooner(cfg, t, calls, m, c, s, lastLog, gap);
  }

  // ----- Whole histories -----

  lemma {:induction false} TurnsConcat<K>(a: seq<Call<K>>, b: seq<Call<K>>)
    ensures TurnsOf(a + b) == TurnsOf(a) + TurnsOf(b)
  {
    if |b| == 0 {
      assert a + b == a;
    } else {
      TurnsConcat(a, b[..|b| - 1]);
      assert (a + b)[..|a + b| - 1] == a + b[..|b| - 1];
    }
  }

  lemma {:induction false} LatestStartConcat<K>(a: seq<Call<K>>, b: seq<Call<K>>, since: int)
    ensures LatestStart(a + b, since) == LatestStart(b, LatestStart(a, since))
  {
    if |b| == 0 {
      assert a + b == a;
    } else {
      LatestStartConcat(a, b[..|b| - 1], since);
      assert (a + b)[..|a + b| - 1] == a + b[..|b| - 1];
    }
  }

  lemma StateConcat<K>(cfg: Config, t: Tracker<K>, a: seq<Call<K>>, b: seq<Call<K>>)
    ensures StateAfter(cfg, t, a + b) == StateAfter(cfg, StateAfter(cfg, t, a), b)
  {
    TurnsConcat(a, b);
    TakeAllConcat(cfg, t, TurnsOf(a), TurnsOf(b));
  }

  lemma RestAt<K>(cfg: Config, t: Tracker<K>, a: seq<Call<K>>, b: seq<Call<K>>, since: int, gap: int, k: nat)
    requires k < |b| && FitsAt(cfg, t, a + b, |a| + k) && OnTimeAt(a + b, since, gap, |a| + k)
    ensures FitsAt(cfg, StateAfter(cfg, t, a), b, k)
    ensures OnTimeAt(b, LatestStart(a, since), gap, k)
  {
    assert (a + b)[..|a| + k] == a + b[..k];
    StateConcat(cfg, t, a, b[..k]);
    LatestStartConcat(a, b[..k], since);
  }

  lemma TimedRest<K>(a: seq<Call<K>>, b: seq<Call<K>>, since: int, later: int)
    requires |a| > 0 && Timed(a + b, since) && later <= a[|a| - 1].finish
    ensures Timed(b, later)
  {
    var all := a + b;
    assert all[|a| - 1] == a[|a| - 1] && forall k :: 0 <= k < |b| ==> b[k] == all[|a| + k];
  }

  /** What remains of a history after some of its calls is one itself. */
  lemma ScheduledRest<K>(cfg: Config, t: Tracker<K>, a: seq<Call<K>>, b: seq<Call<K>>, since: int, gap: int)
    requires |a| > 0 && Scheduled(cfg, t, a + b, since, gap)
    ensures LatestStart(a, since) <= a[|a| - 1].finish
    ensures Scheduled(cfg, StateAfter(cfg, t, a), b, LatestStart(a, since), gap)
  {
    ScheduledPrefix(cfg, t, a + b, since, gap, |a|);
    assert (a + b)[..|a|] == a;
    StartBefore(a, since, |a| - 1);
    forall k | 0 <= k < |b|
      ensures FitsAt(cfg, StateAfter(cfg, t, a), b, k)
      ensures OnTimeAt(b, LatestStart(a, since), gap, k)
    {
      assert FitsAt(cfg, t, a + b, |a| + k) && OnTimeAt(a + b, since, gap, |a| + k);
      RestAt(cfg, t, a, b, since, gap, k);
    }
    TimedRest(a, b, since, LatestStart(a, since));
  }

  /** A service that is tracked after one of its logs was last seen at that log. */
  lemma LastSeenAtLog<K>(cfg: Config, before: seq<Call<K>>, log: Call<K>, s: K)
    requires log.turns == [Logged(s, log.finish)] && s in StateAfter(cfg, Initial(), before + [log]).lastSeen
    ensures StateAfter(cfg, Initial(), before + [log]).lastSeen[s] == log.finish
  {
    var turns := TurnsOf(before + [log]);
    assert (before + [log])[..|before|] == before;
    assert turns[|turns| - 1] == Logged(s, log.finish);
    TrackedMeansActive(cfg, turns, s);
  }

  /** Detection on time: in any history of the rule since start-up in which consecutive
      checks are at most `gap` <= 2 * silenceAfter apart, a service that its last log leaves
      tracked is reported by a later CheckSilence call, more than silenceAfter and at most
      silenceAfter + gap after that log, if the history goes on past that time. */
  lemma DetectedOnTime<K>(cfg: Config, before: seq<Call<K>>, log: Call<K>, after: seq<Call<K>>, s: K, began: int, gap: int, m: nat)
    returns (c: nat)
    requires 0 <= cfg.silenceAfter && gap <= 2 * cfg.silenceAfter
    requires Scheduled(cfg, Initial(), before + [log] + after, began, gap)
    requires log.kind.Evaluate? && log.turns == [Logged(s, log.finish)]
    requires s in StateAfter(cfg, Initial(), before + [log]).lastSeen && Quiet(TurnsOf(after), s)
    requires m < |after| && after[m].finish - log.finish > cfg.silenceAfter + gap
    ensures ReportsInTime(cfg, StateAfter(cfg, Initial(), before + [log]), after, c, s, log.finish, gap)
  {
    var head := before + [log];
    var t, since := StateAfter(cfg, Initial(), head), LatestStart(head, began);
    ScheduledRest(cfg, Initial(), head, after, began, gap);
    LastSeenAtLog(cfg, before, log, s);
    c := QuietIsReported(cfg, t, after, s, since, gap, log.finish, m);
  }
}
