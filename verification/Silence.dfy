/** The service-silence rule: a service that has logged enough is tracked, and reported
    once when it falls silent. */
module Silence {
  import opened Domain

  datatype Config = Config(silenceAfter: int, minLogCount: int)

  /** lastSeen: ingest time of the latest log of a tracked service.
      seenCount: logs seen, kept after a report and dropped by Reset. */
  datatype Tracker<K> = Tracker(lastSeen: map<K, int>, seenCount: map<K, nat>)

  /** One service's turn: it logs, CheckSilence examines it, or Reset examines it. The
      last two read the clock anew for every service. */
  datatype Turn<K> =
    | Logged(service: K, now: int)
    | Checked(service: K, now: int)
    | Examined(service: K, now: int)

  function Initial<K>(): Tracker<K> {
    Tracker(map[], map[])
  }

  function Seen<K>(t: Tracker<K>, s: K): nat {
    if s in t.seenCount then t.seenCount[s] else 0
  }

  /** CheckSilence reports s. */
  predicate Reports<K>(cfg: Config, t: Tracker<K>, s: K, now: int) {
    s in t.lastSeen && now - t.lastSeen[s] > cfg.silenceAfter
  }

  /** Reset forgets s. */
  predicate Forgets<K>(cfg: Config, t: Tracker<K>, s: K, now: int) {
    s in t.lastSeen && now - t.lastSeen[s] > cfg.silenceAfter * 3
  }

  function Take<K>(cfg: Config, t: Tracker<K>, turn: Turn<K>): Tracker<K> {
    var s, now := turn.service, turn.now;
    match turn
    case Logged(_, _) =>
      var n := Seen(t, s) + 1;
      Tracker(if n >= cfg.minLogCount then t.lastSeen[s := now] else t.lastSeen, t.seenCount[s := n])
    case Checked(_, _) =>
      if Reports(cfg, t, s, now) then t.(lastSeen := t.lastSeen - {s}) else t
    case Examined(_, _) =>
      if Forgets(cfg, t, s, now) then Tracker(t.lastSeen - {s}, t.seenCount - {s}) else t
  }

  function TakeAll<K>(cfg: Config, t: Tracker<K>, turns: seq<Turn<K>>): Tracker<K> {
    if |turns| == 0 then t
    else Take(cfg, TakeAll(cfg, t, turns[..|turns| - 1]), turns[|turns| - 1])
  }

  /** Turn i of a run is a report. */
  predicate ReportedAt<K>(cfg: Config, t: Tracker<K>, turns: seq<Turn<K>>, i: nat)
    requires i < |turns|
  {
    turns[i].Checked? && Reports(cfg, TakeAll(cfg, t, turns[..i]), turns[i].service, turns[i].now)
  }

  // ----- The rule object -----

  class ServiceSilenceRule<K(==)> {
    var lastSeen: map<K, int>
    var seenCount: map<K, nat>
    const cfg: Config

    ghost function View(): Tracker<K>
      reads this
    {
      Tracker(lastSeen, seenCount)
    }

    constructor (cfg: Config)
      ensures View() == Initial() && this.cfg == cfg
    {
      lastSeen, seenCount := map[], map[];
      this.cfg := cfg;
    }

    /** Never fires; only CheckSilence does. */
    method Evaluate(service: K, now: int)
      modifies this
      ensures View() == Take(cfg, old(View()), Logged(service, now))
    {
      var n := if service in seenCount then seenCount[service] else 0;
      seenCount := seenCount[service := n + 1];
      if seenCount[service] >= cfg.minLogCount {
        lastSeen := lastSeen[service := now];
      }
    }

    /** Examines every tracked service once. The order in which the map is traversed and
        the clock readings are given by `turns`. */
    method CheckSilence(turns: seq<Turn<K>>) returns (reported: seq<(K, int)>)
      requires Covers(turns, lastSeen.Keys) && forall i :: 0 <= i < |turns| ==> turns[i].Checked?
      modifies this
      ensures View() == TakeAll(cfg, old(View()), turns)
      ensures reported == ReportsOf(cfg, old(View()), turns)
    {
      reported := [];
      for i := 0 to |turns|
        invariant View() == TakeAll(cfg, old(View()), turns[..i])
        invariant reported == ReportsOf(cfg, old(View()), turns[..i])
        invariant forall j :: i <= j < |turns| ==> turns[j].service in lastSeen
      {
        var s, now := turns[i].service, turns[i].now;
        var elapsed := now - lastSeen[s];
        assert turns[..i + 1][..i] == turns[..i];
        if elapsed > cfg.silenceAfter {
          reported := reported + [(s, now)];
          lastSeen := lastSeen - {s};
        }
      }
      assert turns[..|turns|] == turns;
    }

    method Reset(turns: seq<Turn<K>>)
      requires Covers(turns, lastSeen.Keys) && forall i :: 0 <= i < |turns| ==> turns[i].Examined?
      modifies this
      ensures View() == TakeAll(cfg, old(View()), turns)
    {
      var staleThreshold := cfg.silenceAfter * 3;
      for i := 0 to |turns|
        invariant View() == TakeAll(cfg, old(View()), turns[..i])
        invariant forall j :: i <= j < |turns| ==> turns[j].service in lastSeen
      {
        var s, now := turns[i].service, turns[i].now;
        assert turns[..i + 1][..i] == turns[..i];
        if now - lastSeen[s] > staleThreshold {
          lastSeen := lastSeen - {s};
          seenCount := seenCount - {s};
        }
      }
      assert turns[..|turns|] == turns;
    }
  }

  /** Every tracked service has one turn, in some order. */
  ghost predicate Covers<K>(turns: seq<Turn<K>>, keys: set<K>) {
    && (forall i :: 0 <= i < |turns| ==> turns[i].service in keys)
    && (forall k :: k in keys ==> exists i :: 0 <= i < |turns| && turns[i].service == k)
    && (forall i, j :: 0 <= i < j < |turns| ==> turns[i].service != turns[j].service)
  }

  /** The reports made in a run, with their times. */
  function ReportsOf<K>(cfg: Config, t: Tracker<K>, turns: seq<Turn<K>>): seq<(K, int)> {
    if |turns| == 0 then []
    else
      var front, last := turns[..|turns| - 1], turns[|turns| - 1];
      ReportsOf(cfg, t, front)
      + if last.Checked? && Reports(cfg, TakeAll(cfg, t, front), last.service, last.now)
        then [(last.service, last.now)] else []
  }

  // ----- What every run keeps -----

  /** The time of the latest log of s in a run. */
  function LatestLog<K(==)>(turns: seq<Turn<K>>, s: K): Option<int> {
    if |turns| == 0 then None
    else
      var last := turns[|turns| - 1];
      if last.Logged? && last.service == s then Some(last.now) else LatestLog(turns[..|turns| - 1], s)
  }

  /** How often s has logged in a run. */
  function LogCount<K(==)>(turns: seq<Turn<K>>, s: K): nat {
    if |turns| == 0 then 0
    else
      var last := turns[|turns| - 1];
      LogCount(turns[..|turns| - 1], s) + if last.Logged? && last.service == s then 1 else 0
  }

  /** In every run a tracked service has logged often enough, and lastSeen is the time of
      its latest log. */
  lemma {:induction false} TrackedMeansActive<K>(cfg: Config, turns: seq<Turn<K>>, s: K)
    ensures var t := TakeAll(cfg, Initial(), turns);
            && Seen(t, s) <= LogCount(turns, s)
            && (s in t.lastSeen ==>
                  && Seen(t, s) >= cfg.minLogCount
                  && LatestLog(turns, s) == Some(t.lastSeen[s]))
  {
    if |turns| == 0 {
    } else {
      TrackedMeansActive(cfg, turns[..|turns| - 1], s);
    }
  }

  /** Clock readings never go back. */
  ghost predicate ClockRuns<K>(turns: seq<Turn<K>>) {
    forall i, j :: 0 <= i < j < |turns| ==> turns[i].now <= turns[j].now
  }

  lemma {:induction false} LatestLogIsLatest<K>(turns: seq<Turn<K>>, s: K)
    requires ClockRuns(turns)
    ensures forall j :: 0 <= j < |turns| && turns[j].Logged? && turns[j].service == s ==>
              LatestLog(turns, s).Some? && turns[j].now <= LatestLog(turns, s).value
  {
    if |turns| == 0 {
    } else {
      LatestLogIsLatest(turns[..|turns| - 1], s);
    }
  }

  /** A reported service has logged often enough and has really been quiet for longer than
      the configured time: none of its logs is more recent than that. */
  lemma ReportIsTrue<K>(cfg: Config, turns: seq<Turn<K>>, i: nat)
    requires ClockRuns(turns) && i < |turns| && ReportedAt(cfg, Initial(), turns, i)
    ensures LogCount(turns[..i], turns[i].service) >= cfg.minLogCount
    ensures forall j :: 0 <= j < i && turns[j].Logged? && turns[j].service == turns[i].service ==>
              turns[i].now - turns[j].now > cfg.silenceAfter
  {
    var s, before := turns[i].service, turns[..i];
    TrackedMeansActive(cfg, before, s);
    LatestLogIsLatest(before, s);
    forall j | 0 <= j < i && turns[j].Logged? && turns[j].service == s
      ensures turns[i].now - turns[j].now > cfg.silenceAfter
    {
      assert before[j] == turns[j];
    }
  }

  /** A service stays untracked until it logs. */
  lemma {:induction false} UntrackedUntilLog<K>(cfg: Config, t: Tracker<K>, turns: seq<Turn<K>>, i: nat, j: nat, s: K)
    requires i <= j <= |turns| && s !in TakeAll(cfg, t, turns[..i]).lastSeen
    requires forall k :: i <= k < j ==> !(turns[k].Logged? && turns[k].service == s)
    ensures s !in TakeAll(cfg, t, turns[..j]).lastSeen
  {
    if i < j {
      UntrackedUntilLog(cfg, t, turns, i, j - 1, s);
      assert turns[..j][..j - 1] == turns[..j - 1];
    }
  }

  /** Between two reports of a service there is a log of it. */
  lemma LogBetweenReports<K>(cfg: Config, t: Tracker<K>, turns: seq<Turn<K>>, i: nat, j: nat)
    requires i < j < |turns| && turns[i].service == turns[j].service
    requires ReportedAt(cfg, t, turns, i) && ReportedAt(cfg, t, turns, j)
    ensures exists k :: i < k < j && turns[k].Logged? && turns[k].service == turns[i].service
  {
    var s := turns[i].service;
    assert turns[..i + 1][..i] == turns[..i];
    assert s !in TakeAll(cfg, t, turns[..i + 1]).lastSeen;
    if forall k :: i < k < j ==> !(turns[k].Logged? && turns[k].service == s) {
      UntrackedUntilLog(cfg, t, turns, i + 1, j, s);
    }
  }

  /** After a report the service is untracked, but its log count stays: neither checks nor
      resets, which only examine tracked services, touch it before the next log. */
  lemma {:induction false} ReportKeepsCount<K>(cfg: Config, turns: seq<Turn<K>>, i: nat, j: nat)
    requires i < j <= |turns| && ReportedAt(cfg, Initial(), turns, i)
    requires forall k :: i < k < j ==> !(turns[k].Logged? && turns[k].service == turns[i].service)
    ensures var t := TakeAll(cfg, Initial(), turns[..j]);
            turns[i].service !in t.lastSeen && Seen(t, turns[i].service) >= cfg.minLogCount
  {
    assert turns[..j][..j - 1] == turns[..j - 1];
    if j == i + 1 {
      TrackedMeansActive(cfg, turns[..i], turns[i].service);
    } else {
      ReportKeepsCount(cfg, turns, i, j - 1);
    }
  }

  /** So the very next log tracks the service again, whatever happens in between, although
      the rule's own comments promise a new accumulation. */
  lemma OneLogTracksAgain<K>(cfg: Config, turns: seq<Turn<K>>, i: nat, j: nat)
    requires i < j < |turns| && ReportedAt(cfg, Initial(), turns, i)
    requires turns[j].Logged? && turns[j].service == turns[i].service
    requires forall k :: i < k < j ==> !(turns[k].Logged? && turns[k].service == turns[i].service)
    ensures turns[i].service !in TakeAll(cfg, Initial(), turns[..j]).lastSeen
    ensures turns[i].service in TakeAll(cfg, Initial(), turns[..j + 1]).lastSeen
  {
    ReportKeepsCount(cfg, turns, i, j);
    assert turns[..j + 1][..j] == turns[..j];
  }

  // ----- Counting logs since Reset forgot a service -----

  /** Turn i of a run is Reset forgetting a service. */
  predicate ForgottenAt<K>(cfg: Config, t: Tracker<K>, turns: seq<Turn<K>>, i: nat)
    requires i < |turns|
  {
    turns[i].Examined? && Forgets(cfg, TakeAll(cfg, t, turns[..i]), turns[i].service, turns[i].now)
  }

  /** A service that Reset forgot starts over: only later logs count, so it is tracked again
      only after the configured number of them. */
  lemma {:induction false} ForgottenStartsOver<K>(cfg: Config, turns: seq<Turn<K>>, i: nat, j: nat, s: K)
    requires i < j <= |turns| && ForgottenAt(cfg, Initial(), turns, i) && turns[i].service == s
    ensures Seen(TakeAll(cfg, Initial(), turns[..j]), s) <= LogCount(turns[i + 1..j], s)
    ensures s in TakeAll(cfg, Initial(), turns[..j]).lastSeen ==> LogCount(turns[i + 1..j], s) >= cfg.minLogCount
  {
    assert turns[..j][..j - 1] == turns[..j - 1];
    if j == i + 1 {
      assert turns[..i + 1][..i] == turns[..i];
    } else {
      ForgottenStartsOver(cfg, turns, i, j - 1, s);
      assert turns[i + 1..j][..j - i - 2] == turns[i + 1..j - 1];
    }
    TrackedMeansActive(cfg, turns[..j], s);
  }

  /** Unless Reset forgets it in between, every log of a service counts, so its log is
      tracked once there are enough. */
  lemma {:induction false} EnoughLogsTrack<K>(cfg: Config, turns: seq<Turn<K>>, i: nat, j: nat, s: K)
    requires i <= j <= |turns|
    requires forall k :: i <= k < j && turns[k].service == s ==> !ForgottenAt(cfg, Initial(), turns, k)
    ensures Seen(TakeAll(cfg, Initial(), turns[..j]), s) >= LogCount(turns[i..j], s)
    ensures i < j && turns[j - 1].Logged? && turns[j - 1].service == s && LogCount(turns[i..j], s) >= cfg.minLogCount ==>
              var t := TakeAll(cfg, Initial(), turns[..j]);
              s in t.lastSeen && t.lastSeen[s] == turns[j - 1].now
  {
    if i == j {
    } else {
      EnoughLogsTrack(cfg, turns, i, j - 1, s);
      assert turns[..j][..j - 1] == turns[..j - 1];
      assert turns[i..j][..j - i - 1] == turns[i..j - 1];
      assert turns[j - 1].service == s ==> !ForgottenAt(cfg, Initial(), turns, j - 1);
    }
  }

  // ----- Timing -----

  /** The time of the latest check of s, or of its last log when there was none since. */
  function LatestCheck<K(==)>(turns: seq<Turn<K>>, s: K, lastLog: int): int {
    if |turns| == 0 then lastLog
    else
      var last := turns[|turns| - 1];
      if last.Checked? && last.service == s then last.now else LatestCheck(turns[..|turns| - 1], s, lastLog)
  }

  /** At the time `now`, if s is still tracked, its latest check is at most `gap` ago. */
  ghost predicate UpToDate<K>(cfg: Config, t: Tracker<K>, before: seq<Turn<K>>, s: K, gap: int, now: int)
    requires s in t.lastSeen
  {
    s in TakeAll(cfg, t, before).lastSeen ==> now - LatestCheck(before, s, t.lastSeen[s]) <= gap
  }

  /** So it is whenever anything happens. */
  ghost predicate CheckedOften<K>(cfg: Config, t: Tracker<K>, turns: seq<Turn<K>>, s: K, gap: int)
    requires s in t.lastSeen
  {
    forall i :: 0 <= i < |turns| ==> UpToDate(cfg, t, turns[..i], s, gap, turns[i].now)
  }

  /** s has no log in these turns. */
  ghost predicate Quiet<K>(turns: seq<Turn<K>>, s: K) {
    forall i :: 0 <= i < |turns| ==> !(turns[i].Logged? && turns[i].service == s)
  }

  lemma TrackedBefore<K>(cfg: Config, t: Tracker<K>, turns: seq<Turn<K>>, s: K, n: nat)
    requires n <= |turns| && Quiet(turns, s) && s in TakeAll(cfg, t, turns).lastSeen
    ensures s in TakeAll(cfg, t, turns[..n]).lastSeen
  {
    assert turns[..|turns|] == turns;
    if s !in TakeAll(cfg, t, turns[..n]).lastSeen {
      UntrackedUntilLog(cfg, t, turns, n, |turns|, s);
    }
  }

  lemma {:induction false} QuietKeepsTime<K>(cfg: Config, t: Tracker<K>, turns: seq<Turn<K>>, s: K)
    requires Quiet(turns, s) && s in t.lastSeen && s in TakeAll(cfg, t, turns).lastSeen
    ensures TakeAll(cfg, t, turns).lastSeen[s] == t.lastSeen[s]
  {
    if |turns| == 0 {
    } else {
      TrackedBefore(cfg, t, turns, s, |turns| - 1);
      QuietKeepsTime(cfg, t, turns[..|turns| - 1], s);
    }
  }

  /** While a quiet service is still tracked, its latest check came too early to report it. */
  lemma {:induction false} CheckedTooEarly<K>(cfg: Config, t: Tracker<K>, turns: seq<Turn<K>>, s: K)
    requires s in t.lastSeen && 0 <= cfg.silenceAfter
    requires Quiet(turns, s) && s in TakeAll(cfg, t, turns).lastSeen
    ensures LatestCheck(turns, s, t.lastSeen[s]) - t.lastSeen[s] <= cfg.silenceAfter
  {
    if |turns| == 0 {
    } else {
      TrackedBefore(cfg, t, turns, s, |turns| - 1);
      QuietKeepsTime(cfg, t, turns[..|turns| - 1], s);
      CheckedTooEarly(cfg, t, turns[..|turns| - 1], s);
    }
  }

  /** And so nothing has happened later than silenceAfter + gap after its last log. */
  lemma StillTracked<K>(cfg: Config, t: Tracker<K>, turns: seq<Turn<K>>, s: K, gap: int, i: nat)
    requires s in t.lastSeen && 0 <= cfg.silenceAfter && i < |turns|
    requires Quiet(turns, s) && CheckedOften(cfg, t, turns, s, gap)
    requires s in TakeAll(cfg, t, turns[..i]).lastSeen
    ensures turns[i].now - t.lastSeen[s] <= cfg.silenceAfter + gap
  {
    CheckedTooEarly(cfg, t, turns[..i], s);
    assert UpToDate(cfg, t, turns[..i], s, gap, turns[i].now);
  }

  lemma QuietPrefix<K>(cfg: Config, t: Tracker<K>, turns: seq<Turn<K>>, s: K, gap: int, n: nat)
    requires s in t.lastSeen && n <= |turns| && Quiet(turns, s) && CheckedOften(cfg, t, turns, s, gap)
    ensures Quiet(turns[..n], s) && CheckedOften(cfg, t, turns[..n], s, gap)
  {
    forall i | 0 <= i < n
      ensures UpToDate(cfg, t, turns[..n][..i], s, gap, turns[..n][i].now)
    {
      assert turns[..n][..i] == turns[..i];
      assert UpToDate(cfg, t, turns[..i], s, gap, turns[i].now);
    }
  }

  /** The turn that ends the tracking of a quiet service is a report: Reset never forgets
      it first. */
  lemma {:induction false} TrackingEndsWithReport<K>(cfg: Config, t: Tracker<K>, turns: seq<Turn<K>>, s: K, gap: int)
    requires s in t.lastSeen && 0 <= cfg.silenceAfter && gap <= 2 * cfg.silenceAfter
    requires Quiet(turns, s) && CheckedOften(cfg, t, turns, s, gap)
    requires s !in TakeAll(cfg, t, turns).lastSeen
    ensures exists i :: 0 <= i < |turns| && turns[i].service == s && ReportedAt(cfg, t, turns, i)
                        && cfg.silenceAfter < turns[i].now - t.lastSeen[s] <= cfg.silenceAfter + gap
  {
    var n := |turns| - 1;
    var front, last := turns[..n], turns[n];
    QuietPrefix(cfg, t, turns, s, gap, n);
    if s in TakeAll(cfg, t, front).lastSeen {
      StillTracked(cfg, t, turns, s, gap, n);
      QuietKeepsTime(cfg, t, front, s);
      assert ReportedAt(cfg, t, turns, n);
    } else {
      TrackingEndsWithReport(cfg, t, front, s, gap);
      var i :| 0 <= i < |front| && front[i].service == s && ReportedAt(cfg, t, front, i)
               && cfg.silenceAfter < front[i].now - t.lastSeen[s] <= cfg.silenceAfter + gap;
      assert front[..i] == turns[..i];
      assert ReportedAt(cfg, t, turns, i);
    }
  }

  /** Detection on time: if checks are never more than `gap` <= 2 * silenceAfter apart, a
      tracked service that stays quiet is reported between silenceAfter and
      silenceAfter + gap after its last log, in any run that gets past that time. */
  lemma SilenceIsDetected<K>(cfg: Config, t: Tracker<K>, turns: seq<Turn<K>>, s: K, gap: int, m: nat)
    requires s in t.lastSeen && 0 <= cfg.silenceAfter && gap <= 2 * cfg.silenceAfter
    requires Quiet(turns, s) && CheckedOften(cfg, t, turns, s, gap)
    requires m < |turns| && turns[m].now - t.lastSeen[s] > cfg.silenceAfter + gap
    ensures exists i :: 0 <= i < |turns| && turns[i].service == s && ReportedAt(cfg, t, turns, i)
                        && cfg.silenceAfter < turns[i].now - t.lastSeen[s] <= cfg.silenceAfter + gap
  {
    if s in TakeAll(cfg, t, turns).lastSeen {
      TrackedBefore(cfg, t, turns, s, m);
      StillTracked(cfg, t, turns, s, gap, m);
    } else {
      TrackingEndsWithReport(cfg, t, turns, s, gap);
    }
  }

  // ----- The bound on the gap is needed -----

  function Logs<K>(s: K, n: nat): seq<Turn<K>> {
    seq(n, i requires 0 <= i < n => Logged(s, 0))
  }

  lemma {:induction false} AfterLogs<K>(cfg: Config, s: K, n: nat)
    requires 0 < n
    ensures TakeAll(cfg, Initial(), Logs(s, n))
         == Tracker(if n >= cfg.minLogCount then map[s := 0] else map[], map[s := n])
  {
    assert Logs(s, n)[..n - 1] == Logs(s, n - 1) && Logs(s, n)[n - 1] == Logged(s, 0);
    if n == 1 {
      assert Logs(s, 0) == [];
    } else {
      AfterLogs(cfg, s, n - 1);
    }
  }

  /** With any larger gap, Reset can forget a service that has logged often enough to be
      tracked, has been quiet ever since and was never reported. */
  lemma LongerGapsMissSilence<K>(cfg: Config, s: K, gap: int) returns (logs: seq<Turn<K>>, turns: seq<Turn<K>>)
    requires 0 <= cfg.silenceAfter && gap > 2 * cfg.silenceAfter
    ensures ClockRuns(logs + turns) && Quiet(turns, s)
    ensures var t := TakeAll(cfg, Initial(), logs);
            && s in t.lastSeen && CheckedOften(cfg, t, turns, s, gap)
            && s !in TakeAll(cfg, t, turns).lastSeen
            && ReportsOf(cfg, t, turns) == []
  {
    var n := if cfg.minLogCount < 1 then 1 else cfg.minLogCount;
    logs := Logs(s, n);
    AfterLogs(cfg, s, n);
    var t := TakeAll(cfg, Initial(), logs);
    var check, reset := Checked(s, cfg.silenceAfter), Examined(s, 3 * cfg.silenceAfter + 1);
    turns := [check, reset];
    assert turns[..1] == [check] && turns[..0] == [] && [check][..0] == [];
    assert TakeAll(cfg, t, [check]) == t;
    assert LatestCheck([check], s, 0) == cfg.silenceAfter;
    assert ReportsOf(cfg, t, [check]) == [];
  }
}
