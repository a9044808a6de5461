/** The three rules that count events per key in a sliding window: error rate, repeated
    failure and authentication-failure burst. They differ in which entries count, in the
    key they count under, and in which windows Reset deletes. */
module CountingRules {
  import opened Domain
  import opened Samples
  import opened KeyedWindows
  import opened RingRuns
  import opened KeyedRuns
  import opened WindowTables
  import Fingerprints

  datatype Kind =
    | ErrorRate
    | RepeatedFailure
    | AuthBurst(ipField: string, userField: string)

  function RuleID(kind: Kind): string {
    match kind
    case ErrorRate => "error_rate_spike"
    case RepeatedFailure => "repeated_failure"
    case AuthBurst(_, _) => "auth_failure_burst"
  }

  function PolicyOf(kind: Kind): Policy {
    match kind
    case ErrorRate => KeepAll
    case RepeatedFailure => DropEmpty
    case AuthBurst(_, _) => DropUncounted
  }

  datatype Config = Config(threshold: int, window: int)

  // ----- Which entries count, and under which key -----

  predicate OccursAt(s: string, part: string, i: nat) {
    i + |part| <= |s| && s[i..i + |part|] == part
  }

  predicate Contains(s: string, part: string) {
    exists i :: 0 <= i <= |s| && OccursAt(s, part, i)
  }

  predicate IsAuthFailure(entry: LogEntry) {
    && entry.level == "error"
    && var msg := Fingerprints.Lower(entry.message);
       || Contains(msg, "auth")
       || Contains(msg, "login")
       || Contains(msg, "unauthorized")
       || ("auth_result" in entry.fields && entry.fields["auth_result"] == Text("failure"))
  }

  /** A field's value when it is a nonempty string. */
  function TextOf(entry: LogEntry, field: string): string {
    if field in entry.fields && entry.fields[field].Text? then entry.fields[field].s else ""
  }

  function OrDefault(name: string, default: string): string {
    if name == "" then default else name
  }

  /** The repeated-failure key: service|fingerprint. */
  function FailureKey(service: string, fingerprint: string): string {
    service + "|" + fingerprint
  }

  /** The key under which a rule counts an entry; None when it ignores the entry. */
  function KeyOf(kind: Kind, entry: LogEntry): Option<string> {
    match kind
    case ErrorRate =>
      if entry.level != "error" then None else Some(entry.service)
    case RepeatedFailure =>
      if entry.level != "error" then None
      else Some(FailureKey(entry.service, Fingerprints.Fingerprint(entry.message)))
    case AuthBurst(ipField, userField) =>
      if !IsAuthFailure(entry) then None
      else
        var ip := TextOf(entry, OrDefault(ipField, "source_ip"));
        var user := TextOf(entry, OrDefault(userField, "username"));
        if ip != "" then Some(ip) else if user != "" then Some(user) else None
  }

  /** The third keyword of the authentication test is never what decides it. */
  lemma UnauthorizedIsRedundant(msg: string)
    requires Contains(msg, "unauthorized")
    ensures Contains(msg, "auth")
  {
    var i :| 0 <= i <= |msg| && OccursAt(msg, "unauthorized", i);
    assert msg[i + 2..i + 6] == msg[i..i + 12][2..6];
    assert "unauthorized"[2..6] == "auth";
    assert OccursAt(msg, "auth", i + 2);
  }

  /** The word occurs at i, in any case. */
  ghost predicate OccursInAnyCase(msg: string, word: string, i: nat) {
    i + |word| <= |msg| && Fingerprints.SameText(msg[i..i + |word|], word)
  }

  lemma OccursLowered(msg: string, word: string, i: nat)
    requires Fingerprints.Lower(word) == word
    ensures OccursAt(Fingerprints.Lower(msg), word, i) <==> OccursInAnyCase(msg, word, i)
  {
    if i + |word| <= |msg| {
      assert Fingerprints.Lower(msg)[i..i + |word|] == Fingerprints.Lower(msg[i..i + |word|]);
      Fingerprints.LowerIff(msg[i..i + |word|], word);
    }
  }

  lemma ContainsLowered(msg: string, word: string)
    requires Fingerprints.Lower(word) == word
    ensures Contains(Fingerprints.Lower(msg), word) <==> exists i: nat :: OccursInAnyCase(msg, word, i)
  {
    if i: nat :| i <= |msg| && OccursAt(Fingerprints.Lower(msg), word, i) {
      OccursLowered(msg, word, i);
    }
    if i: nat :| OccursInAnyCase(msg, word, i) {
      OccursLowered(msg, word, i);
    }
  }

  /** An authentication failure: an error whose message has one of two words, in any case,
      or whose result field says so. */
  ghost predicate AuthFailed(entry: LogEntry) {
    && entry.level == "error"
    && (|| (exists i: nat :: OccursInAnyCase(entry.message, "auth", i))
        || (exists i: nat :: OccursInAnyCase(entry.message, "login", i))
        || ("auth_result" in entry.fields && entry.fields["auth_result"] == Text("failure")))
  }

  /** The authentication test does not need its third keyword. */
  lemma AuthFailureIff(entry: LogEntry)
    ensures IsAuthFailure(entry) <==> AuthFailed(entry)
  {
    var msg := Fingerprints.Lower(entry.message);
    if Contains(msg, "unauthorized") {
      UnauthorizedIsRedundant(msg);
    }
    assert Fingerprints.Lower("auth") == "auth" && Fingerprints.Lower("login") == "login";
    ContainsLowered(entry.message, "auth");
    ContainsLowered(entry.message, "login");
  }

  /** The field holds a string that is not empty. */
  predicate Usable(entry: LogEntry, field: string) {
    field in entry.fields && entry.fields[field].Text? && entry.fields[field].s != ""
  }

  /** The entry comes from this address, or from this user if it has no address. An empty
      field name stands for the default one. */
  predicate ComesFrom(ipField: string, userField: string, entry: LogEntry, origin: string) {
    var ip := if ipField == "" then "source_ip" else ipField;
    var user := if userField == "" then "username" else userField;
    || (Usable(entry, ip) && entry.fields[ip] == Text(origin))
    || (!Usable(entry, ip) && Usable(entry, user) && entry.fields[user] == Text(origin))
  }

  /** Authentication failures count under the address if there is one, otherwise under the
      user name; without either they are ignored. */
  lemma AuthKeyIff(ipField: string, userField: string, entry: LogEntry, key: string)
    ensures KeyOf(AuthBurst(ipField, userField), entry) == Some(key)
       <==> AuthFailed(entry) && ComesFrom(ipField, userField, entry, key)
  {
    AuthFailureIff(entry);
  }

  method AuthKey(entry: LogEntry, ipField: string, userField: string) returns (key: string)
    ensures Usable(entry, ipField) ==> key == entry.fields[ipField].s
    ensures !Usable(entry, ipField) && Usable(entry, userField) ==> key == entry.fields[userField].s
    ensures key == "" <==> !Usable(entry, ipField) && !Usable(entry, userField)
  {
    key := "";
    if ipField in entry.fields {
      var v := entry.fields[ipField];
      if v.Text? && v.s != "" {
        key := v.s;
      }
    }
    if key == "" {
      if userField in entry.fields {
        var v := entry.fields[userField];
        if v.Text? && v.s != "" {
          key := v.s;
        }
      }
    }
  }

  /** The start of every Evaluate: whether the entry counts, and under which key. */
  method Classify(kind: Kind, entry: LogEntry) returns (key: Option<string>)
    ensures key == KeyOf(kind, entry)
  {
    match kind
    case ErrorRate =>
      if entry.level != "error" {
        return None;
      }
      key := Some(entry.service);
    case RepeatedFailure =>
      if entry.level != "error" {
        return None;
      }
      var fp := Fingerprints.Fingerprint(entry.message);
      key := Some(entry.service + "|" + fp);
    case AuthBurst(ipField, userField) =>
      if !IsAuthFailure(entry) {
        return None;
      }
      var k := AuthKey(entry, OrDefault(ipField, "source_ip"), OrDefault(userField, "username"));
      key := if k == "" then None else Some(k);
  }

  /** Two (service, fingerprint) pairs share a key exactly when they are equal or one
      service extends the other by a bar and text that the other fingerprint starts with. */
  lemma FailureKeyCollision(s1: string, f1: string, s2: string, f2: string)
    requires |s1| <= |s2|
    ensures FailureKey(s1, f1) == FailureKey(s2, f2)
       <==> (s1 == s2 && f1 == f2)
            || (|s1| < |s2|
                && s2[..|s1| + 1] == s1 + "|"
                && f1 == s2[|s1| + 1..] + "|" + f2)
  {
    var k1, k2 := FailureKey(s1, f1), FailureKey(s2, f2);
    if k1 == k2 {
      assert s1 == k1[..|s1|] == k2[..|s1|];
      assert f1 == k1[|s1| + 1..] == k2[|s1| + 1..];
      if |s1| < |s2| {
        assert s2[..|s1| + 1] == k2[..|s1| + 1] == k1[..|s1| + 1] == s1 + "|";
        assert k2[|s1| + 1..] == s2[|s1| + 1..] + "|" + f2;
      } else {
        assert s2 == k2[..|s1|] && f2 == k2[|s1| + 1..];
      }
    }
    if |s1| < |s2| && s2[..|s1| + 1] == s1 + "|" && f1 == s2[|s1| + 1..] + "|" + f2 {
      assert s2 == s2[..|s1| + 1] + s2[|s1| + 1..];
      assert k1 == s1 + "|" + (s2[|s1| + 1..] + "|" + f2) == (s1 + "|" + s2[|s1| + 1..]) + "|" + f2;
    }
  }

  /** Service names without a bar never share a window, and within one service only equal
      error classes do. */
  lemma FailureKeyInjective(e1: LogEntry, e2: LogEntry)
    requires '|' !in e1.service && '|' !in e2.service
    requires e1.level == e2.level == "error"
    ensures KeyOf(RepeatedFailure, e1) == KeyOf(RepeatedFailure, e2)
       <==> e1.service == e2.service && Fingerprints.SameClass(e1.message, e2.message)
  {
    var s1, s2 := e1.service, e2.service;
    var f1, f2 := Fingerprints.Fingerprint(e1.message), Fingerprints.Fingerprint(e2.message);
    Fingerprints.FingerprintEquivalence(e1.message, e2.message);
    if |s1| <= |s2| {
      FailureKeyCollision(s1, f1, s2, f2);
      assert |s1| < |s2| ==> s2[|s1|] == s2[..|s1| + 1][|s1|] != '|';
    } else {
      FailureKeyCollision(s2, f2, s1, f1);
      assert s1[|s2|] == s1[..|s2| + 1][|s2|] != '|';
    }
  }

  // ----- The same, without keys -----

  /** Entries that the rule counts at all. */
  ghost predicate Eligible(kind: Kind, entry: LogEntry) {
    match kind
    case ErrorRate => entry.level == "error"
    case RepeatedFailure => entry.level == "error"
    case AuthBurst(ip, user) => AuthFailed(entry) && exists origin :: ComesFrom(ip, user, entry, origin)
  }

  /** Entries that it counts together: errors of one service; errors of one service and one
      class; authentication failures from one origin. */
  ghost predicate Alike(kind: Kind, e1: LogEntry, e2: LogEntry) {
    match kind
    case ErrorRate => e1.level == e2.level == "error" && e1.service == e2.service
    case RepeatedFailure =>
      e1.level == e2.level == "error" && e1.service == e2.service && Fingerprints.SameClass(e1.message, e2.message)
    case AuthBurst(ip, user) =>
      AuthFailed(e1) && AuthFailed(e2) && exists origin :: ComesFrom(ip, user, e1, origin) && ComesFrom(ip, user, e2, origin)
  }

  lemma EligibleIff(kind: Kind, entry: LogEntry)
    ensures KeyOf(kind, entry).Some? <==> Eligible(kind, entry)
  {
    if kind.AuthBurst? {
      var key := KeyOf(kind, entry);
      AuthFailureIff(entry);
      if key.Some? {
        AuthKeyIff(kind.ipField, kind.userField, entry, key.value);
      } else if Eligible(kind, entry) {
        var origin :| ComesFrom(kind.ipField, kind.userField, entry, origin);
        AuthKeyIff(kind.ipField, kind.userField, entry, origin);
      }
    }
  }

  /** A bar in a service name can make the repeated-failure rule take two services for one. */
  predicate Barred(kind: Kind, entry: LogEntry) {
    kind.RepeatedFailure? && '|' in entry.service
  }

  lemma AlikeAttempts(ip: string, user: string, e1: LogEntry, e2: LogEntry)
    requires KeyOf(AuthBurst(ip, user), e1).Some?
    ensures KeyOf(AuthBurst(ip, user), e1) == KeyOf(AuthBurst(ip, user), e2) <==> Alike(AuthBurst(ip, user), e1, e2)
  {
    var kind := AuthBurst(ip, user);
    AuthKeyIff(ip, user, e1, KeyOf(kind, e1).value);
    AuthKeyIff(ip, user, e2, KeyOf(kind, e1).value);
    if Alike(kind, e1, e2) {
      var origin :| ComesFrom(ip, user, e1, origin) && ComesFrom(ip, user, e2, origin);
      AuthKeyIff(ip, user, e1, origin);
      AuthKeyIff(ip, user, e2, origin);
    }
  }

  /** Entries share a window exactly when they are alike. */
  lemma AlikeIff(kind: Kind, e1: LogEntry, e2: LogEntry)
    requires KeyOf(kind, e1).Some? && !Barred(kind, e1) && !Barred(kind, e2)
    ensures KeyOf(kind, e1) == KeyOf(kind, e2) <==> Alike(kind, e1, e2)
  {
    match kind
    case ErrorRate =>
    case RepeatedFailure =>
      if e2.level == "error" {
        FailureKeyInjective(e1, e2);
      }
    case AuthBurst(ip, user) =>
      AlikeAttempts(ip, user, e1, e2);
  }

  lemma BarFingerprint()
    ensures Fingerprints.Fingerprint("z|z") == "z|z" && Fingerprints.Fingerprint("z") == "z"
  {
    Fingerprints.PlainWords(["z", "|", "z"]);
    Fingerprints.PlainWords(["z"]);
    assert Fingerprints.Join(["z", "|", "z"]) == "z|z" by {
      assert ["z", "|", "z"][1..] == ["|", "z"] && ["|", "z"][1..] == ["z"] && ["z"][1..] == [];
      assert Fingerprints.Join(["z"]) == "z" + Fingerprints.Join([]) == "z";
      assert Fingerprints.Join(["|", "z"]) == "|" + "z" == "|z";
      assert "z" + "|z" == "z|z";
    }
    assert Fingerprints.Join(["z"]) == "z" + Fingerprints.Join([]) == "z";
  }

  /** Why bars must be excluded: two services share a window. */
  lemma BarsCollide(e1: LogEntry, e2: LogEntry)
    requires e1.level == e2.level == "error"
    requires e1.service == "s" && e1.message == "z|z" && e2.service == "s|z" && e2.message == "z"
    ensures KeyOf(RepeatedFailure, e1) == KeyOf(RepeatedFailure, e2) && !Alike(RepeatedFailure, e1, e2)
  {
    BarFingerprint();
    assert "s" + "|" + "z|z" == "s|z" + "|" + "z";
    assert |e1.service| != |e2.service|;
  }

  // ----- Evaluating and resetting -----

  /** Record the event under its key, count, and compare with the threshold. */
  function Judge<K>(cfg: Config, cap: nat, ws: Windows<K>, key: Option<K>, at: int, now: int): (r: (Windows<K>, bool))
    requires AllValid(ws, cap)
    ensures AllValid(r.0, cap)
  {
    match key
    case None => (ws, false)
    case Some(k) =>
      var ws' := Record(ws, cap, k, Event(at));
      (ws', Count(ws'[k].items, now - cfg.window) >= cfg.threshold)
  }

  /** A rule's answer to an entry. */
  function Answer(kind: Kind, cfg: Config, cap: nat, ws: Windows<string>, entry: LogEntry, now: int, firedAt: int): (r: (Windows<string>, Option<Anomaly>))
    requires AllValid(ws, cap)
    ensures AllValid(r.0, cap)
  {
    var (ws', fires) := Judge(cfg, cap, ws, KeyOf(kind, entry), entry.timestamp, now);
    (ws', if fires then Some(Anomaly(RuleID(kind), entry.service, [entry], firedAt)) else None)
  }

  /** Reset drops the error rate's windows never, and the other rules' windows exactly when
      they hold nothing recent: at the time of compaction for repeated failures; for
      authentication bursts also at the time of the second count. */
  lemma ResetDropsIff(kind: Kind, ws: Windows<string>, cap: nat, d: int, key: string, evictAt: int, countAt: int)
    requires AllValid(ws, cap) && key in ws && evictAt <= countAt
    ensures key !in VisitKey(ws, cap, PolicyOf(kind), d, key, evictAt, countAt)
       <==> match kind
            case ErrorRate => false
            case RepeatedFailure => Count(ws[key].items, evictAt - d) == 0
            case AuthBurst(_, _) => Count(ws[key].Evict(evictAt - d).items, countAt - d) == 0
    ensures Count(ws[key].items, evictAt - d) == 0 ==>
              Count(ws[key].Evict(evictAt - d).items, countAt - d) == 0
  {
    EvictCount(ws[key], evictAt - d);
    RecentBound(ws[key].Newer(), evictAt - d);
    SplitRecent(ws[key], evictAt - d);
  }

  class Counter<K(==)> {
    const table: WindowTable<K>

    ghost predicate Valid()
      reads table, table.Repr
    {
      table.Valid()
    }

    constructor (capacity: nat)
      requires 0 < capacity
      ensures Valid() && fresh(table) && fresh(table.Repr)
      ensures table.capacity == capacity && table.contents == map[]
    {
      table := new WindowTable(capacity);
    }

    method RecordAndCount(key: K, at: int, d: int, now: int) returns (count: nat)
      requires Valid()
      modifies table.Repr
      ensures Valid() && fresh(table.Repr - old(table.Repr))
      ensures AllValid(old(table.contents), table.capacity)
      ensures table.contents == Record(old(table.contents), table.capacity, key, Event(at))
      ensures count == Count(table.contents[key].items, now - d)
    {
      var w := table.Record(key, Event(at));
      count := w.CountWithin(d, now);
    }

    method Evaluate(cfg: Config, key: Option<K>, at: int, now: int) returns (fires: bool)
      requires Valid()
      modifies table.Repr
      ensures Valid() && fresh(table.Repr - old(table.Repr))
      ensures AllValid(old(table.contents), table.capacity)
      ensures table.contents == Judge(cfg, table.capacity, old(table.contents), key, at, now).0
      ensures fires == Judge(cfg, table.capacity, old(table.contents), key, at, now).1
    {
      match key
      case None =>
        table.ContentsValid();
        fires := false;
      case Some(k) =>
        var count := RecordAndCount(k, at, cfg.window, now);
        fires := count >= cfg.threshold;
    }
  }

  /** A configured rule. */
  class CountingRule {
    const kind: Kind
    const cfg: Config
    const counter: Counter<string>

    constructor (kind: Kind, cfg: Config)
      ensures counter.Valid() && fresh(counter.table.Repr)
      ensures this.kind == kind && this.cfg == cfg
      ensures counter.table.capacity == 10000 && counter.table.contents == map[]
    {
      this.kind, this.cfg := kind, cfg;
      counter := new Counter(CAPACITY);
    }

    /** `now` is the clock when counting and `firedAt` when the anomaly is built. */
    method Evaluate(entry: LogEntry, now: int, firedAt: int) returns (fired: Option<Anomaly>)
      requires counter.Valid()
      modifies counter.table.Repr
      ensures counter.Valid() && fresh(counter.table.Repr - old(counter.table.Repr))
      ensures AllValid(old(counter.table.contents), counter.table.capacity)
      ensures (counter.table.contents, fired)
           == Answer(kind, cfg, counter.table.capacity, old(counter.table.contents), entry, now, firedAt)
    {
      var key := Classify(kind, entry);
      var fires := counter.Evaluate(cfg, key, entry.timestamp, now);
      fired := if fires then Some(Anomaly(RuleID(kind), entry.service, [entry], firedAt)) else None;
    }

    method Reset(visits: seq<Call<string>>)
      requires counter.Valid() && VisitsAll(visits, counter.table.windows.Keys)
      modifies counter.table.Repr
      ensures counter.Valid() && counter.table.Repr == old(counter.table.Repr)
      ensures AllValid(old(counter.table.contents), counter.table.capacity)
      ensures counter.table.contents
           == PerformAll(old(counter.table.contents), PolicyOf(kind), counter.table.capacity, cfg.window, visits)
    {
      counter.table.Reset(PolicyOf(kind), cfg.window, visits);
    }
  }

  // ----- Whole runs -----

  /** What evaluating an entry means to a rule. */
  function StepOf(kind: Kind, entry: LogEntry): Step<string> {
    Logged(KeyOf(kind, entry), Event(entry.timestamp))
  }

  /** Whether an event of key k fires after a run. */
  predicate Decides<K(==)>(policy: Policy, cfg: Config, cap: nat, run: seq<Step<K>>, k: K, at: int, now: int)
    requires 0 < cap
  {
    Judge(cfg, cap, State(policy, cfg.window, cap, run), Some(k), at, now).1
  }

  lemma DecidesBySight<K>(policy: Policy, cfg: Config, cap: nat, run: seq<Step<K>>, k: K, at: int, now: int)
    requires 0 < cap
    ensures Decides(policy, cfg, cap, run, k, at, now)
       <==> |RecentSeen(policy, cfg.window, cap, run, k, Event(at), now)| >= cfg.threshold
  {
  }

  /** Counting is exact: while the key's window does not overflow between evictions, an
      event fires if and only if enough events of the plain log of its key are newer than
      the window. */
  lemma FiresExactly<K>(policy: Policy, cfg: Config, cap: nat, run: seq<Step<K>>, k: K, at: int, now: int)
    requires 0 < cap && Roomy(policy, cfg.window, cap, run, k) && ReadBy(OpsOf(policy, run, k), now)
    ensures Decides(policy, cfg, cap, run, k, at, now)
       <==> |RecentLog(cfg.window, run, k, Event(at), now)| >= cfg.threshold
  {
    DecidesBySight(policy, cfg, cap, run, k, at, now);
    SeenIsLog(policy, cfg.window, cap, run, k, Event(at), now);
  }

  /** A firing is backed by that many events of the log, even if windows overflowed, as
      long as no eviction overwrote unread samples. */
  lemma FiringIsJustified<K>(policy: Policy, cfg: Config, cap: nat, run: seq<Step<K>>, k: K, at: int, now: int)
    requires 0 < cap && Intact(policy, cfg.window, cap, run, k)
    ensures Decides(policy, cfg, cap, run, k, at, now)
        ==> |RecentLog(cfg.window, run, k, Event(at), now)| >= cfg.threshold
  {
    DecidesBySight(policy, cfg, cap, run, k, at, now);
    SeenIsBounded(policy, cfg.window, cap, run, k, Event(at), now);
  }
}
