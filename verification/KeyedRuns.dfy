/** Whole runs of a windowed rule. Every event is a sample with a key, or without one when
    the rule ignores it; the decisions are compared with the plain log of each key. */
module KeyedRuns {
  import opened Domain
  import opened Samples
  import opened Rings
  import opened RingRuns
  import opened KeyedWindows

  /** What a rule goes through: events to record, and Reset's visits to its keys. */
  datatype Step<K> =
    | Logged(event: Option<K>, x: Sample)
    | Visited(key: K, evictAt: int, countAt: int)

  function After<K>(policy: Policy, d: int, cap: nat, ws: Windows<K>, step: Step<K>): (ws': Windows<K>)
    requires AllValid(ws, cap)
    ensures AllValid(ws', cap)
  {
    match step
    case Logged(key, x) => if key.None? then ws else Record(ws, cap, key.value, x)
    case Visited(key, evictAt, countAt) => VisitKey(ws, cap, policy, d, key, evictAt, countAt)
  }

  function State<K>(policy: Policy, d: int, cap: nat, run: seq<Step<K>>): (ws: Windows<K>)
    requires 0 < cap
    ensures AllValid(ws, cap)
  {
    if |run| == 0 then map[]
    else After(policy, d, cap, State(policy, d, cap, run[..|run| - 1]), run[|run| - 1])
  }

  function LoggedAs<K(==)>(step: Step<K>, k: K): seq<Sample> {
    if step.Logged? && step.event == Some(k) then [step.x] else []
  }

  /** The plain log of key k: every sample it ever got. No window is involved. */
  function Log<K(==)>(run: seq<Step<K>>, k: K): seq<Sample> {
    if |run| == 0 then [] else Log(run[..|run| - 1], k) + LoggedAs(run[|run| - 1], k)
  }

  lemma LogSnoc<K>(run: seq<Step<K>>, step: Step<K>, k: K)
    ensures Log(run + [step], k) == Log(run, k) + LoggedAs(step, k)
  {
    assert (run + [step])[..|run|] == run;
  }

  // ----- Runs as calls on the map of windows -----

  function CallOf<K>(step: Step<K>): seq<Call<K>> {
    match step
    case Logged(key, x) => if key.None? then [] else [Entry(key.value, x)]
    case Visited(key, evictAt, countAt) => [Visit(key, evictAt, countAt)]
  }

  function Calls<K>(run: seq<Step<K>>): seq<Call<K>> {
    if |run| == 0 then [] else Calls(run[..|run| - 1]) + CallOf(run[|run| - 1])
  }

  /** The calls that the window of key k receives in a run. */
  function OpsOf<K(==)>(policy: Policy, run: seq<Step<K>>, k: K): seq<Op> {
    Project(policy, Calls(run), k)
  }

  lemma PlaySnoc<K>(policy: Policy, cap: nat, d: int, calls: seq<Call<K>>, call: Call<K>)
    requires 0 < cap
    ensures Play(policy, cap, d, calls + [call]) == Perform(Play(policy, cap, d, calls), cap, policy, d, call)
  {
    assert (calls + [call])[..|calls|] == calls;
  }

  lemma {:induction false} StateIsPlay<K>(policy: Policy, d: int, cap: nat, run: seq<Step<K>>)
    requires 0 < cap
    ensures State(policy, d, cap, run) == Play(policy, cap, d, Calls(run))
  {
    if |run| == 0 {
    } else {
      var front, call := run[..|run| - 1], CallOf(run[|run| - 1]);
      StateIsPlay(policy, d, cap, front);
      if |call| == 0 {
        assert Calls(front) + call == Calls(front);
      } else {
        assert call == [call[0]];
        PlaySnoc(policy, cap, d, Calls(front), call[0]);
      }
    }
  }

  lemma ProjectSnoc<K>(policy: Policy, calls: seq<Call<K>>, call: Call<K>, k: K)
    ensures Project(policy, calls + [call], k) == Project(policy, calls, k) + Share(policy, call, k)
  {
    assert (calls + [call])[..|calls|] == calls;
  }

  /** The history of a key's window is the plain log of that key. */
  lemma {:induction false} LogIsHistory<K>(policy: Policy, run: seq<Step<K>>, k: K)
    ensures History(OpsOf(policy, run, k)) == Log(run, k)
  {
    if |run| == 0 {
    } else {
      var front, call := run[..|run| - 1], CallOf(run[|run| - 1]);
      LogIsHistory(policy, front, k);
      if |call| == 0 {
        assert Calls(front) + call == Calls(front);
      } else {
        assert call == [call[0]];
        ProjectSnoc(policy, Calls(front), call[0], k);
        HistoryShare(Project(policy, Calls(front), k), policy, call[0], k);
      }
    }
  }

  /** What one step adds to the calls that the window of key k receives. */
  function StepOps<K(==)>(policy: Policy, step: Step<K>, k: K): seq<Op> {
    var call := CallOf(step);
    if |call| == 0 then [] else Share(policy, call[0], k)
  }

  lemma OpsSnoc<K>(policy: Policy, run: seq<Step<K>>, step: Step<K>, k: K)
    ensures OpsOf(policy, run + [step], k) == OpsOf(policy, run, k) + StepOps(policy, step, k)
  {
    assert (run + [step])[..|run|] == run;
    var call := CallOf(step);
    if |call| == 0 {
      assert Calls(run) + call == Calls(run);
    } else {
      assert call == [call[0]];
      ProjectSnoc(policy, Calls(run), call[0], k);
    }
  }

  lemma ReadByStep<K>(policy: Policy, run: seq<Step<K>>, step: Step<K>, k: K, now: int)
    requires ReadBy(OpsOf(policy, run, k), now)
    requires step.Visited? ==> step.evictAt <= now && step.countAt <= now
    ensures ReadBy(OpsOf(policy, run + [step], k), now)
  {
    OpsSnoc(policy, run, step, k);
    assert ReadBy(StepOps(policy, step, k), now);
  }

  // ----- What a decision sees -----

  /** The window that a decision looks at: the key's own window, with the new sample. */
  function Seen<K(==)>(policy: Policy, d: int, cap: nat, run: seq<Step<K>>, k: K, x: Sample): Ring
    requires 0 < cap
  {
    Record(State(policy, d, cap, run), cap, k, x)[k]
  }

  /** The window of key k on its own, given only the calls concerning that key. */
  function OwnWindow<K(==)>(policy: Policy, d: int, cap: nat, run: seq<Step<K>>, k: K): (r: Ring)
    requires 0 < cap
    ensures r.Valid() && r.cap == cap
  {
    Run(cap, d, OpsOf(policy, run, k))
  }

  lemma SeenIsOwn<K>(policy: Policy, d: int, cap: nat, run: seq<Step<K>>, k: K, x: Sample)
    requires 0 < cap
    ensures Seen(policy, d, cap, run, k, x) == OwnWindow(policy, d, cap, run, k).Add(x)
  {
    StateIsPlay(policy, d, cap, run);
    Isolation(policy, cap, d, Calls(run), k);
  }

  /** The key's window has not overflowed between evictions and has room for one more. */
  predicate Roomy<K(==)>(policy: Policy, d: int, cap: nat, run: seq<Step<K>>, k: K)
    requires 0 < cap
  {
    && NeverOverflows(cap, d, OpsOf(policy, run, k))
    && |OwnWindow(policy, d, cap, run, k).items| < cap
  }

  /** No eviction of the key's window overwrote samples before reading them. */
  predicate Intact<K(==)>(policy: Policy, d: int, cap: nat, run: seq<Step<K>>, k: K)
    requires 0 < cap
  {
    NeverClobbers(cap, d, OpsOf(policy, run, k))
  }

  /** The part of it newer than the rule's window d. */
  function RecentSeen<K(==)>(policy: Policy, d: int, cap: nat, run: seq<Step<K>>, k: K, x: Sample, now: int): seq<Sample>
    requires 0 < cap
  {
    Recent(Seen(policy, d, cap, run, k, x).items, now - d)
  }

  /** The same part of the plain log. */
  function RecentLog<K(==)>(d: int, run: seq<Step<K>>, k: K, x: Sample, now: int): seq<Sample> {
    Recent(Log(run + [Logged(Some(k), x)], k), now - d)
  }

  /** How many samples of the plain log are newer than the cutoff. */
  function LogCount<K(==)>(run: seq<Step<K>>, k: K, cutoff: int): nat {
    Count(Log(run, k), cutoff)
  }

  lemma RecentLogCount<K>(d: int, run: seq<Step<K>>, later: seq<Step<K>>, k: K, x: Sample, now: int)
    requires later == run + [Logged(Some(k), x)]
    ensures |RecentLog(d, run, k, x, now)| == LogCount(later, k, now - d)
  {
  }

  lemma LogWith<K>(d: int, run: seq<Step<K>>, k: K, x: Sample, now: int)
    ensures RecentLog(d, run, k, x, now) == Recent(Log(run, k), now - d) + Recent([x], now - d)
  {
    LogSnoc(run, Logged(Some(k), x), k);
    RecentConcat(Log(run, k), [x], now - d);
  }

  lemma LogWithCount<K>(d: int, run: seq<Step<K>>, k: K, x: Sample, now: int)
    ensures |RecentLog(d, run, k, x, now)| == LogCount(run, k, now - d) + Count([x], now - d)
  {
    LogWith(d, run, k, x, now);
  }

  /** Windows that never overflow between evictions are never overwritten. */
  lemma RoomyIsIntact<K>(policy: Policy, d: int, cap: nat, run: seq<Step<K>>, k: K)
    requires 0 < cap && NeverOverflows(cap, d, OpsOf(policy, run, k))
    ensures Intact(policy, d, cap, run, k)
  {
    NoOverflowNoWrap(cap, d, OpsOf(policy, run, k));
  }

  /** What a decision sees of the recent past is exactly the recent part of the plain log,
      in any run in which the key's window never overflows between evictions: whatever the
      order of the timestamps and whatever other keys did. */
  lemma SeenIsLog<K>(policy: Policy, d: int, cap: nat, run: seq<Step<K>>, k: K, x: Sample, now: int)
    requires 0 < cap && Roomy(policy, d, cap, run, k) && ReadBy(OpsOf(policy, run, k), now)
    ensures RecentSeen(policy, d, cap, run, k, x, now) == RecentLog(d, run, k, x, now)
  {
    var ops := OpsOf(policy, run, k);
    SeenIsOwn(policy, d, cap, run, k, x);
    LogWith(d, run, k, x, now);
    LogIsHistory(policy, run, k);
    BoundedIsUnbounded(cap, d, ops, now);
    RecentConcat(OwnWindow(policy, d, cap, run, k).items, [x], now - d);
  }

  lemma OwnWindowCount<K>(policy: Policy, d: int, cap: nat, run: seq<Step<K>>, k: K, x: Sample, cutoff: int)
    requires 0 < cap && Intact(policy, d, cap, run, k)
    ensures Count(OwnWindow(policy, d, cap, run, k).Add(x).items, cutoff) <= LogCount(run, k, cutoff) + Count([x], cutoff)
  {
    var ops := OpsOf(policy, run, k);
    assert Count(History(ops), cutoff) == LogCount(run, k, cutoff) by {
      LogIsHistory(policy, run, k);
    }
    CountAfterAddBound(cap, d, ops, x, cutoff);
  }

  lemma OwnWindowBound<K>(policy: Policy, d: int, cap: nat, run: seq<Step<K>>, k: K, x: Sample, now: int)
    requires 0 < cap && Intact(policy, d, cap, run, k)
    ensures Count(OwnWindow(policy, d, cap, run, k).Add(x).items, now - d) <= |RecentLog(d, run, k, x, now)|
  {
    LogWithCount(d, run, k, x, now);
    OwnWindowCount(policy, d, cap, run, k, x, now - d);
  }

  /** Even when windows overflow, a decision never counts more than the plain log has. */
  lemma SeenIsBounded<K>(policy: Policy, d: int, cap: nat, run: seq<Step<K>>, k: K, x: Sample, now: int)
    requires 0 < cap && Intact(policy, d, cap, run, k)
    ensures |RecentSeen(policy, d, cap, run, k, x, now)| <= |RecentLog(d, run, k, x, now)|
  {
    SeenIsOwn(policy, d, cap, run, k, x);
    OwnWindowBound(policy, d, cap, run, k, x, now);
  }
}
