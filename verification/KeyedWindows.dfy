/** Windows kept in a map, one per key, and what the rules that own such a map can
    observe of them. */
module KeyedWindows {
  import opened Samples
  import opened Rings
  import opened RingRuns

  type Windows<K> = map<K, Ring>

  /** When a rule's Reset deletes a window after compacting it. */
  datatype Policy =
    | KeepAll        // never
    | DropEmpty      // when it holds nothing
    | DropUncounted  // when a second clock reading counts nothing recent in it

  /** What happens to such a map: a sample is recorded under a key, or Reset visits a key.
      Reset visits the keys of the map one by one and reads the clock anew for each. */
  datatype Call<K> =
    | Entry(key: K, x: Sample)
    | Visit(key: K, evictAt: int, countAt: int)

  ghost predicate AllValid<K>(ws: Windows<K>, cap: nat) {
    0 < cap && forall k :: k in ws ==> ws[k].Valid() && ws[k].cap == cap
  }

  function Get<K>(ws: Windows<K>, cap: nat, k: K): (r: Ring)
    requires k in ws ==> ws[k].Valid() && ws[k].cap == cap
    requires 0 < cap
    ensures r.Valid() && r.cap == cap
  {
    if k in ws then ws[k] else New(cap)
  }

  predicate Discards(policy: Policy, evicted: Ring, cutoff: int) {
    match policy
    case KeepAll => false
    case DropEmpty => |evicted.items| == 0
    case DropUncounted => Count(evicted.items, cutoff) == 0
  }

  /** Looking a window up creates it when absent. */
  function Record<K>(ws: Windows<K>, cap: nat, k: K, x: Sample): (ws': Windows<K>)
    requires AllValid(ws, cap)
    ensures AllValid(ws', cap)
  {
    ws[k := Get(ws, cap, k).Add(x)]
  }

  /** Creating the window first and adding to it afterwards. */
  lemma RecordInSteps<K>(ws: Windows<K>, created: Windows<K>, cap: nat, k: K, x: Sample)
    requires AllValid(ws, cap)
    requires created == ws[k := Get(ws, cap, k)]
    ensures created[k := created[k].Add(x)] == Record(ws, cap, k, x)
  {
  }

  function VisitKey<K>(ws: Windows<K>, cap: nat, policy: Policy, d: int, k: K, evictAt: int, countAt: int): (ws': Windows<K>)
    requires AllValid(ws, cap)
    ensures AllValid(ws', cap)
  {
    if k !in ws then ws
    else
      var evicted := ws[k].Evict(evictAt - d);
      if Discards(policy, evicted, countAt - d) then ws - {k} else ws[k := evicted]
  }

  function Perform<K>(ws: Windows<K>, cap: nat, policy: Policy, d: int, call: Call<K>): (ws': Windows<K>)
    requires AllValid(ws, cap)
    ensures AllValid(ws', cap)
  {
    match call
    case Entry(k, x) => Record(ws, cap, k, x)
    case Visit(k, evictAt, countAt) => VisitKey(ws, cap, policy, d, k, evictAt, countAt)
  }

  /** Compacting first and deleting afterwards. */
  lemma VisitInSteps<K>(ws: Windows<K>, cap: nat, policy: Policy, d: int, k: K, evictAt: int, countAt: int)
    requires AllValid(ws, cap) && k in ws
    ensures var evicted := ws[k := ws[k].Evict(evictAt - d)];
            VisitKey(ws, cap, policy, d, k, evictAt, countAt)
            == if Discards(policy, evicted[k], countAt - d) then evicted - {k} else evicted
  {
    var evicted := ws[k := ws[k].Evict(evictAt - d)];
    assert ws - {k} == evicted - {k};
  }

  function PerformAll<K>(ws: Windows<K>, policy: Policy, cap: nat, d: int, calls: seq<Call<K>>): (ws': Windows<K>)
    requires AllValid(ws, cap)
    ensures AllValid(ws', cap)
  {
    if |calls| == 0 then ws
    else Perform(PerformAll(ws, policy, cap, d, calls[..|calls| - 1]), cap, policy, d, calls[|calls| - 1])
  }

  lemma PerformAllStep<K>(ws: Windows<K>, policy: Policy, cap: nat, d: int, calls: seq<Call<K>>, i: nat)
    requires AllValid(ws, cap) && i < |calls|
    ensures PerformAll(ws, policy, cap, d, calls[..i + 1])
         == Perform(PerformAll(ws, policy, cap, d, calls[..i]), cap, policy, d, calls[i])
  {
    assert calls[..i + 1][..i] == calls[..i];
  }

  /** A whole run of a rule's map, from its construction. */
  function Play<K>(policy: Policy, cap: nat, d: int, calls: seq<Call<K>>): (ws: Windows<K>)
    requires 0 < cap
    ensures AllValid(ws, cap)
  {
    PerformAll(map[], policy, cap, d, calls)
  }

  /** A Reset of a map with these keys: every key is visited once, in some order. */
  ghost predicate VisitsAll<K>(visits: seq<Call<K>>, keys: set<K>) {
    && (forall i :: 0 <= i < |visits| ==> visits[i].Visit? && visits[i].key in keys)
    && (forall k :: k in keys ==> exists i :: 0 <= i < |visits| && visits[i].key == k)
    && (forall i, j :: 0 <= i < j < |visits| ==> visits[i].key != visits[j].key)
  }

  // ----- Isolation between keys -----

  /** What one call means for the window of key k alone. */
  function Share<K(==)>(policy: Policy, call: Call<K>, k: K): seq<Op> {
    if call.key != k then []
    else if call.Entry? then [Added(call.x)]
    else if policy.DropUncounted? then [Evicted(call.evictAt), Dropped(call.countAt)]
    else [Evicted(call.evictAt)]
  }

  function Project<K(==)>(policy: Policy, calls: seq<Call<K>>, k: K): seq<Op> {
    if |calls| == 0 then []
    else Project(policy, calls[..|calls| - 1], k) + Share(policy, calls[|calls| - 1], k)
  }

  /** A window after the calls in a share. */
  function ApplyShare<K>(r: Ring, policy: Policy, d: int, call: Call<K>): (r': Ring)
    requires r.Valid()
    ensures r'.Valid() && r'.cap == r.cap
  {
    if call.Entry? then r.Add(call.x)
    else if policy.DropUncounted? then Apply(r.Evict(call.evictAt - d), Dropped(call.countAt), d)
    else r.Evict(call.evictAt - d)
  }

  lemma RunSnoc(cap: nat, d: int, ops: seq<Op>, op: Op)
    requires 0 < cap
    ensures Run(cap, d, ops + [op]) == Apply(Run(cap, d, ops), op, d)
  {
    assert (ops + [op])[..|ops|] == ops;
  }

  lemma RunShare<K>(cap: nat, d: int, ops: seq<Op>, policy: Policy, call: Call<K>)
    requires 0 < cap
    ensures Run(cap, d, ops + Share(policy, call, call.key)) == ApplyShare(Run(cap, d, ops), policy, d, call)
  {
    if call.Entry? {
      RunSnoc(cap, d, ops, Added(call.x));
    } else {
      RunSnoc(cap, d, ops, Evicted(call.evictAt));
      if policy.DropUncounted? {
        RunSnoc(cap, d, ops + [Evicted(call.evictAt)], Dropped(call.countAt));
        assert ops + Share(policy, call, call.key) == ops + [Evicted(call.evictAt)] + [Dropped(call.countAt)];
      }
    }
  }

  /** Having an empty window and having none look the same. */
  lemma PerformGet<K>(ws: Windows<K>, cap: nat, policy: Policy, d: int, call: Call<K>)
    requires AllValid(ws, cap)
    ensures var ws' := Perform(ws, cap, policy, d, call);
            && Get(ws', cap, call.key) == ApplyShare(Get(ws, cap, call.key), policy, d, call)
            && (forall k :: k != call.key ==> Get(ws', cap, k) == Get(ws, cap, k))
  {
  }

  /** Isolation: a rule's map behaves, key by key, as one window per key that only sees
      the calls concerning that key, whichever windows Reset deletes. */
  lemma {:induction false} Isolation<K>(policy: Policy, cap: nat, d: int, calls: seq<Call<K>>, k: K)
    requires 0 < cap
    ensures Get(Play(policy, cap, d, calls), cap, k) == Run(cap, d, Project(policy, calls, k))
  {
    if |calls| == 0 {
    } else {
      var front, call := calls[..|calls| - 1], calls[|calls| - 1];
      Isolation(policy, cap, d, front, k);
      PerformGet(Play(policy, cap, d, front), cap, policy, d, call);
      if call.key == k {
        RunShare(cap, d, Project(policy, front, k), policy, call);
      } else {
        assert Project(policy, calls, k) == Project(policy, front, k);
      }
    }
  }

  /** The part of a run that concerns key k. */
  function OwnCalls<K(==)>(calls: seq<Call<K>>, k: K): seq<Call<K>> {
    if |calls| == 0 then []
    else OwnCalls(calls[..|calls| - 1], k) + if calls[|calls| - 1].key == k then [calls[|calls| - 1]] else []
  }

  lemma {:induction false} OwnCallsProject<K>(policy: Policy, calls: seq<Call<K>>, k: K)
    ensures Project(policy, OwnCalls(calls, k), k) == Project(policy, calls, k)
  {
    if |calls| == 0 {
    } else {
      var front, call := calls[..|calls| - 1], calls[|calls| - 1];
      var own := OwnCalls(front, k);
      OwnCallsProject(policy, front, k);
      if call.key == k {
        assert (own + [call])[..|own|] == own;
      } else {
        assert own + [] == own;
      }
    }
  }

  /** A rule's window for a key is what it would be had no other key ever been seen. */
  lemma OtherKeysAreInvisible<K>(policy: Policy, cap: nat, d: int, calls: seq<Call<K>>, k: K)
    requires 0 < cap
    ensures Get(Play(policy, cap, d, calls), cap, k) == Get(Play(policy, cap, d, OwnCalls(calls, k)), cap, k)
  {
    Isolation(policy, cap, d, calls, k);
    Isolation(policy, cap, d, OwnCalls(calls, k), k);
    OwnCallsProject(policy, calls, k);
  }

  // ----- Deleting windows is unobservable -----

  /** Every visit counts the window at the very time at which it compacted it. */
  ghost predicate OneReading<K>(calls: seq<Call<K>>) {
    forall i :: 0 <= i < |calls| && calls[i].Visit? ==> calls[i].evictAt == calls[i].countAt
  }

  lemma ApplyShareAgrees<K>(r: Ring, policy: Policy, d: int, call: Call<K>)
    requires r.Valid()
    requires policy.DropUncounted? && call.Visit? ==> call.evictAt == call.countAt
    ensures ApplyShare(r, policy, d, call) == ApplyShare(r, KeepAll, d, call)
  {
    if policy.DropUncounted? && call.Visit? {
      EvictKeepsOnlyRecent(r, call.evictAt - d);
    }
  }

  /** A rule that deletes windows answers every later call exactly as one that keeps them
      all, provided a rule that counts before deleting counts at the time of compaction. */
  lemma {:induction false} DeletingIsUnobservable<K>(policy: Policy, cap: nat, d: int, calls: seq<Call<K>>, k: K)
    requires 0 < cap
    requires policy.DropUncounted? ==> OneReading(calls)
    ensures Get(Play(policy, cap, d, calls), cap, k) == Get(Play(KeepAll, cap, d, calls), cap, k)
  {
    if |calls| == 0 {
    } else {
      var front, call := calls[..|calls| - 1], calls[|calls| - 1];
      DeletingIsUnobservable(policy, cap, d, front, k);
      PerformGet(Play(policy, cap, d, front), cap, policy, d, call);
      PerformGet(Play(KeepAll, cap, d, front), cap, KeepAll, d, call);
      if call.key == k {
        ApplyShareAgrees(Get(Play(KeepAll, cap, d, front), cap, k), policy, d, call);
      }
    }
  }

  /** With a second, later reading the deleted window may still hold samples that were
      recent when it was compacted. As long as nothing overflows, every later count is
      nevertheless the count over the whole history, so no answer changes. */
  lemma DeletingLateIsUnobservable<K>(cap: nat, d: int, calls: seq<Call<K>>, k: K, now: int)
    requires 0 < cap
    requires NeverOverflows(cap, d, Project(KeepAll, calls, k)) && ReadBy(Project(KeepAll, calls, k), now)
    requires NeverOverflows(cap, d, Project(DropUncounted, calls, k)) && ReadBy(Project(DropUncounted, calls, k), now)
    ensures Recent(Get(Play(DropUncounted, cap, d, calls), cap, k).items, now - d)
         == Recent(History(Project(KeepAll, calls, k)), now - d)
         == Recent(Get(Play(KeepAll, cap, d, calls), cap, k).items, now - d)
  {
    Isolation(DropUncounted, cap, d, calls, k);
    Isolation(KeepAll, cap, d, calls, k);
    BoundedIsUnbounded(cap, d, Project(DropUncounted, calls, k), now);
    BoundedIsUnbounded(cap, d, Project(KeepAll, calls, k), now);
    SameHistory(calls, k);
  }

  lemma HistorySnoc(ops: seq<Op>, op: Op)
    ensures History(ops + [op]) == History(ops) + op.Entry()
  {
    assert (ops + [op])[..|ops|] == ops;
  }

  lemma HistoryShare<K>(ops: seq<Op>, policy: Policy, call: Call<K>, k: K)
    ensures History(ops + Share(policy, call, k))
         == History(ops) + if call.Entry? && call.key == k then [call.x] else []
  {
    if call.key != k {
      assert ops + [] == ops;
    } else if call.Entry? {
      HistorySnoc(ops, Added(call.x));
    } else {
      HistorySnoc(ops, Evicted(call.evictAt));
      if policy.DropUncounted? {
        HistorySnoc(ops + [Evicted(call.evictAt)], Dropped(call.countAt));
        assert ops + Share(policy, call, k) == ops + [Evicted(call.evictAt)] + [Dropped(call.countAt)];
      }
    }
  }

  lemma {:induction false} SameHistory<K>(calls: seq<Call<K>>, k: K)
    ensures History(Project(DropUncounted, calls, k)) == History(Project(KeepAll, calls, k))
  {
    if |calls| == 0 {
    } else {
      var front, call := calls[..|calls| - 1], calls[|calls| - 1];
      SameHistory(front, k);
      HistoryShare(Project(DropUncounted, front, k), DropUncounted, call, k);
      HistoryShare(Project(KeepAll, front, k), KeepAll, call, k);
    }
  }
}
