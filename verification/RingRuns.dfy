/** What a bounded window reports over whole runs, compared with the plain list of
    everything that was ever added to it. */
module RingRuns {
  import opened Samples
  import opened Rings

  // ----- One compaction -----

  lemma SplitRecent(r: Ring, cutoff: int)
    requires r.Valid()
    ensures Recent(r.items, cutoff) == Recent(r.Older(), cutoff) + Recent(r.Newer(), cutoff)
  {
    assert r.items == r.Older() + r.Newer();
    RecentConcat(r.Older(), r.Newer(), cutoff);
  }

  /** Every survivor is newer than the cutoff and was in the window. */
  lemma EvictKeepsOnlyRecent(r: Ring, cutoff: int)
    requires r.Valid()
    ensures Recent(r.Evict(cutoff).items, cutoff) == r.Evict(cutoff).items
    ensures forall i :: 0 <= i < |r.Evict(cutoff).items| ==> r.Evict(cutoff).items[i] in r.items
  {
    if r.Clobbers(cutoff) {
      CyclicRecent(r.Older(), cutoff, |Recent(r.Older(), cutoff)| + r.start);
      RecentAll(r.Evict(cutoff).items, cutoff);
    } else {
      RecentElements(r.items, cutoff);
      RecentTwice(r.items, cutoff, cutoff);
    }
  }

  /** Compaction is the intended filter if and only if it does not overwrite unread
      samples, or the newer run happens to repeat the kept older samples. */
  lemma EvictIsFilterIff(r: Ring, cutoff: int)
    requires r.Valid()
    ensures r.Evict(cutoff).items == Recent(r.items, cutoff)
       <==> (r.Clobbers(cutoff) ==> r.Newer() == Cyclic(Recent(r.Older(), cutoff), r.start))
  {
    SplitRecent(r, cutoff);
    if r.Clobbers(cutoff) {
      RecentElements(r.Older(), cutoff);
      CyclicIsFilterIff(Recent(r.Older(), cutoff), r.Newer(), cutoff);
    }
  }

  lemma CyclicIsFilterIff(kept: seq<Sample>, newer: seq<Sample>, cutoff: int)
    requires |kept| > 0 && forall i :: 0 <= i < |kept| ==> kept[i].at > cutoff
    ensures Cyclic(kept, |kept| + |newer|) == kept + Recent(newer, cutoff)
       <==> newer == Cyclic(kept, |newer|)
  {
    var tail := Cyclic(kept, |newer|);
    CyclicTail(kept, |newer|);
    if kept + tail == kept + Recent(newer, cutoff) {
      assert (kept + tail)[|kept|..] == tail;
      assert (kept + Recent(newer, cutoff))[|kept|..] == Recent(newer, cutoff);
      RecentBound(newer, cutoff);
    }
    if newer == tail {
      CyclicElements(kept, |newer|);
      RecentAll(newer, cutoff);
    }
  }

  /** Compaction never loses count. It over-counts by the stale samples of the newer run,
      and only when it overwrites that run; it never needs more than the capacity. */
  lemma EvictCount(r: Ring, cutoff: int)
    requires r.Valid()
    ensures |r.Evict(cutoff).items|
         == Count(r.items, cutoff) + if r.Clobbers(cutoff) then r.start - Count(r.Newer(), cutoff) else 0
    ensures Count(r.items, cutoff) <= |r.Evict(cutoff).items| <= r.cap
  {
    SplitRecent(r, cutoff);
    RecentBound(r.Newer(), cutoff);
  }

  ghost predicate Ordered(s: seq<Sample>) {
    forall i, j :: 0 <= i < j < |s| ==> s[i].at <= s[j].at
  }

  ghost predicate StrictlyOrdered(s: seq<Sample>) {
    forall i, j :: 0 <= i < j < |s| ==> s[i].at < s[j].at
  }

  /** With timestamps in order, the count right after compaction is exact. */
  lemma EvictCountOrdered(r: Ring, cutoff: int)
    requires r.Valid() && Ordered(r.items)
    ensures |r.Evict(cutoff).items| == Count(r.items, cutoff)
  {
    EvictCount(r, cutoff);
    if r.Clobbers(cutoff) {
      RecentElements(r.Older(), cutoff);
      var i :| 0 <= i < |r.Older()| && r.Older()[i] == Recent(r.Older(), cutoff)[0];
      forall j | 0 <= j < |r.Newer()|
        ensures r.Newer()[j].at > cutoff
      {
        assert r.items[i].at <= r.items[|r.Older()| + j].at;
      }
      RecentAll(r.Newer(), cutoff);
    }
  }

  lemma NewerThanOldest(r: Ring)
    requires r.Valid() && StrictlyOrdered(r.items) && |r.Older()| > 0
    ensures Count(r.items, r.Older()[|r.Older()| - 1].at) == r.start
    ensures Recent(r.Older(), r.Older()[|r.Older()| - 1].at) == []
  {
    var last := |r.Older()| - 1;
    var later := r.Older()[last].at;
    SplitRecent(r, later);
    forall j | 0 <= j < |r.Newer()|
      ensures r.Newer()[j].at > later
    {
      assert r.items[last].at < r.items[last + 1 + j].at;
    }
    RecentAll(r.Newer(), later);
    RecentNone(r.Older(), later);
  }

  lemma OlderBound(r: Ring, x: Sample)
    requires r.Valid() && StrictlyOrdered(r.items) && x in r.Older()
    ensures x.at <= r.Older()[|r.Older()| - 1].at
  {
    var i :| 0 <= i < |r.Older()| && r.Older()[i] == x;
    assert r.items[i] == x;
  }

  lemma EvictedAreOld(r: Ring, cutoff: int, later: int)
    requires r.Valid() && StrictlyOrdered(r.items) && r.Clobbers(cutoff)
    requires |r.Older()| > 0 && r.Older()[|r.Older()| - 1].at == later
    ensures Count(r.Evict(cutoff).items, later) == 0
  {
    var after := r.Evict(cutoff).items;
    CyclicRecent(r.Older(), cutoff, |after|);
    forall i | 0 <= i < |after|
      ensures after[i].at <= later
    {
      OlderBound(r, after[i]);
    }
    RecentNone(after, later);
  }

  /** But with strictly increasing timestamps a compaction that overwrites the newer run
      forgets all of it: a later count that should see exactly that run sees nothing. */
  lemma EvictForgetsNewest(r: Ring, cutoff: int)
    requires r.Valid() && StrictlyOrdered(r.items) && r.Clobbers(cutoff)
    ensures |r.Older()| > 0
    ensures var later := r.Older()[|r.Older()| - 1].at;
            Count(r.items, later) == r.start > 0 && Count(r.Evict(cutoff).items, later) == 0
  {
    RecentBound(r.Older(), cutoff);
    NewerThanOldest(r);
    EvictedAreOld(r, cutoff, r.Older()[|r.Older()| - 1].at);
  }

  /** Exactly what a later count sees after a compaction, in every state: the newer run is
      counted as it was, or, when it was overwritten, by the copies that took its place. */
  lemma LaterCount(r: Ring, cutoff: int, c: int)
    requires r.Valid() && cutoff <= c
    ensures Count(r.Evict(cutoff).items, c)
         == if r.Clobbers(cutoff) then
              Count(r.items, c) - Count(r.Newer(), c) + Count(Cyclic(Recent(r.Older(), cutoff), r.start), c)
            else
              Count(r.items, c)
  {
    if r.Clobbers(cutoff) {
      var kept := Recent(r.Older(), cutoff);
      CyclicTail(kept, r.start);
      RecentConcat(kept, Cyclic(kept, r.start), c);
      RecentTwice(r.Older(), cutoff, c);
      SplitRecent(r, c);
    } else {
      RecentTwice(r.items, cutoff, c);
    }
  }

  /** What a later count makes of the copies and of the samples they replaced. */
  function Copied(r: Ring, cutoff: int, c: int): int
    requires r.Valid() && r.Clobbers(cutoff)
  {
    Count(Cyclic(Recent(r.Older(), cutoff), r.start), c) - Count(r.Newer(), c)
  }

  /** A later count is right, too high or too low, exactly as an overwriting compaction
      copied as many, more or fewer recent samples than it overwrote. */
  lemma LaterCountIff(r: Ring, cutoff: int, c: int)
    requires r.Valid() && cutoff <= c
    ensures Count(r.Evict(cutoff).items, c) == Count(r.items, c) <==> (r.Clobbers(cutoff) ==> Copied(r, cutoff, c) == 0)
    ensures Count(r.Evict(cutoff).items, c) > Count(r.items, c) <==> r.Clobbers(cutoff) && Copied(r, cutoff, c) > 0
    ensures Count(r.Evict(cutoff).items, c) < Count(r.items, c) <==> r.Clobbers(cutoff) && Copied(r, cutoff, c) < 0
  {
    LaterCount(r, cutoff, c);
  }

  // ----- Adding only -----

  function AddAll(cap: nat, xs: seq<Sample>): (r: Ring)
    requires 0 < cap
    ensures r.Valid() && r.cap == cap
  {
    if |xs| == 0 then New(cap) else AddAll(cap, xs[..|xs| - 1]).Add(xs[|xs| - 1])
  }

  lemma {:induction false} AddAllStart(cap: nat, xs: seq<Sample>)
    requires 0 < cap
    ensures AddAll(cap, xs).start == Start(cap, |xs|) && |AddAll(cap, xs).items| == Min(|xs|, cap)
  {
    if |xs| == 0 {
    } else {
      AddAllStart(cap, xs[..|xs| - 1]);
      StartStep(cap, |xs| - 1);
    }
  }

  lemma LatestSnoc(front: seq<Sample>, x: Sample, cap: nat)
    requires 0 < cap
    ensures var latest, xs := front[|front| - Min(|front|, cap)..], front + [x];
            (if |latest| == cap then latest[1..] else latest) + [x] == xs[|xs| - Min(|xs|, cap)..]
  {
  }

  /** A window holds the latest samples, in order, and wraps at its capacity. */
  lemma {:induction false} AddAllKeepsLatest(cap: nat, xs: seq<Sample>)
    requires 0 < cap
    ensures AddAll(cap, xs).items == xs[|xs| - Min(|xs|, cap)..]
    ensures AddAll(cap, xs).start == Start(cap, |xs|)
  {
    AddAllStart(cap, xs);
    if |xs| == 0 {
    } else {
      var front, x := xs[..|xs| - 1], xs[|xs| - 1];
      AddAllKeepsLatest(cap, front);
      LatestSnoc(front, x, cap);
      assert xs == front + [x];
    }
  }

  /** In order, either all of the latest m samples are recent or all recent samples are
      among them. */
  lemma OrderedCountOfLatest(xs: seq<Sample>, m: nat, cutoff: int)
    requires m <= |xs| && Ordered(xs)
    ensures Count(xs[|xs| - m..], cutoff) == Min(m, Count(xs, cutoff))
  {
    var early, late := xs[..|xs| - m], xs[|xs| - m..];
    assert xs == early + late;
    RecentConcat(early, late, cutoff);
    RecentBound(late, cutoff);
    if i :| 0 <= i < |early| && early[i].at > cutoff {
      forall j | 0 <= j < |late|
        ensures late[j].at > cutoff
      {
        assert xs[i].at <= xs[|early| + j].at;
      }
      RecentAll(late, cutoff);
    } else {
      RecentNone(early, cutoff);
    }
  }

  /** With timestamps in order the window reports the true count, capped at its capacity,
      so any threshold up to the capacity is met exactly when it should be. */
  lemma OrderedCountIsCapped(cap: nat, xs: seq<Sample>, cutoff: int, threshold: int)
    requires 0 < cap && Ordered(xs)
    ensures var reported, actual := Count(AddAll(cap, xs).items, cutoff), Count(xs, cutoff);
            && reported == Min(cap, actual)
            && (threshold <= cap ==> (reported >= threshold <==> actual >= threshold))
  {
    AddAllKeepsLatest(cap, xs);
    OrderedCountOfLatest(xs, Min(|xs|, cap), cutoff);
    RecentBound(xs, cutoff);
  }

  // ----- Runs with evictions -----

  /** The calls one window receives. Dropped stands for the owner discarding the window
      when nothing in it is newer than the cutoff. */
  datatype Op =
    | Added(x: Sample)
    | Evicted(now: int)
    | Dropped(now: int)
  {
    function Entry(): seq<Sample> {
      if Added? then [x] else []
    }
  }

  function Apply(r: Ring, op: Op, d: int): (r': Ring)
    requires r.Valid()
    ensures r'.Valid() && r'.cap == r.cap
  {
    match op
    case Added(x) => r.Add(x)
    case Evicted(now) => r.Evict(now - d)
    case Dropped(now) => if Count(r.items, now - d) == 0 then New(r.cap) else r
  }

  function Run(cap: nat, d: int, ops: seq<Op>): (r: Ring)
    requires 0 < cap
    ensures r.Valid() && r.cap == cap
  {
    if |ops| == 0 then New(cap)
    else Apply(Run(cap, d, ops[..|ops| - 1]), ops[|ops| - 1], d)
  }

  /** Everything ever added, in order. */
  function History(ops: seq<Op>): seq<Sample> {
    if |ops| == 0 then []
    else History(ops[..|ops| - 1]) + ops[|ops| - 1].Entry()
  }

  /** Every clock reading of the run is at most now. */
  ghost predicate ReadBy(ops: seq<Op>, now: int) {
    forall i :: 0 <= i < |ops| ==> ops[i].Added? || ops[i].now <= now
  }

  /** No sample is added to a full window. */
  predicate NeverOverflows(cap: nat, d: int, ops: seq<Op>)
    requires 0 < cap
  {
    |ops| > 0 ==>
      var front := ops[..|ops| - 1];
      && NeverOverflows(cap, d, front)
      && (ops[|ops| - 1].Added? ==> |Run(cap, d, front).items| < cap)
  }

  /** No compaction overwrites samples before reading them. */
  predicate NeverClobbers(cap: nat, d: int, ops: seq<Op>)
    requires 0 < cap
  {
    |ops| > 0 ==>
      var front, op := ops[..|ops| - 1], ops[|ops| - 1];
      && NeverClobbers(cap, d, front)
      && (op.Evicted? ==> !Run(cap, d, front).Clobbers(op.now - d))
  }

  lemma {:induction false} NoOverflowNoWrap(cap: nat, d: int, ops: seq<Op>)
    requires 0 < cap && NeverOverflows(cap, d, ops)
    ensures Run(cap, d, ops).start == 0
    ensures NeverClobbers(cap, d, ops)
  {
    if |ops| == 0 {
    } else {
      NoOverflowNoWrap(cap, d, ops[..|ops| - 1]);
    }
  }

  lemma EvictAgrees(r: Ring, cutoff: int, later: int)
    requires r.Valid() && r.start == 0 && cutoff <= later
    ensures Recent(r.Evict(cutoff).items, later) == Recent(r.items, later)
  {
    RecentTwice(r.items, cutoff, later);
  }

  lemma DropAgrees(r: Ring, cutoff: int, later: int)
    requires r.Valid() && cutoff <= later && Count(r.items, cutoff) == 0
    ensures Recent(r.items, later) == []
  {
    RecentTwice(r.items, cutoff, later);
  }

  /** One step keeps agreement on everything newer than a later cutoff. */
  lemma ApplyAgrees(r: Ring, op: Op, d: int, now: int)
    requires r.Valid() && r.start == 0
    requires if op.Added? then |r.items| < r.cap else op.now <= now
    ensures Recent(Apply(r, op, d).items, now - d) == Recent(r.items, now - d) + Recent(op.Entry(), now - d)
  {
    match op
    case Added(x) =>
      RecentConcat(r.items, [x], now - d);
    case Evicted(earlier) =>
      EvictAgrees(r, earlier - d, now - d);
    case Dropped(earlier) =>
      if Count(r.items, earlier - d) == 0 {
        DropAgrees(r, earlier - d, now - d);
      }
  }

  /** The bounded window is the unbounded log: as long as it never overflows between
      evictions, it agrees with the whole history on everything newer than the cutoff,
      whatever the order of the timestamps. */
  lemma {:induction false} BoundedIsUnbounded(cap: nat, d: int, ops: seq<Op>, now: int)
    requires 0 < cap && NeverOverflows(cap, d, ops) && ReadBy(ops, now)
    ensures Recent(Run(cap, d, ops).items, now - d) == Recent(History(ops), now - d)
  {
    if |ops| == 0 {
    } else {
      var front, op := ops[..|ops| - 1], ops[|ops| - 1];
      var before, entry := Run(cap, d, front), Recent(op.Entry(), now - d);
      BoundedIsUnbounded(cap, d, front, now);
      assert Recent(Run(cap, d, ops).items, now - d) == Recent(before.items, now - d) + entry by {
        NoOverflowNoWrap(cap, d, front);
        ApplyAgrees(before, op, d, now);
      }
      assert Recent(History(ops), now - d) == Recent(History(front), now - d) + entry by {
        RecentConcat(History(front), op.Entry(), now - d);
      }
    }
  }

  /** One step raises a count by at most the sample it adds. */
  lemma ApplyCount(r: Ring, op: Op, d: int, cutoff: int)
    requires r.Valid()
    requires op.Evicted? ==> !r.Clobbers(op.now - d)
    ensures Count(Apply(r, op, d).items, cutoff) <= Count(r.items, cutoff) + Count(op.Entry(), cutoff)
  {
    match op
    case Added(x) =>
      RecentConcat(r.items, [x], cutoff);
      if |r.items| == r.cap {
        RecentConcat(r.items[1..], [x], cutoff);
        CountFrom(r.items, 0, cutoff);
        assert r.items[0..] == r.items;
      }
    case Evicted(now) =>
      RecentLowersCount(r.items, now - d, cutoff);
    case Dropped(_) =>
  }

  /** Overflowing alone only loses samples: a window whose compactions never overwrite
      unread samples never reports more than really happened, in any run. */
  lemma {:induction false} NeverOvercounts(cap: nat, d: int, ops: seq<Op>, cutoff: int)
    requires 0 < cap && NeverClobbers(cap, d, ops)
    ensures Count(Run(cap, d, ops).items, cutoff) <= Count(History(ops), cutoff)
  {
    if |ops| == 0 {
    } else {
      var front, op := ops[..|ops| - 1], ops[|ops| - 1];
      NeverOvercounts(cap, d, front, cutoff);
      var before, after := Count(Run(cap, d, front).items, cutoff), Count(Run(cap, d, ops).items, cutoff);
      assert after <= before + Count(op.Entry(), cutoff) by {
        ApplyCount(Run(cap, d, front), op, d, cutoff);
      }
      RecentConcat(History(front), op.Entry(), cutoff);
    }
  }

  /** Counting right after adding x, in general: never more than really happened. */
  lemma CountAfterAddBound(cap: nat, d: int, ops: seq<Op>, x: Sample, cutoff: int)
    requires 0 < cap && NeverClobbers(cap, d, ops)
    ensures Count(Run(cap, d, ops).Add(x).items, cutoff)
         <= Count(History(ops), cutoff) + Count([x], cutoff)
  {
    NeverOvercounts(cap, d, ops, cutoff);
    ApplyCount(Run(cap, d, ops), Added(x), d, cutoff);
  }

  // ----- A false alarm -----

  function Repeat(at: int, n: nat): seq<Sample> {
    seq(n, i requires 0 <= i < n => Event(at))
  }

  lemma CountRepeat(at: int, n: nat, cutoff: int)
    ensures Recent(Repeat(at, n), cutoff) == if at > cutoff then Repeat(at, n) else []
  {
    assert forall i :: 0 <= i < n ==> Repeat(at, n)[i] == Event(at);
    if at > cutoff {
      RecentAll(Repeat(at, n), cutoff);
    } else {
      RecentNone(Repeat(at, n), cutoff);
    }
  }

  /** Two stale events, cap - 2 fresh ones, two stale late arrivals. */
  function Arrivals(cap: nat, stale: int, now: int): seq<Sample>
    requires 3 <= cap
  {
    Repeat(stale, 2) + (Repeat(now, cap - 2) + Repeat(stale, 2))
  }

  lemma ArrivalsWrap(cap: nat, stale: int, now: int)
    requires 3 <= cap
    ensures var r := AddAll(cap, Arrivals(cap, stale, now));
            r.start == 2 && r.Older() == Repeat(now, cap - 2) && |r.items| == cap
  {
    AddAllKeepsLatest(cap, Arrivals(cap, stale, now));
    ModUnique(cap + 2, cap, 1, 2);
    assert Arrivals(cap, stale, now)[2..] == Repeat(now, cap - 2) + Repeat(stale, 2);
  }

  lemma ArrivalsCount(cap: nat, stale: int, now: int)
    requires 3 <= cap && stale < now
    ensures Count(Arrivals(cap, stale, now) + [Event(now)], stale) == cap - 1
  {
    CountRepeat(stale, 2, stale);
    CountRepeat(now, cap - 2, stale);
    RecentConcat(Repeat(now, cap - 2), Repeat(stale, 2), stale);
    RecentConcat(Repeat(stale, 2), Repeat(now, cap - 2) + Repeat(stale, 2), stale);
    RecentSnoc(Arrivals(cap, stale, now), Event(now), stale);
  }

  lemma CountPush(items: seq<Sample>, x: Sample, cutoff: int)
    requires |items| > 0 && Count(items, cutoff) == |items| && x.at > cutoff
    ensures Count(items[1..] + [x], cutoff) == |items|
  {
    RecentSnoc(items[1..], x, cutoff);
    CountFrom(items, 0, cutoff);
    assert items[0..] == items;
    RecentBound(items[1..], cutoff);
  }

  /** Why overwriting must be excluded: compaction fills the wrapped window with copies of
      the fresh timestamp, and the next event makes it report cap events although only
      cap - 1 ever happened. */
  lemma FalseAlarm(cap: nat, stale: int, now: int)
    requires 3 <= cap && stale < now
    ensures var arrivals := Arrivals(cap, stale, now);
            && Count(AddAll(cap, arrivals).Evict(stale).Add(Event(now)).items, stale) == cap
            && Count(arrivals + [Event(now)], stale) == cap - 1
  {
    ArrivalsCount(cap, stale, now);
    ArrivalsWrap(cap, stale, now);
    var r := AddAll(cap, Arrivals(cap, stale, now)).Evict(stale);
    CountRepeat(now, cap - 2, stale);
    EvictKeepsOnlyRecent(AddAll(cap, Arrivals(cap, stale, now)), stale);
    CountPush(r.items, Event(now), stale);
  }
}
