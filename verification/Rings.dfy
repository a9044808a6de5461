/** What a fixed-capacity circular buffer holds, apart from how it is stored.

    `items` lists the retained samples, oldest first. `start` is the slot of the oldest
    one; it is nonzero only on a full buffer that has wrapped around. The two runs of a
    wrapped buffer, slots start.. and slots ..start, are Older and Newer. */
module Rings {
  import opened Samples

  datatype Ring = Ring(cap: nat, items: seq<Sample>, start: nat) {

    predicate Valid() {
      && 0 < cap
      && |items| <= cap
      && start < cap
      && (|items| < cap ==> start == 0)
    }

    function Older(): seq<Sample>
      requires Valid()
    {
      items[..|items| - start]
    }

    function Newer(): seq<Sample>
      requires Valid()
    {
      items[|items| - start..]
    }

    function Add(x: Sample): (r: Ring)
      requires Valid()
      ensures r.Valid() && r.cap == cap
    {
      if |items| < cap then
        Ring(cap, items + [x], 0)
      else
        Ring(cap, items[1..] + [x], if start + 1 == cap then 0 else start + 1)
    }

    /** True when compaction in place writes over a newer sample before reading it. */
    predicate Clobbers(cutoff: int)
      requires Valid()
    {
      start > 0 && Count(Older(), cutoff) > 0
    }

    /** The exact outcome of compaction in place. */
    function Evict(cutoff: int): (r: Ring)
      requires Valid()
      ensures r.Valid() && r.cap == cap && r.start == 0
    {
      RecentBound(items, cutoff);
      RecentBound(Older(), cutoff);
      var kept := Recent(Older(), cutoff);
      if Clobbers(cutoff) then
        Ring(cap, Cyclic(kept, |kept| + start), 0)
      else
        Ring(cap, Recent(items, cutoff), 0)
    }

    /** What compaction has produced after examining the i oldest samples. */
    function Partial(cutoff: int, i: nat): seq<Sample>
      requires Valid() && i <= |items|
    {
      var kept := Recent(Older(), cutoff);
      if |kept| == 0 || i <= |Older()| then
        Recent(items[..i], cutoff)
      else
        Cyclic(kept, |kept| + i - |Older()|)
    }
  }

  function New(cap: nat): Ring {
    Ring(cap, [], 0)
  }

  // ----- Storage: slots and the number of writes -----

  /** The slot that holds sample i when the oldest one is in slot `start`. */
  function Slot(cap: nat, start: nat, i: nat): nat {
    if start + i < cap then start + i else start + i - cap
  }

  /** The slot of the oldest sample after `writes` writes. */
  function Start(cap: nat, writes: nat): nat
    requires 0 < cap
  {
    if writes < cap then 0 else writes % cap
  }

  /** The ring stored in `slots` by a buffer that has been written `head` times since
      it was last compacted (a compaction that keeps n samples counts as n writes). */
  function Stored(slots: seq<Sample>, head: nat): (r: Ring)
    requires |slots| > 0
    ensures r.Valid() && r.cap == |slots| && |r.items| == Min(head, |slots|)
  {
    var cap, start := |slots|, Start(|slots|, head);
    Ring(cap, seq(Min(head, cap), i requires 0 <= i < Min(head, cap) => slots[Slot(cap, start, i)]), start)
  }

  lemma MultipleIsFar(k: int, c: nat)
    requires k != 0 && 0 < c
    ensures k * c >= c || k * c + c <= 0
  {
    if k > 0 {
      assert (k - 1) * c >= 0;
    } else {
      assert (-k - 1) * c >= 0;
    }
  }

  lemma ModUnique(x: nat, c: nat, q: int, r: nat)
    requires 0 < c && r < c && x == q * c + r
    ensures x % c == r
  {
    var k := q - x / c;
    assert k * c == q * c - (x / c) * c;
    if k != 0 {
      MultipleIsFar(k, c);
    }
  }

  lemma StartStep(cap: nat, writes: nat)
    requires 0 < cap
    ensures var start := Start(cap, writes);
            Start(cap, writes + 1) == if writes < cap || start + 1 == cap then 0 else start + 1
  {
    var q, r := writes / cap, writes % cap;
    assert writes == q * cap + r;
    if writes + 1 == cap {
      ModUnique(cap, cap, 1, 0);
    } else if cap <= writes && r + 1 == cap {
      assert (q + 1) * cap == q * cap + cap;
      ModUnique(writes + 1, cap, q + 1, 0);
    } else if cap <= writes {
      ModUnique(writes + 1, cap, q, r + 1);
    }
  }

  /** The program's index expression names the slot of sample i. */
  lemma IndexIsSlot(cap: nat, head: nat, i: nat)
    requires 0 < cap && i < Min(head, cap)
    ensures (head - Min(head, cap) + i + cap) % cap == Slot(cap, Start(cap, head), i)
  {
    var x := head - Min(head, cap) + i + cap;
    if head < cap {
      assert x == 1 * cap + i;
      ModUnique(x, cap, 1, i);
    } else {
      var q, start := head / cap, head % cap;
      assert head == q * cap + start;
      var r := Slot(cap, start, i);
      if start + i < cap {
        ModUnique(x, cap, q, r);
      } else {
        assert (q + 1) * cap == q * cap + cap;
        ModUnique(x, cap, q + 1, r);
      }
    }
  }

  /** Reading sample i by the program's index expression. */
  lemma ReadSample(slots: seq<Sample>, head: nat, i: nat)
    requires |slots| > 0 && i < Min(head, |slots|)
    ensures var idx := (head - Min(head, |slots|) + i + |slots|) % |slots|;
            && 0 <= idx < |slots|
            && idx == Slot(|slots|, Start(|slots|, head), i)
            && slots[idx] == Stored(slots, head).items[i]
  {
    IndexIsSlot(|slots|, head, i);
  }

  /** The count loop walks the other way, from the newest sample. */
  lemma ReadFromNewest(slots: seq<Sample>, head: nat, i: nat)
    requires |slots| > 0 && i < Min(head, |slots|)
    ensures var idx := (head - 1 - i + |slots|) % |slots|;
            && 0 <= idx < |slots|
            && slots[idx] == Stored(slots, head).items[Min(head, |slots|) - 1 - i]
  {
    ReadSample(slots, head, Min(head, |slots|) - 1 - i);
  }

  /** The n newest samples. */
  function Newest(items: seq<Sample>, n: nat): seq<Sample>
    requires n <= |items|
  {
    items[|items| - n..]
  }

  /** The counts over the n newest samples. */
  ghost predicate Tallied(items: seq<Sample>, n: nat, cutoff: int, total: int, breaches: int) {
    n <= |items| && total == Count(Newest(items, n), cutoff) && breaches == RecentBreaches(Newest(items, n), cutoff)
  }

  /** One more step of a count from the newest sample to the oldest. */
  lemma TallyFromNewest(slots: seq<Sample>, head: nat, i: nat, cutoff: int, total: int, breaches: int)
    requires |slots| > 0 && i < Min(head, |slots|)
    requires Tallied(Stored(slots, head).items, i, cutoff, total, breaches)
    ensures var idx := (head - 1 - i + |slots|) % |slots|;
            && 0 <= idx < |slots|
            && var x := slots[idx];
               Tallied(Stored(slots, head).items, i + 1, cutoff,
                       total + (if x.at > cutoff then 1 else 0),
                       breaches + if x.at > cutoff && x.breached then 1 else 0)
  {
    var items := Stored(slots, head).items;
    ReadFromNewest(slots, head, i);
    CountFrom(items, |items| - i - 1, cutoff);
    BreachesFrom(items, |items| - i - 1, cutoff);
  }

  /** Overwriting slot head % cap appends to the ring. */
  lemma StoredAdd(slots: seq<Sample>, head: nat, x: Sample)
    requires |slots| > 0
    ensures Stored(slots[head % |slots| := x], head + 1) == Stored(slots, head).Add(x)
  {
    var cap := |slots|;
    var before, after := Stored(slots, head), Stored(slots[head % cap := x], head + 1);
    StartStep(cap, head);
    if head < cap {
      ModUnique(head, cap, 0, head);
      forall i | 0 <= i <= head
        ensures after.items[i] == (before.items + [x])[i]
      {
        assert Slot(cap, after.start, i) == i;
      }
    } else {
      forall i | 0 <= i < cap
        ensures after.items[i] == (before.items[1..] + [x])[i]
      {
        if i + 1 < cap {
          assert Slot(cap, after.start, i) == Slot(cap, before.start, i + 1) != before.start;
        } else {
          assert Slot(cap, after.start, i) == before.start;
        }
      }
    }
  }

  /** A compacted buffer holds exactly its first slots. */
  lemma StoredCompact(slots: seq<Sample>, head: nat)
    requires |slots| > 0 && head <= |slots|
    ensures Stored(slots, head) == Ring(|slots|, slots[..head], 0)
  {
    if head == |slots| {
      ModUnique(head, head, 1, 0);
    }
    forall i | 0 <= i < head
      ensures Stored(slots, head).items[i] == slots[i]
    {
      assert Slot(|slots|, 0, i) == i;
    }
  }

  // ----- Compaction in place -----

  /** Compaction iteration by iteration: the array and the number of samples kept after
      the i oldest ones have been examined. It reads and writes the same array. */
  function Compact(slots: seq<Sample>, start: nat, cutoff: int, i: nat): (r: (seq<Sample>, nat))
    requires start < |slots| && i <= |slots|
    ensures |r.0| == |slots| && r.1 <= i
  {
    if i == 0 then (slots, 0)
    else
      var (now, kept) := Compact(slots, start, cutoff, i - 1);
      var read := now[Slot(|slots|, start, i - 1)];
      if read.at > cutoff then (now[kept := read], kept + 1) else (now, kept)
  }

  /** While nothing has been overwritten, compaction is filtering. */
  lemma PartialPlain(r: Ring, cutoff: int, i: nat)
    requires r.Valid() && i <= |r.items|
    requires i <= |r.Older()| || Count(r.Older(), cutoff) == 0
    ensures r.Partial(cutoff, i) == Recent(r.items[..i], cutoff)
    ensures |r.Partial(cutoff, i)| <= if i <= |r.Older()| then i else i - |r.Older()|
  {
    RecentBound(r.items[..i], cutoff);
    if i > |r.Older()| {
      var newer := r.items[|r.Older()|..i];
      assert r.items[..i] == r.Older() + newer;
      RecentConcat(r.Older(), newer, cutoff);
      RecentBound(newer, cutoff);
    }
  }

  lemma PlainStep(r: Ring, cutoff: int, i: nat)
    requires r.Valid() && i < |r.items|
    requires i < |r.Older()| || Count(r.Older(), cutoff) == 0
    ensures |r.Partial(cutoff, i)| <= Slot(r.cap, r.start, i)
    ensures r.Partial(cutoff, i + 1)
         == r.Partial(cutoff, i) + if r.items[i].at > cutoff then [r.items[i]] else []
  {
    PartialPlain(r, cutoff, i);
    PartialPlain(r, cutoff, i + 1);
    assert r.items[..i + 1] == r.items[..i] + [r.items[i]];
    RecentSnoc(r.items[..i], r.items[i], cutoff);
  }

  /** Once an older sample has been kept, slot n of the newer run has been overwritten by
      the time it is read, and what is read there is kept again. */
  lemma PartialClobbered(r: Ring, cutoff: int, i: nat)
    requires r.Valid() && |r.Older()| <= i <= |r.items| && Count(r.Older(), cutoff) > 0
    ensures var kept := Recent(r.Older(), cutoff);
            r.Partial(cutoff, i) == Cyclic(kept, |kept| + i - |r.Older()|)
  {
    if i == |r.Older()| {
      var kept := Recent(r.Older(), cutoff);
      assert kept[..|kept|] == kept;
      assert r.items[..i] == r.Older();
    }
  }

  lemma ClobberedStep(r: Ring, cutoff: int, i: nat)
    requires r.Valid() && |r.Older()| <= i < |r.items| && Count(r.Older(), cutoff) > 0
    ensures var out, slot := r.Partial(cutoff, i), Slot(r.cap, r.start, i);
            slot < |out| < r.cap && out[slot].at > cutoff && r.Partial(cutoff, i + 1) == out + [out[slot]]
  {
    var kept, n := Recent(r.Older(), cutoff), i - |r.Older()|;
    RecentBound(r.Older(), cutoff);
    PartialClobbered(r, cutoff, i);
    PartialClobbered(r, cutoff, i + 1);
    CyclicNext(kept, n);
    CyclicRecent(r.Older(), cutoff, |kept| + n);
    assert Slot(r.cap, r.start, i) == n;
  }

  /** Examining sample i: the slot read still holds the sample unless compaction has
      already written over it. */
  lemma PartialStep(r: Ring, cutoff: int, i: nat)
    requires r.Valid() && i < |r.items|
    ensures var out, slot := r.Partial(cutoff, i), Slot(r.cap, r.start, i);
            var read := if slot < |out| then out[slot] else r.items[i];
            && |out| < r.cap
            && r.Partial(cutoff, i + 1) == if read.at > cutoff then out + [read] else out
  {
    if i < |r.Older()| || Count(r.Older(), cutoff) == 0 {
      PlainStep(r, cutoff, i);
    } else {
      ClobberedStep(r, cutoff, i);
    }
  }

  lemma PartialDone(r: Ring, cutoff: int)
    requires r.Valid()
    ensures r.Partial(cutoff, |r.items|) == r.Evict(cutoff).items
  {
    assert r.items[..|r.items|] == r.items;
    if r.start == 0 {
      assert r.Older() == r.items;
    }
  }

  /** One iteration, on an array whose first `kept` slots hold what has been produced and
      whose other slots are as they were. */
  lemma CompactStep(r: Ring, was: seq<Sample>, now: seq<Sample>, kept: nat, cutoff: int, i: nat)
    requires r.Valid() && |was| == |now| == r.cap && kept <= r.cap && i < |r.items|
    requires var slot := Slot(r.cap, r.start, i); slot < r.cap && was[slot] == r.items[i]
    requires now[..kept] == r.Partial(cutoff, i) && now[kept..] == was[kept..]
    ensures kept < r.cap
    ensures var read := now[Slot(r.cap, r.start, i)];
            if read.at > cutoff then
              && now[kept := read][..kept + 1] == r.Partial(cutoff, i + 1)
              && now[kept := read][kept + 1..] == was[kept + 1..]
            else
              now[..kept] == r.Partial(cutoff, i + 1)
  {
    PartialStep(r, cutoff, i);
    var slot := Slot(r.cap, r.start, i);
    var read := now[slot];
    assert read == if slot < kept then now[..kept][slot] else now[kept..][slot - kept];
    assert now[kept := read][..kept + 1] == now[..kept] + [read];
    assert now[kept := read][kept + 1..] == now[kept..][1..];
    assert was[kept + 1..] == was[kept..][1..];
  }

  lemma {:induction false} CompactIsPartial(r: Ring, slots: seq<Sample>, cutoff: int, i: nat)
    requires r.Valid() && |slots| == r.cap && i <= |r.items|
    requires forall j :: 0 <= j < |r.items| ==> slots[Slot(r.cap, r.start, j)] == r.items[j]
    ensures var (now, kept) := Compact(slots, r.start, cutoff, i);
            now[..kept] == r.Partial(cutoff, i) && now[kept..] == slots[kept..]
  {
    if i == 0 {
      assert slots[..0] == r.Partial(cutoff, 0);
    } else {
      var (now, kept) := Compact(slots, r.start, cutoff, i - 1);
      var (now', kept') := Compact(slots, r.start, cutoff, i);
      CompactIsPartial(r, slots, cutoff, i - 1);
      assert slots[Slot(r.cap, r.start, i - 1)] == r.items[i - 1];
      CompactStep(r, slots, now, kept, cutoff, i - 1);
      var read := now[Slot(r.cap, r.start, i - 1)];
      assert (now', kept') == if read.at > cutoff then (now[kept := read], kept + 1) else (now, kept);
    }
  }

  /** The whole loop leaves the ring that Evict describes. */
  lemma CompactIsEvict(slots: seq<Sample>, head: nat, cutoff: int)
    requires |slots| > 0
    ensures var (now, kept) := Compact(slots, Start(|slots|, head), cutoff, Min(head, |slots|));
            kept <= |slots| && Stored(now, kept) == Stored(slots, head).Evict(cutoff)
  {
    var r := Stored(slots, head);
    CompactIsPartial(r, slots, cutoff, |r.items|);
    PartialDone(r, cutoff);
    var (now, kept) := Compact(slots, r.start, cutoff, |r.items|);
    StoredCompact(now, kept);
  }
}
