/** A window of recorded events: a circular buffer updated in place.

    The program has this code twice, once over bare timestamps and once over timestamps
    with a breach flag. Here the entries always have the flag; windows of bare timestamps
    leave it false. */
module SampleWindows {
  import opened Samples
  import opened Rings

  class SampleWindow {
    const entries: array<Sample>
    var head: nat   // entries written since the last compaction; the next slot is head % length
    var count: nat  // number of valid entries

    ghost var contents: Ring  // what the window holds, oldest first

    ghost predicate Valid()
      reads this, entries
    {
      && 0 < entries.Length
      && count == Min(head, entries.Length)
      && contents == Stored(entries[..], head)
    }

    constructor (capacity: nat)
      requires 0 < capacity
      ensures Valid() && fresh(entries)
      ensures contents == New(capacity)
    {
      entries := new Sample[capacity];
      head, count := 0, 0;
      contents := New(capacity);
    }

    method Add(x: Sample)
      requires Valid()
      modifies this, entries
      ensures Valid() && contents == old(contents).Add(x)
    {
      ghost var slots := entries[..];
      StoredAdd(slots, head, x);
      entries[head % entries.Length] := x;
      assert entries[..] == slots[head % entries.Length := x];
      head := head + 1;
      if count < entries.Length {
        count := count + 1;
      }
      contents := contents.Add(x);
    }

    method CountWithin(d: int, now: int) returns (n: nat)
      requires Valid()
      ensures n == Count(contents.items, now - d)
    {
      var cutoff := now - d;
      ghost var slots := entries[..];
      ghost var items, breaches := Stored(slots, head).items, 0;
      n := 0;
      for i := 0 to count
        invariant Tallied(items, i, cutoff, n, breaches)
      {
        TallyFromNewest(slots, head, i, cutoff, n, breaches);
        var idx := (head - 1 - i + entries.Length) % entries.Length;
        breaches := breaches + if slots[idx].at > cutoff && slots[idx].breached then 1 else 0;
        if entries[idx].at > cutoff {
          n := n + 1;
        }
      }
      assert Newest(items, count) == items;
    }

    method StatsWithin(d: int, now: int) returns (total: nat, breaches: nat)
      requires Valid()
      ensures total == Count(contents.items, now - d)
      ensures breaches == RecentBreaches(contents.items, now - d)
    {
      var cutoff := now - d;
      ghost var slots := entries[..];
      ghost var items := Stored(slots, head).items;
      total, breaches := 0, 0;
      for i := 0 to count
        invariant Tallied(items, i, cutoff, total, breaches)
      {
        TallyFromNewest(slots, head, i, cutoff, total, breaches);
        var idx := (head - 1 - i + entries.Length) % entries.Length;
        var e := entries[idx];
        if e.at > cutoff {
          total := total + 1;
          if e.breached {
            breaches := breaches + 1;
          }
        }
      }
      assert Newest(items, count) == items;
    }

    /** Copying the kept prefix onto the array it is a prefix of. */
    method CopyOntoItself(kept: nat)
      requires kept <= entries.Length
      modifies entries
      ensures entries[..] == old(entries[..])
    {
      forall i | 0 <= i < kept {
        entries[i] := entries[i];
      }
    }

    /** Survivors are written over the front of the very array that is still being read. */
    method Compact(cutoff: int) returns (kept: nat)
      requires Valid()
      modifies entries
      ensures kept <= entries.Length
      ensures (entries[..], kept) == Rings.Compact(old(entries[..]), contents.start, cutoff, count)
    {
      ghost var slots := entries[..];
      kept := 0;
      for i := 0 to count
        invariant kept <= i
        invariant (entries[..], kept) == Rings.Compact(slots, contents.start, cutoff, i)
      {
        ReadSample(slots, head, i);
        var idx := (head - count + i + entries.Length) % entries.Length;
        ghost var before := entries[..];
        if entries[idx].at > cutoff {
          entries[kept] := entries[idx];
          assert entries[..] == before[kept := before[idx]];
          kept := kept + 1;
        }
      }
    }

    /** Compacts in place; the final copy copies the array onto itself. */
    method Evict(olderThan: int, now: int)
      requires Valid()
      modifies this, entries
      ensures Valid() && contents == old(contents).Evict(now - olderThan)
    {
      var cutoff := now - olderThan;
      ghost var slots := entries[..];
      var kept := Compact(cutoff);
      CopyOntoItself(kept);
      CompactIsEvict(slots, head, cutoff);
      count := kept;
      head := count;
      contents := contents.Evict(cutoff);
    }
  }
}
