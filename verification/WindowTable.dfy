/** The map of windows that a windowed rule keeps, as heap objects. */
module WindowTables {
  import opened Samples
  import opened Rings
  import opened KeyedWindows
  import opened SampleWindows

  /** The capacity that every rule gives its windows. */
  const CAPACITY := 10000

  class WindowTable<K(==)> {
    var windows: map<K, SampleWindow>
    const capacity: nat
    ghost var contents: Windows<K>  // what the windows hold

    ghost var Repr: set<object>

    /** Every key has a window of its own, sharing no storage with any other. */
    ghost predicate Valid()
      reads this, Repr
    {
      && this in Repr
      && 0 < capacity
      && contents.Keys == windows.Keys
      && (forall k :: k in windows ==>
            && windows[k] in Repr
            && windows[k].entries in Repr
            && windows[k].Valid()
            && windows[k].entries.Length == capacity
            && contents[k] == windows[k].contents)
      && (forall j, k :: j in windows && k in windows && j != k ==>
            windows[j] != windows[k] && windows[j].entries != windows[k].entries)
    }

    lemma ContentsValid()
      requires Valid()
      ensures AllValid(contents, capacity)
    {
    }

    constructor (capacity: nat)
      requires 0 < capacity
      ensures Valid() && fresh(Repr) && windows == map[] && this.capacity == capacity && contents == map[]
    {
      windows, contents := map[], map[];
      this.capacity := capacity;
      Repr := {this};
    }

    /** The window of a key, created when absent. */
    method Window(key: K) returns (w: SampleWindow)
      requires Valid()
      modifies this
      ensures Valid() && key in windows && windows[key] == w
      ensures fresh(Repr - old(Repr))
      ensures contents == old(contents)[key := if key in old(contents) then old(contents)[key] else New(capacity)]
    {
      if key in windows {
        w := windows[key];
        assert contents == contents[key := contents[key]];
      } else {
        w := new SampleWindow(capacity);
        windows := windows[key := w];
        Repr := Repr + {w, w.entries};
        contents := contents[key := New(capacity)];
      }
    }

    method AddTo(key: K, x: Sample)
      requires Valid() && key in windows
      modifies `contents, windows[key], windows[key].entries
      ensures Valid() && contents[key].Valid()
      ensures old(contents[key].Valid()) && contents == old(contents)[key := old(contents[key]).Add(x)]
    {
      windows[key].Add(x);
      contents := contents[key := windows[key].contents];
    }

    method Compact(key: K, d: int, evictAt: int)
      requires Valid() && key in windows
      modifies `contents, windows[key], windows[key].entries
      ensures Valid() && contents[key].Valid()
      ensures old(contents[key].Valid()) && contents == old(contents)[key := old(contents[key]).Evict(evictAt - d)]
    {
      windows[key].Evict(d, evictAt);
      contents := contents[key := windows[key].contents];
    }

    /** Whether Reset deletes a window it has just compacted. */
    method Discarded(key: K, policy: Policy, d: int, countAt: int) returns (drop: bool)
      requires Valid() && key in windows
      ensures drop == Discards(policy, contents[key], countAt - d)
    {
      match policy
      case KeepAll =>
        drop := false;
      case DropEmpty =>
        drop := windows[key].count == 0;
      case DropUncounted =>
        var n := windows[key].CountWithin(d, countAt);
        drop := n == 0;
    }

    method Delete(key: K)
      requires Valid() && key in windows
      modifies this
      ensures Valid() && Repr == old(Repr) && windows == old(windows) - {key} && contents == old(contents) - {key}
    {
      windows := windows - {key};
      contents := contents - {key};
    }

    /** Records one sample under a key and hands out that key's window. */
    method Record(key: K, x: Sample) returns (w: SampleWindow)
      requires Valid()
      modifies Repr
      ensures Valid() && key in windows && windows[key] == w
      ensures fresh(Repr - old(Repr))
      ensures AllValid(old(contents), capacity)
      ensures contents == KeyedWindows.Record(old(contents), capacity, key, x)
    {
      ContentsValid();
      ghost var was := contents;
      w := Window(key);
      RecordInSteps(was, contents, capacity, key, x);
      AddTo(key, x);
    }

    /** Reset's visit to one key: compact, then perhaps delete. */
    method Visit(key: K, policy: Policy, d: int, evictAt: int, countAt: int)
      requires Valid() && key in windows
      modifies Repr
      ensures Valid() && Repr == old(Repr)
      ensures windows == old(windows) || windows == old(windows) - {key}
      ensures AllValid(old(contents), capacity)
      ensures contents == VisitKey(old(contents), capacity, policy, d, key, evictAt, countAt)
    {
      ContentsValid();
      ghost var was := contents;
      Compact(key, d, evictAt);
      VisitInSteps(was, capacity, policy, d, key, evictAt, countAt);
      var drop := Discarded(key, policy, d, countAt);
      if drop {
        Delete(key);
      }
    }

    /** Reset: visits every window once. The order in which the map is traversed and the
        clock readings are given by `visits`. */
    method Reset(policy: Policy, d: int, visits: seq<Call<K>>)
      requires Valid() && VisitsAll(visits, windows.Keys)
      modifies Repr
      ensures Valid()
      ensures Repr == old(Repr)
      ensures AllValid(old(contents), capacity)
      ensures contents == PerformAll(old(contents), policy, capacity, d, visits)
    {
      ContentsValid();
      ghost var was := contents;
      for i := 0 to |visits|
        invariant Valid()
        invariant Repr == old(Repr)
        invariant forall j :: i <= j < |visits| ==> visits[j].key in windows
        invariant contents == PerformAll(was, policy, capacity, d, visits[..i])
      {
        var v := visits[i];
        PerformAllStep(was, policy, capacity, d, visits, i);
        Visit(v.key, policy, d, v.evictAt, v.countAt);
      }
      assert visits[..|visits|] == visits;
    }
  }
}
