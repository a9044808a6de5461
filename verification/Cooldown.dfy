/** The cooldown map: at most one admitted anomaly per key and cooldown period. Every
    access is a critical section under one mutex, so a run is a sequence of sections. */
module Cooldown {
  import opened Arithmetic

  /** A critical section with its clock readings: the check-and-set made for an anomaly,
      or the eviction loop examining one entry. */
  datatype Section<K> =
    | Fired(key: K, read: int, write: int)
    | Examined(key: K, read: int)
  {
    function Last(): int {
      if Fired? then write else read
    }
  }

  /** The key fired too recently. */
  predicate Suppresses<K>(cds: map<K, int>, dur: int, key: K, read: int) {
    key in cds && read - cds[key] < dur
  }

  predicate Stale<K>(cds: map<K, int>, dur: int, key: K, read: int) {
    key in cds && read - cds[key] > dur * 2
  }

  function Enter<K>(cds: map<K, int>, dur: int, section: Section<K>): map<K, int> {
    match section
    case Fired(key, read, write) => if Suppresses(cds, dur, key, read) then cds else cds[key := write]
    case Examined(key, read) => if Stale(cds, dur, key, read) then cds - {key} else cds
  }

  function EnterAll<K>(cds: map<K, int>, dur: int, sections: seq<Section<K>>): map<K, int> {
    if |sections| == 0 then cds
    else Enter(EnterAll(cds, dur, sections[..|sections| - 1]), dur, sections[|sections| - 1])
  }

  /** Section i admits its anomaly. */
  ghost predicate Admits<K>(dur: int, sections: seq<Section<K>>, i: nat)
    requires i < |sections|
  {
    var s := sections[i];
    s.Fired? && !Suppresses(EnterAll(map[], dur, sections[..i]), dur, s.key, s.read)
  }

  // ----- The map as the engine keeps it -----

  class CooldownMap<K(==)> {
    var cooldowns: map<K, int>
    const dur: int

    constructor (dur: int)
      ensures cooldowns == map[] && this.dur == dur
    {
      cooldowns := map[];
      this.dur := dur;
    }

    method CheckAndSet(key: K, read: int, write: int) returns (suppress: bool)
      modifies this
      ensures suppress == Suppresses(old(cooldowns), dur, key, read)
      ensures cooldowns == Enter(old(cooldowns), dur, Fired(key, read, write))
    {
      suppress := key in cooldowns && read - cooldowns[key] < dur;
      if !suppress {
        cooldowns := cooldowns[key := write];
      }
    }

    /** The eviction loop's pass over the map. The order of traversal and the clock
        readings are given by `visits`. */
    method EvictStale(visits: seq<Section<K>>)
      requires forall i :: 0 <= i < |visits| ==> visits[i].Examined? && visits[i].key in cooldowns
      requires forall i, j :: 0 <= i < j < |visits| ==> visits[i].key != visits[j].key
      modifies this
      ensures cooldowns == EnterAll(old(cooldowns), dur, visits)
    {
      for i := 0 to |visits|
        invariant cooldowns == EnterAll(old(cooldowns), dur, visits[..i])
        invariant forall j :: i <= j < |visits| ==> visits[j].key in cooldowns
      {
        var key, read := visits[i].key, visits[i].read;
        assert visits[..i + 1][..i] == visits[..i];
        if read - cooldowns[key] > dur * 2 {
          cooldowns := cooldowns - {key};
        }
      }
      assert visits[..|visits|] == visits;
    }
  }

  /** A pass over the whole map leaves no entry older than twice the cooldown, and deletes
      no other. */
  lemma {:induction false} EvictionBounds<K>(cds: map<K, int>, dur: int, visits: seq<Section<K>>)
    requires forall i :: 0 <= i < |visits| ==> visits[i].Examined?
    requires forall i, j :: 0 <= i < j < |visits| ==> visits[i].key != visits[j].key
    ensures var left := EnterAll(cds, dur, visits);
            && (forall i :: 0 <= i < |visits| && visits[i].key in cds ==>
                  (visits[i].key in left <==> visits[i].read - cds[visits[i].key] <= dur * 2))
            && (forall k :: k in left ==> k in cds && left[k] == cds[k])
            && (forall k :: k in cds && k !in left ==> exists i :: 0 <= i < |visits| && visits[i].key == k)
  {
    if |visits| == 0 {
    } else {
      var n := |visits| - 1;
      EvictionBounds(cds, dur, visits[..n]);
      forall k | k in cds && k !in EnterAll(cds, dur, visits)
        ensures exists i :: 0 <= i < |visits| && visits[i].key == k
      {
        if k in EnterAll(cds, dur, visits[..n]) {
          assert visits[n].key == k;
        } else {
          var i :| 0 <= i < n && visits[..n][i].key == k;
          assert visits[i].key == k;
        }
      }
      assert forall i :: 0 <= i < n ==> visits[..n][i].key != visits[n].key;
    }
  }

  // ----- Spacing -----

  /** The sections follow each other in time. */
  ghost predicate ClockRuns<K>(sections: seq<Section<K>>) {
    && (forall i :: 0 <= i < |sections| ==> sections[i].read <= sections[i].Last())
    && (forall i, j :: 0 <= i < j < |sections| ==> sections[i].Last() <= sections[j].read)
  }

  lemma ClockPrefix<K>(sections: seq<Section<K>>, n: nat)
    requires n <= |sections| && ClockRuns(sections)
    ensures ClockRuns(sections[..n])
  {
  }

  /** After an admission the map remembers a time at least as late, or so much time has
      passed that the entry has been dropped as stale. */
  lemma {:induction false} AdmissionRemembered<K>(dur: int, sections: seq<Section<K>>, i: nat)
    requires ClockRuns(sections) && i < |sections| && Admits(dur, sections, i)
    ensures var cds, at := EnterAll(map[], dur, sections), sections[i].write;
            if sections[i].key in cds then
              cds[sections[i].key] >= at
            else
              sections[|sections| - 1].Last() - at > dur * 2
  {
    var n := |sections| - 1;
    var front := sections[..n];
    if i < n {
      ClockPrefix(sections, n);
      assert front[..i] == sections[..i];
      AdmissionRemembered(dur, front, i);
    }
  }

  /** Two admissions of the same key are recorded at least one cooldown apart, whatever
      else enters the map and whatever is evicted in between. */
  lemma Spacing<K>(dur: int, sections: seq<Section<K>>, i: nat, j: nat)
    requires ClockRuns(sections) && i < j < |sections|
    requires Admits(dur, sections, i) && Admits(dur, sections, j)
    requires sections[i].key == sections[j].key
    ensures sections[j].write - sections[i].write >= dur
  {
    var before := sections[..j];
    ClockPrefix(sections, j);
    assert before[..i] == sections[..i];
    AdmissionRemembered(dur, before, i);
    assert sections[j - 1].Last() <= sections[j].read;
  }

  /** What the map remembers was written by an admission of that key. */
  lemma {:induction false} RememberedWasAdmitted<K>(dur: int, sections: seq<Section<K>>, key: K) returns (j: nat)
    requires key in EnterAll(map[], dur, sections)
    ensures j < |sections| && sections[j].key == key && Admits(dur, sections, j)
    ensures EnterAll(map[], dur, sections)[key] == sections[j].write
  {
    var n := |sections| - 1;
    var front, s := sections[..n], sections[n];
    if s.Fired? && s.key == key && !Suppresses(EnterAll(map[], dur, front), dur, key, s.read) {
      j := n;
    } else {
      j := RememberedWasAdmitted(dur, front, key);
      assert front[..j] == sections[..j];
    }
  }

  /** No admission of the same key lies less than one cooldown back. */
  ghost predicate Rested<K>(dur: int, sections: seq<Section<K>>, i: nat)
    requires i < |sections|
  {
    forall j :: 0 <= j < i && sections[j].key == sections[i].key && Admits(dur, sections, j) ==>
      sections[i].read - sections[j].write >= dur
  }

  /** Exactly which anomalies are admitted, whatever was evicted: those whose key was not
      admitted within the cooldown. */
  lemma AdmitsIff<K>(dur: int, sections: seq<Section<K>>, i: nat)
    requires ClockRuns(sections) && i < |sections|
    ensures Admits(dur, sections, i) <==> sections[i].Fired? && Rested(dur, sections, i)
  {
    var before, s := sections[..i], sections[i];
    if s.Fired? && Suppresses(EnterAll(map[], dur, before), dur, s.key, s.read) {
      var j := RememberedWasAdmitted(dur, before, s.key);
      assert before[..j] == sections[..j];
      assert !Rested(dur, sections, i);
    } else if s.Fired? {
      forall j | 0 <= j < i && sections[j].key == s.key && Admits(dur, sections, j)
        ensures s.read - sections[j].write >= dur
      {
        ClockPrefix(sections, i);
        assert before[..j] == sections[..j];
        AdmissionRemembered(dur, before, j);
        assert sections[i - 1].Last() <= s.read;
      }
    }
  }

  /** Admissions of one key, in order. */
  ghost predicate AdmissionsOf<K>(dur: int, sections: seq<Section<K>>, key: K, at: seq<nat>) {
    && (forall i :: 0 <= i < |at| ==> at[i] < |sections| && Admits(dur, sections, at[i]) && sections[at[i]].key == key)
    && (forall i, j :: 0 <= i < j < |at| ==> at[i] < at[j])
  }

  lemma {:induction false} SpacingAdds<K>(dur: int, sections: seq<Section<K>>, key: K, at: seq<nat>)
    requires ClockRuns(sections) && AdmissionsOf(dur, sections, key, at) && |at| > 0
    ensures sections[at[|at| - 1]].write - sections[at[0]].write >= (|at| - 1) * dur
  {
    var n := |at| - 1;
    if n > 0 {
      SpacingAdds(dur, sections, key, at[..n]);
      Spacing(dur, sections, at[n - 1], at[n]);
      MulSuccessor(n, dur);
    }
  }

  /** An interval of length L holds at most L / dur + 1 admissions of one key. */
  lemma RateLimit<K>(dur: int, sections: seq<Section<K>>, key: K, at: seq<nat>, length: nat)
    requires 0 < dur && ClockRuns(sections) && AdmissionsOf(dur, sections, key, at)
    requires |at| > 0 ==> sections[at[|at| - 1]].write - sections[at[0]].write <= length
    ensures |at| <= length / dur + 1
  {
    if |at| > 0 {
      SpacingAdds(dur, sections, key, at);
      DivBound(|at| - 1, dur, length);
    }
  }

  // ----- Evicting stale entries is unobservable -----

  /** The same sections on a map from which nothing is ever evicted. */
  function KeepAll<K>(dur: int, sections: seq<Section<K>>): map<K, int> {
    if |sections| == 0 then map[]
    else
      var front, s := KeepAll(dur, sections[..|sections| - 1]), sections[|sections| - 1];
      if s.Fired? then Enter(front, dur, s) else front
  }

  ghost predicate AdmitsKeeping<K>(dur: int, sections: seq<Section<K>>, i: nat)
    requires i < |sections|
  {
    var s := sections[i];
    s.Fired? && !Suppresses(KeepAll(dur, sections[..i]), dur, s.key, s.read)
  }

  /** The two maps agree, except on entries old enough not to suppress anything. */
  ghost predicate Agree<K>(cds: map<K, int>, kept: map<K, int>, dur: int, now: int) {
    && (forall k :: k in cds ==> k in kept && cds[k] == kept[k])
    && (forall k :: k in kept ==> kept[k] <= now)
    && (forall k :: k in kept && k !in cds ==> now - kept[k] > dur * 2)
  }

  lemma AgreeDecides<K>(cds: map<K, int>, kept: map<K, int>, dur: int, now: int, key: K, read: int)
    requires Agree(cds, kept, dur, now) && now <= read
    ensures Suppresses(cds, dur, key, read) <==> Suppresses(kept, dur, key, read)
  {
  }

  lemma {:induction false} MapsAgree<K>(dur: int, sections: seq<Section<K>>)
    requires ClockRuns(sections)
    ensures |sections| == 0 ==> EnterAll(map[], dur, sections) == KeepAll(dur, sections) == map[]
    ensures |sections| > 0 ==>
              Agree(EnterAll(map[], dur, sections), KeepAll(dur, sections), dur, sections[|sections| - 1].Last())
  {
    if |sections| == 0 {
    } else {
      var n := |sections| - 1;
      var front, s := sections[..n], sections[n];
      ClockPrefix(sections, n);
      MapsAgree(dur, front);
      var cds, kept := EnterAll(map[], dur, front), KeepAll(dur, front);
      var now := if n == 0 then s.read else sections[n - 1].Last();
      assert Agree(cds, kept, dur, now);
      AgreeDecides(cds, kept, dur, now, s.key, s.read);
    }
  }

  /** An engine that evicts stale entries admits exactly what one that never evicts
      admits: on every run, for every cooldown, even a negative one. */
  lemma EvictionIsUnobservable<K>(dur: int, sections: seq<Section<K>>, i: nat)
    requires ClockRuns(sections) && i < |sections|
    ensures Admits(dur, sections, i) <==> AdmitsKeeping(dur, sections, i)
  {
    var before, s := sections[..i], sections[i];
    ClockPrefix(sections, i);
    MapsAgree(dur, before);
    if i > 0 && s.Fired? {
      AgreeDecides(EnterAll(map[], dur, before), KeepAll(dur, before), dur, before[i - 1].Last(), s.key, s.read);
    }
  }
}
