/** Recorded events and the ones newer than a cutoff. */
module Samples {

  /** One recorded event: its timestamp and, for requests, whether it was too slow. */
  datatype Sample = Sample(at: int, breached: bool)

  /** An event of which only the timestamp is kept. */
  function Event(at: int): Sample {
    Sample(at, false)
  }

  /** The samples strictly newer than the cutoff, in order. */
  function Recent(s: seq<Sample>, cutoff: int): seq<Sample> {
    if |s| == 0 then []
    else
      var front := Recent(s[..|s| - 1], cutoff);
      if s[|s| - 1].at > cutoff then front + [s[|s| - 1]] else front
  }

  function Count(s: seq<Sample>, cutoff: int): nat {
    |Recent(s, cutoff)|
  }

  function Breaches(s: seq<Sample>): nat {
    if |s| == 0 then 0
    else Breaches(s[..|s| - 1]) + if s[|s| - 1].breached then 1 else 0
  }

  /** How many of the samples newer than the cutoff were breaches. */
  function RecentBreaches(s: seq<Sample>, cutoff: int): nat {
    Breaches(Recent(s, cutoff))
  }

  /** The first n elements of k k k ... */
  function Cyclic(k: seq<Sample>, n: nat): (r: seq<Sample>)
    requires |k| > 0
    ensures |r| == n
  {
    if n <= |k| then k[..n] else k + Cyclic(k, n - |k|)
  }

  function Min(a: nat, b: nat): nat {
    if a <= b then a else b
  }

  lemma RecentSnoc(s: seq<Sample>, x: Sample, cutoff: int)
    ensures Recent(s + [x], cutoff) == Recent(s, cutoff) + if x.at > cutoff then [x] else []
  {
    assert (s + [x])[..|s|] == s;
  }

  lemma {:induction false} RecentConcat(a: seq<Sample>, b: seq<Sample>, cutoff: int)
    ensures Recent(a + b, cutoff) == Recent(a, cutoff) + Recent(b, cutoff)
  {
    if |b| == 0 {
      assert a + b == a;
    } else {
      var front, x := b[..|b| - 1], b[|b| - 1];
      RecentConcat(a, front, cutoff);
      RecentSnoc(a + front, x, cutoff);
      assert a + b == (a + front) + [x];
    }
  }

  lemma CountFrom(s: seq<Sample>, i: nat, cutoff: int)
    requires i < |s|
    ensures Count(s[i..], cutoff) == Count(s[i + 1..], cutoff) + if s[i].at > cutoff then 1 else 0
  {
    assert s[i..] == [s[i]] + s[i + 1..];
    RecentConcat([s[i]], s[i + 1..], cutoff);
  }

  lemma {:induction false} RecentBound(s: seq<Sample>, cutoff: int)
    ensures Count(s, cutoff) <= |s|
    ensures Count(s, cutoff) == |s| ==> Recent(s, cutoff) == s
  {
    if |s| == 0 {
    } else {
      RecentBound(s[..|s| - 1], cutoff);
      assert s == s[..|s| - 1] + [s[|s| - 1]];
    }
  }

  /** Recent keeps nothing else than samples of s newer than the cutoff. */
  lemma {:induction false} RecentElements(s: seq<Sample>, cutoff: int)
    ensures forall i :: 0 <= i < Count(s, cutoff) ==>
              Recent(s, cutoff)[i].at > cutoff && Recent(s, cutoff)[i] in s
  {
    if |s| == 0 {
    } else {
      RecentElements(s[..|s| - 1], cutoff);
      assert s == s[..|s| - 1] + [s[|s| - 1]];
    }
  }

  lemma {:induction false} RecentAll(s: seq<Sample>, cutoff: int)
    requires forall i :: 0 <= i < |s| ==> s[i].at > cutoff
    ensures Recent(s, cutoff) == s && Count(s, cutoff) == |s|
  {
    if |s| == 0 {
    } else {
      RecentAll(s[..|s| - 1], cutoff);
      assert s == s[..|s| - 1] + [s[|s| - 1]];
    }
  }

  lemma {:induction false} RecentNone(s: seq<Sample>, cutoff: int)
    requires forall i :: 0 <= i < |s| ==> s[i].at <= cutoff
    ensures Recent(s, cutoff) == [] && Count(s, cutoff) == 0
  {
    if |s| == 0 {
    } else {
      RecentNone(s[..|s| - 1], cutoff);
    }
  }

  /** An earlier, lower cutoff makes no difference to a later one. */
  lemma {:induction false} RecentTwice(s: seq<Sample>, low: int, high: int)
    requires low <= high
    ensures Recent(Recent(s, low), high) == Recent(s, high)
  {
    if |s| == 0 {
    } else {
      var front, x := s[..|s| - 1], s[|s| - 1];
      RecentTwice(front, low, high);
      RecentSnoc(Recent(front, low), x, high);
    }
  }

  /** Dropping samples first can only lower a count, whatever the two cutoffs. */
  lemma {:induction false} RecentLowersCount(s: seq<Sample>, first: int, second: int)
    ensures Count(Recent(s, first), second) <= Count(s, second)
  {
    if |s| == 0 {
    } else {
      var front, x := s[..|s| - 1], s[|s| - 1];
      RecentLowersCount(front, first, second);
      RecentSnoc(Recent(front, first), x, second);
    }
  }

  lemma {:induction false} BreachesBound(s: seq<Sample>)
    ensures Breaches(s) <= |s|
  {
    if |s| == 0 {
    } else {
      BreachesBound(s[..|s| - 1]);
    }
  }

  lemma {:induction false} BreachesConcat(a: seq<Sample>, b: seq<Sample>)
    ensures Breaches(a + b) == Breaches(a) + Breaches(b)
  {
    if |b| == 0 {
      assert a + b == a;
    } else {
      BreachesConcat(a, b[..|b| - 1]);
      assert (a + b)[..|a + b| - 1] == a + b[..|b| - 1];
    }
  }

  lemma BreachesFrom(s: seq<Sample>, i: nat, cutoff: int)
    requires i < |s|
    ensures RecentBreaches(s[i..], cutoff)
         == RecentBreaches(s[i + 1..], cutoff) + if s[i].at > cutoff && s[i].breached then 1 else 0
  {
    assert s[i..] == [s[i]] + s[i + 1..];
    RecentConcat([s[i]], s[i + 1..], cutoff);
    BreachesConcat(Recent([s[i]], cutoff), Recent(s[i + 1..], cutoff));
  }

  /** The count, as a number of positions. */
  lemma {:induction false} CountIs(s: seq<Sample>, cutoff: int)
    ensures Count(s, cutoff) == |set i | 0 <= i < |s| && s[i].at > cutoff|
  {
    if |s| == 0 {
    } else {
      var n := |s| - 1;
      var front := s[..n];
      var recent := set i | 0 <= i < n && front[i].at > cutoff;
      CountIs(front, cutoff);
      assert (set i | 0 <= i < |s| && s[i].at > cutoff) == if s[n].at > cutoff then recent + {n} else recent;
    }
  }

  lemma {:induction false} RecentBreachesIs(s: seq<Sample>, cutoff: int)
    ensures RecentBreaches(s, cutoff) == |set i | 0 <= i < |s| && s[i].at > cutoff && s[i].breached|
  {
    if |s| == 0 {
    } else {
      var n := |s| - 1;
      var front := s[..n];
      var slow := set i | 0 <= i < n && front[i].at > cutoff && front[i].breached;
      RecentBreachesIs(front, cutoff);
      BreachesSnoc(Recent(front, cutoff), s[n]);
      assert (set i | 0 <= i < |s| && s[i].at > cutoff && s[i].breached)
          == if s[n].at > cutoff && s[n].breached then slow + {n} else slow;
    }
  }

  lemma BreachesSnoc(s: seq<Sample>, x: Sample)
    ensures Breaches(s + [x]) == Breaches(s) + if x.breached then 1 else 0
  {
    assert (s + [x])[..|s|] == s;
  }

  lemma CyclicTail(k: seq<Sample>, n: nat)
    requires |k| > 0
    ensures Cyclic(k, |k| + n) == k + Cyclic(k, n)
  {
    assert k[..|k|] == k;
  }

  /** Past the first copy, element n repeats as element |k| + n. */
  lemma {:induction false} CyclicNext(k: seq<Sample>, n: nat)
    requires |k| > 0
    ensures Cyclic(k, |k| + n + 1) == Cyclic(k, |k| + n) + [Cyclic(k, |k| + n)[n]]
  {
    CyclicTail(k, n);
    CyclicTail(k, n + 1);
    if n < |k| {
      assert Cyclic(k, n + 1) == Cyclic(k, n) + [k[n]];
    } else {
      CyclicNext(k, n - |k|);
      assert Cyclic(k, |k| + n)[n] == Cyclic(k, n)[n - |k|];
    }
  }

  lemma {:induction false} CyclicElements(k: seq<Sample>, n: nat)
    requires |k| > 0
    ensures forall j :: 0 <= j < n ==> Cyclic(k, n)[j] in k
  {
    if n > |k| {
      CyclicElements(k, n - |k|);
    }
  }

  lemma CyclicRecent(s: seq<Sample>, cutoff: int, n: nat)
    requires Count(s, cutoff) > 0
    ensures forall j :: 0 <= j < n ==>
              var x := Cyclic(Recent(s, cutoff), n)[j]; x.at > cutoff && x in s
  {
    CyclicElements(Recent(s, cutoff), n);
    RecentElements(s, cutoff);
  }
}
