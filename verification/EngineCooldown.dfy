/** Cooldown guarantees over every interleaving of the engine. */
module EngineCooldown {
  import opened Domain
  import opened Engine
  import C = Cooldown

  /** The cooldown map is the outcome of the critical sections so far, which follow each
      other in time, and the admitted anomalies are those that these sections admit. */
  ghost predicate Sectioned(setup: Setup, st: State) {
    && st.cooldowns == C.EnterAll(map[], setup.cooldown, st.sections)
    && C.ClockRuns(st.sections)
    && (|st.sections| > 0 ==> st.sections[|st.sections| - 1].Last() <= st.clock)
  }

  ghost predicate Located(setup: Setup, st: State) {
    && |st.admittedAt| == |st.admitted|
    && (forall i, j :: 0 <= i < j < |st.admittedAt| ==> st.admittedAt[i] < st.admittedAt[j])
    && (forall i :: 0 <= i < |st.admittedAt| ==>
          var n := st.admittedAt[i];
          && n < |st.sections|
          && C.Admits(setup.cooldown, st.sections, n)
          && st.sections[n].key == KeyOf(st.admitted[i]))
    && (forall n :: 0 <= n < |st.sections| && C.Admits(setup.cooldown, st.sections, n) ==> n in st.admittedAt)
  }

  lemma AdmitsPrefix<K>(dur: int, sections: seq<C.Section<K>>, more: C.Section<K>, i: nat)
    requires i < |sections|
    ensures C.Admits(dur, sections + [more], i) <==> C.Admits(dur, sections, i)
  {
    assert (sections + [more])[..i] == sections[..i];
  }

  lemma ClockSnoc<K>(sections: seq<C.Section<K>>, more: C.Section<K>, clock: int)
    requires C.ClockRuns(sections) && clock <= more.read <= more.Last()
    requires |sections| > 0 ==> sections[|sections| - 1].Last() <= clock
    ensures C.ClockRuns(sections + [more])
  {
    forall i | 0 <= i < |sections|
      ensures sections[i].Last() <= more.read
    {
      if i < |sections| - 1 {
        assert sections[i].Last() <= sections[|sections| - 1].read;
      }
    }
  }

  lemma EnterSnoc<K>(dur: int, sections: seq<C.Section<K>>, more: C.Section<K>)
    ensures C.EnterAll(map[], dur, sections + [more]) == C.Enter(C.EnterAll(map[], dur, sections), dur, more)
  {
    assert (sections + [more])[..|sections|] == sections;
  }

  lemma SectionedCheck(setup: Setup, st: State, t: nat, read: int, write: int)
    requires Ready(setup, st) && Enabled(setup, st, Check(t, read, write)) && Sectioned(setup, st)
    ensures Sectioned(setup, CheckCooldown(setup, st, t, read, write))
  {
    var section := C.Fired(KeyOf(st.threads[t].a), read, write);
    ClockSnoc(st.sections, section, st.clock);
    EnterSnoc(setup.cooldown, st.sections, section);
  }

  lemma SectionedExpire(setup: Setup, st: State, key: Key, read: int)
    requires Ready(setup, st) && Enabled(setup, st, Expire(key, read)) && Sectioned(setup, st)
    ensures Sectioned(setup, Next(setup, st, Expire(key, read)))
  {
    var section := C.Examined(key, read);
    ClockSnoc(st.sections, section, st.clock);
    EnterSnoc(setup.cooldown, st.sections, section);
  }

  lemma CallsKeepSections(setup: Setup, st: State, step: Step)
    requires Ready(setup, st) && Enabled(setup, st, step) && step.Call?
    ensures var st' := Next(setup, st, step);
            && st.clock <= st'.clock
            && st'.cooldowns == st.cooldowns && st'.sections == st.sections
            && st'.admitted == st.admitted && st'.admittedAt == st.admittedAt
  {
  }

  /** Only the two critical sections touch the map; the clock never goes back. */
  lemma OtherSteps(setup: Setup, st: State, step: Step)
    requires Ready(setup, st) && Enabled(setup, st, step)
    ensures var st' := Next(setup, st, step);
            && st.clock <= st'.clock
            && (!step.Check? && !step.Expire? ==>
                  st'.cooldowns == st.cooldowns && st'.sections == st.sections)
            && (!step.Check? ==> st'.admitted == st.admitted && st'.admittedAt == st.admittedAt)
  {
    if step.Call? {
      CallsKeepSections(setup, st, step);
    }
  }

  lemma SectionedNext(setup: Setup, st: State, step: Step)
    requires Ready(setup, st) && Enabled(setup, st, step) && Sectioned(setup, st)
    ensures Sectioned(setup, Next(setup, st, step))
  {
    OtherSteps(setup, st, step);
    if step.Check? {
      SectionedCheck(setup, st, step.t, step.read, step.write);
    } else if step.Expire? {
      SectionedExpire(setup, st, step.alert, step.read);
    }
  }

  lemma LocatedCheck(setup: Setup, st: State, t: nat, read: int, write: int)
    requires Ready(setup, st) && Enabled(setup, st, Check(t, read, write))
    requires Sectioned(setup, st) && Located(setup, st)
    ensures Located(setup, CheckCooldown(setup, st, t, read, write))
  {
    var st' := CheckCooldown(setup, st, t, read, write);
    var n := |st.sections|;
    assert st'.sections[..n] == st.sections;
    forall i | 0 <= i < n
      ensures C.Admits(setup.cooldown, st'.sections, i) <==> C.Admits(setup.cooldown, st.sections, i)
    {
      AdmitsPrefix(setup.cooldown, st.sections, st'.sections[n], i);
    }
  }

  lemma LocatedNext(setup: Setup, st: State, step: Step)
    requires Ready(setup, st) && Enabled(setup, st, step)
    requires Sectioned(setup, st) && Located(setup, st)
    ensures Located(setup, Next(setup, st, step))
  {
    OtherSteps(setup, st, step);
    if step.Check? {
      LocatedCheck(setup, st, step.t, step.read, step.write);
    } else if step.Expire? {
      var section := C.Examined(step.alert, step.read);
      forall i | 0 <= i < |st.sections|
        ensures C.Admits(setup.cooldown, st.sections + [section], i) <==> C.Admits(setup.cooldown, st.sections, i)
      {
        AdmitsPrefix(setup.cooldown, st.sections, section, i);
      }
    }
  }

  lemma {:induction false} SectionsOfRun(setup: Setup, start: int, steps: seq<Step>)
    requires IsRun(setup, start, steps)
    ensures var st := Reached(setup, start, steps);
            Sectioned(setup, st) && Located(setup, st)
  {
    if |steps| == 0 {
    } else {
      var front, step := steps[..|steps| - 1], steps[|steps| - 1];
      SectionsOfRun(setup, start, front);
      SectionedNext(setup, Reached(setup, start, front), step);
      LocatedNext(setup, Reached(setup, start, front), step);
    }
  }

  /** The time recorded for admission i. */
  ghost function AdmittedTime(st: State, i: nat): int
    requires i < |st.admittedAt| && st.admittedAt[i] < |st.sections|
  {
    st.sections[st.admittedAt[i]].Last()
  }

  /** Two anomalies of the same rule and the same service. */
  predicate SameAlert(a: Anomaly, b: Anomaly) {
    a.ruleID == b.ruleID && a.service == b.service
  }

  lemma KeysAreAlerts(a: Anomaly, b: Anomaly)
    ensures KeyOf(a) == KeyOf(b) <==> SameAlert(a, b)
  {
  }

  /** In every interleaving, two admitted anomalies of the same rule and service are
      recorded at least one cooldown apart. */
  lemma AdmissionsAreSpaced(setup: Setup, start: int, steps: seq<Step>, i: nat, j: nat)
    requires IsRun(setup, start, steps)
    requires var st := Reached(setup, start, steps);
             i < j < |st.admitted| && SameAlert(st.admitted[i], st.admitted[j])
    ensures var st := Reached(setup, start, steps);
            && Located(setup, st)
            && AdmittedTime(st, j) - AdmittedTime(st, i) >= setup.cooldown
  {
    var st := Reached(setup, start, steps);
    SectionsOfRun(setup, start, steps);
    KeysAreAlerts(st.admitted[i], st.admitted[j]);
    C.Spacing(setup.cooldown, st.sections, st.admittedAt[i], st.admittedAt[j]);
  }

  /** Every anomaly of the same rule and service admitted so far is at least one cooldown old. */
  ghost predicate NoneWithin(setup: Setup, st: State, a: Anomaly, read: int)
    requires Located(setup, st)
  {
    forall i :: 0 <= i < |st.admitted| && SameAlert(st.admitted[i], a) ==>
      read - AdmittedTime(st, i) >= setup.cooldown
  }

  lemma RestedIffNoneWithin(setup: Setup, st: State, a: Anomaly, read: int, write: int)
    requires Located(setup, st)
    ensures C.Rested(setup.cooldown, st.sections + [C.Fired(KeyOf(a), read, write)], |st.sections|)
       <==> NoneWithin(setup, st, a, read)
  {
    var key := KeyOf(a);
    forall i | 0 <= i < |st.admitted|
      ensures KeyOf(st.admitted[i]) == key <==> SameAlert(st.admitted[i], a)
    {
      KeysAreAlerts(st.admitted[i], a);
    }
    var section := C.Fired(key, read, write);
    var all, n := st.sections + [section], |st.sections|;
    forall j | 0 <= j < n
      ensures C.Admits(setup.cooldown, all, j) <==> C.Admits(setup.cooldown, st.sections, j)
    {
      AdmitsPrefix(setup.cooldown, st.sections, section, j);
    }
    if C.Rested(setup.cooldown, all, n) {
      forall i | 0 <= i < |st.admitted| && SameAlert(st.admitted[i], a)
        ensures read - AdmittedTime(st, i) >= setup.cooldown
      {
        assert C.Admits(setup.cooldown, all, st.admittedAt[i]);
      }
    }
  }

  lemma CheckAdmits(setup: Setup, st: State, t: nat, read: int, write: int)
    requires Enabled(setup, st, Check(t, read, write)) && Sectioned(setup, st)
    ensures var sections := st.sections + [C.Fired(KeyOf(st.threads[t].a), read, write)];
            && C.ClockRuns(sections)
            && (CheckCooldown(setup, st, t, read, write).threads[t].Tallying?
                <==> C.Admits(setup.cooldown, sections, |st.sections|))
  {
    var section := C.Fired(KeyOf(st.threads[t].a), read, write);
    ClockSnoc(st.sections, section, st.clock);
    assert (st.sections + [section])[..|st.sections|] == st.sections;
  }

  /** The outcome of a cooldown check: the anomaly is admitted and its time recorded, or the
      goroutine goes on with its task. */
  ghost predicate Admitted(st: State, st': State, a: Anomaly, task: Task, t: nat, write: int) {
    && t < |st'.threads| && st'.threads[t] == Tallying(a, task)
    && st'.admitted == st.admitted + [a]
    && |st.admitted| < |st'.admittedAt| && st'.admittedAt[|st.admitted|] < |st'.sections|
    && AdmittedTime(st', |st.admitted|) == write
  }

  ghost predicate Suppressed(st: State, st': State, task: Task, t: nat) {
    t < |st'.threads| && st'.threads[t] == Running(task) && st'.admitted == st.admitted
  }

  lemma CheckOutcome(setup: Setup, st: State, t: nat, read: int, write: int)
    requires Ready(setup, st) && Enabled(setup, st, Check(t, read, write)) && Located(setup, st)
    ensures var st', a, task := Next(setup, st, Check(t, read, write)), st.threads[t].a, st.threads[t].task;
            if st'.threads[t].Tallying? then Admitted(st, st', a, task, t, write) else Suppressed(st, st', task, t)
  {
  }

  /** In every interleaving, a cooldown check admits its anomaly if and only if no anomaly
      of the same rule and service was admitted within the cooldown. */
  lemma ChecksDecideExactly(setup: Setup, start: int, steps: seq<Step>, t: nat, read: int, write: int)
    requires IsRun(setup, start, steps) && Enabled(setup, Reached(setup, start, steps), Check(t, read, write))
    ensures var st := Reached(setup, start, steps);
            var st', a, task := Next(setup, st, Check(t, read, write)), st.threads[t].a, st.threads[t].task;
            && Located(setup, st)
            && (if NoneWithin(setup, st, a, read) then Admitted(st, st', a, task, t, write) else Suppressed(st, st', task, t))
  {
    var st := Reached(setup, start, steps);
    var a := st.threads[t].a;
    SectionsOfRun(setup, start, steps);
    CheckAdmits(setup, st, t, read, write);
    C.AdmitsIff(setup.cooldown, st.sections + [C.Fired(KeyOf(a), read, write)], |st.sections|);
    RestedIffNoneWithin(setup, st, a, read, write);
    CheckOutcome(setup, st, t, read, write);
  }

  /** Any admissions of one rule and service, in order. */
  ghost predicate AdmissionsOf(st: State, rule: string, service: string, picks: seq<nat>) {
    && (forall m :: 0 <= m < |picks| ==>
          picks[m] < |st.admitted| && st.admitted[picks[m]].ruleID == rule && st.admitted[picks[m]].service == service)
    && (forall m, n :: 0 <= m < n < |picks| ==> picks[m] < picks[n])
  }

  function SectionsOf(st: State, picks: seq<nat>): (at: seq<nat>)
    requires forall m :: 0 <= m < |picks| ==> picks[m] < |st.admittedAt|
    ensures |at| == |picks|
  {
    seq(|picks|, m requires 0 <= m < |picks| => st.admittedAt[picks[m]])
  }

  lemma PicksAreAdmissions(setup: Setup, st: State, rule: string, service: string, picks: seq<nat>)
    requires Located(setup, st) && AdmissionsOf(st, rule, service, picks)
    ensures C.AdmissionsOf(setup.cooldown, st.sections, Key(rule, service), SectionsOf(st, picks))
  {
  }

  /** The first and the last of these admissions lie within an interval of this length. */
  ghost predicate Within(setup: Setup, st: State, picks: seq<nat>, length: nat)
    requires Located(setup, st)
  {
    && |picks| > 0 && (forall m :: 0 <= m < |picks| ==> picks[m] < |st.admitted|)
    && AdmittedTime(st, picks[|picks| - 1]) - AdmittedTime(st, picks[0]) <= length
  }

  lemma LimitedIn(setup: Setup, st: State, rule: string, service: string, picks: seq<nat>, length: nat)
    requires 0 < setup.cooldown && Sectioned(setup, st) && Located(setup, st)
    requires AdmissionsOf(st, rule, service, picks) && Within(setup, st, picks, length)
    ensures |picks| <= length / setup.cooldown + 1
  {
    PicksAreAdmissions(setup, st, rule, service, picks);
    C.RateLimit(setup.cooldown, st.sections, Key(rule, service), SectionsOf(st, picks), length);
  }

  /** In every interleaving, an interval of length L holds at most L / cooldown + 1 admitted
      anomalies of one rule and service. */
  lemma AdmissionsAreLimited(setup: Setup, start: int, steps: seq<Step>, rule: string, service: string, picks: seq<nat>, length: nat)
    requires 0 < setup.cooldown && IsRun(setup, start, steps)
    requires AdmissionsOf(Reached(setup, start, steps), rule, service, picks)
    ensures Located(setup, Reached(setup, start, steps))
    ensures Within(setup, Reached(setup, start, steps), picks, length) ==> |picks| <= length / setup.cooldown + 1
  {
    var st := Reached(setup, start, steps);
    SectionsOfRun(setup, start, steps);
    if Within(setup, st, picks, length) {
      LimitedIn(setup, st, rule, service, picks, length);
    }
  }

  // ----- Evicting stale cooldown entries is unobservable -----

  /** An engine whose eviction loop never deletes a cooldown entry. */
  function NextKeeping(setup: Setup, st: State, step: Step): State
    requires Ready(setup, st) && Enabled(setup, st, step)
  {
    if step.Expire? then Next(setup, st, step).(cooldowns := st.cooldowns) else Next(setup, st, step)
  }

  /** The same steps, taken by that engine; a step it could not take would be skipped. */
  ghost function ReachedKeeping(setup: Setup, start: int, steps: seq<Step>): State {
    if |steps| == 0 then Initial(setup, start)
    else
      var before, step := ReachedKeeping(setup, start, steps[..|steps| - 1]), steps[|steps| - 1];
      if Ready(setup, before) && Enabled(setup, before, step) then NextKeeping(setup, before, step) else before
  }

  /** The two engines differ in stale cooldown entries at most. */
  ghost predicate Twins(setup: Setup, st: State, kept: State) {
    && kept == st.(cooldowns := kept.cooldowns)
    && C.Agree(st.cooldowns, kept.cooldowns, setup.cooldown, st.clock)
  }

  lemma TwinsCheck(setup: Setup, st: State, kept: State, t: nat, read: int, write: int)
    requires Ready(setup, st) && Enabled(setup, st, Check(t, read, write)) && Twins(setup, st, kept)
    ensures Twins(setup, CheckCooldown(setup, st, t, read, write), CheckCooldown(setup, kept, t, read, write))
  {
    var key := KeyOf(st.threads[t].a);
    C.AgreeDecides(st.cooldowns, kept.cooldowns, setup.cooldown, st.clock, key, read);
  }

  lemma TwinsExpire(setup: Setup, st: State, kept: State, key: Key, read: int)
    requires Ready(setup, st) && Ready(setup, kept)
    requires Enabled(setup, st, Expire(key, read)) && Enabled(setup, kept, Expire(key, read)) && Twins(setup, st, kept)
    ensures Twins(setup, Next(setup, st, Expire(key, read)), NextKeeping(setup, kept, Expire(key, read)))
  {
  }

  lemma TwinsCall(setup: Setup, st: State, kept: State, step: Step)
    requires Ready(setup, st) && Enabled(setup, st, step) && Twins(setup, st, kept) && step.Call?
    ensures Ready(setup, kept) && Enabled(setup, kept, step)
    ensures Next(setup, kept, step) == Next(setup, st, step).(cooldowns := kept.cooldowns)
  {
  }

  lemma TwinsEnabled(setup: Setup, st: State, kept: State, step: Step)
    requires Ready(setup, st) && Enabled(setup, st, step) && Twins(setup, st, kept)
    ensures Ready(setup, kept) && Enabled(setup, kept, step)
  {
  }

  lemma TwinsTask(setup: Setup, st: State, kept: State, step: Step)
    requires Ready(setup, st) && Enabled(setup, st, step) && Twins(setup, st, kept)
    requires Ready(setup, kept) && Enabled(setup, kept, step)
    requires step.Begin? || step.Heartbeat? || step.Finish?
    ensures Next(setup, kept, step) == Next(setup, st, step).(cooldowns := kept.cooldowns)
  {
  }

  lemma TwinsPick(setup: Setup, st: State, kept: State, step: Step)
    requires Ready(setup, st) && Enabled(setup, st, step) && Twins(setup, st, kept)
    requires Ready(setup, kept) && Enabled(setup, kept, step) && step.Pick?
    ensures Next(setup, kept, step) == Next(setup, st, step).(cooldowns := kept.cooldowns)
  {
  }

  lemma TwinsSend(setup: Setup, st: State, kept: State, step: Step)
    requires Ready(setup, st) && Enabled(setup, st, step) && Twins(setup, st, kept)
    requires Ready(setup, kept) && Enabled(setup, kept, step) && (step.Increment? || step.Send?)
    ensures Next(setup, kept, step) == Next(setup, st, step).(cooldowns := kept.cooldowns)
  {
  }

  lemma TwinsDispatch(setup: Setup, st: State, kept: State, step: Step)
    requires Ready(setup, st) && Enabled(setup, st, step) && Twins(setup, st, kept)
    requires Ready(setup, kept) && Enabled(setup, kept, step)
    requires step.Take? || step.Store? || step.Alert? || step.StopDispatch?
    ensures Next(setup, kept, step) == Next(setup, st, step).(cooldowns := kept.cooldowns)
  {
  }

  lemma TwinsOther(setup: Setup, st: State, kept: State, step: Step)
    requires Ready(setup, st) && Enabled(setup, st, step) && Twins(setup, st, kept)
    requires !step.Check? && !step.Expire?
    ensures Ready(setup, kept) && Enabled(setup, kept, step)
    ensures Next(setup, kept, step) == Next(setup, st, step).(cooldowns := kept.cooldowns)
  {
    TwinsEnabled(setup, st, kept, step);
    if step.Call? {
      TwinsCall(setup, st, kept, step);
    } else if step.Take? || step.Store? || step.Alert? || step.StopDispatch? {
      TwinsDispatch(setup, st, kept, step);
    } else if step.Pick? {
      TwinsPick(setup, st, kept, step);
    } else if step.Increment? || step.Send? {
      TwinsSend(setup, st, kept, step);
    } else if !step.Visit? {
      TwinsTask(setup, st, kept, step);
    }
  }

  lemma TwinsNext(setup: Setup, st: State, kept: State, step: Step)
    requires Ready(setup, st) && Enabled(setup, st, step) && Twins(setup, st, kept)
    ensures Ready(setup, kept) && Enabled(setup, kept, step)
    ensures Twins(setup, Next(setup, st, step), NextKeeping(setup, kept, step))
  {
    OtherSteps(setup, st, step);
    if step.Check? {
      TwinsCheck(setup, st, kept, step.t, step.read, step.write);
    } else if step.Expire? {
      TwinsExpire(setup, st, kept, step.alert, step.read);
    } else {
      TwinsOther(setup, st, kept, step);
    }
  }

  /** On every run and interleaving, an engine that never evicts cooldown entries can take
      the same steps and is in the same state, but for those entries: the same anomalies
      are admitted, counted, sent and dispatched. */
  lemma {:induction false} EvictionIsUnobservable(setup: Setup, start: int, steps: seq<Step>)
    requires IsRun(setup, start, steps)
    ensures var kept := ReachedKeeping(setup, start, steps);
            kept == Reached(setup, start, steps).(cooldowns := kept.cooldowns)
    ensures Twins(setup, Reached(setup, start, steps), ReachedKeeping(setup, start, steps))
  {
    if |steps| == 0 {
    } else {
      var front, step := steps[..|steps| - 1], steps[|steps| - 1];
      EvictionIsUnobservable(setup, start, front);
      TwinsNext(setup, Reached(setup, start, front), ReachedKeeping(setup, start, front), step);
    }
  }
}
