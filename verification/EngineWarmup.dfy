/** The warm-up period: how long it lasts, and that nothing at all happens before its end. */
module EngineWarmup {
  import opened Arithmetic
  import opened Engine
  import opened EngineCooldown

  // ----- How long it lasts -----

  datatype Config = Config(
    windowDuration: int,
    errorRateWindow: int,
    latencyWindow: int,
    failureWindow: int,
    authWindow: int,
    silenceAfter: int,
    warmupMultiplier: int)

  /** One of the durations that the warm-up is derived from. */
  predicate IsConfigured(d: int, cfg: Config) {
    || d == cfg.windowDuration || d == cfg.errorRateWindow || d == cfg.latencyWindow
    || d == cfg.failureWindow || d == cfg.authWindow || d == cfg.silenceAfter
  }

  predicate IsLargest(max: int, cfg: Config) {
    && IsConfigured(max, cfg)
    && cfg.windowDuration <= max && cfg.errorRateWindow <= max && cfg.latencyWindow <= max
    && cfg.failureWindow <= max && cfg.authWindow <= max && cfg.silenceAfter <= max
  }

  method Update(max: int, d: int) returns (max': int)
    ensures max <= max' && d <= max' && (max' == max || max' == d)
  {
    max' := max;
    if d > max' {
      max' := d;
    }
  }

  method MaxWindowDuration(cfg: Config) returns (max: int)
    ensures IsLargest(max, cfg)
  {
    max := cfg.windowDuration;
    max := Update(max, cfg.errorRateWindow);
    max := Update(max, cfg.latencyWindow);
    max := Update(max, cfg.failureWindow);
    max := Update(max, cfg.authWindow);
    max := Update(max, cfg.silenceAfter);
  }

  /** A multiplier that is not positive stands for 2. */
  predicate IsMultiplier(m: int, cfg: Config) {
    (cfg.warmupMultiplier > 0 ==> m == cfg.warmupMultiplier) && (cfg.warmupMultiplier <= 0 ==> m == 2)
  }

  method WarmupUntil(cfg: Config, start: int) returns (until: int)
    ensures exists m, max :: IsMultiplier(m, cfg) && IsLargest(max, cfg) && until == start + m * max
  {
    var max := MaxWindowDuration(cfg);
    var multiplier := cfg.warmupMultiplier;
    if multiplier <= 0 {
      multiplier := 2;
    }
    assert IsMultiplier(multiplier, cfg) && IsLargest(max, cfg);
    until := start + multiplier * max;
  }

  // ----- Nothing happens before its end -----

  /** No goroutine is busy, no detector was ever called or holds anything, and nothing was
      admitted, counted or sent. */
  ghost predicate Untouched(st: State) {
    && (forall t :: 0 <= t < |st.threads| ==> st.threads[t].Idle?)
    && (forall i :: 0 <= i < |st.states| ==> st.states[i] == DetectorState(map[], false))
    && (forall e :: e in st.log ==> e.Visited?)
    && st.cooldowns == map[] && st.metrics == map[]
    && st.fired == [] && st.admitted == [] && st.queue == [] && st.enqueued == [] && st.dropped == []
    && (st.dispatcher.Waiting? || st.dispatcher.Stopped?)
    && st.taken == [] && st.stored == [] && st.alerted == []
  }

  lemma UntouchedNext(setup: Setup, st: State, step: Step)
    requires Ready(setup, st) && Enabled(setup, st, step) && Untouched(st)
    requires Next(setup, st, step).clock < setup.warmupUntil
    ensures Untouched(Next(setup, st, step))
  {
  }

  lemma {:induction false} UntouchedBefore(setup: Setup, start: int, steps: seq<Step>)
    requires IsRun(setup, start, steps)
    requires Reached(setup, start, steps).clock < setup.warmupUntil
    ensures Untouched(Reached(setup, start, steps))
  {
    if |steps| == 0 {
    } else {
      var front, step := steps[..|steps| - 1], steps[|steps| - 1];
      var before := Reached(setup, start, front);
      OtherSteps(setup, before, step);
      UntouchedBefore(setup, start, front);
      UntouchedNext(setup, before, step);
    }
  }

  /** Warm-up safety: in every run of an engine that is set up by its configuration, until
      the multiplier times any configured window has passed, no anomaly is fired, admitted,
      counted or sent, and no windowed detector is called or leaves its initial state. */
  lemma WarmupSafety(setup: Setup, start: int, cfg: Config, m: int, max: int, w: int, steps: seq<Step>)
    requires IsMultiplier(m, cfg) && IsLargest(max, cfg) && setup.warmupUntil == start + m * max
    requires IsRun(setup, start, steps)
    requires IsConfigured(w, cfg) && Reached(setup, start, steps).clock < start + m * w
    ensures Untouched(Reached(setup, start, steps))
  {
    assert Reached(setup, start, steps).clock < setup.warmupUntil by {
      EndsLater(start, m, w, max);
    }
    UntouchedBefore(setup, start, steps);
  }

  lemma EndsLater(start: int, m: int, w: int, max: int)
    requires 0 <= m && w <= max
    ensures start + m * w <= start + m * max
  {
    MulMonotone(w, max, m);
  }

  /** The other way round: the warm-up suppresses an entry, or the watcher's tick, exactly
      when the clock is read before its end. */
  lemma SuppressedIff(setup: Setup, st: State, step: Step)
    requires Ready(setup, st) && Enabled(setup, st, step) && (step.Begin? || step.Heartbeat?)
    ensures Next(setup, st, step) == st.(clock := step.now) <==> step.now < setup.warmupUntil
    ensures step.Begin? && step.now >= setup.warmupUntil ==>
              Next(setup, st, step).threads[step.t] == Running(Pipeline(step.entry, 0))
  {
    if step.now >= setup.warmupUntil {
      assert Next(setup, st, step).threads[step.t] != st.threads[step.t];
    }
  }
}
