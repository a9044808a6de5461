/** The latency rule: the share of slow requests in a window, per service. */
module LatencyRules {
  import opened Arithmetic
  import opened Domain
  import opened Samples
  import opened Rings
  import opened RingRuns
  import opened KeyedWindows
  import opened KeyedRuns
  import opened WindowTables

  datatype Config = Config(thresholdMs: int, breachRatePercent: int, window: int)

  // ----- The duration of a request -----

  function FieldDuration(entry: LogEntry, key: string, parse: string -> Option<Float64>): Option<Float64> {
    if key !in entry.fields then None
    else
      match entry.fields[key]
      case Number(x) => Some(x)
      case Text(s) => parse(s)
      case Integer(i) => Some(Finite(i as real))
      case Other => None
  }

  /** "duration_ms", or "latency_ms" when the former is absent or unusable. */
  function DurationOf(entry: LogEntry, parse: string -> Option<Float64>): Option<Float64> {
    var first := FieldDuration(entry, "duration_ms", parse);
    if first.Some? then first else FieldDuration(entry, "latency_ms", parse)
  }

  /** The field holds a number, of either kind, or a text that parses as one. */
  predicate Usable(entry: LogEntry, key: string, parse: string -> Option<Float64>) {
    && key in entry.fields
    && var v := entry.fields[key]; v.Number? || v.Integer? || (v.Text? && parse(v.s).Some?)
  }

  /** A float is at least the threshold: finite ones by value, +Inf always, -Inf and NaN never. */
  predicate Reaches(x: Float64, threshold: int) {
    match x
    case Finite(r) => r >= threshold as real
    case PosInf => true
    case NegInf => false
    case NaN => false
  }

  /** What a usable field holds is at least the threshold. */
  predicate FieldReaches(entry: LogEntry, key: string, parse: string -> Option<Float64>, threshold: int)
    requires Usable(entry, key, parse)
  {
    match entry.fields[key]
    case Number(x) => Reaches(x, threshold)
    case Text(s) => Reaches(parse(s).value, threshold)
    case Integer(i) => i >= threshold
    case Other => false
  }

  /** A request is slow by its "duration_ms" if that is usable, otherwise by its "latency_ms". */
  predicate IsSlow(entry: LogEntry, parse: string -> Option<Float64>, threshold: int)
    requires Usable(entry, "duration_ms", parse) || Usable(entry, "latency_ms", parse)
  {
    FieldReaches(entry, if Usable(entry, "duration_ms", parse) then "duration_ms" else "latency_ms", parse, threshold)
  }

  /** An entry is a request if one of the two fields is usable, and the duration found
      compares with the threshold as that field does. */
  lemma DurationIff(entry: LogEntry, parse: string -> Option<Float64>, threshold: int)
    ensures DurationOf(entry, parse).Some? <==> Usable(entry, "duration_ms", parse) || Usable(entry, "latency_ms", parse)
    ensures DurationOf(entry, parse).Some? ==>
              (DurationOf(entry, parse).value.AtLeast(threshold) <==> IsSlow(entry, parse, threshold))
  {
  }

  method FindDuration(entry: LogEntry, parse: string -> Option<Float64>) returns (d: Option<Float64>)
    ensures d == DurationOf(entry, parse)
  {
    var keys := ["duration_ms", "latency_ms"];
    d := None;
    for i := 0 to |keys|
      invariant i == 0 ==> d == None
      invariant i >= 1 ==> d == FieldDuration(entry, "duration_ms", parse) == None
      invariant i == 2 ==> FieldDuration(entry, "latency_ms", parse) == None
    {
      d := FieldDuration(entry, keys[i], parse);
      if d.Some? {
        break;
      }
    }
  }

  // ----- The decision -----

  predicate Fires(total: nat, breaches: nat, percent: int) {
    total > 0 && (breaches * 100) / total >= percent
  }

  /** Truncating the rate loses nothing: the rule fires exactly when the share of slow
      requests reaches the percentage. The truncated rate lies in 0..100. */
  lemma FiresIff(total: nat, breaches: nat, percent: int)
    requires breaches <= total
    ensures Fires(total, breaches, percent) <==> total > 0 && breaches * 100 >= percent * total
    ensures total > 0 ==> 0 <= (breaches * 100) / total <= 100
  {
    if total > 0 {
      var rate, rest := (breaches * 100) / total, (breaches * 100) % total;
      assert breaches * 100 == rate * total + rest;
      if rate >= percent {
        MulMonotone(percent, rate, total);
      } else {
        MulMonotone(rate + 1, percent, total);
        assert (rate + 1) * total == rate * total + total;
      }
      if rate > 100 {
        MulMonotone(101, rate, total);
      }
      if rate < 0 {
        MulMonotone(rate, -1, total);
      }
    }
  }

  method Decide(total: nat, breaches: nat, percent: int) returns (fires: bool)
    ensures fires == Fires(total, breaches, percent)
  {
    if total == 0 {
      return false;
    }
    var breachRate := (breaches * 100) / total;
    fires := breachRate >= percent;
  }

  /** The decision on a service's window: its recent requests and the slow ones. */
  predicate FiresOn(r: Ring, cfg: Config, now: int) {
    Fires(Count(r.items, now - cfg.window), RecentBreaches(r.items, now - cfg.window), cfg.breachRatePercent)
  }

  class LatencyTable<K(==)> {
    const table: WindowTable<K>

    ghost predicate Valid()
      reads table, table.Repr
    {
      table.Valid()
    }

    constructor (capacity: nat)
      requires 0 < capacity
      ensures Valid() && fresh(table.Repr)
      ensures table.capacity == capacity && table.contents == map[]
    {
      table := new WindowTable(capacity);
    }

    method DecideFor(key: K, cfg: Config, now: int) returns (fires: bool)
      requires Valid() && key in table.windows
      ensures fires == FiresOn(table.contents[key], cfg, now)
    {
      var total, breaches := table.windows[key].StatsWithin(cfg.window, now);
      fires := Decide(total, breaches, cfg.breachRatePercent);
    }

    method RecordAndDecide(key: K, x: Sample, cfg: Config, now: int) returns (fires: bool)
      requires Valid()
      modifies table.Repr
      ensures Valid() && fresh(table.Repr - old(table.Repr))
      ensures AllValid(old(table.contents), table.capacity)
      ensures table.contents == Record(old(table.contents), table.capacity, key, x)
      ensures fires == FiresOn(table.contents[key], cfg, now)
    {
      var w := table.Record(key, x);
      fires := DecideFor(key, cfg, now);
    }
  }

  /** The configured rule. `parse` stands for the library's float parser. */
  class LatencyThresholdRule {
    const cfg: Config
    const parse: string -> Option<Float64>
    const services: LatencyTable<string>

    constructor (cfg: Config, parse: string -> Option<Float64>)
      ensures services.Valid() && fresh(services.table.Repr)
      ensures this.cfg == cfg && this.parse == parse
      ensures services.table.capacity == 10000 && services.table.contents == map[]
    {
      this.cfg, this.parse := cfg, parse;
      services := new LatencyTable(CAPACITY);
    }

    method Evaluate(entry: LogEntry, now: int, firedAt: int) returns (fired: Option<Anomaly>)
      requires services.Valid()
      modifies services.table.Repr
      ensures services.Valid() && fresh(services.table.Repr - old(services.table.Repr))
      ensures AllValid(old(services.table.contents), services.table.capacity)
      ensures !Usable(entry, "duration_ms", parse) && !Usable(entry, "latency_ms", parse) ==>
                services.table.contents == old(services.table.contents) && fired == None
      ensures Usable(entry, "duration_ms", parse) || Usable(entry, "latency_ms", parse) ==>
                var x := Sample(entry.timestamp, IsSlow(entry, parse, cfg.thresholdMs));
                && services.table.contents == Record(old(services.table.contents), services.table.capacity, entry.service, x)
                && fired == if FiresOn(services.table.contents[entry.service], cfg, now)
                            then Some(Anomaly("latency_threshold_breach", entry.service, [entry], firedAt))
                            else None
    {
      services.table.ContentsValid();
      DurationIff(entry, parse, cfg.thresholdMs);
      fired := None;
      var duration := FindDuration(entry, parse);
      if duration.Some? {
        var x := Sample(entry.timestamp, duration.value.AtLeast(cfg.thresholdMs));
        var fires := services.RecordAndDecide(entry.service, x, cfg, now);
        if fires {
          fired := Some(Anomaly("latency_threshold_breach", entry.service, [entry], firedAt));
        }
      }
    }

    method Reset(visits: seq<Call<string>>)
      requires services.Valid() && VisitsAll(visits, services.table.windows.Keys)
      modifies services.table.Repr
      ensures services.Valid() && services.table.Repr == old(services.table.Repr)
      ensures AllValid(old(services.table.contents), services.table.capacity)
      ensures services.table.contents
           == PerformAll(old(services.table.contents), KeepAll, services.table.capacity, cfg.window, visits)
    {
      services.table.Reset(KeepAll, cfg.window, visits);
    }
  }

  // ----- Whole runs -----

  /** Some request is recent, and the slow ones reach the share. */
  predicate ShareReached(recent: seq<Sample>, percent: int) {
    |recent| > 0 && Breaches(recent) * 100 >= percent * |recent|
  }

  lemma FiresOnIff(r: Ring, cfg: Config, now: int)
    ensures FiresOn(r, cfg, now) <==> ShareReached(Recent(r.items, now - cfg.window), cfg.breachRatePercent)
  {
    var recent := Recent(r.items, now - cfg.window);
    BreachesBound(recent);
    FiresIff(|recent|, Breaches(recent), cfg.breachRatePercent);
  }

  /** The decision is exact: while the service's window does not overflow between
      evictions, the rule fires if and only if there is a recent request and the slow ones
      reach the configured share, both counted over the plain log of that service. */
  lemma DecisionIsExact<K>(cfg: Config, cap: nat, run: seq<Step<K>>, k: K, x: Sample, now: int)
    requires 0 < cap && Roomy(KeepAll, cfg.window, cap, run, k) && ReadBy(OpsOf(KeepAll, run, k), now)
    ensures FiresOn(Seen(KeepAll, cfg.window, cap, run, k, x), cfg, now)
       <==> ShareReached(RecentLog(cfg.window, run, k, x, now), cfg.breachRatePercent)
  {
    SeenIsLog(KeepAll, cfg.window, cap, run, k, x, now);
    FiresOnSeen(cfg, cap, run, k, x, now);
  }

  lemma FiresOnSeen<K>(cfg: Config, cap: nat, run: seq<Step<K>>, k: K, x: Sample, now: int)
    requires 0 < cap
    ensures FiresOn(Seen(KeepAll, cfg.window, cap, run, k, x), cfg, now)
       <==> ShareReached(RecentSeen(KeepAll, cfg.window, cap, run, k, x, now), cfg.breachRatePercent)
  {
    FiresOnIff(Seen(KeepAll, cfg.window, cap, run, k, x), cfg, now);
  }

  /** In every run, overflow or not: slow requests <= recent requests <= capacity. */
  lemma DecisionBounds<K>(cfg: Config, cap: nat, run: seq<Step<K>>, k: K, x: Sample, now: int)
    requires 0 < cap
    ensures var recent := RecentSeen(KeepAll, cfg.window, cap, run, k, x, now);
            Breaches(recent) <= |recent| <= cap
  {
    var r := Seen(KeepAll, cfg.window, cap, run, k, x);
    assert r.Valid() && r.cap == cap;
    RecentBound(r.items, now - cfg.window);
    BreachesBound(Recent(r.items, now - cfg.window));
  }
}
