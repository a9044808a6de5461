# Log analytics server: a model of its detection and delivery core

The server reads log records from Kafka, stores every record in Elasticsearch and runs a set of
detection rules over the entries; anomalies pass a cooldown and a bounded channel to a dispatcher.
This project models that core in Dafny and proves what it keeps over every input, every run and every
interleaving.

- **Windows** (`Samples`, `Rings`, `RingRuns`, `SampleWindow`). The sliding windows are circular
  buffers compacted in place, reading and writing one backing array. `Rings.CompactIsEvict` gives the
  exact outcome of that compaction in every state, including the wrapped one in which it overwrites
  newer samples before reading them; `RingRuns` says when it is the intended filter, that a bounded
  window agrees with the unbounded history as long as it does not overflow between evictions, and shows
  a false alarm that overwriting causes.
- **Windowed rules** (`KeyedWindows`, `KeyedRuns`, `WindowTable`, `CountingRules`, `LatencyRule`,
  `Fingerprint`). A rule keeps a heap object per key. The table keeps the windows pairwise disjoint, so
  keys cannot influence each other; deleting windows is unobservable; a rule fires exactly when the plain
  log of its key says so. `Fingerprint` models the leftmost-first pattern as a scanner with back-off and
  proves it equal to splitting into words and masking.
- **Service silence** (`Silence`, `SilenceCalls`): single turns of the rule, and whole calls on a schedule,
  under which every quiet service is reported on time. **Cooldown** (`Cooldown`): which anomalies are
  admitted, for any sequence of critical sections.
- **The engine** (`Engine`, `EngineEvaluation`, `EngineConservation`, `EngineCooldown`, `EngineWarmup`,
  `EngineSoundness`, `EngineSilence`, `EngineReports`, `EngineProgress`). A step system of any number of
  workers, the silence watcher, the eviction loop and the dispatcher. A step is what one goroutine does
  between two points at which another may run. The theorems hold for every run: every detector sees every
  entry, every anomaly brought up is checked, anomalies are conserved, admissions are spaced and decided
  exactly, evicting cooldown entries is unobservable, nothing happens during warm-up, no goroutine is ever
  stuck, and, end to end, an alert is backed by the entries it counted (`AlertsCountAlike`,
  `AlertsAreBacked`) or by the silence it reports (`SilenceAlertsAreTrue`).
- **Dispatch** (`Dispatcher`) and **delivery** (`Consumer`, `Delivery`, `Documents`). The poll loop, a
  step system of fetch, send, mark, commit, crash and restart, and the document store with its
  deterministic keys.

Clock readings are parameters that never go back where they come from one clock; timestamps of log entries
are arbitrary integers in any order. Objects that the program updates in place are classes with
`modifies` clauses, proved against functions on values; the lemmas are about these functions.

Where the code and its own comments or documents differ, the model follows the code:

- `internal/detection/service_silence.go:62-63` and `:84` say that a reported service must log
  `MinLogCount` times before it is tracked again. Only `lastSeen` is deleted, so one log is enough
  (`Silence.OneLogTracksAgain`).
- `docs/summary.md:24` says that offsets are committed after processing. They are marked when a record
  enters the channel, so a committed record can be lost in a crash (`Delivery.CommittedRecordCanBeLost`,
  exactly when in `Delivery.CrashDecides` and `Delivery.CrashLosesIff`).
- `docs/generate-slides.js:1075-1076` shows `5000ms` becoming `Xms`. The pattern wants a word boundary
  after the digits, so `5000ms` stays (`Fingerprints.UnitsAreKept`).
- `internal/detection/window.go:42` says that `Evict` removes old timestamps. On a wrapped window it can
  also overwrite recent ones (`RingRuns.EvictIsFilterIff`, `RingRuns.EvictForgetsNewest`,
  `RingRuns.LaterCountIff`, `RingRuns.FalseAlarm`).

## Model

| member | source | states |
|---|---|---|
| Rings.ReadFromNewest | internal/detection/window.go:33-34 | counting back from the head with modular indices reads the i-th newest of the samples held, on full and partly filled windows |
| Rings.StoredAdd | internal/detection/window.go:20-26 | writing slot head mod capacity appends to the samples held, dropping the oldest exactly when the window is full |
| Rings.CompactStep | internal/detection/window.go:46-50 | one iteration of the in-place compaction, which reads a slot that earlier iterations may have overwritten |
| Rings.CompactIsPartial | internal/detection/window.go:45-51 | after any number of iterations the kept prefix is the filter of what was read, or, once unread samples are being overwritten, the kept older run repeated |
| Rings.CompactIsEvict | internal/detection/window.go:43-55 | exact result of compaction in every state: with s the oldest slot, A the older and B the newer run and K the fresh part of A, it is the filter of A then B if s = 0 or K is empty, and otherwise K repeated cyclically to the length of K plus s |
| RingRuns.EvictKeepsOnlyRecent | internal/detection/window.go:43-55 | in every state all survivors are samples of the window newer than the cutoff, and counting them at the same cutoff counts them all |
| RingRuns.EvictIsFilterIff | internal/detection/window.go:43-55 | compaction is the intended filter if and only if it overwrites no unread sample, or the newer run happens to repeat the kept older one |
| RingRuns.EvictCount | internal/detection/window.go:43-55 | in every state the number kept is the number of recent samples plus, when newer samples are overwritten, the stale ones among these; it never exceeds the capacity, so the append stays within the array |
| RingRuns.EvictCountOrdered | internal/detection/window.go:43-55 | with nondecreasing timestamps the number kept is right even when samples are overwritten |
| RingRuns.LaterCount | internal/detection/window.go:43-55 | for every later cutoff, exactly what a count sees after a compaction: the newer run as it was, or the copies that overwrote it |
| RingRuns.LaterCountIff | internal/detection/window.go:30-55 | a later count is right, too high or too low exactly as an overwriting compaction copied as many, more or fewer samples newer than that cutoff than it overwrote |
| RingRuns.EvictForgetsNewest | internal/detection/window.go:43-55 | with strictly increasing timestamps an overwriting compaction forgets the whole newer run: a later count that should see exactly that run sees nothing |
| RingRuns.AddAllKeepsLatest | internal/detection/window.go:15-26 | from a new window, after any n additions it holds the last min(n, capacity) samples oldest to newest, and its oldest slot is known |
| RingRuns.OrderedCountIsCapped | internal/detection/window.go:15-40 | with nondecreasing timestamps the count is min(capacity, true count), so a threshold up to the capacity is met exactly when the true count meets it |
| RingRuns.NoOverflowNoWrap | internal/detection/window.go:20-55 | in a run without overflow between evictions the oldest sample always sits in slot 0, so no compaction overwrites anything |
| RingRuns.BoundedIsUnbounded | internal/detection/window.go:20-55 | in any run of additions and evictions without overflow, every later count equals the count over the whole history, for timestamps in any order |
| RingRuns.NeverOvercounts | internal/detection/window.go:20-55 | overflow alone only loses samples: unless a compaction overwrote unread ones, no count exceeds the count over the whole history |
| RingRuns.FalseAlarm | internal/detection/window.go:43-55 | for every capacity from 3 on, a run in which an overwriting compaction makes the next event report one more event than ever happened |
| SampleWindows.SampleWindow.constructor | internal/detection/window.go:15-17 | a new window holds nothing |
| SampleWindows.SampleWindow.Add | internal/detection/window.go:20-26 | adding in place appends to what the window holds |
| Samples.CountIs | internal/detection/window.go:35-37 | the number of samples newer than the cutoff, as a number of positions |
| Samples.RecentBreachesIs | internal/detection/latency.go:49-54 | likewise of the breaches among them |
| SampleWindows.SampleWindow.CountWithin | internal/detection/window.go:30-40 | the backward modular loop counts exactly the samples newer than the cutoff |
| SampleWindows.SampleWindow.StatsWithin | internal/detection/latency.go:44-57 | the loop counts the recent samples and the breaches among them |
| SampleWindows.SampleWindow.Compact | internal/detection/window.go:45-51 | the loop over the array that it also writes produces what CompactStep describes, iteration by iteration |
| SampleWindows.SampleWindow.CopyOntoItself | internal/detection/window.go:52 | copying the kept prefix onto the array that it aliases changes nothing |
| SampleWindows.SampleWindow.Evict | internal/detection/window.go:43-55 | leaves exactly the samples that Ring.Evict describes, within the capacity |
| KeyedWindows.Isolation | internal/detection/error_rate.go:35-70 | after any run, whichever windows Reset deleted, the window of a key is that of a rule with one window which saw only the calls concerning the key |
| KeyedWindows.OtherKeysAreInvisible | internal/detection/auth_burst.go:71-121 | the window of a key is the same had no other key ever been seen |
| KeyedWindows.DeletingIsUnobservable | internal/detection/repeated_failure.go:84-91 | a rule that deletes windows in Reset answers every later call as one that keeps all, on every run; a rule that counts before deleting must count at the time of compaction |
| KeyedWindows.DeletingLateIsUnobservable | internal/detection/auth_burst.go:114-121 | with its own second clock reading before deletion, the recent samples that later calls see are still those of the whole history while nothing overflows |
| WindowTables.WindowTable.constructor | internal/detection/error_rate.go:20-26 | a new rule has no windows |
| WindowTables.WindowTable.Window | internal/detection/error_rate.go:40-44 | looks up or creates the window of a key; a created window shares no storage with any other |
| WindowTables.WindowTable.Record | internal/detection/error_rate.go:40-46 | recording under one key changes that key's window only |
| WindowTables.WindowTable.Visit | internal/detection/auth_burst.go:115-120 | Reset's turn for one key: compaction, then deletion if the rule's test says so |
| WindowTables.WindowTable.Reset | internal/detection/repeated_failure.go:84-91 | a whole Reset, in any traversal order, has the effect of its visits one after the other |
| KeyedRuns.StateIsPlay | internal/detection/error_rate.go:35-70 | a run of a rule as calls on its map of windows |
| KeyedRuns.LogIsHistory | internal/detection/error_rate.go:46 | what a key's window was ever given is the plain log of that key |
| KeyedRuns.SeenIsLog | internal/detection/error_rate.go:40-49 | in any run without overflow, what a decision sees of the recent past is exactly the recent part of the plain log of its key |
| KeyedRuns.SeenIsBounded | internal/detection/error_rate.go:40-49 | with overflow, but no overwriting, a decision never sees more than the plain log has |
| KeyedRuns.RoomyIsIntact | internal/detection/window.go:43-55 | windows that never overflow between evictions are never overwritten |
| CountingRules.UnauthorizedIsRedundant | internal/detection/auth_burst.go:51-53 | the third keyword of the authentication test never decides it, since it contains the first |
| CountingRules.AuthFailureIff | internal/detection/auth_burst.go:46-62 | an entry is an authentication failure if and only if it is an error and "auth" or "login" occurs in its message with any letters in either case, or its result field says so |
| CountingRules.AuthKeyIff | internal/detection/auth_burst.go:23-38 | an authentication failure counts under a nonempty address field, otherwise under a nonempty user field, and is otherwise ignored; an empty field name in the configuration stands for source_ip or username |
| CountingRules.AuthKey | internal/detection/auth_burst.go:72-84 | the two nested lookups choose the address, then the user name, then nothing |
| CountingRules.Classify | internal/detection/repeated_failure.go:50-55 | the early returns and key choices at the start of each Evaluate agree with KeyOf, which EligibleIff and AlikeIff describe without keys |
| CountingRules.EligibleIff | internal/detection/repeated_failure.go:50-52 | which entries a rule counts at all: errors, errors, and authentication failures with an address or a user |
| CountingRules.AlikeIff | internal/detection/repeated_failure.go:54-61 | which entries share a window: errors of one service; errors of one service whose messages are equal but for noise and the case of letters (for services without a bar); authentication failures from one origin |
| CountingRules.BarsCollide | internal/detection/repeated_failure.go:55 | two services, one with a bar in its name, whose errors share a window |
| CountingRules.ResetDropsIff | internal/detection/auth_burst.go:114-121 | Reset deletes a window never (error rate), exactly when it holds nothing recent (repeated failure), or exactly when nothing compaction kept is recent at the second reading (authentication burst) |
| CountingRules.FailureKeyCollision | internal/detection/repeated_failure.go:55 | exactly when two (service, fingerprint) pairs share a window |
| CountingRules.FailureKeyInjective | internal/detection/repeated_failure.go:54-55 | for services without a bar, two error entries share a window if and only if they have the same service and the same error class |
| CountingRules.Counter.Evaluate | internal/detection/auth_burst.go:85-99 | record, count and compare, on the heap, as the function Judge says |
| CountingRules.CountingRule.Evaluate | internal/detection/error_rate.go:35-62 | the entry is classified, recorded, counted and compared; the anomaly's rule, service, evidence and time; entries that do not count leave the windows alone |
| CountingRules.CountingRule.Reset | internal/detection/error_rate.go:66-70 | evicts every window by the rule's own deletion policy |
| CountingRules.FiresExactly | internal/detection/error_rate.go:46-50 | in any run without overflow, an event fires if and only if the plain log of its key has at least the threshold of events newer than the window |
| CountingRules.FiringIsJustified | internal/detection/error_rate.go:46-50 | in any run in which no compaction overwrote the key's window, an event that fires has that many events behind it |
| Fingerprints.MatchWord | internal/detection/repeated_failure.go:15 | from the start of a word, the alternation with back-off and boundaries matches the whole word or nothing |
| Fingerprints.ScanIsMask | internal/detection/repeated_failure.go:15-20 | for every string, replacing leftmost matches equals splitting into maximal words and masking those that are all digits, or all hexadecimal and at least four long |
| Fingerprints.LowerCharIff | internal/detection/repeated_failure.go:20 | two characters have the same lower case if and only if they are equal or the two cases of one letter, by their places in the alphabets |
| Fingerprints.LowerIs | internal/detection/repeated_failure.go:20 | lower-casing gives the one text that is equal but for the case of letters and has no capital |
| Fingerprints.ClassesAre | internal/detection/repeated_failure.go:15 | the character classes of the pattern, by their members |
| Fingerprints.FingerprintEquivalence | internal/detection/repeated_failure.go:13-21 | two messages share a fingerprint if and only if their pieces correspond one to one, each pair equal but for the case of letters or both noise |
| Fingerprints.FingerprintStable | internal/detection/repeated_failure.go:17-21 | fingerprinting a fingerprint only replaces its capitals |
| Fingerprints.PieceByPiece | internal/detection/repeated_failure.go:15-21 | a fingerprint has the pieces of its message: an X for noise, otherwise the same text without capitals |
| Fingerprints.UnitsAreKept | internal/detection/repeated_failure.go:15-20 | a number with a unit attached is not masked, anywhere in a message |
| Fingerprints.HexWords | internal/detection/repeated_failure.go:15 | a hexadecimal word that is no decimal number is masked exactly from four characters on |
| LatencyRules.FindDuration | internal/detection/latency.go:101-128 | the loop over the two field names, with its type switch and early exit, agrees with DurationOf, which DurationIff describes |
| LatencyRules.DurationIff | internal/detection/latency.go:101-130 | an entry is a request if "duration_ms" or "latency_ms" holds a number, an integer or a text that parses; it is slow if the first of them that is usable is at least the threshold: finite values as reals, +Inf yes, -Inf and NaN no |
| LatencyRules.FiresIff | internal/detection/latency.go:141-146 | truncation loses nothing: the rule fires exactly when breaches * 100 >= percent * total and total > 0; the truncated rate lies in 0..100 |
| LatencyRules.LatencyTable.RecordAndDecide | internal/detection/latency.go:132-146 | record, tally and decide on the heap |
| LatencyRules.LatencyThresholdRule.Evaluate | internal/detection/latency.go:99-159 | entries without a usable duration leave the windows alone; the others are recorded under their service with a breach flag as DurationIff says, and fire by the decision |
| LatencyRules.LatencyThresholdRule.Reset | internal/detection/latency.go:163-167 | evicts every window and deletes none |
| LatencyRules.DecisionIsExact | internal/detection/latency.go:130-156 | in any run without overflow, the rule fires if and only if the recent part of the service's plain log is not empty and its share of breaches reaches the percentage |
| LatencyRules.DecisionBounds | internal/detection/latency.go:44-57 | in every run breaches <= total <= capacity |
| Silence.ServiceSilenceRule.Evaluate | internal/detection/service_silence.go:48-58 | counts the log and, from the configured number on, records its ingest time |
| Silence.ServiceSilenceRule.CheckSilence | internal/detection/service_silence.go:64-89 | in any traversal order, reports and untracks exactly the services quiet for too long |
| Silence.ServiceSilenceRule.Reset | internal/detection/service_silence.go:94-105 | forgets services quiet for more than three times as long, from both maps |
| Silence.TrackedMeansActive | internal/detection/service_silence.go:48-58 | in every run a tracked service has logged at least the configured number of times and lastSeen is the time of its latest log |
| Silence.ReportIsTrue | internal/detection/service_silence.go:69-86 | in every run a reported service has none of its logs within the configured time, and has logged often enough |
| Silence.LogBetweenReports | internal/detection/service_silence.go:84-85 | between two reports of a service there is a log of it |
| Silence.ForgottenStartsOver | internal/detection/service_silence.go:100-102 | a service that Reset forgot is tracked again only after the configured number of further logs |
| Silence.EnoughLogsTrack | internal/detection/service_silence.go:52-55 | unless Reset forgets it in between, a service is tracked, as of its latest log, once it has logged the configured number of times |
| Silence.OneLogTracksAgain | internal/detection/service_silence.go:52-55 | after a report the service stays untracked until its next log, whatever checks, resets and other services' logs come in between, and that one log tracks it again |
| Silence.SilenceIsDetected | internal/detection/service_silence.go:64-105 | if a tracked service that stays quiet is checked at most gap <= 2 * silenceAfter apart for as long as it is tracked, it is reported later than silenceAfter and no later than silenceAfter + gap after its last log, and Reset does not forget it first |
| SilenceCalls.ScheduleIsOften | internal/detection/service_silence.go:64-89 | CheckSilence calls that examine exactly the tracked services, at most gap apart, check every quiet service at most gap apart for as long as it is tracked |
| SilenceCalls.QuietIsReported | internal/detection/service_silence.go:64-105 | from any state: a tracked service that stays quiet is among the reports of one of the CheckSilence calls, in time |
| SilenceCalls.DetectedOnTime | internal/detection/service_silence.go:48-105 | in any history of Evaluate, CheckSilence and Reset calls since start-up with checks at most gap <= 2 * silenceAfter apart, a service left tracked by its last log is reported by a later CheckSilence call, later than silenceAfter and no later than silenceAfter + gap after that log |
| Silence.LongerGapsMissSilence | internal/detection/service_silence.go:94-105 | the bound on the gap is sharp: for any larger one, a run since start-up in which Reset forgets a tracked, quiet service unreported |
| Cooldown.CooldownMap.CheckAndSet | internal/detection/engine.go:105-111 | the critical section that admits or suppresses an anomaly |
| Cooldown.CooldownMap.EvictStale | internal/detection/engine.go:154-160 | deletes entries older than twice the cooldown, in any traversal order |
| Cooldown.EvictionBounds | internal/detection/engine.go:154-160 | a pass keeps exactly those of the entries it examines that are at most twice the cooldown old, and touches no other |
| Cooldown.Spacing | internal/detection/engine.go:103-115 | for any sequence of critical sections, two admissions of one key are recorded at least one cooldown apart |
| Cooldown.AdmitsIff | internal/detection/engine.go:105-111 | an anomaly is admitted if and only if no admission of its key was recorded within the cooldown, whatever the eviction deleted |
| Cooldown.RateLimit | internal/detection/engine.go:103-115 | an interval of length L holds at most L / cooldown + 1 admissions of one key |
| Cooldown.EvictionIsUnobservable | internal/detection/engine.go:153-160 | deleting stale entries changes no decision, for every cooldown |
| EngineConservation.Conservation | internal/detection/engine.go:117-126 | in every run and for every rule: admitted = counted + about to be counted; counted = enqueued + dropped + about to be sent; enqueued = taken followed by queued, in order, at most 1024 queued; taken = store attempts + the one in hand, and likewise for alerts |
| EngineCooldown.SectionsOfRun | internal/detection/engine.go:105-111 | in every interleaving the cooldown map is the outcome of the critical sections so far, in time order, and the admitted anomalies are those that these sections admit |
| EngineCooldown.ChecksDecideExactly | internal/detection/engine.go:103-115 | in every interleaving a cooldown check admits its anomaly, and records the time, if and only if no anomaly with the same rule and the same service was admitted within the cooldown; otherwise its goroutine goes on |
| EngineCooldown.AdmissionsAreSpaced | internal/detection/engine.go:182-194 | in every interleaving of workers, watcher and eviction, two admitted anomalies with the same rule and the same service are recorded at least one cooldown apart |
| EngineCooldown.AdmissionsAreLimited | internal/detection/engine.go:103-115 | in every interleaving an interval of length L holds at most L / cooldown + 1 of them |
| EngineCooldown.EvictionIsUnobservable | internal/detection/engine.go:153-160 | an engine that never deletes cooldown entries can take the same steps and reaches the same state but for those entries: same admissions, metrics, channel and alerts |
| EngineEvaluation.EveryDetectorSeesEveryEntry | internal/detection/engine.go:97-127 | in every interleaving, counted with multiplicity, every entry that passed the warm-up has been evaluated by every detector exactly once or is still to be passed to it; suppressing or dropping an anomaly keeps its entry from no detector |
| EngineReports.EveryAnomalyIsChecked | internal/detection/engine.go:98-111 | in every interleaving, counted with multiplicity, every anomaly that any detector answered or the watcher's check reported after the warm-up is fired or still to be picked, and every fired anomaly has had its cooldown check or is held for it |
| EngineReports.IdleMeansChecked | internal/detection/engine.go:180-191 | so when all goroutines are idle, every anomaly brought up has been checked |
| EngineProgress.NeverStuck | internal/detection/engine.go:119-126 | a busy goroutine can always take a step, however full the channel is |
| EngineProgress.BusyIsBounded | internal/detection/engine.go:97-127 | in every interleaving a goroutine is idle again after a number of its own steps bounded by the detectors and reports it started with |
| EngineProgress.DispatcherNeverStuck | internal/alert/dispatcher.go:36-66 | the dispatcher can always go on while it has something to do |
| EngineWarmup.MaxWindowDuration | internal/detection/engine.go:38-51 | the result is one of the six durations and the largest of them |
| EngineWarmup.WarmupUntil | internal/detection/engine.go:55-66 | start plus the multiplier, or 2 if that is not positive, times the largest of the six durations |
| EngineWarmup.WarmupSafety | internal/detection/engine.go:92-95 | in every run, before start + multiplier * w for each configured w, nothing is fired, admitted, counted, sent or stored, and no detector has been called or holds anything |
| EngineSoundness.TracksRun | internal/detection/engine.go:97-98 | in every interleaving a detector's windows are those of the run made of its own calls and visits |
| EngineSoundness.OriginsRun | internal/detection/engine.go:97-101 | every anomaly of a counting rule was brought up by an evaluation that decided to fire |
| EngineSoundness.OnlyFiredRun | internal/detection/engine.go:117-126 | every anomaly held by a goroutine or sent was brought up before |
| EngineSoundness.MatchingIsLog | internal/detection/error_rate.go:35-46 | the plain log of a key agrees with a count of evaluated entries that mentions no window |
| EngineSoundness.AlertsAreBacked | internal/detection/error_rate.go:35-62 | end to end: every anomaly of a counting rule that the dispatcher takes goes back to an evaluation of its evidence, made when at least the threshold of evaluated entries of the same key were newer than the window, unless a compaction had overwritten the window of that very key before |
| EngineSoundness.ErrorSpikesAreBacked | internal/detection/error_rate.go:35-62 | the same for error_rate_spike in its own terms: at least the threshold of evaluated error entries of that service with timestamps inside the window at the time of firing, unless that service's window had been overwritten before |
| EngineSoundness.AlertsCountAlike | internal/detection/repeated_failure.go:49-76 | the same for all three counting rules in their own terms, without keys: at least the threshold of evaluated entries like the one shown, in the sense of AlikeIff, with timestamps inside the window |
| EngineSoundness.HandledWasTaken | internal/alert/dispatcher.go:36-66 | what the dispatcher stores or alerts, it has taken from the channel |
| EngineSilence.LogsAreEntries | internal/detection/engine.go:97-98 | in every run the silence rule has logged a service exactly as often as the engine passed it an entry of that service |
| EngineSilence.SilenceAlertsAreTrue | internal/detection/engine.go:176-205 | end to end: every silence anomaly that the dispatcher takes is the report of a check that found the service quiet for longer than configured, after it had logged often enough, in every interleaving |
| EngineSoundness.CallFiresExactly | internal/detection/engine.go:97-101 | in every interleaving, while the window concerned has not overflowed, a call to a counting rule brings up an anomaly if and only if the entry counts and the threshold is met by the entries evaluated so far |
| EngineSoundness.CallFiresOnAlike | internal/detection/repeated_failure.go:49-76 | the same without keys: an anomaly comes up if and only if the entry counts and enough entries like it have been evaluated |
| Dispatchers.Dispatcher.Run | internal/alert/dispatcher.go:36-66 | every anomaly received before the loop ends gets one store attempt and, if a channel is configured, one alert attempt, in order; failures are logged; how the loop ends |
| Dispatchers.LoopEnds | internal/alert/dispatcher.go:36-66 | exactly what is received before the channel is closed or the context cancelled is handled, in order; the first ends the loop cleanly, the second with the context's error |
| Dispatchers.NoFailuresIff | internal/alert/dispatcher.go:43-61 | the log shows no failure exactly when everything received was stored and, if a channel is configured, alerted |
| Consumers.Consumer.HandleRecord | internal/kafka/consumer.go:100-105 | sent and then marked, or neither |
| Consumers.Consumer.Run | internal/kafka/consumer.go:64-108 | over any polls, exactly the records whose select sent them are in the channel, in order, and marked; a closed client and a cancelled context end the loop differently |
| Consumers.SentConcat | internal/kafka/consumer.go:92-106 | what is sent is the records of the taken offers, one by one and in order |
| Consumers.LoopEnds | internal/kafka/consumer.go:67-74 | a closed client ends the loop cleanly, a cancelled context with its error, and everything polled before is handled |
| Consumers.MarkAllAbove | internal/kafka/consumer.go:102 | a partition's mark is above an offset exactly when it was before, or a record at or above that offset was sent |
| Consumers.BatchCompleteIff | internal/kafka/consumer.go:92-106 | after a batch no record below its partition's mark was left unsent if and only if nothing was sent after an unsent record of its partition |
| Delivery.ForwardBeforeMark | internal/kafka/consumer.go:100-105 | in every run with any cancellations, crashes and commits, every marked record was put in the channel first, and marks and committed offsets come from marked records |
| Delivery.MarkKeepsCompleteIff | internal/kafka/consumer.go:92-106 | marking a record keeps every fetched record below the mark forwarded if and only if no record of its partition was skipped unforwarded since the restart |
| Delivery.CompleteIffGuarded | internal/kafka/consumer.go:92-106 | over a whole run: at every point every fetched record below its partition's mark has been forwarded if and only if every mark was made under that condition |
| Delivery.RestartSkipsNothing | internal/kafka/consumer.go:92-106 | without cancellation inside a batch, every fetched record that was not forwarded is fetched again after a restart |
| Delivery.OnlyCancellationSkips | internal/kafka/consumer.go:100-105 | a run without cancellation skips nothing |
| Delivery.CancelledFetchesNothing | internal/kafka/consumer.go:65-71 | once the context is cancelled nothing more is fetched until a restart, whatever else happens |
| Delivery.PartitionsInOrder | internal/kafka/consumer.go:92-106 | in every run, between two restarts the workers get the records of each partition in the order of their offsets, none twice |
| Delivery.CancellationLosesARecord | internal/kafka/consumer.go:103-105 | a run in which cancellation inside a batch leaves a record unforwarded below the offset at which the consumer restarts |
| Delivery.Conservation | cmd/server/wire.go:96-116 | in every run every forwarded record is in the channel, with a worker, indexed, or lost in a crash, counted with multiplicity; the channel holds at most 10000 |
| Delivery.OneDocumentIff | internal/elasticsearch/log_indexer.go:50-55 | in every run with any crashes, skips and redeliveries, a record with its own timestamp occupies exactly one document if not every forwarded copy of it is on its way or lost, and otherwise none |
| Delivery.ExactlyOneDocument | internal/elasticsearch/log_indexer.go:50-55 | in every run, a forwarded record with its own timestamp of which no copy is on its way or lost occupies exactly one document, whatever crashes did to other records |
| Delivery.CommittedIsStored | internal/elasticsearch/log_indexer.go:50-55 | if every mark was made under the condition of CompleteIffGuarded, that holds for every fetched record below the committed offset |
| Delivery.CrashDecides | internal/kafka/consumer.go:102 | at a crash, a record below the committed offset is lost for good if and only if no copy of it has been indexed: however the run goes on, it is indexed afterwards exactly if it was before |
| Delivery.CrashLosesIff | internal/kafka/consumer.go:102 | exactly what a crash can lose, in every run: a record can still be indexed afterwards if and only if a copy of it was indexed before or it is at or above the committed offset |
| Delivery.CommittedRecordCanBeLost | internal/kafka/consumer.go:102 | a run in which a committed record is never indexed |
| Documents.DecimalValue | internal/elasticsearch/log_indexer.go:55 | a rendered integer reads back as itself and has no colon |
| Documents.DigitsValue | internal/elasticsearch/log_indexer.go:55 | a rendered natural number has only digits and no leading zero |
| Documents.RenderInjective | internal/elasticsearch/log_indexer.go:55 | partition:offset determines partition and offset |
| Documents.KeyIs | internal/elasticsearch/log_indexer.go:54-55 | the index is that of the UTC day of the entry's timestamp, the record's own or the time of parsing; the hashed text is the decimal partition, a colon and the decimal offset |
| Documents.SameKeyIff | internal/elasticsearch/log_indexer.go:53-55 | two deliveries go to one document if and only if they are of one record, and it has its own timestamp or was parsed on the same day |
| Documents.LogIndexer.IndexLog | internal/elasticsearch/log_indexer.go:53-65 | writes the document under the key of the delivery |
| Documents.DocumentsAre | internal/elasticsearch/log_indexer.go:53-55 | for any deliveries, the documents of a record are exactly those under the keys of its deliveries |
| Documents.OneDocument | internal/elasticsearch/log_indexer.go:51 | for any deliveries in any order, a record with its own timestamp that was delivered occupies exactly one document |
| Documents.ReplayChangesNothing | internal/elasticsearch/log_indexer.go:51 | redelivering records with their own timestamps leaves the store as it is |
| Documents.FallbackIsStoredTwice | internal/pipeline/parser.go:59-62 | a record stamped with the time of parsing, redelivered on another day, occupies two documents |

## Left out

- Integer widths: `head` and durations are unbounded integers; wrap-around after 2^63 additions or nanoseconds is not modelled.
- A window of capacity 0 (the program would panic on the first use); every rule uses 10000.
- `slidingWindow` and `latencyWindow` are two structs with the same code; they are one class here, whose samples always have a breach flag. The error-rate, repeated-failure and authentication-burst rules are likewise one class with a `Kind`.
- The random order of map traversal and clock readings are parameters of the methods.
- `strings.ToLower` outside ASCII; the word boundary and classes of the pattern are ASCII in the program as well.
- Floating point: a duration is a real, an infinity or not-a-number; rounding when an `int` becomes a `float64` and the library's number parser are not modelled (the parser is a parameter).
- Data races: calls into the rules are atomic steps. The program only locks the cooldown map and the silence rule, so this is an assumption for the other rules.
- In the engine's step system the silence watcher's reports are arbitrary anomalies of its own rule name; `EngineSilence` is about the runs in which they are what the rule's checks report, with clock readings under the rule's mutex that never go back.
- The off-hours rule, the latency rule inside the engine's step system (it is an arbitrary detector there) and the normalisation of levels.
- In the engine's step system the eviction loop visits one window or one cooldown entry per step, a finer interleaving than under the lock; shutting the engine down is not modelled.
- Anomaly identifiers, severities and descriptions; the body of a stored document and the random identifier in it.
- JSON and RFC 3339 parsing, calendar dates (an index is a day number) and SHA-256 (an injective constructor).
- Record topics (the program consumes one), fetch errors, rebalancing and lag metrics; the initial offset `newest`, with which a consumer restarting without a committed offset starts behind records that it had fetched before; that a mark never goes back is taken from the client library.
- The bulk indexer's queue: a document counts as stored when it is added; failures of single documents are not modelled.
- HTTP handlers, search, Elasticsearch set-up, configuration loading, logging and Prometheus registration.
