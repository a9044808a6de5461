/** From Kafka to the store as a step system: records are fetched in batches, sent to the
    bounded channel, marked, committed, taken by pipeline workers and indexed; a crash
    loses everything but the committed offsets and the store. */
module Delivery {
  import opened Documents

  const CHANNEL_SIZE := 10000

  /** An offset per partition; 0 when there is none. */
  type Offsets = map<int, int>

  function At(m: Offsets, p: int): int {
    if p in m then m[p] else 0
  }

  datatype State = State(
    position: Offsets,       // where the next fetch starts
    handled: Offsets,        // where handling has got to
    batch: seq<Record>,      // what remains of the current fetch
    sent: bool,              // the first of them is in the channel but not yet marked
    cancelled: bool,
    marks: Offsets,
    committed: Offsets,
    channel: seq<Record>,
    inFlight: multiset<Record>,
    // everything that has happened so far
    fetched: set<Record>,
    skipped: set<Record>,    // since the last restart
    entered: seq<Record>,    // put in the channel since then
    left: seq<Record>,       // taken out of it since then
    marked: set<Record>,
    forwarded: seq<Record>,
    indexed: seq<Delivery>,
    lost: multiset<Record>)

  datatype Step =
    | Fetch(records: seq<Record>)
    | Cancel
    | Send
    | Mark
    | Skip
    | Commit
    | Take
    | Index(rec: Record, now: int)
    | Restart

  function Initial(): State {
    State(map[], map[], [], false, false, map[], map[], [], multiset{}, {}, {}, [], [], {}, [], [], multiset{})
  }

  /** The records continue every partition from the given offsets on. */
  predicate InOrder(from: Offsets, records: seq<Record>)
    decreases |records|
  {
    |records| > 0 ==>
      && At(from, records[0].partition) <= records[0].offset
      && InOrder(Past(from, records[0]), records[1..])
  }

  function Past(from: Offsets, r: Record): Offsets {
    from[r.partition := r.offset + 1]
  }

  function PastAll(from: Offsets, records: seq<Record>): Offsets
    decreases |records|
  {
    if |records| == 0 then from else PastAll(Past(from, records[0]), records[1..])
  }

  /** A fetch leaves out no record that is known to lie in the range it covers. */
  ghost predicate NoneOmitted(from: Offsets, end: Offsets, records: seq<Record>, known: set<Record>) {
    forall r :: r in known && At(from, r.partition) <= r.offset < At(end, r.partition) ==> r in records
  }

  ghost predicate Enabled(st: State, step: Step) {
    match step
    case Fetch(records) =>
      && |st.batch| == 0 && !st.cancelled
      && InOrder(st.position, records)
      && NoneOmitted(st.position, PastAll(st.position, records), records, st.fetched)
    case Cancel => true
    case Send => |st.batch| > 0 && !st.sent && |st.channel| < CHANNEL_SIZE
    case Mark => |st.batch| > 0 && st.sent
    case Skip => |st.batch| > 0 && !st.sent && st.cancelled
    case Commit => true
    case Take => |st.channel| > 0
    case Index(rec, _) => rec in st.inFlight
    case Restart => true
  }

  /** A mark only ever grows. */
  function MarkRecord(marks: Offsets, r: Record): Offsets {
    if At(marks, r.partition) < r.offset + 1 then marks[r.partition := r.offset + 1] else marks
  }

  function Next(st: State, step: Step): State
    requires Enabled(st, step)
  {
    match step
    case Fetch(records) =>
      st.(batch := records, position := PastAll(st.position, records),
          fetched := st.fetched + set r | r in records)
    case Cancel => st.(cancelled := true)
    case Send =>
      st.(sent := true, channel := st.channel + [st.batch[0]], forwarded := st.forwarded + [st.batch[0]],
          entered := st.entered + [st.batch[0]])
    case Mark =>
      st.(sent := false, batch := st.batch[1..], handled := Past(st.handled, st.batch[0]),
          marks := MarkRecord(st.marks, st.batch[0]), marked := st.marked + {st.batch[0]})
    case Skip =>
      st.(batch := st.batch[1..], handled := Past(st.handled, st.batch[0]), skipped := st.skipped + {st.batch[0]})
    case Commit => st.(committed := st.marks)
    case Take =>
      st.(channel := st.channel[1..], inFlight := st.inFlight + multiset{st.channel[0]},
          left := st.left + [st.channel[0]])
    case Index(rec, now) =>
      st.(inFlight := st.inFlight - multiset{rec}, indexed := st.indexed + [Delivery(rec, now)])
    case Restart =>
      st.(position := st.committed, handled := st.committed, marks := st.committed,
          batch := [], sent := false, cancelled := false, skipped := {}, entered := [], left := [],
          channel := [], inFlight := multiset{}, lost := st.lost + multiset(st.channel) + st.inFlight)
  }

  ghost predicate IsRun(steps: seq<Step>)
    decreases |steps|, 0
  {
    |steps| > 0 ==>
      var front := steps[..|steps| - 1];
      IsRun(front) && Enabled(Reached(front), steps[|steps| - 1])
  }

  ghost function Reached(steps: seq<Step>): State
    requires IsRun(steps)
    decreases |steps|, 1
  {
    if |steps| == 0 then Initial()
    else Next(Reached(steps[..|steps| - 1]), steps[|steps| - 1])
  }

  // ----- Forward before mark -----

  /** Every marked record was put in the channel, and marks come from marked records. */
  ghost predicate MarkedAfterSent(st: State) {
    && (forall r :: r in st.marked ==> r in st.forwarded)
    && (st.sent ==> |st.batch| > 0 && st.batch[0] in st.forwarded)
    && (forall p :: p in st.marks ==> Record(p, st.marks[p] - 1) in st.marked)
    && (forall p :: p in st.committed ==> Record(p, st.committed[p] - 1) in st.marked)
  }

  lemma MarkedNext(st: State, step: Step)
    requires Enabled(st, step) && MarkedAfterSent(st)
    ensures MarkedAfterSent(Next(st, step))
  {
  }

  /** In every run, whatever is cancelled and wherever it crashes: forwarded before marked. */
  lemma {:induction false} ForwardBeforeMark(steps: seq<Step>)
    requires IsRun(steps)
    ensures MarkedAfterSent(Reached(steps))
  {
    if |steps| == 0 {
    } else {
      ForwardBeforeMark(steps[..|steps| - 1]);
      MarkedNext(Reached(steps[..|steps| - 1]), steps[|steps| - 1]);
    }
  }

  // ----- What a restart skips -----

  /** Every fetched record below its partition's mark was forwarded. */
  ghost predicate Complete(st: State) {
    forall r :: r in st.fetched && r.offset < At(st.marks, r.partition) ==> r in st.forwarded
  }

  /** Where the consumer stands within the current fetch. */
  ghost predicate Handling(st: State) {
    && InOrder(st.handled, st.batch) && PastAll(st.handled, st.batch) == st.position
    && NoneOmitted(st.handled, st.position, st.batch, st.fetched)
    && (forall r :: r in st.batch ==> r in st.fetched)
    && (forall p :: At(st.committed, p) <= At(st.marks, p) <= At(st.handled, p))
  }

  /** What became of the fetched records. */
  ghost predicate Accounted(st: State) {
    && (forall r :: r in st.fetched ==>
          r in st.forwarded || r in st.skipped || At(st.handled, r.partition) <= r.offset)
    && (forall r :: r in st.skipped ==> r in st.fetched && r.offset < At(st.handled, r.partition))
  }

  lemma {:induction false} InOrderBounds(from: Offsets, records: seq<Record>)
    requires InOrder(from, records)
    ensures forall p :: At(from, p) <= At(PastAll(from, records), p)
    ensures forall r :: r in records ==> At(from, r.partition) <= r.offset < At(PastAll(from, records), r.partition)
    decreases |records|
  {
    if |records| == 0 {
    } else {
      InOrderBounds(Past(from, records[0]), records[1..]);
      assert records == [records[0]] + records[1..];
    }
  }

  lemma HandlingFetch(st: State, records: seq<Record>)
    requires Enabled(st, Fetch(records)) && Handling(st)
    ensures Handling(Next(st, Fetch(records)))
  {
    InOrderBounds(st.position, records);
  }

  /** Moving past the first record of the batch. */
  lemma HandlingFirst(st: State)
    requires Handling(st) && |st.batch| > 0
    ensures var r, past := st.batch[0], Past(st.handled, st.batch[0]);
            && At(st.handled, r.partition) <= r.offset
            && InOrder(past, st.batch[1..]) && PastAll(past, st.batch[1..]) == st.position
            && NoneOmitted(past, st.position, st.batch[1..], st.fetched)
            && (forall q :: q in st.fetched && q.partition == r.partition && At(st.handled, q.partition) <= q.offset ==>
                  q == r || At(past, q.partition) <= q.offset)
  {
    var r := st.batch[0];
    InOrderBounds(Past(st.handled, r), st.batch[1..]);
    assert st.batch == [r] + st.batch[1..];
  }

  lemma HandlingPast(st: State, step: Step)
    requires Enabled(st, step) && Handling(st) && (step.Mark? || step.Skip?)
    ensures Handling(Next(st, step))
  {
    HandlingFirst(st);
    assert st.batch == [st.batch[0]] + st.batch[1..];
  }

  lemma HandlingNext(st: State, step: Step)
    requires Enabled(st, step) && Handling(st)
    ensures Handling(Next(st, step))
  {
    if step.Fetch? {
      HandlingFetch(st, step.records);
    } else if step.Mark? || step.Skip? {
      HandlingPast(st, step);
    }
  }

  /** Marking the next record keeps completeness exactly when every record of its partition
      that was skipped since the restart had been forwarded before. */
  ghost predicate MayMark(st: State)
    requires |st.batch| > 0
  {
    forall r :: r in st.skipped && r.partition == st.batch[0].partition ==> r in st.forwarded
  }

  lemma MarkKeepsCompleteIff(st: State)
    requires Enabled(st, Mark) && Handling(st) && Accounted(st) && MarkedAfterSent(st) && Complete(st)
    ensures Complete(Next(st, Mark)) <==> MayMark(st)
  {
    HandlingFirst(st);
    var r := st.batch[0];
    assert At(Next(st, Mark).marks, r.partition) == r.offset + 1;
    if !MayMark(st) {
      var q :| q in st.skipped && q.partition == r.partition && q !in st.forwarded;
      assert q in st.fetched && q.offset < r.offset + 1;
    }
  }

  lemma CompleteNext(st: State, step: Step)
    requires Enabled(st, step) && Handling(st) && Complete(st) && !step.Mark?
    ensures Complete(Next(st, step))
  {
    if step.Fetch? {
      InOrderBounds(st.position, step.records);
    }
  }

  /** Moving past the first record of the batch, which was forwarded or is now skipped. */
  lemma AccountedPast(st: State, skipped: set<Record>, q: Record)
    requires Handling(st) && Accounted(st) && |st.batch| > 0
    requires st.batch[0] in st.forwarded || st.batch[0] in skipped
    requires st.skipped <= skipped <= st.skipped + {st.batch[0]}
    requires q in st.fetched
    ensures q in st.forwarded || q in skipped || At(Past(st.handled, st.batch[0]), q.partition) <= q.offset
    ensures q in skipped ==> q.offset < At(Past(st.handled, st.batch[0]), q.partition)
  {
    HandlingFirst(st);
  }

  lemma AccountedNext(st: State, step: Step)
    requires Enabled(st, step) && Handling(st) && Accounted(st) && MarkedAfterSent(st) && Complete(st)
    ensures Accounted(Next(st, step))
  {
    if step.Fetch? {
      InOrderBounds(st.position, step.records);
    } else if step.Mark? || step.Skip? {
      var skipped := Next(st, step).skipped;
      assert st.batch[0] in st.fetched;
      forall q | q in st.fetched
        ensures q in st.forwarded || q in skipped || At(Past(st.handled, st.batch[0]), q.partition) <= q.offset
        ensures q in skipped ==> q.offset < At(Past(st.handled, st.batch[0]), q.partition)
      {
        AccountedPast(st, skipped, q);
      }
    }
  }

  /** Every mark of the run is made when it may be. */
  ghost predicate Guarded(steps: seq<Step>)
    requires IsRun(steps)
  {
    |steps| > 0 ==>
      var front, step := steps[..|steps| - 1], steps[|steps| - 1];
      Guarded(front) && (step.Mark? ==> MayMark(Reached(front)))
  }

  /** The marks are complete at every point of the run. */
  ghost predicate AlwaysComplete(steps: seq<Step>)
    requires IsRun(steps)
  {
    Complete(Reached(steps)) && (|steps| > 0 ==> AlwaysComplete(steps[..|steps| - 1]))
  }

  lemma {:induction false} HandlingRun(steps: seq<Step>)
    requires IsRun(steps)
    ensures Handling(Reached(steps))
  {
    if |steps| == 0 {
    } else {
      HandlingRun(steps[..|steps| - 1]);
      HandlingNext(Reached(steps[..|steps| - 1]), steps[|steps| - 1]);
    }
  }

  lemma {:induction false} AccountedRun(steps: seq<Step>)
    requires IsRun(steps) && AlwaysComplete(steps)
    ensures Accounted(Reached(steps))
  {
    if |steps| == 0 {
    } else {
      var front := steps[..|steps| - 1];
      AccountedRun(front);
      HandlingRun(front);
      ForwardBeforeMark(front);
      AccountedNext(Reached(front), steps[|steps| - 1]);
    }
  }

  /** In every run, with any cancellations and crashes: at every point every fetched record
      below its partition's mark has been forwarded, if and only if every mark was made
      when no record of its partition had been skipped for good. */
  lemma {:induction false} CompleteIffGuarded(steps: seq<Step>)
    requires IsRun(steps)
    ensures AlwaysComplete(steps) <==> Guarded(steps)
  {
    if |steps| == 0 {
    } else {
      var front, step := steps[..|steps| - 1], steps[|steps| - 1];
      CompleteIffGuarded(front);
      if AlwaysComplete(front) {
        HandlingRun(front);
        AccountedRun(front);
        ForwardBeforeMark(front);
        if step.Mark? {
          MarkKeepsCompleteIff(Reached(front));
        } else {
          CompleteNext(Reached(front), step);
        }
      }
    }
  }

  ghost predicate NeverSkips(steps: seq<Step>) {
    forall i :: 0 <= i < |steps| ==> !steps[i].Skip?
  }

  lemma NothingSkippedNext(st: State, step: Step)
    requires Enabled(st, step) && st.skipped == {} && !step.Skip?
    ensures Next(st, step).skipped == {}
  {
  }

  lemma {:induction false} NothingSkipped(steps: seq<Step>)
    requires IsRun(steps) && NeverSkips(steps)
    ensures Reached(steps).skipped == {} && Guarded(steps)
  {
    if |steps| == 0 {
    } else {
      NothingSkipped(steps[..|steps| - 1]);
      NothingSkippedNext(Reached(steps[..|steps| - 1]), steps[|steps| - 1]);
    }
  }

  /** Without cancellation in the middle of a batch, restarting from the committed offsets
      skips nothing: every fetched record that was not forwarded is fetched again. */
  lemma RestartSkipsNothing(steps: seq<Step>, r: Record)
    requires IsRun(steps) && NeverSkips(steps)
    requires r in Reached(steps).fetched && r !in Reached(steps).forwarded
    ensures At(Next(Reached(steps), Restart).position, r.partition) <= r.offset
  {
    NothingSkipped(steps);
    CompleteIffGuarded(steps);
    HandlingRun(steps);
  }

  lemma Extend(before: seq<Step>, st: State, step: Step) returns (steps: seq<Step>, st': State)
    requires IsRun(before) && Reached(before) == st && Enabled(st, step)
    ensures steps == before + [step] && st' == Next(st, step)
    ensures IsRun(steps) && Reached(steps) == st'
  {
    steps, st' := before + [step], Next(st, step);
    assert steps[..|before|] == before;
  }

  /** Two records of a new partition may be fetched first. */
  lemma FetchTwo(r: Record, next: Record)
    requires r == Record(0, 0) && next == Record(0, 1)
    ensures InOrder(map[], [r, next]) && PastAll(map[], [r, next]) == map[0 := 2]
  {
    var past: Offsets := Past(map[], r);
    assert past == map[0 := 1] && [r, next][1..] == [next];
    assert Past(past, next) == map[0 := 2] && [next][1..] == [];
    assert PastAll(past, [next]) == PastAll(Past(past, next), []);
  }

  /** Cancellation skips the first of the two. */
  lemma SkipFirst(r: Record, next: Record) returns (steps: seq<Step>, st: State)
    requires r == Record(0, 0) && next == Record(0, 1)
    ensures IsRun(steps) && Reached(steps) == st
    ensures st.batch == [next] && !st.sent && st.cancelled
    ensures st.channel == [] && st.forwarded == [] && st.marks == map[] && r in st.fetched
  {
    FetchTwo(r, next);
    steps, st := Extend([], Initial(), Fetch([r, next]));
    assert r in st.fetched && st.batch == [r, next];
    steps, st := Extend(steps, st, Cancel);
    steps, st := Extend(steps, st, Skip);
  }

  /** The second is sent and marked all the same. */
  lemma SendSecond(before: seq<Step>, st: State, r: Record, next: Record) returns (steps: seq<Step>, st': State)
    requires r == Record(0, 0) && next == Record(0, 1)
    requires IsRun(before) && Reached(before) == st
    requires st.batch == [next] && !st.sent && st.cancelled
    requires st.channel == [] && st.forwarded == [] && st.marks == map[] && r in st.fetched
    ensures IsRun(steps) && Reached(steps) == st'
    ensures st'.forwarded == [next] && st'.marks == map[0 := 2] && r in st'.fetched
  {
    steps, st' := Extend(before, st, Send);
    steps, st' := Extend(steps, st', Mark);
  }

  /** Why mid-batch cancellation must be excluded: leaving the handler of one record does
      not leave the batch. The next record can still be sent and marked, and the skipped
      one is then below the offset at which the consumer restarts. */
  lemma CancellationLosesARecord() returns (steps: seq<Step>, r: Record)
    ensures IsRun(steps)
    ensures var st := Reached(steps);
            r in st.fetched && r !in st.forwarded && r.offset < At(st.position, r.partition)
  {
    r := Record(0, 0);
    var next, st := Record(0, 1), Initial();
    steps, st := SkipFirst(r, next);
    steps, st := SendSecond(steps, st, r, next);
    steps, st := Extend(steps, st, Commit);
    steps, st := Extend(steps, st, Restart);
  }

  // ----- The order in which workers get the records -----

  /** The channel is a queue, and of each partition only ever later records enter it. */
  ghost predicate InSequence(st: State) {
    && st.entered == st.left + st.channel
    && (forall i, j :: 0 <= i < j < |st.entered| && st.entered[i].partition == st.entered[j].partition ==>
          st.entered[i].offset < st.entered[j].offset)
    && (st.sent ==> |st.batch| > 0 && |st.entered| > 0 && st.entered[|st.entered| - 1] == st.batch[0])
    && forall i :: 0 <= i < |st.entered| - (if st.sent then 1 else 0) ==>
         st.entered[i].offset < At(st.handled, st.entered[i].partition)
  }

  lemma FirstIsNext(st: State)
    requires Handling(st) && |st.batch| > 0
    ensures At(st.handled, st.batch[0].partition) <= st.batch[0].offset
  {
  }

  lemma SequencePast(st: State, step: Step)
    requires Enabled(st, step) && Handling(st) && InSequence(st) && (step.Mark? || step.Skip?)
    ensures InSequence(Next(st, step))
  {
    var r, st' := st.batch[0], Next(st, step);
    FirstIsNext(st);
    forall i | 0 <= i < |st.entered|
      ensures st.entered[i].offset < At(st'.handled, st.entered[i].partition)
    {
      assert At(st.handled, st.entered[i].partition) <= At(st'.handled, st.entered[i].partition);
    }
  }

  lemma SequenceSend(st: State)
    requires Enabled(st, Send) && Handling(st) && InSequence(st)
    ensures InSequence(Next(st, Send))
  {
    FirstIsNext(st);
    assert st.entered + [st.batch[0]] == st.left + (st.channel + [st.batch[0]]);
  }

  lemma SequenceTake(st: State)
    requires Enabled(st, Take) && InSequence(st)
    ensures InSequence(Next(st, Take))
  {
    assert st.channel == [st.channel[0]] + st.channel[1..];
  }

  /** The steps away from the channel. */
  lemma SequenceStays(st: State, st': State)
    requires InSequence(st) && st'.sent == st.sent && (st.sent ==> st'.batch == st.batch)
    requires st'.entered == st.entered && st'.left == st.left && st'.channel == st.channel && st'.handled == st.handled
    ensures InSequence(st')
  {
  }

  lemma SequenceNext(st: State, step: Step)
    requires Enabled(st, step) && Handling(st) && InSequence(st)
    ensures InSequence(Next(st, step))
  {
    if step.Mark? || step.Skip? {
      SequencePast(st, step);
    } else if step.Send? {
      SequenceSend(st);
    } else if step.Take? {
      SequenceTake(st);
    } else if !step.Restart? {
      SequenceStays(st, Next(st, step));
    }
  }

  lemma {:induction false} SequenceRun(steps: seq<Step>)
    requires IsRun(steps)
    ensures InSequence(Reached(steps))
  {
    if |steps| == 0 {
    } else {
      var front := steps[..|steps| - 1];
      SequenceRun(front);
      HandlingRun(front);
      SequenceNext(Reached(front), steps[|steps| - 1]);
    }
  }

  /** In every run, between two restarts the workers get the records of each partition in
      the order of their offsets, none of them twice. */
  lemma PartitionsInOrder(steps: seq<Step>, i: nat, j: nat)
    requires IsRun(steps) && i < j < |Reached(steps).left|
    requires Reached(steps).left[i].partition == Reached(steps).left[j].partition
    ensures Reached(steps).left[i].offset < Reached(steps).left[j].offset
  {
    var st := Reached(steps);
    SequenceRun(steps);
    assert st.entered[i] == st.left[i] && st.entered[j] == st.left[j];
  }

  lemma NotCancelledNext(st: State, step: Step)
    requires Enabled(st, step) && !st.cancelled && !step.Cancel?
    ensures !step.Skip? && !Next(st, step).cancelled
  {
  }

  /** Nothing is skipped unless the context was cancelled. */
  lemma {:induction false} OnlyCancellationSkips(steps: seq<Step>)
    requires IsRun(steps) && forall i :: 0 <= i < |steps| ==> !steps[i].Cancel?
    ensures NeverSkips(steps) && !Reached(steps).cancelled
  {
    if |steps| == 0 {
    } else {
      var front := steps[..|steps| - 1];
      OnlyCancellationSkips(front);
      NotCancelledNext(Reached(front), steps[|steps| - 1]);
      assert forall i :: 0 <= i < |front| ==> front[i] == steps[i];
    }
  }

  lemma CancelledNext(st: State, step: Step)
    requires Enabled(st, step) && st.cancelled && !step.Restart?
    ensures Next(st, step).cancelled && Next(st, step).fetched == st.fetched
  {
  }

  /** Once the context is cancelled, nothing is fetched until the next restart. */
  lemma {:induction false} CancelledFetchesNothing(steps: seq<Step>, more: seq<Step>)
    requires IsRun(steps) && Reached(steps).cancelled && IsRun(steps + more)
    requires forall i :: 0 <= i < |more| ==> !more[i].Restart?
    ensures Reached(steps + more).cancelled && Reached(steps + more).fetched == Reached(steps).fetched
  {
    if |more| == 0 {
      assert steps + more == steps;
    } else {
      var front := more[..|more| - 1];
      assert (steps + more)[..|steps + more| - 1] == steps + front;
      CancelledFetchesNothing(steps, front);
      CancelledNext(Reached(steps + front), more[|more| - 1]);
    }
  }

  // ----- After the channel -----

  function RecordsOf(ds: seq<Delivery>): multiset<Record> {
    if |ds| == 0 then multiset{} else RecordsOf(ds[..|ds| - 1]) + multiset{ds[|ds| - 1].rec}
  }

  lemma RecordsSnoc(ds: seq<Delivery>, d: Delivery)
    ensures RecordsOf(ds + [d]) == RecordsOf(ds) + multiset{d.rec}
  {
    assert (ds + [d])[..|ds|] == ds;
  }

  lemma {:induction false} RecordsDelivered(ds: seq<Delivery>, r: Record) returns (i: nat)
    requires r in RecordsOf(ds)
    ensures i < |ds| && ds[i].rec == r
  {
    if ds[|ds| - 1].rec == r {
      i := |ds| - 1;
    } else {
      i := RecordsDelivered(ds[..|ds| - 1], r);
    }
  }

  /** Every forwarded record is in the channel, with a worker, indexed, or lost in a crash. */
  ghost predicate Conserved(st: State) {
    && multiset(st.forwarded) == multiset(st.channel) + st.inFlight + RecordsOf(st.indexed) + st.lost
    && |st.channel| <= 10000
  }

  lemma ConservedTake(st: State)
    requires Enabled(st, Take) && Conserved(st)
    ensures Conserved(Next(st, Take))
  {
    assert st.channel == [st.channel[0]] + st.channel[1..];
  }

  lemma ConservedIndex(st: State, rec: Record, now: int)
    requires Enabled(st, Index(rec, now)) && Conserved(st)
    ensures Conserved(Next(st, Index(rec, now)))
  {
    RecordsSnoc(st.indexed, Delivery(rec, now));
  }

  lemma ConservedRestart(st: State)
    requires Conserved(st)
    ensures Conserved(Next(st, Restart))
  {
  }

  lemma ConservedNext(st: State, step: Step)
    requires Enabled(st, step) && Conserved(st)
    ensures Conserved(Next(st, step))
  {
    if step.Take? {
      ConservedTake(st);
    } else if step.Index? {
      ConservedIndex(st, step.rec, step.now);
    } else if step.Restart? {
      ConservedRestart(st);
    }
  }

  lemma {:induction false} Conservation(steps: seq<Step>)
    requires IsRun(steps)
    ensures Conserved(Reached(steps))
  {
    if |steps| == 0 {
    } else {
      Conservation(steps[..|steps| - 1]);
      ConservedNext(Reached(steps[..|steps| - 1]), steps[|steps| - 1]);
    }
  }

  /** Copies of a record that were forwarded but are on their way or lost. */
  function Unindexed(st: State, r: Record): nat {
    multiset(st.channel)[r] + st.inFlight[r] + st.lost[r]
  }

  lemma IndexedIff(steps: seq<Step>, r: Record)
    requires IsRun(steps)
    ensures r in RecordsOf(Reached(steps).indexed) <==> multiset(Reached(steps).forwarded)[r] > Unindexed(Reached(steps), r)
  {
    Conservation(steps);
  }

  /** Exactly once, in every run with any crashes, skips and redeliveries: a record with its
      own timestamp occupies exactly one document if and only if not every forwarded copy of
      it is on its way or lost; otherwise it occupies none. */
  lemma OneDocumentIff(parsed: map<Record, int>, steps: seq<Step>, r: Record)
    requires IsRun(steps) && r in parsed
    ensures var st, n := Reached(steps), |DocumentsOf(DocumentsAfter(parsed, Reached(steps).indexed), r)|;
            if multiset(st.forwarded)[r] > Unindexed(st, r) then n == 1 else n == 0
  {
    var ds := Reached(steps).indexed;
    IndexedIff(steps, r);
    if r in RecordsOf(ds) {
      var i := RecordsDelivered(ds, r);
      OneDocument(parsed, ds, i);
    } else {
      DocumentsAre(parsed, ds, r);
      forall i | 0 <= i < |ds|
        ensures ds[i].rec != r
      {
        DeliveredCounts(ds, i);
      }
    }
  }

  lemma {:induction false} DeliveredCounts(ds: seq<Delivery>, i: nat)
    requires i < |ds|
    ensures ds[i].rec in RecordsOf(ds)
  {
    if i == |ds| - 1 {
    } else {
      DeliveredCounts(ds[..|ds| - 1], i);
    }
  }

  /** So a forwarded record of which no copy is on its way or lost occupies exactly one
      document, whatever happened to other records. */
  lemma ExactlyOneDocument(parsed: map<Record, int>, steps: seq<Step>, r: Record)
    requires IsRun(steps) && r in parsed && r in Reached(steps).forwarded && Unindexed(Reached(steps), r) == 0
    ensures |DocumentsOf(DocumentsAfter(parsed, Reached(steps).indexed), r)| == 1
  {
    assert r in multiset(Reached(steps).forwarded);
    OneDocumentIff(parsed, steps, r);
  }

  /** That applies to every fetched record below the committed offset, if the marks were
      made when they may be. */
  lemma CommittedIsStored(parsed: map<Record, int>, steps: seq<Step>, r: Record)
    requires IsRun(steps) && Guarded(steps) && r in parsed && Unindexed(Reached(steps), r) == 0
    requires r in Reached(steps).fetched && r.offset < At(Reached(steps).committed, r.partition)
    ensures |DocumentsOf(DocumentsAfter(parsed, Reached(steps).indexed), r)| == 1
  {
    CompleteIffGuarded(steps);
    HandlingRun(steps);
    ExactlyOneDocument(parsed, steps, r);
  }

  // ----- What a crash loses -----

  /** The record lies below every offset that the consumer will ever go back to, and no copy
      of it is on its way. */
  ghost predicate Passed(st: State, r: Record) {
    && r.offset < At(st.committed, r.partition) && Handling(st)
    && r !in st.batch && r !in st.channel && st.inFlight[r] == 0
  }

  lemma PassedFetch(st: State, records: seq<Record>, r: Record)
    requires Enabled(st, Fetch(records)) && Passed(st, r)
    ensures r !in records
  {
    InOrderBounds(st.position, records);
    InOrderBounds(st.handled, st.batch);
  }

  lemma PassedNext(st: State, step: Step, r: Record)
    requires Enabled(st, step) && Passed(st, r)
    ensures Passed(Next(st, step), r)
    ensures r in RecordsOf(Next(st, step).indexed) <==> r in RecordsOf(st.indexed)
  {
    HandlingNext(st, step);
    if step.Fetch? {
      PassedFetch(st, step.records, r);
    } else if step.Index? {
      RecordsSnoc(st.indexed, Delivery(step.rec, step.now));
    }
  }

  lemma {:induction false} NeverIndexedAgain(steps: seq<Step>, more: seq<Step>, r: Record)
    requires IsRun(steps) && Passed(Reached(steps), r) && IsRun(steps + more)
    ensures Passed(Reached(steps + more), r)
    ensures r in RecordsOf(Reached(steps + more).indexed) <==> r in RecordsOf(Reached(steps).indexed)
  {
    if |more| == 0 {
      assert steps + more == steps;
    } else {
      var front := more[..|more| - 1];
      assert (steps + more)[..|steps + more| - 1] == steps + front;
      NeverIndexedAgain(steps, front, r);
      PassedNext(Reached(steps + front), more[|more| - 1], r);
    }
  }

  /** A crash decides about every record below the committed offset: however the run goes on
      after it, the record is ever indexed if and only if a copy was indexed before. */
  lemma CrashDecides(steps: seq<Step>, more: seq<Step>, r: Record)
    requires IsRun(steps) && r.offset < At(Reached(steps).committed, r.partition)
    requires IsRun(steps + [Restart] + more)
    ensures r in RecordsOf(Reached(steps + [Restart] + more).indexed) <==> r in RecordsOf(Reached(steps).indexed)
  {
    var crashed := steps + [Restart];
    assert crashed[..|steps|] == steps;
    HandlingRun(crashed);
    NeverIndexedAgain(crashed, more, r);
  }

  // ----- What a crash cannot lose -----

  /** The known records of a partition with offsets in a range, in order. */
  function Range(known: set<Record>, p: int, from: int, end: int): seq<Record>
    decreases end - from
  {
    if from >= end then []
    else (if Record(p, from) in known then [Record(p, from)] else []) + Range(known, p, from + 1, end)
  }

  lemma {:induction false} RangeHas(known: set<Record>, p: int, from: int, end: int, q: Record)
    ensures q in Range(known, p, from, end) <==> q in known && q.partition == p && from <= q.offset < end
    decreases end - from
  {
    if from >= end {
    } else {
      RangeHas(known, p, from + 1, end, q);
    }
  }

  lemma {:induction false} RangeInOrder(pos: Offsets, known: set<Record>, p: int, from: int, end: int)
    requires At(pos, p) <= from
    ensures InOrder(pos, Range(known, p, from, end))
    ensures forall q :: q != p ==> At(PastAll(pos, Range(known, p, from, end)), q) == At(pos, q)
    ensures At(PastAll(pos, Range(known, p, from, end)), p) <= (if from < end then end else At(pos, p))
    decreases end - from
  {
    if from >= end {
    } else if Record(p, from) in known {
      var first, rest := Record(p, from), Range(known, p, from + 1, end);
      RangeInOrder(Past(pos, first), known, p, from + 1, end);
      assert ([first] + rest)[1..] == rest;
    } else {
      RangeInOrder(pos, known, p, from + 1, end);
      assert [] + Range(known, p, from + 1, end) == Range(known, p, from + 1, end);
    }
  }

  /** A record at or above the position of its partition can be fetched again, together with
      the known records before it. */
  lemma Fetchable(st: State, r: Record) returns (records: seq<Record>)
    requires st.batch == [] && !st.cancelled && At(st.position, r.partition) <= r.offset
    ensures Enabled(st, Fetch(records)) && r in records
  {
    var p, from, end := r.partition, At(st.position, r.partition), r.offset + 1;
    var known := st.fetched + {r};
    records := Range(known, p, from, end);
    RangeInOrder(st.position, known, p, from, end);
    RangeHas(known, p, from, end, r);
    forall q | q in st.fetched && At(st.position, q.partition) <= q.offset < At(PastAll(st.position, records), q.partition)
      ensures q in records
    {
      RangeHas(known, p, from, end, q);
    }
  }

  ghost predicate Indexes(steps: seq<Step>, r: Record) {
    IsRun(steps) && r in RecordsOf(Reached(steps).indexed)
  }

  /** Whoever waits in an empty channel goes to the store. */
  lemma Process(before: seq<Step>, st: State, r: Record) returns (steps: seq<Step>, st': State)
    requires IsRun(before) && Reached(before) == st && st.channel == [r]
    ensures before <= steps && IsRun(steps) && Reached(steps) == st'
    ensures st'.batch == st.batch && st'.sent == st.sent && st'.channel == []
    ensures st'.indexed == st.indexed + [Delivery(r, 0)]
  {
    steps, st' := Extend(before, st, Take);
    steps, st' := Extend(steps, st', Index(r, 0));
  }

  lemma HandOver(before: seq<Step>, st: State) returns (steps: seq<Step>, st': State)
    requires IsRun(before) && Reached(before) == st && |st.batch| > 0 && !st.sent && st.channel == []
    ensures before <= steps && IsRun(steps) && Reached(steps) == st'
    ensures st'.batch == st.batch[1..] && !st'.sent && st'.channel == [st.batch[0]]
    ensures st'.indexed == st.indexed
  {
    steps, st' := Extend(before, st, Send);
    steps, st' := Extend(steps, st', Mark);
  }

  lemma DeliverFirst(before: seq<Step>, st: State, r: Record) returns (steps: seq<Step>, st': State)
    requires IsRun(before) && Reached(before) == st && |st.batch| > 0 && !st.sent && st.channel == []
    ensures before <= steps && IsRun(steps) && Reached(steps) == st'
    ensures st'.batch == st.batch[1..] && !st'.sent && st'.channel == []
    ensures Due(st, r) ==> Due(st', r)
  {
    var handed, between := HandOver(before, st);
    steps, st' := Process(handed, between, st.batch[0]);
    DueStays(st, st', r);
  }

  /** In the batch or already indexed. */
  ghost predicate Due(st: State, r: Record) {
    r in st.batch || r in RecordsOf(st.indexed)
  }

  lemma DueStays(st: State, st': State, r: Record)
    requires |st.batch| > 0 && st'.batch == st.batch[1..]
    requires st'.indexed == st.indexed + [Delivery(st.batch[0], 0)]
    ensures Due(st, r) ==> Due(st', r)
  {
    RecordsSnoc(st.indexed, Delivery(st.batch[0], 0));
    assert st.batch == [st.batch[0]] + st.batch[1..];
  }

  /** A whole batch can go all the way. */
  lemma DeliverAll(before: seq<Step>, st: State, r: Record) returns (steps: seq<Step>)
    requires IsRun(before) && Reached(before) == st && !st.sent && st.channel == [] && Due(st, r)
    ensures before <= steps && Indexes(steps, r)
    decreases |st.batch|
  {
    if |st.batch| == 0 {
      steps := before;
    } else {
      var next, after := DeliverFirst(before, st, r);
      steps := DeliverAll(next, after, r);
    }
  }

  lemma Redelivers(steps: seq<Step>, r: Record) returns (all: seq<Step>)
    requires IsRun(steps) && r.offset >= At(Reached(steps).committed, r.partition)
    ensures steps + [Restart] <= all && Indexes(all, r)
  {
    var crashed, st := Extend(steps, Reached(steps), Restart);
    var records := Fetchable(st, r);
    var fetched, st' := Extend(crashed, st, Fetch(records));
    all := DeliverAll(fetched, st', r);
  }

  /** The run can go on after a crash so that the record is indexed in the end. */
  ghost predicate Recoverable(steps: seq<Step>, r: Record) {
    exists more :: Indexes(steps + [Restart] + more, r)
  }

  lemma RecoverableBy(steps: seq<Step>, all: seq<Step>, r: Record)
    requires steps + [Restart] <= all && Indexes(all, r)
    ensures Recoverable(steps, r)
  {
    assert steps + [Restart] + all[|steps + [Restart]|..] == all;
  }

  lemma StaysIndexed(steps: seq<Step>, r: Record)
    requires Indexes(steps, r)
    ensures Recoverable(steps, r)
  {
    var crashed, st := Extend(steps, Reached(steps), Restart);
    RecoverableBy(steps, crashed, r);
  }

  lemma StaysLost(steps: seq<Step>, more: seq<Step>, r: Record)
    requires IsRun(steps) && !Indexes(steps, r) && r.offset < At(Reached(steps).committed, r.partition)
    ensures !Indexes(steps + [Restart] + more, r)
  {
    if IsRun(steps + [Restart] + more) {
      CrashDecides(steps, more, r);
    }
  }

  /** Exactly what a crash can lose: a record is still indexed in some continuation of the
      run if and only if a copy of it was indexed before or it is not yet below the
      committed offset of its partition. */
  lemma CrashLosesIff(steps: seq<Step>, r: Record)
    requires IsRun(steps)
    ensures Recoverable(steps, r) <==> Indexes(steps, r) || r.offset >= At(Reached(steps).committed, r.partition)
  {
    if r.offset >= At(Reached(steps).committed, r.partition) {
      var all := Redelivers(steps, r);
      RecoverableBy(steps, all, r);
    } else if Indexes(steps, r) {
      StaysIndexed(steps, r);
    } else if Recoverable(steps, r) {
      var more :| Indexes(steps + [Restart] + more, r);
      StaysLost(steps, more, r);
    }
  }

  /** Why crashes must not hit records on their way: offsets are marked when a record enters
      the channel, not when it has been processed, so a committed record can be lost. */
  lemma CommittedRecordCanBeLost() returns (steps: seq<Step>, r: Record)
    ensures IsRun(steps) && NeverSkips(steps)
    ensures var st := Reached(steps);
            && r in st.fetched && r.offset < At(st.position, r.partition)
            && st.indexed == [] && st.channel == [] && st.inFlight == multiset{}
  {
    r := Record(0, 0);
    assert InOrder(map[], [r]) && [r][1..] == [];
    var st;
    steps, st := Extend([], Initial(), Fetch([r]));
    assert r in st.fetched;
    steps, st := Extend(steps, st, Send);
    steps, st := Extend(steps, st, Mark);
    steps, st := Extend(steps, st, Commit);
    steps, st := Extend(steps, st, Restart);
  }

  /** The consumer waits for the channel exactly while it holds 10000 records. */
  lemma SendWaitsIff(st: State)
    requires |st.batch| > 0 && !st.sent && |st.channel| <= 10000
    ensures !Enabled(st, Send) <==> |st.channel| == 10000
  {
  }

  /** Cancellations, commits and crashes may come at any time, and workers may take and index
      records in any order; a fetch may yield any records that continue the partitions. */
  lemma AnythingMayHappen(st: State, records: seq<Record>, now: int)
    ensures Enabled(st, Cancel) && Enabled(st, Commit) && Enabled(st, Restart)
    ensures Enabled(st, Take) <==> st.channel != []
    ensures forall r :: Enabled(st, Index(r, now)) <==> r in st.inFlight
    ensures Enabled(st, Skip) <==> st.batch != [] && !st.sent && st.cancelled
    ensures Enabled(st, Mark) <==> st.batch != [] && st.sent
    ensures Enabled(st, Fetch(records))
       <==> && st.batch == [] && !st.cancelled && InOrder(st.position, records)
            && NoneOmitted(st.position, PastAll(st.position, records), records, st.fetched)
  {
  }
}
