/** The consumer's poll loop: every fetched record is sent to the channel and then marked,
    unless its select takes the cancellation instead. */
module Consumers {
  import opened Documents
  import opened Delivery

  /** A fetched record, and whether its select sends it or takes the cancelled context, in
      which case only this record's handler returns. */
  datatype Offer = Offer(rec: Record, taken: bool)

  /** What a poll yields. */
  datatype Poll =
    | ClientClosed
    | ContextDone
    | Fetched(offers: seq<Offer>)

  datatype Exit = Clean | Cancelled | Polling

  function Sent(offers: seq<Offer>): seq<Record> {
    if |offers| == 0 then []
    else
      var last := offers[|offers| - 1];
      Sent(offers[..|offers| - 1]) + if last.taken then [last.rec] else []
  }

  function MarkAll(marks: Offsets, sent: seq<Record>): Offsets {
    if |sent| == 0 then marks else MarkRecord(MarkAll(marks, sent[..|sent| - 1]), sent[|sent| - 1])
  }

  /** The polls before the loop ends. */
  function Batches(polls: seq<Poll>): seq<Offer> {
    if |polls| == 0 || !polls[0].Fetched? then [] else polls[0].offers + Batches(polls[1..])
  }

  function ExitOf(polls: seq<Poll>): Exit {
    if |polls| == 0 then Polling
    else
      match polls[0]
      case ClientClosed => Clean
      case ContextDone => Cancelled
      case Fetched(_) => ExitOf(polls[1..])
  }

  /** What handling some offers leaves behind. */
  ghost predicate Outcome(out: seq<Record>, marks: Offsets, offers: seq<Offer>, out': seq<Record>, marks': Offsets) {
    out' == out + Sent(offers) && marks' == MarkAll(marks, Sent(offers))
  }

  lemma SentSnoc(offers: seq<Offer>, o: Offer)
    ensures Sent(offers + [o]) == if o.taken then Sent(offers) + [o.rec] else Sent(offers)
  {
    assert (offers + [o])[..|offers|] == offers;
  }

  lemma MarkAllSnoc(marks: Offsets, sent: seq<Record>, r: Record)
    ensures MarkAll(marks, sent + [r]) == MarkRecord(MarkAll(marks, sent), r)
  {
    assert (sent + [r])[..|sent|] == sent;
  }

  lemma OutcomeSnoc(out: seq<Record>, marks: Offsets, offers: seq<Offer>, out': seq<Record>, marks': Offsets, o: Offer)
    requires Outcome(out, marks, offers, out', marks')
    ensures o.taken ==> Outcome(out, marks, offers + [o], out' + [o.rec], MarkRecord(marks', o.rec))
    ensures !o.taken ==> Outcome(out, marks, offers + [o], out', marks')
  {
    SentSnoc(offers, o);
    if o.taken {
      MarkAllSnoc(marks, Sent(offers), o.rec);
      assert out + Sent(offers) + [o.rec] == out + (Sent(offers) + [o.rec]);
    }
  }

  /** The first i polls have fetched `done`, and the loop has not ended. */
  ghost predicate Remaining(polls: seq<Poll>, i: nat, done: seq<Offer>) {
    i <= |polls| && Batches(polls) == done + Batches(polls[i..]) && ExitOf(polls) == ExitOf(polls[i..])
  }

  lemma RemainingStep(polls: seq<Poll>, i: nat, done: seq<Offer>)
    requires i < |polls| && Remaining(polls, i, done)
    ensures if polls[i].Fetched? then Remaining(polls, i + 1, done + polls[i].offers)
            else Batches(polls) == done && ExitOf(polls) == if polls[i].ClientClosed? then Clean else Cancelled
  {
    var rest := polls[i..];
    assert rest[0] == polls[i] && rest[1..] == polls[i + 1..];
    if polls[i].Fetched? {
      assert done + polls[i].offers + Batches(polls[i + 1..]) == done + Batches(rest);
    } else {
      assert done + [] == done;
    }
  }

  lemma RemainingDone(polls: seq<Poll>, done: seq<Offer>)
    requires Remaining(polls, |polls|, done)
    ensures Batches(polls) == done && ExitOf(polls) == Polling
  {
    assert done + [] == done;
  }

  class Consumer {
    var out: seq<Record>
    var marks: Offsets

    constructor ()
      ensures out == [] && marks == map[]
    {
      out, marks := [], map[];
    }

    method HandleRecord(o: Offer)
      modifies this
      ensures out == if o.taken then old(out) + [o.rec] else old(out)
      ensures marks == if o.taken then MarkRecord(old(marks), o.rec) else old(marks)
    {
      if o.taken {
        var r := o.rec;
        out := out + [r];
        if At(marks, r.partition) < r.offset + 1 {
          marks := marks[r.partition := r.offset + 1];
        }
      }
    }

    /** `before` are the offers handled since the state (out0, marks0). */
    method HandleBatch(offers: seq<Offer>, ghost before: seq<Offer>, ghost out0: seq<Record>, ghost marks0: Offsets)
      requires Outcome(out0, marks0, before, out, marks)
      modifies this
      ensures Outcome(out0, marks0, before + offers, out, marks)
    {
      assert before + offers[..0] == before;
      for i := 0 to |offers|
        invariant Outcome(out0, marks0, before + offers[..i], out, marks)
      {
        OutcomeSnoc(out0, marks0, before + offers[..i], out, marks, offers[i]);
        HandleRecord(offers[i]);
        assert before + offers[..i] + [offers[i]] == before + offers[..i + 1];
      }
      assert offers[..|offers|] == offers;
    }

    method Run(polls: seq<Poll>) returns (exit: Exit)
      modifies this
      ensures out == old(out) + Sent(Batches(polls))
      ensures marks == MarkAll(old(marks), Sent(Batches(polls)))
      ensures exit == ExitOf(polls)
    {
      ghost var done: seq<Offer> := [];
      for i := 0 to |polls|
        invariant Remaining(polls, i, done)
        invariant Outcome(old(out), old(marks), done, out, marks)
      {
        RemainingStep(polls, i, done);
        match polls[i]
        case ClientClosed =>
          return Clean;
        case ContextDone =>
          return Cancelled;
        case Fetched(offers) =>
          HandleBatch(offers, done, old(out), old(marks));
          done := done + offers;
      }
      RemainingDone(polls, done);
      exit := Polling;
    }
  }

  // ----- What a batch leaves marked -----

  function RecordsIn(offers: seq<Offer>): (rs: seq<Record>)
    ensures |rs| == |offers|
  {
    seq(|offers|, i requires 0 <= i < |offers| => offers[i].rec)
  }

  /** A partition's mark is above an offset exactly when it was, or when some record at or
      above that offset was sent. */
  lemma {:induction false} MarkAllAbove(marks: Offsets, sent: seq<Record>, p: int, o: int)
    ensures o < At(MarkAll(marks, sent), p)
       <==> o < At(marks, p) || exists j :: 0 <= j < |sent| && sent[j].partition == p && o <= sent[j].offset
  {
    if |sent| == 0 {
    } else {
      var front := sent[..|sent| - 1];
      MarkAllAbove(marks, front, p, o);
      assert forall j :: 0 <= j < |front| ==> sent[j] == front[j];
    }
  }

  lemma {:induction false} SentAre(offers: seq<Offer>, r: Record)
    ensures r in Sent(offers) <==> Offer(r, true) in offers
  {
    if |offers| == 0 {
    } else {
      var front := offers[..|offers| - 1];
      SentAre(front, r);
      assert offers == front + [offers[|offers| - 1]];
    }
  }

  lemma {:induction false} InOrderIncreasing(from: Offsets, records: seq<Record>, i: nat, j: nat)
    requires InOrder(from, records) && i < j < |records| && records[i].partition == records[j].partition
    ensures records[i].offset < records[j].offset
    decreases |records|
  {
    var past := Past(from, records[0]);
    if i == 0 {
      InOrderBounds(past, records[1..]);
      assert records[1..][j - 1] == records[j];
    } else {
      InOrderIncreasing(past, records[1..], i - 1, j - 1);
    }
  }

  /** A batch that continues every partition from at least its mark on. */
  ghost predicate Continues(marks: Offsets, from: Offsets, offers: seq<Offer>) {
    InOrder(from, RecordsIn(offers)) && forall p :: At(marks, p) <= At(from, p)
  }

  /** Offer j of the same partition as offer i, later in the batch, was sent. */
  predicate SentLater(offers: seq<Offer>, i: nat, j: nat)
    requires i < |offers|
  {
    i < j < |offers| && offers[j].rec.partition == offers[i].rec.partition && offers[j].taken
  }

  predicate BelowMark(marks: Offsets, r: Record) {
    r.offset < At(marks, r.partition)
  }

  lemma UnsentBelowMark(from: Offsets, marks: Offsets, offers: seq<Offer>, i: nat)
    requires Continues(marks, from, offers) && i < |offers| && !offers[i].taken
    ensures BelowMark(MarkAll(marks, Sent(offers)), offers[i].rec) <==> exists j :: SentLater(offers, i, j)
  {
    var r, records, sent := offers[i].rec, RecordsIn(offers), Sent(offers);
    MarkAllAbove(marks, sent, r.partition, r.offset);
    InOrderBounds(from, records);
    assert records[i] == r;
    if k: nat :| k < |sent| && sent[k].partition == r.partition && r.offset <= sent[k].offset {
      SentAre(offers, sent[k]);
      var j: nat :| j < |offers| && offers[j] == Offer(sent[k], true);
      if j < i {
        InOrderIncreasing(from, records, j, i);
      }
      assert SentLater(offers, i, j);
    }
    if j: nat :| SentLater(offers, i, j) {
      InOrderIncreasing(from, records, i, j);
      SentAre(offers, offers[j].rec);
      var k :| 0 <= k < |sent| && sent[k] == offers[j].rec;
    }
  }

  /** After the loop has handled a batch, no record below its partition's mark was left
      unsent, if and only if nothing was sent after an unsent record of its partition. */
  lemma BatchCompleteIff(from: Offsets, marks: Offsets, offers: seq<Offer>)
    requires Continues(marks, from, offers)
    ensures (forall i: nat :: i < |offers| && BelowMark(MarkAll(marks, Sent(offers)), offers[i].rec) ==> offers[i].taken)
       <==> (forall i: nat, j: nat :: i < |offers| && SentLater(offers, i, j) ==> offers[i].taken)
  {
    forall i: nat | i < |offers| && !offers[i].taken
      ensures BelowMark(MarkAll(marks, Sent(offers)), offers[i].rec) <==> exists j :: SentLater(offers, i, j)
    {
      UnsentBelowMark(from, marks, offers, i);
    }
  }

  // ----- What the loop takes and how it ends -----

  /** What is sent is the records of the taken offers, one by one and in order. */
  lemma {:induction false} SentConcat(a: seq<Offer>, b: seq<Offer>, o: Offer)
    ensures Sent(a + b) == Sent(a) + Sent(b)
    ensures Sent([o]) == if o.taken then [o.rec] else []
  {
    assert [o][..0] == [];
    if |b| == 0 {
      assert a + b == a;
    } else {
      SentConcat(a, b[..|b| - 1], o);
      assert (a + b)[..|a + b| - 1] == a + b[..|b| - 1];
    }
  }

  /** The loop handles the offers of all polls before the first that fetches nothing, and
      ends cleanly when that is a closed client, with the context's error when it is a
      cancelled context. */
  lemma {:induction false} LoopEnds(polls: seq<Poll>, n: nat)
    requires n <= |polls| && (forall i :: 0 <= i < n ==> polls[i].Fetched?) && (n < |polls| ==> !polls[n].Fetched?)
    ensures ExitOf(polls) == if n == |polls| then Polling else if polls[n] == ClientClosed then Clean else Cancelled
    ensures Batches(polls) == Batches(polls[..n])
    ensures n > 0 ==> Batches(polls) == polls[0].offers + Batches(polls[1..n])
  {
    if n == 0 {
    } else {
      LoopEnds(polls[1..], n - 1);
      assert polls[1..][..n - 1] == polls[1..n] == polls[..n][1..];
    }
  }
}
