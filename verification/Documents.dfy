/** A store of documents by key, in which a later write replaces an earlier one. */
module Stores {

  datatype Write<K, V> = Write(key: K, value: V)

  function StoreOf<K, V>(ws: seq<Write<K, V>>): map<K, V> {
    if |ws| == 0 then map[] else StoreOf(ws[..|ws| - 1])[ws[|ws| - 1].key := ws[|ws| - 1].value]
  }

  lemma StoreSnoc<K, V>(ws: seq<Write<K, V>>, w: Write<K, V>)
    ensures StoreOf(ws + [w]) == StoreOf(ws)[w.key := w.value]
  {
    assert (ws + [w])[..|ws|] == ws;
  }

  /** No two values are ever written under the same key. */
  ghost predicate OwnKeys<K, V>(ws: seq<Write<K, V>>) {
    forall i, j :: 0 <= i < |ws| && 0 <= j < |ws| && ws[i].key == ws[j].key ==> ws[i].value == ws[j].value
  }

  /** The store then holds exactly what was written. */
  lemma {:induction false} StoreHolds<K, V>(ws: seq<Write<K, V>>, key: K, value: V)
    requires OwnKeys(ws)
    ensures key in StoreOf(ws) && StoreOf(ws)[key] == value <==> Write(key, value) in ws
  {
    if |ws| == 0 {
    } else {
      var front, last := ws[..|ws| - 1], ws[|ws| - 1];
      StoreHolds(front, key, value);
      assert ws == front + [last];
    }
  }

  /** Repeating writes changes nothing. */
  lemma {:induction false} Rewrite<K, V>(ws: seq<Write<K, V>>, again: seq<Write<K, V>>)
    requires OwnKeys(ws) && forall j :: 0 <= j < |again| ==> again[j] in ws
    ensures StoreOf(ws + again) == StoreOf(ws)
  {
    if |again| == 0 {
      assert ws + again == ws;
    } else {
      var front, last := again[..|again| - 1], again[|again| - 1];
      Rewrite(ws, front);
      StoreSnoc(ws + front, last);
      assert ws + front + [last] == ws + again;
      StoreHolds(ws, last.key, last.value);
    }
  }
}

/** Where a log entry is stored: a daily index and a document ID made from the record's
    partition and offset, so that storing a record again overwrites it. */
module Documents {
  import opened Stores

  /** A Kafka record, identified by where it is in its topic. */
  datatype Record = Record(partition: int, offset: int)

  /** The hash is only assumed to be injective: the digest stands for its input. */
  datatype Digest = Sha256Hex(input: string)

  /** The daily index, by day number, and the document ID within it. */
  datatype DocKey = DocKey(day: int, id: Digest)

  /** One attempt to store a record, with the clock reading of its parsing. */
  datatype Delivery = Delivery(rec: Record, now: int)

  const DAY := 86_400_000_000_000

  // ----- Rendering -----

  function Digits(n: nat): string {
    (if n < 10 then "" else Digits(n / 10)) + [('0' as int + n % 10) as char]
  }

  function Decimal(n: int): string {
    if n < 0 then "-" + Digits(-n) else Digits(n)
  }

  function Value(s: string): int {
    if |s| == 0 then 0 else Value(s[..|s| - 1]) * 10 + (s[|s| - 1] as int - '0' as int)
  }

  function SignedValue(s: string): int {
    if |s| > 0 && s[0] == '-' then -Value(s[1..]) else Value(s)
  }

  predicate IsDigits(s: string) {
    forall i :: 0 <= i < |s| ==> '0' <= s[i] <= '9'
  }

  /** Reading the digits back gives the number. */
  lemma {:induction false} DigitsValue(n: nat)
    ensures |Digits(n)| > 0 && IsDigits(Digits(n)) && Value(Digits(n)) == n
    ensures Digits(n)[0] == '0' ==> Digits(n) == "0"
  {
    var last := ('0' as int + n % 10) as char;
    if n < 10 {
      assert Digits(n) == [last] && [last][..0] == "";
    } else {
      DigitsValue(n / 10);
      assert Digits(n)[..|Digits(n)| - 1] == Digits(n / 10);
    }
  }

  lemma SignedDigits(s: string)
    requires |s| > 0 && IsDigits(s)
    ensures SignedValue(s) == Value(s) && ':' !in s
    ensures SignedValue("-" + s) == -Value(s) && ':' !in "-" + s
  {
    assert ("-" + s)[1..] == s;
  }

  lemma DecimalValue(n: int)
    ensures SignedValue(Decimal(n)) == n && ':' !in Decimal(n)
  {
    var size := if n < 0 then -n else n;
    DigitsValue(size);
    SignedDigits(Digits(size));
  }

  function Render(r: Record): string {
    Decimal(r.partition) + ":" + Decimal(r.offset)
  }

  lemma FirstColon(a: string, b: string)
    requires ':' !in a
    ensures (a + ":" + b)[|a|] == ':'
    ensures forall k :: 0 <= k < |a| ==> (a + ":" + b)[k] != ':'
  {
    assert forall k :: 0 <= k < |a| ==> (a + ":" + b)[k] == a[k];
  }

  lemma SplitAtColon(a: string, b: string, c: string, d: string)
    requires ':' !in a && ':' !in c
    requires a + ":" + b == c + ":" + d
    ensures a == c && b == d
  {
    var s := a + ":" + b;
    FirstColon(a, b);
    FirstColon(c, d);
    assert s[|a|] == s[|c|] == ':';
    assert a == s[..|a|] && c == s[..|c|];
    assert b == s[|a| + 1..] && d == s[|c| + 1..];
  }

  /** Different records are rendered differently. */
  lemma RenderInjective(r1: Record, r2: Record)
    ensures Render(r1) == Render(r2) <==> r1 == r2
  {
    if Render(r1) == Render(r2) {
      DecimalValue(r1.partition);
      DecimalValue(r2.partition);
      SplitAtColon(Decimal(r1.partition), Decimal(r1.offset), Decimal(r2.partition), Decimal(r2.offset));
      DecimalValue(r1.offset);
      DecimalValue(r2.offset);
    }
  }

  // ----- Keys -----

  /** The timestamp that an entry gets: the record's own when it parses, otherwise the
      time of parsing. */
  function Stamp(parsed: map<Record, int>, d: Delivery): int {
    if d.rec in parsed then parsed[d.rec] else d.now
  }

  function KeyOf(parsed: map<Record, int>, d: Delivery): DocKey {
    DocKey(Stamp(parsed, d) / DAY, Sha256Hex(Render(d.rec)))
  }

  /** The day of a key is the UTC day of the entry's timestamp, which is the record's own if
      it has one and otherwise the time of parsing; the hashed text is the decimal partition,
      a colon and the decimal offset. */
  lemma KeyIs(parsed: map<Record, int>, d: Delivery)
    ensures var day, ts := KeyOf(parsed, d).day, if d.rec in parsed then parsed[d.rec] else d.now;
            day * 86_400_000_000_000 <= ts < (day + 1) * 86_400_000_000_000
    ensures exists p, o :: KeyOf(parsed, d).id.input == p + ":" + o
                           && ':' !in p && SignedValue(p) == d.rec.partition
                           && ':' !in o && SignedValue(o) == d.rec.offset
  {
    DecimalValue(d.rec.partition);
    DecimalValue(d.rec.offset);
  }

  /** Two deliveries go to the same document exactly when they are of the same record and
      that record carries its own timestamp or is parsed on the same day. */
  lemma SameKeyIff(parsed: map<Record, int>, d1: Delivery, d2: Delivery)
    ensures KeyOf(parsed, d1) == KeyOf(parsed, d2)
       <==> d1.rec == d2.rec && (d1.rec in parsed || d1.now / DAY == d2.now / DAY)
  {
    RenderInjective(d1.rec, d2.rec);
  }

  // ----- Deliveries as writes -----

  function WriteOf(parsed: map<Record, int>, d: Delivery): Write<DocKey, Record> {
    Write(KeyOf(parsed, d), d.rec)
  }

  function WritesOf(parsed: map<Record, int>, ds: seq<Delivery>): (ws: seq<Write<DocKey, Record>>)
    ensures |ws| == |ds|
  {
    seq(|ds|, i requires 0 <= i < |ds| => WriteOf(parsed, ds[i]))
  }

  /** The documents after a whole history of deliveries. */
  function DocumentsAfter(parsed: map<Record, int>, ds: seq<Delivery>): map<DocKey, Record> {
    StoreOf(WritesOf(parsed, ds))
  }

  class LogIndexer {
    const parsed: map<Record, int>
    var documents: map<DocKey, Record>
    ghost var delivered: seq<Delivery>

    ghost predicate Valid()
      reads this
    {
      documents == DocumentsAfter(parsed, delivered)
    }

    constructor (parsed: map<Record, int>)
      ensures Valid() && this.parsed == parsed && delivered == []
    {
      this.parsed := parsed;
      documents, delivered := map[], [];
    }

    method IndexLog(rec: Record, now: int)
      requires Valid()
      modifies this
      ensures Valid() && delivered == old(delivered) + [Delivery(rec, now)]
    {
      var ts := now;
      if rec in parsed {
        ts := parsed[rec];
      }
      var index := ts / DAY;
      var id := Sha256Hex(Decimal(rec.partition) + ":" + Decimal(rec.offset));
      DeliverOne(parsed, delivered, Delivery(rec, now));
      documents := documents[DocKey(index, id) := rec];
      delivered := delivered + [Delivery(rec, now)];
    }
  }

  lemma DeliverOne(parsed: map<Record, int>, ds: seq<Delivery>, d: Delivery)
    ensures DocumentsAfter(parsed, ds + [d]) == DocumentsAfter(parsed, ds)[KeyOf(parsed, d) := d.rec]
  {
    assert WritesOf(parsed, ds + [d]) == WritesOf(parsed, ds) + [WriteOf(parsed, d)];
    StoreSnoc(WritesOf(parsed, ds), WriteOf(parsed, d));
  }

  /** Distinct records never collide. */
  lemma RecordsOwnKeys(parsed: map<Record, int>, ds: seq<Delivery>)
    ensures OwnKeys(WritesOf(parsed, ds))
  {
    forall i, j | 0 <= i < |ds| && 0 <= j < |ds| && KeyOf(parsed, ds[i]) == KeyOf(parsed, ds[j])
      ensures ds[i].rec == ds[j].rec
    {
      SameKeyIff(parsed, ds[i], ds[j]);
    }
  }

  /** The documents of one record. */
  function DocumentsOf(store: map<DocKey, Record>, rec: Record): set<DocKey> {
    set k | k in store && store[k] == rec
  }

  /** The documents that a record occupies are exactly those that its deliveries went to. */
  lemma DocumentsAre(parsed: map<Record, int>, ds: seq<Delivery>, rec: Record)
    ensures DocumentsOf(DocumentsAfter(parsed, ds), rec)
         == set i | 0 <= i < |ds| && ds[i].rec == rec :: KeyOf(parsed, ds[i])
  {
    var store, ws := DocumentsAfter(parsed, ds), WritesOf(parsed, ds);
    var keys := set i | 0 <= i < |ds| && ds[i].rec == rec :: KeyOf(parsed, ds[i]);
    RecordsOwnKeys(parsed, ds);
    forall k
      ensures k in DocumentsOf(store, rec) <==> k in keys
    {
      StoreHolds(ws, k, rec);
      if k in DocumentsOf(store, rec) {
        var j :| 0 <= j < |ws| && ws[j] == Write(k, rec);
        assert ds[j].rec == rec && KeyOf(parsed, ds[j]) == k;
      }
      if k in keys {
        var i :| 0 <= i < |ds| && ds[i].rec == rec && KeyOf(parsed, ds[i]) == k;
        assert ws[i] == Write(k, rec);
      }
    }
  }

  /** However often and in whatever order records are delivered, a record that carries its
      own timestamp occupies exactly one document once it was delivered. */
  lemma OneDocument(parsed: map<Record, int>, ds: seq<Delivery>, i: nat)
    requires i < |ds| && ds[i].rec in parsed
    ensures DocumentsOf(DocumentsAfter(parsed, ds), ds[i].rec) == {KeyOf(parsed, ds[i])}
  {
    DocumentsAre(parsed, ds, ds[i].rec);
    forall j | 0 <= j < |ds| && ds[j].rec == ds[i].rec
      ensures KeyOf(parsed, ds[j]) == KeyOf(parsed, ds[i])
    {
      SameKeyIff(parsed, ds[j], ds[i]);
    }
  }

  /** Redelivering records that were delivered before and carry their own timestamps
      changes nothing. */
  lemma ReplayChangesNothing(parsed: map<Record, int>, ds: seq<Delivery>, again: seq<Delivery>)
    requires forall j :: 0 <= j < |again| ==>
               again[j].rec in parsed && exists i :: 0 <= i < |ds| && ds[i].rec == again[j].rec
    ensures DocumentsAfter(parsed, ds + again) == DocumentsAfter(parsed, ds)
  {
    var ws, rs := WritesOf(parsed, ds), WritesOf(parsed, again);
    assert WritesOf(parsed, ds + again) == ws + rs;
    RecordsOwnKeys(parsed, ds);
    forall j | 0 <= j < |rs|
      ensures rs[j] in ws
    {
      var i :| 0 <= i < |ds| && ds[i].rec == again[j].rec;
      SameKeyIff(parsed, ds[i], again[j]);
      assert ws[i] == rs[j];
    }
    Rewrite(ws, rs);
  }

  /** A record without a timestamp of its own, redelivered on another day, is stored twice. */
  lemma FallbackIsStoredTwice(parsed: map<Record, int>, rec: Record, now: int, later: int)
    requires rec !in parsed && now / DAY != later / DAY
    ensures |DocumentsOf(DocumentsAfter(parsed, [Delivery(rec, now), Delivery(rec, later)]), rec)| == 2
  {
    var ds := [Delivery(rec, now), Delivery(rec, later)];
    DocumentsAre(parsed, ds, rec);
    assert (set i | 0 <= i < |ds| && ds[i].rec == rec :: KeyOf(parsed, ds[i])) == {KeyOf(parsed, ds[0]), KeyOf(parsed, ds[1])};
  }
}
