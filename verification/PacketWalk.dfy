/** Walking over a packet without following pointers: what every record looks like to
    DNSPacketMangler, whatever the octets are. */
module PacketWalk {
  import opened DnsName
  import opened PacketName
  import opened NameIndex
  import opened PacketFrame
  import opened PacketWriter

  const OPT := 41

  /** Where the cursor is, unless an exception ended the walk. */
  datatype Cursor = Lost | At(pos: nat)

  /** moveOffset: past the end is an exception. */
  function Skip(size: nat, p: nat, n: nat): (r: Cursor)
    ensures r.At? ==> r.pos == p + n <= size
  {
    if p + n > size then Lost else At(p + n)
  }

  /** skipDomainName: lengths above 63 and below 192 are not refused. */
  function SkipName(c: Bytes, p: nat): (r: Cursor)
    ensures r.At? ==> p < r.pos <= |c|
    decreases |c| - p
  {
    if p >= |c| then Lost
    else if c[p] == 0 then At(p + 1)
    else if c[p] >= 192 then Skip(|c|, p, 2)
    else if p + 1 + c[p] > |c| then Lost
    else SkipName(c, p + 1 + c[p])
  }

  /** skipRData. */
  function SkipData(c: Bytes, p: nat): (r: Cursor)
    ensures r.At? ==> p + 2 <= r.pos <= |c|
  {
    if p + 2 > |c| then Lost else Skip(|c|, p + 2, U16(c, p))
  }

  function SkipQuestions(c: Bytes, p: nat, n: nat): (r: Cursor)
    ensures r.At? ==> p <= r.pos && (p <= |c| ==> r.pos <= |c|)
    decreases n
  {
    if n == 0 then At(p)
    else
      var q := SkipName(c, p);
      if q.Lost? then Lost
      else
        var e := Skip(|c|, q.pos, 4);
        if e.Lost? then Lost else SkipQuestions(c, e.pos, n - 1)
  }

  function SkipRecord(c: Bytes, p: nat): (r: Cursor)
    ensures r.At? ==> p < r.pos <= |c|
  {
    var q := SkipName(c, p);
    if q.Lost? then Lost
    else
      var h := Skip(|c|, q.pos, 8);
      if h.Lost? then Lost else SkipData(c, h.pos)
  }

  function SkipRecords(c: Bytes, p: nat, n: nat): (r: Cursor)
    ensures r.At? ==> p <= r.pos && (p <= |c| ==> r.pos <= |c|)
    decreases n
  {
    if n == 0 then At(p)
    else
      var e := SkipRecord(c, p);
      if e.Lost? then Lost else SkipRecords(c, e.pos, n - 1)
  }

  /** The records the header announces. */
  function RecordCount(c: Bytes): nat
    requires |c| >= HEADER_SIZE
  {
    U16(c, 6) + U16(c, 8) + U16(c, 10)
  }

  /** getDNSPacketLength: where the announced records end, or the size of the buffer. */
  function PacketLength(c: Bytes): (r: nat)
    ensures r <= |c|
  {
    if |c| < HEADER_SIZE then |c|
    else
      var q := SkipQuestions(c, HEADER_SIZE, U16(c, 4));
      if q.Lost? then |c|
      else
        var e := SkipRecords(c, q.pos, RecordCount(c));
        if e.Lost? then |c| else e.pos
  }

  // ---------------------------------------------------------------- what the writer wrote

  lemma {:induction false} SkipWritten(c: Bytes, s: set<nat>, p: nat, labels: Labels, frag: nat, hops: nat)
    requires NameAt(c, s, p, labels, frag, hops)
    ensures SkipName(c, p) == At(NameEnd(c, p))
    decreases hops, |labels|
  {
    if 1 <= c[p] <= 63 { SkipWritten(c, s, p + 1 + c[p], labels[1..], frag, hops); }
  }

  lemma {:induction false} SkipLogged(c: Bytes, log: Log, w: Written)
    requires NamesOk(c, log) && w in log.names
    ensures SkipName(c, w.pos) == At(w.end) && w.end <= |c|
  {
    var i :| 0 <= i < |log.names| && log.names[i] == w;
    assert WrittenAt(c, log.bytes, log.names[i]);
    SkipWritten(c, log.bytes, w.pos, w.spelled, w.pos, MAX_HOPS);
  }

  lemma SkipFinished(c: Bytes, log: Log, r: Rec)
    requires NamesOk(c, log) && RecordAt(c, log, r)
    ensures SkipRecord(c, r.name.pos) == At(r.end)
  {
    SkipLogged(c, log, r.name);
  }

  ghost predicate Walkable(c: Bytes, records: seq<Rec>) {
    forall i | 0 <= i < |records| :: SkipRecord(c, records[i].name.pos) == At(records[i].end)
  }

  lemma FinishedWalkable(c: Bytes, log: Log, f: Frame)
    requires NamesOk(c, log) && RecordsOk(c, log, f)
    ensures Walkable(c, f.records)
  {
    forall i | 0 <= i < |f.records| ensures SkipRecord(c, f.records[i].name.pos) == At(f.records[i].end) {
      assert RecordAt(c, log, f.records[i]);
      SkipFinished(c, log, f.records[i]);
    }
  }

  /** From record i on, k records take the walk to where record j starts. */
  lemma {:induction false} WalkRecords(c: Bytes, records: seq<Rec>, from: nat, to: nat, i: nat, k: nat, j: nat)
    requires Walkable(c, records) && Gapless(records, from, to) && i + k == j <= |records|
    ensures SkipRecords(c, StartOf(records, from, i), k) == At(StartOf(records, from, j))
    decreases k
  {
    if k > 0 {
      WalkRecord(c, records, from, to, i);
      WalkRecords(c, records, from, to, i + 1, k - 1, j);
      WalkFirst(c, StartOf(records, from, i), StartOf(records, from, i + 1), k);
    }
  }

  lemma WalkFirst(c: Bytes, p: nat, q: nat, k: nat)
    requires k > 0 && SkipRecord(c, p) == At(q)
    ensures SkipRecords(c, p, k) == SkipRecords(c, q, k - 1)
  {}

  lemma WalkRecord(c: Bytes, records: seq<Rec>, from: nat, to: nat, i: nat)
    requires Walkable(c, records) && Gapless(records, from, to) && i < |records|
    ensures SkipRecord(c, StartOf(records, from, i)) == At(StartOf(records, from, i + 1))
  {
    assert records[i].name.pos == StartOf(records, from, i) && records[i].end == StartOf(records, from, i + 1);
  }

  lemma {:induction false} WalkOn(c: Bytes, p: nat, j: nat, q: nat, n: nat)
    requires SkipRecords(c, p, j) == At(q) && n >= j
    ensures SkipRecords(c, p, n) == SkipRecords(c, q, n - j)
    decreases j
  {
    if j > 0 {
      var next := SkipRecord(c, p).pos;
      WalkFirst(c, p, next, j);
      WalkFirst(c, p, next, n);
      WalkOn(c, next, j - 1, q, n - 1);
    }
  }

  lemma {:induction false} WalkPastEnd(c: Bytes, n: nat)
    requires n > 0
    ensures SkipRecords(c, |c|, n) == Lost
  {}

  lemma {:induction false} StartsGrow(records: seq<Rec>, from: nat, to: nat, i: nat)
    requires Gapless(records, from, to) && (forall j | 0 <= j < |records| :: records[j].name.pos < records[j].end) && i < |records|
    ensures StartOf(records, from, i) < to
    decreases |records| - i
  {
    assert records[i].name.pos == StartOf(records, from, i) && records[i].end == StartOf(records, from, i + 1);
    if i + 1 < |records| { StartsGrow(records, from, to, i + 1); }
  }

  /** The walk over as many records as the header announces ends with the packet when that is as many
      as there are, before it when it is fewer, and leaves it when it is more. */
  lemma {:induction false} WalkByCount(c: Bytes, log: Log, f: Frame, from: nat, n: nat)
    requires NamesOk(c, log) && RecordsOk(c, log, f) && Gapless(f.records, from, f.start) && f.start == |c|
    ensures n == |f.records| ==> SkipRecords(c, from, n) == At(|c|)
    ensures n < |f.records| ==> SkipRecords(c, from, n).At? && SkipRecords(c, from, n).pos < |c|
    ensures n > |f.records| ==> SkipRecords(c, from, n) == Lost
  {
    var all := |f.records|;
    FinishedWalkable(c, log, f);
    if n < all {
      WalkRecords(c, f.records, from, |c|, 0, n, n);
      forall j | 0 <= j < all ensures f.records[j].name.pos < f.records[j].end { assert RecordAt(c, log, f.records[j]); }
      StartsGrow(f.records, from, |c|, n);
    } else {
      WalkRecords(c, f.records, from, |c|, 0, all, all);
      if n > all {
        WalkOn(c, from, all, |c|, n);
        WalkPastEnd(c, n - all);
      }
    }
  }

  /** The header announces the question and the records that are there. */
  ghost predicate Announced(places: seq<Place>) {
    && Field(places, QUESTION) == 1
    && Field(places, ANSWER) + Field(places, AUTHORITY) + Field(places, ADDITIONAL) == |places|
  }

  /** A committed packet whose octets all went into records and whose header announces one question:
      the length found is that of the packet exactly when no fewer records are announced than there
      are (with more the walk leaves the packet, and the length of the buffer is the answer). */
  lemma {:induction false} WalkCoversPacket(c: Bytes, positions: seq<nat>, log: Log, q: Written, qname: Bytes, f: Frame, from: nat, open: Open)
    requires Sound(c, positions, log, q, qname, f, from, 0, open) && f.tight && Field(f.places, QUESTION) == 1
    ensures PacketLength(c) == |c| <==> RecordCount(c) >= |f.places|
    ensures Announced(f.places) ==> SkipQuestions(c, HEADER_SIZE, U16(c, 4)) == At(from) && SkipRecords(c, from, RecordCount(c)) == At(|c|)
  {
    HeaderFields(c, f.places);
    WalkByCount(c, log, f, from, |f.records|);
    WalkByCount(c, log, f, from, RecordCount(c));
    QuestionSkipped(c, log, q, from);
  }

  lemma {:induction false} QuestionSkipped(c: Bytes, log: Log, q: Written, from: nat)
    requires NamesOk(c, log) && q in log.names && q.pos == HEADER_SIZE && from == q.end + 4 <= |c|
    ensures SkipQuestions(c, HEADER_SIZE, 1) == At(from)
  {
    SkipLogged(c, log, q);
    assert SkipQuestions(c, from, 0) == At(from);
  }

  lemma {:induction false} HeaderFields(c: Bytes, places: seq<Place>)
    requires |c| >= HEADER_SIZE && HeaderOk(c, places)
    ensures U16(c, 4) == Field(places, QUESTION)
    ensures RecordCount(c) == Field(places, ANSWER) + Field(places, AUTHORITY) + Field(places, ADDITIONAL)
  {
    assert U16(c, FieldAt(QUESTION)) == Field(places, QUESTION);
    assert U16(c, FieldAt(ANSWER)) == Field(places, ANSWER);
    assert U16(c, FieldAt(AUTHORITY)) == Field(places, AUTHORITY);
    assert U16(c, FieldAt(ADDITIONAL)) == Field(places, ADDITIONAL);
  }
}
