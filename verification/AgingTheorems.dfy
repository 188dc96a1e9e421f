/** Ageing a packet that was written: every TTL given to startRecord is where the walk looks for it,
    and nothing else changes. */
module AgingTheorems {
  import opened DnsName
  import opened NameIndex
  import opened PacketFrame
  import opened PacketWriter
  import opened PacketWalk
  import opened PacketAging
  import opened PacketMangler

  // ---------------------------------------------------------------- where the TTLs are

  /** What the ageing walk makes of a finished record. */
  ghost function VisitOf(r: Rec): Visit {
    var opt := r.head.qtype == OPT;
    Visit(opt, if opt then Lost else At(r.name.end + 4), At(r.end))
  }

  /** The walk finds the TTL of a finished record after its name, type and class, unless the type is
      OPT, and the next record after its data. */
  lemma {:induction false} VisitFinished(c: Bytes, log: Log, r: Rec)
    requires NamesOk(c, log) && RecordAt(c, log, r)
    ensures VisitRecord(c, r.name.pos) == VisitOf(r)
    ensures r.head.qtype != OPT ==> r.name.end + 8 <= |c| && U32(c, r.name.end + 4) == r.head.ttl
  {
    SkipLogged(c, log, r.name);
  }

  ghost predicate Visitable(c: Bytes, records: seq<Rec>) {
    forall i | 0 <= i < |records| :: VisitRecord(c, records[i].name.pos) == VisitOf(records[i])
  }

  lemma AllVisitable(c: Bytes, log: Log, f: Frame)
    requires NamesOk(c, log) && RecordsOk(c, log, f)
    ensures Visitable(c, f.records) == true
  {
    forall i | 0 <= i < |f.records| ensures VisitRecord(c, f.records[i].name.pos) == VisitOf(f.records[i]) {
      assert RecordAt(c, log, f.records[i]);
      VisitFinished(c, log, f.records[i]);
    }
  }

  function IsOpt(r: Rec): bool { r.head.qtype == OPT }

  function TtlAt(r: Rec): nat { r.name.end + 4 }

  /** The offsets of the TTLs of n records from record i on, but of OPT records. */
  ghost function Spots(records: seq<Rec>, i: nat, n: nat): seq<nat>
    decreases n
  {
    if n == 0 || i >= |records| then []
    else (if IsOpt(records[i]) then [] else [TtlAt(records[i])]) + Spots(records, i + 1, n - 1)
  }

  ghost predicate TtlsStand(c: Bytes, records: seq<Rec>) {
    forall i | 0 <= i < |records| :: TtlAt(records[i]) + 4 <= |c| && U32(c, TtlAt(records[i])) == records[i].head.ttl
  }

  lemma AllTtlsStand(c: Bytes, log: Log, f: Frame)
    requires RecordsOk(c, log, f)
    ensures TtlsStand(c, f.records) == true
  {
    forall i | 0 <= i < |f.records| ensures TtlAt(f.records[i]) + 4 <= |c| && U32(c, TtlAt(f.records[i])) == f.records[i].head.ttl {
      assert RecordAt(c, log, f.records[i]);
    }
  }

  lemma VisitAt(c: Bytes, records: seq<Rec>, from: nat, to: nat, i: nat)
    requires Visitable(c, records) && Gapless(records, from, to) && i < |records|
    ensures VisitRecord(c, StartOf(records, from, i)) == VisitOf(records[i])
    ensures records[i].end == StartOf(records, from, i + 1)
  {
    assert records[i].name.pos == StartOf(records, from, i);
  }

  lemma {:induction false} TtlsOn(c: Bytes, p: nat, n: nat, r: Rec)
    requires n > 0 && VisitRecord(c, p) == VisitOf(r)
    ensures Ttls(c, p, n) == (if IsOpt(r) then [] else [TtlAt(r)]) + Ttls(c, r.end, n - 1)
  {}

  lemma {:induction false} NoMoreTtls(c: Bytes, n: nat)
    ensures Ttls(c, |c|, n) == [] && TtlValues(c, |c|, n) == []
  {
    if n > 0 { assert VisitRecord(c, |c|) == Visit(false, Lost, Lost); }
  }

  lemma {:induction false} SpotsStep(records: seq<Rec>, i: nat, next: nat, n: nat, left: nat)
    requires i < |records| && next == i + 1 && n == left + 1
    ensures Spots(records, i, n) == (if IsOpt(records[i]) then [] else [TtlAt(records[i])]) + Spots(records, next, left)
  {}

  lemma {:induction false} TtlsOfRecords(c: Bytes, records: seq<Rec>, from: nat, i: nat, p: nat, n: nat)
    requires Visitable(c, records) && Gapless(records, from, |c|) && i <= |records| && p == StartOf(records, from, i)
    ensures Ttls(c, p, n) == Spots(records, i, n)
    decreases n
  {
    if i == |records| {
      NoMoreTtls(c, n);
    } else if n > 0 {
      VisitAt(c, records, from, |c|, i);
      TtlsOfRecords(c, records, from, i + 1, records[i].end, n - 1);
      TtlsOn(c, p, n, records[i]);
      SpotsStep(records, i, i + 1, n, n - 1);
    }
  }

  // ---------------------------------------------------------------- the TTLs of different records

  ghost predicate Forward(records: seq<Rec>) {
    forall i | 0 <= i < |records| :: records[i].name.pos < records[i].name.end && records[i].name.end + RECORD_HEADER <= records[i].end
  }

  lemma {:induction false} EndsBefore(records: seq<Rec>, from: nat, to: nat, k: nat, j: nat)
    requires Gapless(records, from, to) && Forward(records) && k < j < |records|
    ensures records[k].end <= records[j].name.pos
    decreases j - k
  {
    assert records[j].name.pos == StartOf(records, from, j);
    if k + 1 < j { EndsBefore(records, from, to, k, j - 1); }
  }

  /** The TTL of a record that is among those aged. */
  ghost predicate SpotOf(records: seq<Rec>, n: nat, k: nat, t: nat) {
    k < n && k < |records| && !IsOpt(records[k]) && t == TtlAt(records[k])
  }

  lemma {:induction false} SpotsHave(records: seq<Rec>, i: nat, n: nat, k: nat)
    requires i <= k < |records| && SpotOf(records, i + n, k, TtlAt(records[k]))
    ensures TtlAt(records[k]) in Spots(records, i, n)
    decreases n
  {
    if i < k { SpotsHave(records, i + 1, n - 1, k); }
  }

  lemma {:induction false} SpotsAre(records: seq<Rec>, i: nat, n: nat, t: nat) returns (k: nat)
    requires t in Spots(records, i, n)
    ensures SpotOf(records, i + n, k, t)
    decreases n
  {
    if IsOpt(records[i]) || t != TtlAt(records[i]) { k := SpotsAre(records, i + 1, n - 1, t); } else { k := i; }
  }

  /** An octet of a record is in no TTL but its own. */
  lemma {:induction false} OwnTtl(records: seq<Rec>, from: nat, to: nat, n: nat, j: nat, x: nat)
    requires Gapless(records, from, to) && Forward(records) && j < |records|
    requires records[j].name.pos <= x < records[j].end && InTtl(Spots(records, 0, n), x)
    ensures j < n && !IsOpt(records[j]) && TtlAt(records[j]) <= x < TtlAt(records[j]) + 4
  {
    var t :| t in Spots(records, 0, n) && t <= x < t + 4;
    var k := SpotsAre(records, 0, n, t);
    if k < j { EndsBefore(records, from, to, k, j); }
    if j < k { EndsBefore(records, from, to, j, k); }
  }

  /** Every TTL is in a record, apart from the octets of all names. */
  lemma {:induction false} TtlApart(c: Bytes, log: Log, f: Frame, n: nat, x: nat)
    requires RecordsOk(c, log, f) && InTtl(Spots(f.records, 0, n), x)
    ensures x >= HEADER_SIZE && x !in log.bytes
  {
    var t :| t in Spots(f.records, 0, n) && t <= x < t + 4;
    var k := SpotsAre(f.records, 0, n, t);
    assert RecordAt(c, log, f.records[k]);
  }

  // ---------------------------------------------------------------- what ageing leaves

  ghost function AgedRecord(r: Rec, seconds: nat): Rec {
    if IsOpt(r) then r else r.(head := r.head.(ttl := Left(r.head.ttl, seconds)))
  }

  /** The first n records are aged. */
  ghost function AgedRecords(records: seq<Rec>, n: nat, seconds: nat): (r: seq<Rec>)
    ensures |r| == |records|
  {
    seq(|records|, i requires 0 <= i < |records| => if i < n then AgedRecord(records[i], seconds) else records[i])
  }

  ghost function AgedFrame(f: Frame, n: nat, seconds: nat): Frame {
    f.(records := AgedRecords(f.records, n, seconds))
  }

  lemma RecordsForward(c: Bytes, log: Log, f: Frame)
    requires RecordsOk(c, log, f)
    ensures Forward(f.records) == true
  {
    forall i | 0 <= i < |f.records|
      ensures f.records[i].name.pos < f.records[i].name.end && f.records[i].name.end + RECORD_HEADER <= f.records[i].end
    {
      assert RecordAt(c, log, f.records[i]);
    }
  }

  /** A record of which no octet but its TTL changed. */
  lemma RecordAged(c: Bytes, d: Bytes, log: Log, r: Rec, aged: bool, seconds: nat)
    requires RecordAt(c, log, r) && |d| == |c|
    requires forall x | r.name.end <= x < r.sor && !(aged && !IsOpt(r) && TtlAt(r) <= x < TtlAt(r) + 4) :: d[x] == c[x]
    requires aged && !IsOpt(r) ==> LessTtl(c, d, TtlAt(r), seconds)
    ensures RecordAt(d, log, if aged then AgedRecord(r, seconds) else r) == true
  {}

  lemma {:induction false} RecordAfter(c: Bytes, d: Bytes, log: Log, f: Frame, from: nat, n: nat, seconds: nat, j: nat)
    requires RecordsOk(c, log, f) && Gapless(f.records, from, f.start) && j < |f.records|
    requires AgedAt(c, d, Spots(f.records, 0, n), seconds)
    ensures RecordAt(d, log, AgedRecords(f.records, n, seconds)[j]) == true
  {
    var r, ts := f.records[j], Spots(f.records, 0, n);
    RecordsForward(c, log, f);
    assert RecordAt(c, log, r);
    forall x | r.name.end <= x < r.sor && !(j < n && !IsOpt(r) && TtlAt(r) <= x < TtlAt(r) + 4) ensures d[x] == c[x] {
      if InTtl(ts, x) { OwnTtl(f.records, from, f.start, n, j, x); }
    }
    if j < n && !IsOpt(r) {
      SpotsHave(f.records, 0, n, j);
      assert LessTtl(c, d, TtlAt(r), seconds);
    }
    RecordAged(c, d, log, r, j < n, seconds);
  }

  lemma {:induction false} RecordsAfter(c: Bytes, d: Bytes, log: Log, f: Frame, from: nat, n: nat, seconds: nat)
    requires RecordsOk(c, log, f) && Gapless(f.records, from, f.start)
    requires AgedAt(c, d, Spots(f.records, 0, n), seconds) == true
    ensures RecordsOk(d, log, AgedFrame(f, n, seconds)) == true
  {
    var g := AgedFrame(f, n, seconds);
    forall i | 0 <= i < |g.records| ensures RecordAt(d, log, g.records[i]) == true && g.records[i].end <= g.start {
      RecordAfter(c, d, log, f, from, n, seconds, i);
      assert RecordAt(c, log, f.records[i]);
    }
  }

  lemma GaplessAfter(f: Frame, from: nat, n: nat, seconds: nat)
    requires Gapless(f.records, from, f.start)
    ensures Gapless(AgedFrame(f, n, seconds).records, from, f.start) == true
  {
    var records := AgedFrame(f, n, seconds).records;
    forall i | 0 <= i < |records| ensures records[i].name.pos == StartOf(records, from, i) {
      assert f.records[i].name.pos == StartOf(f.records, from, i) == StartOf(records, from, i);
    }
  }

  lemma {:induction false} FrameAfter(c: Bytes, d: Bytes, log: Log, f: Frame, from: nat, n: nat, seconds: nat)
    requires FrameOk(c, log, f, from) && f.tight && AgedAt(c, d, Spots(f.records, 0, n), seconds)
    ensures FrameOk(d, log, AgedFrame(f, n, seconds), from) == true
  {
    RecordsAfter(c, d, log, f, from, n, seconds);
    GaplessAfter(f, from, n, seconds);
    forall which ensures U16(d, FieldAt(which)) == Field(f.places, which) {
      var i := FieldAt(which);
      assert U16(c, i) == Field(f.places, which);
      if InTtl(Spots(f.records, 0, n), i) { TtlApart(c, log, f, n, i); }
      if InTtl(Spots(f.records, 0, n), i + 1) { TtlApart(c, log, f, n, i + 1); }
    }
  }

  /** A packet that was aged is still one in which every name can be read and every record says how
      long it is; the records are as they were written, less the seconds. */
  lemma {:induction false} SoundAfter(c: Bytes, d: Bytes, positions: seq<nat>, log: Log, q: Written, qname: Bytes, f: Frame, from: nat, open: Open,
                                      n: nat, seconds: nat)
    requires Sound(c, positions, log, q, qname, f, from, 0, open) && f.tight && AgedAt(c, d, Spots(f.records, 0, n), seconds)
    ensures Sound(d, positions, log, q, qname, AgedFrame(f, n, seconds), from, 0, open) == true
  {
    forall x | x in log.bytes && x < |c| ensures d[x] == c[x] {
      if InTtl(Spots(f.records, 0, n), x) { TtlApart(c, log, f, n, x); }
    }
    LogKept(c, d, positions, log);
    QuestionKept(c, d, log, log, q);
    FrameAfter(c, d, log, f, from, n, seconds);
  }

  // ---------------------------------------------------------------- a writer's packet

  /** A packet that is finished, whose octets all went into records, and whose header announces the
      one question. */
  ghost predicate Finished(p: PacketWriter)
    reads p
  {
    p.Valid() && p.sor == 0 && p.frame.tight && Field(p.frame.places, QUESTION) == 1
  }

  lemma QuestionFits(c: Bytes, log: Log, f: Frame, from: nat)
    requires FrameOk(c, log, f, from) && f.tight
    ensures from <= |c|
  {
    assert StartOf(f.records, from, 0) == from;
    if f.records != [] { assert RecordAt(c, log, f.records[0]) && f.records[0].name.pos == StartOf(f.records, from, 0); }
  }

  lemma {:induction false} WalkFrom(c: Bytes, positions: seq<nat>, log: Log, q: Written, qname: Bytes, f: Frame, from: nat, open: Open)
    requires Sound(c, positions, log, q, qname, f, from, 0, open) && f.tight && Field(f.places, QUESTION) == 1
    ensures |c| >= HEADER_SIZE && SkipQuestions(c, HEADER_SIZE, U16(c, 4)) == At(from)
    ensures Visitable(c, f.records) == true && TtlsStand(c, f.records) == true && Gapless(f.records, from, |c|) == true
  {
    QuestionFits(c, log, f, from);
    HeaderFields(c, f.places);
    QuestionSkipped(c, log, q, from);
    AllVisitable(c, log, f);
    AllTtlsStand(c, log, f);
  }

  lemma {:induction false} WalkStarts(p: PacketWriter)
    requires Finished(p) == true
    ensures |p.content| >= HEADER_SIZE && SkipQuestions(p.content, HEADER_SIZE, U16(p.content, 4)) == At(p.truncateMarker)
    ensures var records := p.frame.records;
            Visitable(p.content, records) == true && TtlsStand(p.content, records) == true && Gapless(records, p.truncateMarker, |p.content|) == true
  {
    WalkFrom(p.content, p.namePositions, p.log, p.question, p.qname, p.frame, p.truncateMarker, p.open);
  }

  /** The TTLs that are found are those of the announced records, without OPT records, as they were
      written. */
  lemma {:induction false} TtlsWritten(p: PacketWriter)
    requires Finished(p) == true
    ensures |p.content| >= HEADER_SIZE && AllTtls(p.content) == Spots(p.frame.records, 0, RecordCount(p.content))
  {
    WalkStarts(p);
    TtlsOfRecords(p.content, p.frame.records, p.truncateMarker, 0, p.truncateMarker, RecordCount(p.content));
  }

  /** Ageing what was written leaves a packet whose every name is still read, whose records announced
      by the header have their TTLs less the seconds, down to zero, but for OPT records, and are
      otherwise as they were written. */
  lemma {:induction false} AgeWritten(p: PacketWriter, seconds: nat)
    requires Finished(p)
    ensures |p.content| >= HEADER_SIZE
    ensures var n, d := RecordCount(p.content), Age(p.content, seconds);
            && SameBut(p.content, d, 0, Spots(p.frame.records, 0, n)) == true
            && Sound(d, p.namePositions, p.log, p.question, p.qname, AgedFrame(p.frame, n, seconds), p.truncateMarker, 0, p.open) == true
  {
    TtlsWritten(p);
    AgeDoes(p.content, seconds);
    SoundAfter(p.content, Age(p.content, seconds), p.namePositions, p.log, p.question, p.qname, p.frame, p.truncateMarker, p.open,
               RecordCount(p.content), seconds);
  }

  /** ageDNSPacket on the octets of a finished packet. */
  method AgeFinished(p: PacketWriter, packet: array<Byte>, seconds: nat)
    requires Finished(p) == true && packet[..] == p.content
    modifies packet
    ensures |p.content| >= HEADER_SIZE
    ensures Sound(packet[..], p.namePositions, p.log, p.question, p.qname, AgedFrame(p.frame, RecordCount(p.content), seconds),
                  p.truncateMarker, 0, p.open) == true
  {
    AgeWritten(p, seconds);
    AgeDNSPacket(packet, seconds);
  }

  // ---------------------------------------------------------------- the smallest TTL

  /** The TTLs of n records from record i on, up to an OPT record. */
  ghost function TtlsBefore(records: seq<Rec>, i: nat, n: nat): seq<nat>
    decreases n
  {
    if n == 0 || i >= |records| || IsOpt(records[i]) then [] else [records[i].head.ttl] + TtlsBefore(records, i + 1, n - 1)
  }

  lemma {:induction false} ValuesOn(c: Bytes, p: nat, n: nat, r: Rec)
    requires n > 0 && VisitRecord(c, p) == VisitOf(r) && TtlAt(r) + 4 <= |c|
    ensures TtlValues(c, p, n) == if IsOpt(r) then [] else [U32(c, TtlAt(r))] + TtlValues(c, r.end, n - 1)
  {}

  lemma {:induction false} BeforeStep(records: seq<Rec>, i: nat, next: nat, n: nat, left: nat)
    requires i < |records| && next == i + 1 && n == left + 1
    ensures TtlsBefore(records, i, n) == if IsOpt(records[i]) then [] else [records[i].head.ttl] + TtlsBefore(records, next, left)
  {}

  lemma TtlStands(c: Bytes, records: seq<Rec>, i: nat)
    requires TtlsStand(c, records) && i < |records|
    ensures TtlAt(records[i]) + 4 <= |c| && U32(c, TtlAt(records[i])) == records[i].head.ttl
  {}

  lemma {:induction false} ValuesOfRecords(c: Bytes, records: seq<Rec>, from: nat, i: nat, p: nat, n: nat)
    requires Visitable(c, records) && TtlsStand(c, records) == true && Gapless(records, from, |c|)
    requires i <= |records| && p == StartOf(records, from, i)
    ensures TtlValues(c, p, n) == TtlsBefore(records, i, n)
    decreases n
  {
    if i == |records| {
      NoMoreTtls(c, n);
    } else if n > 0 {
      VisitAt(c, records, from, |c|, i);
      TtlStands(c, records, i);
      ValuesOfRecords(c, records, from, i + 1, records[i].end, n - 1);
      ValuesOn(c, p, n, records[i]);
      BeforeStep(records, i, i + 1, n, n - 1);
    }
  }

  /** The smallest TTL of what was written is the least of the TTLs given for the announced records
      before the first OPT record. */
  lemma {:induction false} MinTtlWritten(p: PacketWriter)
    requires Finished(p) == true
    ensures |p.content| >= HEADER_SIZE
    ensures MinTtl(p.content) == Least(MAX_TTL, TtlsBefore(p.frame.records, 0, RecordCount(p.content)))
  {
    WalkStarts(p);
    ValuesOfRecords(p.content, p.frame.records, p.truncateMarker, 0, p.truncateMarker, RecordCount(p.content));
  }

  /** getDNSPacketMinTTL on the octets of a finished packet. */
  method MinTtlOfFinished(p: PacketWriter, packet: array<Byte>) returns (result: nat)
    requires Finished(p) == true && packet[..] == p.content
    ensures |p.content| >= HEADER_SIZE
    ensures result == Least(MAX_TTL, TtlsBefore(p.frame.records, 0, RecordCount(p.content)))
  {
    MinTtlWritten(p);
    result := GetDNSPacketMinTTL(packet);
  }
}
