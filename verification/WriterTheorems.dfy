/** What a reader of the written packet finds: every name, every record, the announced counts. */
module WriterTheorems {
  import opened DnsName
  import opened PacketName
  import opened NameIndex
  import opened NameLookup
  import opened NameParser
  import opened PacketFrame
  import opened PacketWriter
  import opened PacketWalk

  /** Any name ever written reads back, up to ASCII case, from where it was put, and the parser ends
      where the writer ended.  It gets there with at most 35 of the 100 redirects the parser allows:
      starting at a depth of 65 is as good. */
  lemma {:induction false} NameReadsBack(c: Bytes, log: Log, i: nat, depth: nat, minOffset: nat)
    requires BytesOk(|c|, log) && NamesOk(c, log) && i < |log.names|
    requires |Wire(log.names[i].labels)| <= MAX_NAME
    requires depth + MAX_HOPS <= MAX_REDIRECTS && minOffset <= HEADER_SIZE
    ensures var w := log.names[i];
            && ValidLabels(w.spelled) && LabelsFoldEq(w.spelled, w.labels)
            && Parse(c, w.pos, true, depth, minOffset, []) == Parsed(Wire(w.spelled), w.end)
            && FoldEq(Wire(w.spelled), Wire(w.labels))
  {
    var w := log.names[i];
    assert WrittenAt(c, log.bytes, w);
    NameLabelsValid(c, log.bytes, w.pos, w.spelled, w.pos, MAX_HOPS);
    WireFold(w.spelled, w.labels);
    ParseDecodes(c, log.bytes, w.pos, w.spelled, MAX_HOPS, true, depth, minOffset, [], []);
    assert [] + w.spelled == w.spelled;
  }

  /** The same of a writer, at any time between two of its operations. */
  lemma WriterReadsBack(p: PacketWriter, i: nat)
    requires p.Valid() && i < |p.log.names| && |Wire(p.log.names[i].labels)| <= MAX_NAME
    ensures var w := p.log.names[i];
            var r := Parse(p.content, w.pos, true, 0, HEADER_SIZE, []);
            r.Parsed? && FoldEq(r.storage, Wire(w.labels)) && r.next == w.end
  {
    NameReadsBack(p.content, p.log, i, 0, HEADER_SIZE);
  }

  // ---------------------------------------------------------------- compression

  /** What a name shares at its end with any name that was written where a pointer can reach it, a
      lookup can use; of both, names with more than 34 labels are left alone. */
  lemma {:induction false} SharesWithWritten(log: Log, i: nat, labels: Labels)
    requires Remembered(log) && i < |log.names| && |labels| <= MAX_LABELS
    requires log.names[i].pos < MAX_POINTER && |log.names[i].labels| <= MAX_LABELS
    ensures CommonTail(labels, log.names[i].labels) <= Usable(labels, log.known)
  {
    assert Covered(log.names[i], log.known);
    SharedWithCovered(labels, log.names[i].labels, log.known);
  }

  /** The name at position i of the log is one that a pointer can reach, and shares labels with these. */
  ghost predicate Sharing(log: Log, i: nat, labels: Labels) {
    && i < |log.names| && log.names[i].pos < MAX_POINTER && |log.names[i].labels| <= MAX_LABELS
    && |labels| <= MAX_LABELS && CommonTail(labels, log.names[i].labels) > 0
  }

  lemma {:induction false} SharesEnding(p: PacketWriter, i: nat, labels: Labels)
    requires p.Valid() && Sharing(p.log, i, labels)
    ensures 0 < CommonTail(labels, p.log.names[i].labels) <= Usable(labels, p.log.known)
  {
    SharesWithWritten(p.log, i, labels);
  }

  lemma SharedSize(w: Written, qname: Bytes, name: Bytes, labels: Labels, n: nat)
    requires Takes(w, qname, name, labels, true, n) == true && Holds(name, labels) == true && 0 < n <= |labels|
    ensures w.end - w.pos == if Marked(qname, name, true) then 2 else |name| - TailLength(labels, |labels| - n) + 2
  {
    WireLength(labels, 0);
  }

  lemma ShortenedSize(name: Bytes, labels: Labels, n: nat, target: nat)
    requires Holds(name, labels) && 0 < n <= |labels| && target < MAX_POINTER
    ensures |Shortened(labels, |labels| - n, target)| == |name| - TailLength(labels, |labels| - n) + 2
  {
    WireLength(labels, 0);
    ShortSize(labels, n, target);
  }

  /** A name that shares labels at its end with one written before, where a pointer can reach it, loses
      at least those labels and gets a pointer. */
  method WriteSharing(p: PacketWriter, ghost i: nat, name: Bytes, ghost labels: Labels) returns (ghost n: nat)
    requires p.Valid() == true && p.Compressing(true) && Holds(name, labels) && NoZeros(labels) && Sharing(p.log, i, labels)
    requires |p.content| >= MAX_POINTER || |p.content| + |name| <= MAX_POINTER
    modifies p
    ensures p.Valid() == true
    ensures CommonTail(labels, old(p.log.names[i].labels)) <= n <= |labels|
    ensures |p.content| == |old(p.content)| + |name| - TailLength(labels, |labels| - n) + 2
  {
    SharesEnding(p, i, labels);
    n := p.Shared(labels, true);
    ghost var w, registered, target := p.XfrName(name, labels, true);
    ShortenedSize(name, labels, n, target);
  }

  /** The name of a record likewise, or it gets the question's marker. */
  method RecordSharing(p: PacketWriter, ghost i: nat, name: Bytes, ghost labels: Labels, qtype: nat, ttl: nat, qclass: nat, where: Place)
    returns (ghost n: nat)
    requires p.Valid() == true && !p.canonic && !p.lowerCase && Holds(name, labels) && NoZeros(labels) && Sharing(p.log, i, labels)
    requires qtype < 0x1_0000 && qclass < 0x1_0000 && ttl < 0x1_0000_0000
    requires |p.content| >= MAX_POINTER || |p.content| + |name| <= MAX_POINTER
    requires |p.content| + |name| + RECORD_HEADER + 2 < 0x1_0000
    modifies p
    ensures p.Valid() == true && p.log.names == old(p.log.names) + [p.open.name] && p.open.name.labels == labels
    ensures CommonTail(labels, old(p.log.names[i].labels)) <= n <= |labels|
    ensures var w := p.open.name;
            w.end - w.pos == if Marked(p.qname, name, true) then 2 else |name| - TailLength(labels, |labels| - n) + 2
  {
    SharesEnding(p, i, labels);
    n := p.StartRecord(name, labels, qtype, ttl, qclass, where, true);
    SharedSize(p.open.name, p.qname, name, labels, n);
  }

  // ---------------------------------------------------------------- records

  lemma {:induction false} CountsAdd(places: seq<Place>)
    ensures Count(places, QUESTION) + Count(places, ANSWER) + Count(places, AUTHORITY) + Count(places, ADDITIONAL) == |places|
  {
    if places != [] { CountsAdd(places[..|places| - 1]); }
  }

  lemma {:induction false} RecordsFit(c: Bytes, log: Log, f: Frame, from: nat, i: nat)
    requires RecordsOk(c, log, f) && Gapless(f.records, from, f.start) && i <= |f.records|
    ensures i <= StartOf(f.records, from, i) - from
  {
    if i > 0 {
      RecordsFit(c, log, f, from, i - 1);
      assert f.records[i - 1].name.pos == StartOf(f.records, from, i - 1);
      assert RecordAt(c, log, f.records[i - 1]);
    }
  }

  lemma {:induction false} NoneCounted(places: seq<Place>, which: Place)
    requires Count(places, which) == 0
    ensures Field(places, which) == if which == QUESTION then 1 else 0
  {
    FieldByCount(places, which);
  }

  lemma {:induction false} AnswersField(places: seq<Place>)
    requires |places| < 0x1_0000
    ensures Field(places, ANSWER) == Count(places, ANSWER)
  {
    FieldByCount(places, ANSWER);
    AnswersCounted(Count(places, ANSWER));
  }

  lemma {:induction false} OneAdditional(places: seq<Place>)
    requires Count(places, ADDITIONAL) <= 1
    ensures Field(places, ADDITIONAL) == Count(places, ADDITIONAL)
  {
    FieldByCount(places, ADDITIONAL);
    AdditionalField(Count(places, ADDITIONAL));
  }

  /** A run that writes ANSWER records and at most one ADDITIONAL record announces what it wrote. */
  lemma {:induction false} AnswersAnnounced(places: seq<Place>)
    requires |places| < 0x1_0000
    requires Count(places, QUESTION) == 0 && Count(places, AUTHORITY) == 0 && Count(places, ADDITIONAL) <= 1
    ensures Announced(places)
    ensures Field(places, ANSWER) == Count(places, ANSWER)
  {
    CountsAdd(places);
    NoneCounted(places, QUESTION);
    NoneCounted(places, AUTHORITY);
    AnswersField(places);
    OneAdditional(places);
  }

  /** After such a run and a commit the header's answer count is the number of answers, and the walk
      that skips pointers covers exactly the packet. */
  lemma AnswersFramed(p: PacketWriter)
    requires p.Valid() && p.sor == 0 && p.frame.tight && |p.content| < 0x1_0000
    requires var places := p.frame.places;
             Count(places, QUESTION) == 0 && Count(places, AUTHORITY) == 0 && Count(places, ADDITIONAL) <= 1
    ensures |p.content| >= HEADER_SIZE && U16(p.content, 6) == Count(p.frame.places, ANSWER)
    ensures PacketLength(p.content) == |p.content|
  {
    var places := p.frame.places;
    RecordsFit(p.content, p.log, p.frame, p.truncateMarker, |p.frame.records|);
    AnswersAnnounced(places);
    HeaderFields(p.content, places);
    assert U16(p.content, FieldAt(ANSWER)) == Field(places, ANSWER);
    WalkCoversPacket(p.content, p.namePositions, p.log, p.question, p.qname, p.frame, p.truncateMarker, p.open);
  }

  /** One AUTHORITY record is announced as 256, and two ADDITIONAL records as 257. */
  lemma OtherCountsWrong()
    ensures Field([AUTHORITY], AUTHORITY) == 256
    ensures Field([ADDITIONAL, ADDITIONAL], ADDITIONAL) == 257
    ensures !Announced([AUTHORITY]) && !Announced([ADDITIONAL, ADDITIONAL])
  {
    assert [AUTHORITY][..0] == [];
    assert [ADDITIONAL, ADDITIONAL][..1] == [ADDITIONAL] && [ADDITIONAL][..0] == [];
    SwapOf(0, 1);
  }

  // ---------------------------------------------------------------- a run whose header announces too few

  ghost function Times(n: nat): (r: seq<Place>)
    ensures |r| == n
  {
    seq(n, i => AUTHORITY)
  }

  lemma {:induction false} CountTimes(n: nat, which: Place)
    ensures Count(Times(n), which) == if which == AUTHORITY then n else 0
  {
    if n > 0 {
      CountTimes(n - 1, which);
      assert Times(n)[..n - 1] == Times(n - 1);
    }
  }

  /** A header that is to announce 256 AUTHORITY records announces one. */
  lemma AuthorityWraps()
    ensures Field(Times(256), QUESTION) == 1 && Field(Times(256), AUTHORITY) == 1
    ensures Field(Times(256), ANSWER) == 0 && Field(Times(256), ADDITIONAL) == 0
  {
    CountTimes(256, QUESTION);
    CountTimes(256, ANSWER);
    CountTimes(256, AUTHORITY);
    CountTimes(256, ADDITIONAL);
    NoneCounted(Times(256), QUESTION);
    NoneCounted(Times(256), ANSWER);
    NoneCounted(Times(256), ADDITIONAL);
    FieldByCount(Times(256), AUTHORITY);
    SwappedSmall(256);
    SwapOf(1, 0);
  }

  lemma TooFewAnnounced(p: PacketWriter)
    requires p.Valid() && p.sor == 0 && p.frame.tight && p.frame.places == Times(256)
    ensures RecordCount(p.content) == 1 && PacketLength(p.content) < |p.content|
  {
    AuthorityWraps();
    HeaderFields(p.content, p.frame.places);
    WalkCoversPacket(p.content, p.namePositions, p.log, p.question, p.qname, p.frame, p.truncateMarker, p.open);
  }

  /** A writer with n finished AUTHORITY records and one more open. */
  ghost predicate Writing(p: PacketWriter, n: nat)
    reads p
  {
    && p.Valid() && p.sor == |p.content| && p.place == AUTHORITY
    && p.frame.places == Times(n) && p.frame.tight && |p.content| <= 30 + 13 * n
  }

  method OneMore(p: PacketWriter, ghost n: nat)
    requires Writing(p, n) && n < 255
    modifies p
    ensures Writing(p, n + 1) == true
  {
    assert Times(n) + [AUTHORITY] == Times(n + 1);
    ghost var shared := p.StartRecord([0], [], 2, 0, 1, AUTHORITY, false);
  }

  method LastOne(p: PacketWriter)
    requires Writing(p, 255)
    modifies p
    ensures p.Valid() && p.sor == 0 && p.frame.tight && p.frame.places == Times(256)
  {
    assert Times(255) + [AUTHORITY] == Times(256);
    p.Commit();
  }

  method FirstOne() returns (p: PacketWriter)
    ensures fresh(p) && Writing(p, 0) == true
  {
    p := new PacketWriter([0], [], 1, 1, 0);
    ghost var shared := p.StartRecord([0], [], 2, 0, 1, AUTHORITY, false);
  }

  /** Writes 256 AUTHORITY records: the length found is then less than that of the packet. */
  method WriteAuthority() returns (p: PacketWriter)
    ensures p.Valid() && p.sor == 0 && p.frame.tight && p.frame.places == Times(256)
    ensures PacketLength(p.content) < |p.content|
  {
    p := FirstOne();
    for i := 0 to 255
      invariant fresh(p) && Writing(p, i) == true
    {
      OneMore(p, i);
    }
    LastOne(p);
    TooFewAnnounced(p);
  }
}
