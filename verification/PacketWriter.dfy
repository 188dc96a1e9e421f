/** GenericDNSPacketWriter: a packet written name by name and record by record, with compression. */
module PacketWriter {
  import opened DnsName
  import opened PacketName
  import opened NameIndex
  import opened NameLookup
  import opened PacketFrame

  /** The question's name stands uncompressed after the header, so `c0 0c` may point to it. */
  ghost predicate QuestionAt(c: Bytes, log: Log, q: Written) {
    && q in log.names && q.pos == HEADER_SIZE < |c| && c[HEADER_SIZE] <= 63
    && NameAt(c, log.bytes, HEADER_SIZE, q.labels, HEADER_SIZE, 0)
    && NameEnd(c, HEADER_SIZE) == q.end
  }

  /** The octets xfrName puts down when it does not compress. */
  function Plain(name: Bytes, lowerCase: bool): Bytes {
    if |name| <= 1 then [0] else if lowerCase then LowerAll(name) else name
  }

  /** dns_tolower over a name only changes letters: the lengths stay. */
  ghost function LowerLabels(ls: Labels): Labels {
    seq(|ls|, i requires 0 <= i < |ls| => LowerAll(ls[i]))
  }

  lemma LowerFolds(ls: Labels)
    requires ValidLabels(ls)
    ensures ValidLabels(LowerLabels(ls)) && LabelsFoldEq(LowerLabels(ls), ls)
  {
    forall l | l in LowerLabels(ls) ensures ValidLabel(l) {
      var i :| 0 <= i < |ls| && l == LowerAll(ls[i]);
      assert ValidLabel(ls[i]);
    }
  }

  lemma {:induction false} LowerWire(ls: Labels)
    requires ValidLabels(ls)
    ensures ValidLabels(LowerLabels(ls)) && LowerAll(Wire(ls)) == Wire(LowerLabels(ls))
  {
    LowerFolds(ls);
    if ls != [] {
      LowerWire(ls[1..]);
      assert LowerLabels(ls)[1..] == LowerLabels(ls[1..]);
      assert ValidLabel(ls[0]);
      assert LowerAll(LabelWire(ls[0])) == LabelWire(LowerAll(ls[0]));
      assert LowerAll(Wire(ls)) == LowerAll(LabelWire(ls[0])) + LowerAll(Wire(ls[1..]));
    }
  }

  /** What xfrName puts down, and whether the position enters the index. */
  datatype Output = Output(octets: Bytes, register: bool)

  /** What the output means: the name can be read from it; it is shortened by the longest ending the
      index offers, or written out. */
  ghost predicate Right(c: Bytes, log: Log, labels: Labels, spelled: Labels, n: nat, t: nat, plain: Bytes, out: Output)
    requires ValidLabels(labels) && n <= |labels| && t < MAX_POINTER
  {
    var d := c + out.octets;
    && WrittenAt(d, log.bytes + Span(|c|, |d|), Written(|c|, labels, spelled, |d|))
    && (out.register ==> |d| <= MAX_POINTER && LabelSpot(d, log.low + Span(|c|, |d|), |c|, spelled))
    && (n == 0 ==> out.octets == plain)
    && (n > 0 ==> out.octets == Shortened(labels, |labels| - n, t))
  }

  lemma RootRight(c: Bytes, log: Log)
    ensures Right(c, log, [], [], 0, 0, [0], Output([0], false)) == true
  {
    assert Wire([]) == [0];
    WholeWritten(c, log.low, log.bytes, [], []);
  }

  lemma PlainRight(c: Bytes, log: Log, labels: Labels, lowerCase: bool)
    requires ValidLabels(labels) && labels != []
    requires |c| >= MAX_POINTER || |c| + |Wire(labels)| <= MAX_POINTER
    ensures var spelled := if lowerCase then LowerLabels(labels) else labels;
            var plain := Plain(Wire(labels), lowerCase);
            ValidLabels(spelled) && Right(c, log, labels, spelled, 0, 0, plain, Output(plain, |c| < MAX_POINTER)) == true
  {
    var spelled := if lowerCase then LowerLabels(labels) else labels;
    LowerFolds(labels);
    LowerWire(labels);
    WireLength(labels, 0);
    assert Plain(Wire(labels), lowerCase) == Wire(spelled);
    WholeWritten(c, log.low, log.bytes, labels, spelled);
  }

  lemma ShortRight(c: Bytes, log: Log, labels: Labels, n: nat, t: nat, back: Labels, plain: Bytes)
    requires ValidLabels(labels) && 0 < n <= |labels| && log.low <= log.bytes
    requires LabelSpot(c, log.low, t, back) && n <= MAX_LABELS && |back| == n
    requires LabelsFoldEq(back, labels[|labels| - n..])
    requires |c| >= MAX_POINTER || |c| + |Shortened(labels, |labels| - n, t)| <= MAX_POINTER
    ensures var k := |labels| - n;
            Right(c, log, labels, labels[..k] + back, n, t, plain, Output(Shortened(labels, k, t), |c| < MAX_POINTER && n < |labels|)) == true
  {
    CompressedWritten(c, log.low, log.bytes, labels, |labels| - n, t, back);
  }

  /** What a lookup found is where the writer can point. */
  lemma FoundPointer(c: Bytes, log: Log, labels: Labels, n: nat, pos: nat, matchLen: nat, back: Labels)
    requires ValidLabels(labels) && n <= |labels| && Found(c, log.low, labels, n, pos, matchLen, back) && BytesOk(|c|, log)
    ensures n == 0 <==> pos == 0
    ensures n > 0 ==>
      && pos < MAX_POINTER && 3 <= matchLen <= |Wire(labels)| && (matchLen == |Wire(labels)| <==> n == |labels|)
      && Wire(labels)[..|Wire(labels)| - matchLen] + PointerBytes(pos) == Shortened(labels, |labels| - n, pos)
      && |Shortened(labels, |labels| - n, pos)| == |Wire(labels)| - matchLen + 2
  {
    if n > 0 {
      assert pos in log.low;
      WireLength(labels, |labels| - n);
      WireLength(labels[|labels| - n..], 0);
      WholeTail(labels, n);
      FrontOfPrefix(labels, |labels| - n);
    }
  }

  lemma Recorded(c: Bytes, positions: seq<nat>, log: Log, labels: Labels, spelled: Labels, n: nat, t: nat, plain: Bytes, out: Output)
    requires LogOk(c, positions, log) && Remembered(log) && HEADER_SIZE <= |c|
    requires ValidLabels(labels) && n <= |labels| && t < MAX_POINTER
    requires Right(c, log, labels, spelled, n, t, plain, out)
    requires n == 0 || n == Usable(labels, log.known)
    requires out.register <==> |c| < MAX_POINTER && n < |labels|
    ensures var d := c + out.octets;
            var after := LogWith(log, Written(|c|, labels, spelled, |d|), |c|, |d|, out.register);
            LogOk(d, PositionsWith(positions, |c|, out.register), after) && Remembered(after) == true
  {
    var d := c + out.octets;
    var w := Written(|c|, labels, spelled, |d|);
    LogWrite(c, d, positions, log, w, out.register);
    RememberedWith(log, w, |c|, |d|, out.register);
  }

  lemma QuestionKept(c: Bytes, d: Bytes, log: Log, log': Log, q: Written)
    requires QuestionAt(c, log, q) && log.bytes <= log'.bytes && |c| <= |d|
    requires forall w | w in log.names :: w in log'.names
    requires (forall x | x in log.bytes && x < |c| :: d[x] == c[x])
    ensures QuestionAt(d, log', q)
  {
    NameFrame(c, d, log.bytes, HEADER_SIZE, q.labels, HEADER_SIZE, 0);
    EndFrame(c, d, log.bytes, HEADER_SIZE, q.labels, HEADER_SIZE, 0);
    NameMore(d, log.bytes, log'.bytes, HEADER_SIZE, q.labels, HEADER_SIZE, HEADER_SIZE, 0, 0);
  }

  /** The frame around the octets, and the record that is open if there is one. */
  ghost predicate FramedAt(c: Bytes, log: Log, f: Frame, from: nat, sor: nat, open: Open) {
    && FrameOk(c, log, f, from)
    && (sor == 0 && f.tight ==> f.start == |c|)
    && (sor != 0 ==> OpenAt(c, log, f, sor, open))
  }

  /** Octets outside a record loosen the frame. */
  ghost function Appended(f: Frame, sor: nat): Frame {
    f.(tight := f.tight && sor != 0)
  }

  lemma FramedKept(c: Bytes, d: Bytes, log: Log, log': Log, f: Frame, from: nat, sor: nat, open: Open)
    requires FramedAt(c, log, f, from, sor, open) && c <= d
    requires forall w | w in log.names :: w in log'.names
    requires forall x | x in log'.bytes && x < |c| :: x in log.bytes
    ensures FramedAt(d, log', Appended(f, sor), from, sor, open)
  {
    FrameKept(c, d, log, log', f, from);
    assert RecordsOk(d, log', Appended(f, sor));
    if sor != 0 { HeadKept(c, d, open.name.end, open.head); }
  }

  lemma QuestionAfterName(c: Bytes, d: Bytes, log: Log, q: Written, w: Written, register: bool)
    requires QuestionAt(c, log, q) && c <= d && BytesOk(|c|, log)
    ensures QuestionAt(d, LogWith(log, w, |c|, |d|, register), q)
  {
    QuestionKept(c, d, log, LogWith(log, w, |c|, |d|, register), q);
  }

  lemma FramedAfterName(c: Bytes, d: Bytes, log: Log, f: Frame, from: nat, sor: nat, open: Open, w: Written, register: bool)
    requires FramedAt(c, log, f, from, sor, open) && c <= d
    ensures FramedAt(d, LogWith(log, w, |c|, |d|, register), Appended(f, sor), from, sor, open)
  {
    FramedKept(c, d, log, LogWith(log, w, |c|, |d|, register), f, from, sor, open);
  }

  /** The header of a question: the opcode is in bits 3 to 6 of the third octet; id and flags are zero. */
  function Header(opcode: nat): (h: Bytes)
    requires opcode < 16
    ensures |h| == HEADER_SIZE && h[2] / 8 % 16 == opcode && h[2] % 8 == 0 && h[2] / 128 == 0 && h[0] == h[1] == h[3] == 0
    ensures |h| == HEADER_SIZE && HeaderOk(h, [])
  {
    var flags: Byte := opcode * 8;
    var h: Bytes := [0, 0, flags, 0, 0, 1, 0, 0, 0, 0, 0, 0];
    assert forall which :: U16(h, FieldAt(which)) == Field([], which);
    h
  }

  /** Written out after the header, the question's name can be read without a pointer. */
  lemma {:induction false} QuestionWritten(h: Bytes, c: Bytes, name: Bytes, labels: Labels)
    requires |h| == HEADER_SIZE && Holds(name, labels) && c == h + Plain(name, false)
    ensures HEADER_SIZE < |c| && c[HEADER_SIZE] <= 63
    ensures NameAt(c, Span(|h|, |c|), HEADER_SIZE, labels, HEADER_SIZE, 0) && NameEnd(c, HEADER_SIZE) == |c|
  {
    WireLength(labels, 0);
    assert Plain(name, false) == Wire(labels);
    assert c[|h|..] == Wire(labels);
    WholeNameAt(c, Span(|h|, |c|), |h|, labels, |h|);
    if labels != [] { LabelInWire(labels, 0); assert ValidLabel(labels[0]); }
  }

  /** Names with the same storage but for case have the same labels but for case. */
  lemma {:induction false} MarkerWritten(c: Bytes, log: Log, q: Written, qname: Bytes, name: Bytes, labels: Labels)
    requires QuestionAt(c, log, q) && Holds(qname, q.labels) && Holds(name, labels) && FoldEq(qname, name)
    ensures var d := c + [192, 12];
            WrittenAt(d, log.bytes + Span(|c|, |d|), Written(|c|, labels, q.labels, |d|))
    ensures LabelsFoldEq(q.labels, labels)
  {
    var d := c + [192, 12];
    var s := log.bytes + Span(|c|, |d|);
    if qname != [] { WireFoldBack(q.labels, labels); }
    NameFrame(c, d, log.bytes, HEADER_SIZE, q.labels, HEADER_SIZE, 0);
    NameMore(d, log.bytes, s, HEADER_SIZE, q.labels, HEADER_SIZE, HEADER_SIZE, 0, MAX_HOPS - 1);
    assert d[|c|] == 192 && d[|c| + 1] == 12;
    assert PointerTarget(192, 12) == HEADER_SIZE;
    assert NameAt(d, s, |c|, q.labels, |c|, MAX_HOPS);
  }

  /** The marker needs no place in the index: the question's name has one. */
  lemma {:induction false} MarkerRemembered(log: Log, q: Written, w: Written, to: nat)
    requires Remembered(log) && q in log.names && q.pos < MAX_POINTER && w.spelled == q.labels && LabelsFoldEq(q.labels, w.labels)
    ensures Remembered(LogWith(log, w, w.pos, to, false)) == true
  {
    if |w.labels| <= MAX_LABELS {
      var i :| 0 <= i < |log.names| && log.names[i] == q;
      assert Covered(log.names[i], log.known);
      FoldShares(w.labels, q.labels);
      SharedWithCovered(w.labels, q.labels, log.known);
    }
    RememberedWith(log, w, w.pos, to, false);
  }

  /** commit changes no octet of a name. */
  lemma CommitKeeps(c: Bytes, d: Bytes, positions: seq<nat>, log: Log, f: Frame, from: nat, sor: nat, open: Open, place: Place, q: Written)
    requires HEADER_SIZE <= |c| < 0x1_0000 && LogOk(c, positions, log) && QuestionAt(c, log, q)
    requires FramedAt(c, log, f, from, sor, open) && sor != 0 && d == Committed(c, sor, place)
    ensures LogOk(d, positions, log) && QuestionAt(d, log, q)
    ensures FramedAt(d, log, Closed(f, open, sor, |d|, place), from, 0, open)
  {
    LogKept(c, d, positions, log);
    QuestionKept(c, d, log, log, q);
    FrameClosed(c, log, f, from, sor, open, place);
  }

  lemma CommitSound(c: Bytes, d: Bytes, positions: seq<nat>, log: Log, q: Written, qname: Bytes, f: Frame, from: nat, sor: nat, open: Open,
                    place: Place)
    requires Sound(c, positions, log, q, qname, f, from, sor, open) && sor != 0 && |c| < 0x1_0000
    ensures HEADER_SIZE + 2 <= sor <= |c|
    ensures d == Committed(c, sor, place) ==> Sound(d, positions, log, q, qname, Closed(f, open, sor, |d|, place), from, 0, open) == true
    ensures AfterCommit(c, sor, place) == Committed(c, sor, place)
  {
    assert open.name.pos >= HEADER_SIZE;
    if d == Committed(c, sor, place) { CommitKeeps(c, d, positions, log, f, from, sor, open, place, q); }
  }

  function Bytes32(v: nat): (r: Bytes)
    requires v < 0x1_0000_0000
    ensures |r| == 4 && U16(r, 0) * 0x1_0000 + U16(r, 2) == v
  {
    Bytes16(v / 0x1_0000) + Bytes16(v % 0x1_0000)
  }

  lemma HeadWritten(d: Bytes, p: nat, h: Head)
    requires h.qtype < 0x1_0000 && h.qclass < 0x1_0000 && h.ttl < 0x1_0000_0000
    requires p <= |d| && d[p..] == HeadOctets(h) + [0, 0]
    ensures HeadAt(d, p, h) == true && p + RECORD_HEADER == |d|
  {
    var w := d[p..];
    assert forall i | 0 <= i < 8 :: w[i] == HeadOctets(h)[i] && d[p + i] == w[i];
    assert d[p..p + 8] == HeadOctets(h);
    HeadOctetsSay(d, p, h);
  }

  function HeadOctets(h: Head): (r: Bytes)
    requires h.qtype < 0x1_0000 && h.qclass < 0x1_0000 && h.ttl < 0x1_0000_0000
    ensures |r| == 8
  {
    Bytes16(h.qtype) + Bytes16(h.qclass) + Bytes32(h.ttl)
  }

  lemma HeadOctetsSay(d: Bytes, p: nat, h: Head)
    requires h.qtype < 0x1_0000 && h.qclass < 0x1_0000 && h.ttl < 0x1_0000_0000
    requires p + 8 <= |d| && d[p..p + 8] == HeadOctets(h)
    ensures HeadAt(d, p, h) == true
  {
    var w, r, s, t := d[p..p + 8], Bytes16(h.qtype), Bytes16(h.qclass), Bytes32(h.ttl);
    assert w[0] == r[0] && w[1] == r[1] && w[2] == s[0] && w[3] == s[1];
    assert w[4] == t[0] && w[5] == t[1] && w[6] == t[2] && w[7] == t[3];
    assert forall i | 0 <= i < 8 :: d[p + i] == w[i];
  }

  lemma HeaderJoined(c: Bytes, h: Head)
    requires h.qtype < 0x1_0000 && h.qclass < 0x1_0000 && h.ttl < 0x1_0000_0000
    ensures c + Bytes16(h.qtype) + Bytes16(h.qclass) + Bytes32(h.ttl) + Bytes16(0) == c + (HeadOctets(h) + [0, 0])
  {
    assert Bytes16(0) == [0, 0];
  }

  /** A record was begun after c: its name, then its header, with no size yet. */
  ghost predicate Begun(c: Bytes, d: Bytes, open: Open) {
    && open.head.qtype < 0x1_0000 && open.head.qclass < 0x1_0000 && open.head.ttl < 0x1_0000_0000
    && open.name.pos == |c| && open.name.end <= |d| && c <= d
    && d[open.name.end..] == HeadOctets(open.head) + [0, 0]
  }

  lemma RecordOpened(c: Bytes, d: Bytes, log: Log, log': Log, f: Frame, from: nat, w: Written, h: Head)
    requires FrameOk(c, log, f, from) && c <= d && BytesOk(|c|, log)
    requires f.tight ==> f.start == |c|
    requires f.start <= |c|
    requires w.pos == |c| && w.pos < w.end && w.end + RECORD_HEADER == |d|
    requires exists registered :: log' == LogWith(log, w, |c|, w.end, registered)
    requires HeadAt(d, w.end, h)
    ensures FramedAt(d, log', f.(start := |c|), from, |d|, Open(w, h))
  {
    FrameKept(c, d, log, log', f, from);
  }

  /** commit does nothing when no record is open. */
  ghost function AfterCommit(c: Bytes, sor: nat, place: Place): (d: Bytes)
    ensures |d| == |c|
  {
    if HEADER_SIZE + 2 <= sor <= |c| < 0x1_0000 then Committed(c, sor, place) else c
  }

  /** d is what commit leaves of c. */
  ghost predicate Commits(c: Bytes, sor: nat, place: Place, d: Bytes) {
    d == AfterCommit(c, sor, place)
  }

  /** A record was begun after commit. */
  ghost predicate BegunAfter(c: Bytes, sor: nat, place: Place, d: Bytes, open: Open) {
    Begun(AfterCommit(c, sor, place), d, open)
  }

  lemma BegunOn(c: Bytes, sor: nat, place: Place, committed: Bytes, d: Bytes, open: Open)
    requires Commits(c, sor, place, committed) && Begun(committed, d, open) == true
    ensures BegunAfter(c, sor, place, d, open) == true
  {}

  ghost function FrameAfterCommit(f: Frame, open: Open, sor: nat, size: nat, place: Place): Frame {
    if sor == 0 then f else Closed(f, open, sor, size, place)
  }

  ghost predicate Sound(c: Bytes, positions: seq<nat>, log: Log, q: Written, qname: Bytes, f: Frame, from: nat, sor: nat, open: Open) {
    && HEADER_SIZE <= |c| && LogOk(c, positions, log) && Remembered(log)
    && QuestionAt(c, log, q) && Holds(qname, q.labels)
    && FramedAt(c, log, f, from, sor, open) && from == q.end + 4
  }

  /** A record whose name is the question's gets the marker. */
  predicate Marked(qname: Bytes, name: Bytes, compressed: bool) {
    compressed && !(|name| == 1 && name[0] == 0) && FoldEq(qname, name)
  }

  /** How many octets a name takes that is not marked: those of the labels that are not shared and of
      a pointer to the rest, or all. */
  ghost function NameSize(labels: Labels, n: nat): (r: nat)
    requires ValidLabels(labels) && n <= |labels|
    ensures 0 < r <= |Wire(labels)| + 2
  {
    TailLengthIs(labels, |labels| - n);
    WireLength(labels, |labels| - n);
    if n == 0 then |Wire(labels)| else |Wire(labels)| - TailLength(labels, |labels| - n) + 2
  }

  /** A name at the start of a record, of which n labels could be shared, takes so many octets. */
  ghost predicate Takes(w: Written, qname: Bytes, name: Bytes, labels: Labels, compressed: bool, n: nat) {
    && ValidLabels(labels) && n <= |labels|
    && w.end == w.pos + if Marked(qname, name, compressed) then 2 else NameSize(labels, n)
  }

  lemma ShortSize(labels: Labels, n: nat, t: nat)
    requires ValidLabels(labels) && 0 < n <= |labels| && t < MAX_POINTER
    ensures |Shortened(labels, |labels| - n, t)| == |Wire(labels)| - TailLength(labels, |labels| - n) + 2
  {
    TailLengthIs(labels, |labels| - n);
    FrontOfPrefix(labels, |labels| - n);
  }

  /** What xfrName puts down takes so many octets. */
  lemma OutputSize(name: Bytes, labels: Labels, lowerCase: bool, n: nat, t: nat)
    requires Holds(name, labels) && n <= |labels| && t < MAX_POINTER
    ensures |if n == 0 then Plain(name, lowerCase) else Shortened(labels, |labels| - n, t)| == NameSize(labels, n)
  {
    WireLength(labels, 0);
    if n > 0 { ShortSize(labels, n, t); }
  }

  // ---------------------------------------------------------------- the writer

  class PacketWriter {
    var content: Bytes
    var namePositions: seq<nat>
    var sor: nat
    var rollbackMarker: nat
    var truncateMarker: nat
    var place: Place
    var canonic: bool
    var lowerCase: bool
    var compress: bool
    const qname: Bytes

    ghost var log: Log
    ghost var question: Written
    ghost var frame: Frame
    ghost var open: Open

    ghost predicate Readable()
      reads this`content, this`namePositions, this`log
    {
      HEADER_SIZE <= |content| && LogOk(content, namePositions, log) && Remembered(log)
    }

    ghost predicate Asked()
      reads this`content, this`log, this`question
    {
      QuestionAt(content, log, question) && Holds(qname, question.labels)
    }

    ghost predicate Framed()
      reads this`content, this`log, this`frame, this`truncateMarker, this`sor, this`open
    {
      FramedAt(content, log, frame, truncateMarker, sor, open)
    }

    /** Every name written so far can be read, and every finished record says how long it is. */
    ghost predicate Valid()
      reads this`content, this`namePositions, this`log, this`question, this`frame, this`truncateMarker, this`sor, this`open
    {
      Sound(content, namePositions, log, question, qname, frame, truncateMarker, sor, open)
    }

    predicate Compressing(asked: bool)
      reads this`compress, this`canonic, this`lowerCase
    {
      compress && asked && !canonic && !lowerCase
    }

    /** How many labels at the end the index lets a name share. */
    ghost function Shared(labels: Labels, asked: bool): (n: nat)
      reads this`compress, this`canonic, this`lowerCase, this`log
      ensures n <= |labels|
    {
      if Compressing(asked) then Usable(labels, log.known) else 0
    }

    /** The header, the question's name in full, its type and class. */
    constructor (name: Bytes, ghost labels: Labels, qtype: nat, qclass: nat, opcode: nat)
      requires Holds(name, labels) && HEADER_SIZE + |name| <= MAX_POINTER
      requires qtype < 0x1_0000 && qclass < 0x1_0000 && opcode < 16
      ensures Valid() && sor == 0 && qname == name
      ensures content == Header(opcode) + Plain(name, false) + Bytes16(qtype) + Bytes16(qclass)
      ensures log.names == [question] && question.labels == labels && question.pos == HEADER_SIZE
      ensures frame == Frame([], [], |content|, true)
      ensures !canonic && !lowerCase
    {
      qname := name;
      content := Header(opcode);
      namePositions, sor, rollbackMarker, truncateMarker, place := [], 0, 0, 0, QUESTION;
      canonic, lowerCase, compress := false, false, false;
      log := Log([], [], {}, {});
      new;
      PutQuestion(name, labels, qtype, qclass);
      truncateMarker := |content|;
      sor := 0;
      rollbackMarker := 0;
      frame := Frame([], [], |content|, true);
    }

    method PutQuestion(name: Bytes, ghost labels: Labels, qtype: nat, qclass: nat)
      requires Readable() && Holds(name, labels) && qname == name
      requires |content| == HEADER_SIZE && HEADER_SIZE + |name| <= MAX_POINTER && log == Log([], [], {}, {})
      requires qtype < 0x1_0000 && qclass < 0x1_0000 && !compress && !lowerCase
      modifies this`content, this`namePositions, this`log, this`frame, this`question
      ensures Readable() && Asked()
      ensures content == old(content) + Plain(name, false) + Bytes16(qtype) + Bytes16(qclass)
      ensures log.names == [question] && question.labels == labels && question.pos == HEADER_SIZE
      ensures question.end + 4 == |content|
    {
      ghost var header, registered, target := content, false, 0;
      question, registered, target := XfrName(name, labels, false);
      QuestionWritten(header, content, name, labels);
      assert log.bytes == Span(HEADER_SIZE, |content|);
      assert Asked();
      Xfr16BitInt(qtype);
      Xfr16BitInt(qclass);
    }

    /** Octets that belong to no name. */
    method XfrBlob(blob: Bytes)
      requires Readable()
      modifies this`content, this`frame
      ensures Readable() && content == old(content) + blob
      ensures frame == Appended(old(frame), sor)
      ensures old(Asked()) ==> Asked()
      ensures old(Framed()) ==> Framed()
    {
      LogKept(content, content + blob, namePositions, log);
      if Asked() { QuestionKept(content, content + blob, log, log, question); }
      if Framed() { FramedKept(content, content + blob, log, log, frame, truncateMarker, sor, open); }
      content := content + blob;
      frame := Appended(frame, sor);
    }

    method Xfr16BitInt(v: nat)
      requires Readable() && v < 0x1_0000
      modifies this`content, this`frame
      ensures Readable() && content == old(content) + Bytes16(v)
      ensures frame == Appended(old(frame), sor)
      ensures old(Asked()) ==> Asked()
      ensures old(Framed()) ==> Framed()
    {
      XfrBlob(Bytes16(v));
    }

    method Xfr32BitInt(v: nat)
      requires Readable() && v < 0x1_0000_0000
      modifies this`content, this`frame
      ensures Readable() && content == old(content) + Bytes32(v)
      ensures frame == Appended(old(frame), sor)
      ensures old(Asked()) ==> Asked()
      ensures old(Framed()) ==> Framed()
    {
      XfrBlob(Bytes32(v));
    }

    /** A pointer to the question's name. */
    method PutMarker(name: Bytes, ghost labels: Labels) returns (ghost w: Written)
      requires Readable() && Asked() && Holds(name, labels) && FoldEq(qname, name)
      modifies this`content, this`log
      ensures Readable() && Asked() && content == old(content) + [192, 12]
      ensures w.pos == |old(content)| && w.end == |content| && w.labels == labels
      ensures log == LogWith(old(log), w, |old(content)|, |content|, false)
    {
      ghost var c, before := content, log;
      MarkerWritten(c, log, question, qname, name, labels);
      w := Written(|c|, labels, question.labels, |c| + 2);
      content := content + [192, 12];
      log := LogWith(log, w, |c|, |content|, false);
      LogWrite(c, content, namePositions, before, w, false);
      MarkerRemembered(before, question, w, |content|);
      QuestionAfterName(c, content, before, question, w, false);
    }

    /** xfrName: the labels no indexed name ends with, then a pointer to the longest ending that one
        offers; the whole name when there is none or the writer does not compress. */
    method XfrName(name: Bytes, ghost labels: Labels, asked: bool) returns (ghost w: Written, ghost registered: bool, ghost target: nat)
      requires Readable() && Holds(name, labels)
      requires Compressing(asked) ==> NoZeros(labels)
      requires |content| >= MAX_POINTER || |content| + |name| <= MAX_POINTER
      modifies this`content, this`namePositions, this`log, this`frame
      ensures Readable() && target < MAX_POINTER
      ensures var n := old(Shared(labels, asked));
              content == old(content) + if n == 0 then Plain(name, lowerCase) else Shortened(labels, |labels| - n, target)
      ensures w.pos == |old(content)| && w.end == |content| && w.labels == labels
      ensures log == LogWith(old(log), w, |old(content)|, |content|, registered)
      ensures registered <==> |name| > 1 && |old(content)| < MAX_POINTER && old(Shared(labels, asked)) < |labels|
      ensures frame == Appended(old(frame), sor)
      ensures old(Asked()) ==> Asked()
      ensures old(Framed()) ==> Framed()
    {
      ghost var c, before := content, log;
      w, registered, target := Put(name, labels, asked);
      if old(Asked()) { QuestionAfterName(c, content, before, question, w, registered); }
      if old(Framed()) { FramedAfterName(c, content, before, frame, truncateMarker, sor, open, w, registered); }
      frame := Appended(frame, sor);
    }

    /** The octets and the index, without the frame around them. */
    method Put(name: Bytes, ghost labels: Labels, asked: bool) returns (ghost w: Written, ghost registered: bool, ghost target: nat)
      requires Readable() && Holds(name, labels)
      requires Compressing(asked) ==> NoZeros(labels)
      requires |content| >= MAX_POINTER || |content| + |name| <= MAX_POINTER
      modifies this`content, this`namePositions, this`log
      ensures Readable() && target < MAX_POINTER
      ensures var n := old(Shared(labels, asked));
              content == old(content) + if n == 0 then Plain(name, lowerCase) else Shortened(labels, |labels| - n, target)
      ensures w.pos == |old(content)| && w.end == |content| && w.labels == labels
      ensures log == LogWith(old(log), w, |old(content)|, |content|, registered)
      ensures registered <==> |name| > 1 && |old(content)| < MAX_POINTER && old(Shared(labels, asked)) < |labels|
    {
      var pos := |content|;
      ghost var n, c := Shared(labels, asked), content;
      ghost var plain := Plain(name, lowerCase);
      if |name| <= 1 {
        assert labels == [];
        RootRight(c, log);
        Recorded(c, namePositions, log, [], [], 0, 0, [0], Output([0], false));
        content := content + [0];
        w, registered, target := Written(pos, [], [], |content|), false, 0;
        log := LogWith(log, w, pos, |content|, false);
        return;
      }
      var li, matchLen := 0, 0;
      ghost var back;
      if Compressing(asked) {
        li, matchLen, back := LookupName(name, content, namePositions, log.low, log.known, labels);
        FoundPointer(c, log, labels, n, li, matchLen, back);
      }
      ghost var spelled;
      if Compressing(asked) && li != 0 && li < MAX_POINTER {
        registered, target := pos < MAX_POINTER && n < |labels|, li;
        spelled := labels[..|labels| - n] + back;
        ShortRight(c, log, labels, n, li, back, plain);
        Recorded(c, namePositions, log, labels, spelled, n, li, plain, Output(Shortened(labels, |labels| - n, li), registered));
        if pos < MAX_POINTER && matchLen != |name| {
          namePositions := namePositions + [pos];
        }
        content := content + (name[..|name| - matchLen] + PointerBytes(li));
        assert n != 0 && content == c + Shortened(labels, |labels| - n, target);
      } else {
        registered, target := pos < MAX_POINTER, 0;
        spelled := if lowerCase then LowerLabels(labels) else labels;
        PlainRight(c, log, labels, lowerCase);
        Recorded(c, namePositions, log, labels, spelled, 0, 0, plain, Output(plain, registered));
        if pos < MAX_POINTER {
          namePositions := namePositions + [pos];
        }
        content := content + Plain(name, lowerCase);
        assert n == 0 && content == c + plain;
      }
      w := Written(pos, labels, spelled, |content|);
      log := LogWith(log, w, pos, |content|, registered);
    }

    /** commit: puts the size of the open record in front of it and counts it. */
    method Commit()
      requires Valid() == true && |content| < 0x1_0000
      modifies this`content, this`sor, this`frame
      ensures Valid() == true && sor == 0
      ensures |content| == |old(content)| && Commits(old(content), old(sor), place, content) == true
      ensures frame == FrameAfterCommit(old(frame), open, old(sor), |old(content)|, place)
    {
      if sor == 0 { return; }
      ghost var c := content;
      ghost var d := AfterCommit(c, sor, place);
      CommitSound(c, d, namePositions, log, question, qname, frame, truncateMarker, sor, open, place);
      Patch();
      frame := Closed(frame, open, sor, |content|, place);
      sor := 0;
    }

    /** What commit writes into the packet. */
    method Patch()
      requires HEADER_SIZE + 2 <= sor <= |content| < 0x1_0000
      modifies this`content
      ensures content == Committed(old(content), sor, place)
    {
      var rlen := |content| - sor;
      var sized := Put16(content, sor - 2, rlen);
      var counted := U16(sized, FieldAt(place));
      content := Put16(sized, FieldAt(place), Bump(place, counted));
    }

    /** startRecord: closes the record before, then writes a name (or `c0 0c` when it is the
        question's) and the header of the new one. */
    method StartRecord(name: Bytes, ghost labels: Labels, qtype: nat, ttl: nat, qclass: nat, where: Place, compressed: bool)
      returns (ghost n: nat)
      requires Valid() == true && Holds(name, labels)
      requires qtype < 0x1_0000 && qclass < 0x1_0000 && ttl < 0x1_0000_0000
      requires compressed && !canonic && !lowerCase ==> NoZeros(labels)
      requires |content| >= MAX_POINTER || |content| + |name| <= MAX_POINTER
      requires |content| + |name| + RECORD_HEADER + 2 < 0x1_0000
      modifies this`content, this`namePositions, this`sor, this`rollbackMarker, this`place, this`compress, this`log, this`frame, this`open
      ensures Valid() == true && sor == |content| && place == where && rollbackMarker == |old(content)|
      ensures compress == compressed
      ensures log.names == old(log.names) + [open.name] && open.name.labels == labels && open.head == Head(qtype, qclass, ttl)
      ensures BegunAfter(old(content), old(sor), old(place), content, open) == true
      ensures n == if compressed && !canonic && !lowerCase then Usable(labels, old(log.known)) else 0
      ensures Takes(open.name, qname, name, labels, compressed, n) == true
      ensures frame == FrameAfterCommit(old(frame), old(open), old(sor), |old(content)|, old(place)).(start := |old(content)|)
    {
      ghost var c, was, p := content, sor, place;
      CloseRecord(compressed);
      n := Shared(labels, compressed);
      ghost var committed := content;
      OpenRecord(name, labels, n, qtype, ttl, qclass, where, compressed);
      BegunOn(c, was, p, committed, content, open);
    }

    /** The record before is finished. */
    method CloseRecord(compressed: bool)
      requires Valid() == true && |content| < 0x1_0000
      modifies this`content, this`sor, this`frame, this`compress
      ensures Valid() == true && sor == 0 && compress == compressed
      ensures |content| == |old(content)| && Commits(old(content), old(sor), place, content) == true
      ensures frame == FrameAfterCommit(old(frame), open, old(sor), |old(content)|, place)
    {
      compress := compressed;
      Commit();
    }

    method OpenRecord(name: Bytes, ghost labels: Labels, ghost n: nat, qtype: nat, ttl: nat, qclass: nat, where: Place, compressed: bool)
      requires Valid() == true && sor == 0 && Holds(name, labels)
      requires qtype < 0x1_0000 && qclass < 0x1_0000 && ttl < 0x1_0000_0000
      requires compress == compressed && n == Shared(labels, compressed) && (compressed && !canonic && !lowerCase ==> NoZeros(labels))
      requires |content| >= MAX_POINTER || |content| + |name| <= MAX_POINTER
      modifies this`content, this`namePositions, this`sor, this`rollbackMarker, this`place, this`log, this`frame, this`open
      ensures Valid() == true && sor == |content| && place == where && rollbackMarker == |old(content)|
      ensures log.names == old(log.names) + [open.name] && open.name.labels == labels && open.head == Head(qtype, qclass, ttl)
      ensures Begun(old(content), content, open) == true
      ensures Takes(open.name, qname, name, labels, compressed, n) == true
      ensures frame == old(frame).(start := |old(content)|)
    {
      rollbackMarker := |content|;
      ghost var w, f := RecordFront(name, labels, n, Head(qtype, qclass, ttl), compressed);
      place, sor := where, |content|;
      open, frame := Open(w, Head(qtype, qclass, ttl)), f;
    }

    /** Name and header of a record, with no size yet. */
    method RecordFront(name: Bytes, ghost labels: Labels, ghost n: nat, head: Head, compressed: bool)
      returns (ghost w: Written, ghost f: Frame)
      requires Valid() == true && sor == 0 && Holds(name, labels) && compress == compressed && n == Shared(labels, compressed)
      requires head.qtype < 0x1_0000 && head.qclass < 0x1_0000 && head.ttl < 0x1_0000_0000
      requires compressed && !canonic && !lowerCase ==> NoZeros(labels)
      requires |content| >= MAX_POINTER || |content| + |name| <= MAX_POINTER
      modifies this`content, this`namePositions, this`log, this`frame
      ensures Sound(content, namePositions, log, question, qname, f, truncateMarker, |content|, Open(w, head)) == true
      ensures w.labels == labels && log.names == old(log.names) + [w]
      ensures Begun(old(content), content, Open(w, head)) == true
      ensures Takes(w, qname, name, labels, compressed, n) == true
      ensures f == old(frame).(start := |old(content)|)
    {
      ghost var c, before := content, log;
      f := frame;
      w := RecordName(name, labels, compressed);
      RecordHeader(head);
      assert content[w.end..] == HeadOctets(head) + [0, 0];
      HeadWritten(content, w.end, head);
      RecordOpened(c, content, before, log, f, truncateMarker, w, head);
      f := f.(start := |c|);
    }

    /** The name at the start of a record. */
    method RecordName(name: Bytes, ghost labels: Labels, compressed: bool) returns (ghost w: Written)
      requires Readable() && Asked() && Holds(name, labels) && compress == compressed
      requires compressed && !canonic && !lowerCase ==> NoZeros(labels)
      requires |content| >= MAX_POINTER || |content| + |name| <= MAX_POINTER
      modifies this`content, this`namePositions, this`log, this`frame
      ensures Readable() && Asked() && old(content) <= content
      ensures |content| == |old(content)| + (if Marked(qname, name, compressed) then 2 else NameSize(labels, old(Shared(labels, compressed))))
      ensures w.pos == |old(content)| && w.pos < w.end == |content| && w.labels == labels
      ensures exists registered :: log == LogWith(old(log), w, |old(content)|, |content|, registered)
    {
      if compressed && !(|name| == 1 && name[0] == 0) && FoldEq(qname, name) {
        w := PutMarker(name, labels);
      } else {
        ghost var n, registered, target := Shared(labels, compressed), false, 0;
        w, registered, target := XfrName(name, labels, compressed);
        OutputSize(name, labels, lowerCase, n, target);
      }
    }

    /** The header after it, with no size yet. */
    method RecordHeader(head: Head)
      requires Readable() && Asked()
      requires head.qtype < 0x1_0000 && head.qclass < 0x1_0000 && head.ttl < 0x1_0000_0000
      modifies this`content, this`frame
      ensures Readable() && Asked()
      ensures content == old(content) + (HeadOctets(head) + [0, 0])
    {
      ghost var c := content;
      Xfr16BitInt(head.qtype);
      Xfr16BitInt(head.qclass);
      Xfr32BitInt(head.ttl);
      Xfr16BitInt(0);
      HeaderJoined(c, head);
    }
  }
}
