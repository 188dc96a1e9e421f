/** The records of a packet under construction: where they are, how long they say they are, and how
    many the header counts. */
module PacketFrame {
  import opened DnsName
  import opened NameIndex

  const HEADER_SIZE := 12

  /** Type, class, TTL and size of a record. */
  const RECORD_HEADER := 10

  // ---------------------------------------------------------------- 16-bit values

  function U16(c: Bytes, i: nat): (r: nat)
    requires i + 1 < |c|
    ensures r < 0x1_0000
  {
    (c[i] as int) * 256 + c[i + 1] as int
  }

  const MAX_TTL := 0xffff_ffff

  function U32(c: Bytes, i: nat): (r: nat)
    requires i + 3 < |c|
    ensures r <= MAX_TTL
  {
    U16(c, i) * 0x1_0000 + U16(c, i + 2)
  }

  /** htons of a value below 65536, most significant octet first. */
  function Bytes16(v: nat): (r: Bytes)
    requires v < 0x1_0000
    ensures |r| == 2 && U16(r, 0) == v
  {
    var hi: Byte, lo: Byte := v / 256, v % 256;
    [hi, lo]
  }

  function Put16(c: Bytes, i: nat, v: nat): (r: Bytes)
    requires i + 1 < |c| && v < 0x1_0000
    ensures |r| == |c| && U16(r, i) == v
    ensures forall x | 0 <= x < |c| && x != i && x != i + 1 :: r[x] == c[x]
  {
    c[i := Bytes16(v)[0]][i + 1 := Bytes16(v)[1]]
  }

  // ---------------------------------------------------------------- the counts in the header

  datatype Place = QUESTION | ANSWER | AUTHORITY | ADDITIONAL

  function FieldAt(place: Place): (r: nat)
    ensures 4 <= r <= 10
  {
    match place
    case QUESTION => 4
    case ANSWER => 6
    case AUTHORITY => 8
    case ADDITIONAL => 10
  }

  /** ntohs and htons on a little-endian host. */
  function Swap(v: nat): (r: nat)
    requires v < 0x1_0000
    ensures r < 0x1_0000
  {
    v % 256 * 256 + v / 256
  }

  /** What one more record makes of the field: the field was read most significant octet first, so
      for every place but ANSWER the further swaps are out of place. */
  function Bump(place: Place, v: nat): (r: nat)
    requires v < 0x1_0000
    ensures r < 0x1_0000
  {
    match place
    case ANSWER => (v + 1) % 0x1_0000
    case ADDITIONAL => (Swap(v) + 1) % 0x1_0000
    case _ => Swap((Swap(v) + 1) % 0x1_0000)
  }

  /** The field after records in the places given. */
  ghost function Field(places: seq<Place>, which: Place): (r: nat)
    ensures r < 0x1_0000
  {
    if places == [] then if which == QUESTION then 1 else 0
    else
      var last := |places| - 1;
      var v := Field(places[..last], which);
      if places[last] == which then Bump(which, v) else v
  }

  ghost function Count(places: seq<Place>, which: Place): (n: nat)
    ensures n <= |places|
  {
    if places == [] then 0
    else
      var last := |places| - 1;
      Count(places[..last], which) + if places[last] == which then 1 else 0
  }

  /** The field of a place is decided by how many records it has. */
  ghost function FieldOf(which: Place, n: nat): (r: nat)
    ensures r < 0x1_0000
  {
    if n == 0 then if which == QUESTION then 1 else 0 else Bump(which, FieldOf(which, n - 1))
  }

  lemma {:induction false} FieldByCount(places: seq<Place>, which: Place)
    ensures Field(places, which) == FieldOf(which, Count(places, which))
  {
    if places != [] { FieldByCount(places[..|places| - 1], which); }
  }

  /** The ANSWER field counts, up to the width of the field. */
  lemma {:induction false} AnswersCounted(n: nat)
    ensures FieldOf(ANSWER, n) == n % 0x1_0000
  {
    if n > 0 { AnswersCounted(n - 1); }
  }

  lemma SwapOf(a: nat, b: nat)
    requires a < 256 && b < 256
    ensures Swap(256 * a + b) == 256 * b + a
  {
    assert (256 * a + b) / 256 == a && (256 * a + b) % 256 == b;
  }

  lemma SwapTwice(v: nat)
    requires v < 0x1_0000
    ensures Swap(Swap(v)) == v
  {
    SwapOf(v % 256, v / 256);
  }

  /** Swapping the octets changes every value but the multiples of 257. */
  lemma SwapFixes(v: nat)
    requires v < 0x1_0000
    ensures Swap(v) == v <==> v % 257 == 0
  {
    var a, b := v / 256, v % 256;
    assert v == 257 * a + (b - a);
    if a <= b { assert v % 257 == b - a; } else { assert v == 257 * (a - 1) + (257 + b - a); assert v % 257 == 257 + b - a; }
  }

  /** One step of a field that holds a swapped value, and of the field that is swapped each time. */
  lemma BumpSwapped(place: Place, v: nat, w: nat)
    requires (place == QUESTION || place == AUTHORITY) && v < 0x1_0000 && w == (v + 1) % 0x1_0000
    ensures Bump(place, Swap(v)) == Swap(w)
  {
    SwapTwice(v);
  }

  lemma FieldNext(which: Place, n: nat, v: nat)
    requires FieldOf(which, n) == v
    ensures v < 0x1_0000 && FieldOf(which, n + 1) == Bump(which, v)
  {}

  lemma WrapNext(n: nat, next: nat)
    requires next == n + 1
    ensures (n % 0x1_0000 + 1) % 0x1_0000 == next % 0x1_0000
  {}

  lemma BumpAdditional(a: nat, b: nat, v: nat)
    requires a < 256 && b < 256 && v == 256 * a + b
    ensures Bump(ADDITIONAL, v) == if a == b == 255 then 0 else 256 * b + a + 1
  {
    SwapOf(a, b);
  }

  /** n steps from a value of 16 bits. */
  function Stepped(first: nat, n: nat): (r: nat)
    requires first < 0x1_0000
    ensures r < 0x1_0000
  {
    if n == 0 then first else (Stepped(first, n - 1) + 1) % 0x1_0000
  }

  lemma {:induction false} SteppedIs(first: nat, n: nat)
    requires first < 0x1_0000
    ensures Stepped(first, n) == (first + n) % 0x1_0000
  {
    if n > 0 {
      SteppedIs(first, n - 1);
      WrapNext(first + (n - 1), first + n);
    }
  }

  /** n steps from a swapped value. */
  lemma {:induction false} SwappedField(which: Place, n: nat, first: nat)
    requires (which == QUESTION && first == 256) || (which == AUTHORITY && first == 0)
    ensures FieldOf(which, n) == Swap(Stepped(first, n))
  {
    if n == 0 {
      SwappedFirst(which, first, Stepped(first, 0));
    } else {
      SwappedField(which, n - 1, first);
      SwappedNext(which, n - 1, n, Stepped(first, n - 1), Stepped(first, n));
    }
  }

  lemma SwappedFirst(which: Place, first: nat, w: nat)
    requires ((which == QUESTION && first == 256) || (which == AUTHORITY && first == 0)) && w == first
    ensures FieldOf(which, 0) == Swap(w)
  {
    SwapOf(first / 256, 0);
  }

  lemma {:induction false} SwappedNext(which: Place, n: nat, next: nat, v: nat, w: nat)
    requires next == n + 1 && (which == QUESTION || which == AUTHORITY) && v < 0x1_0000 && w == (v + 1) % 0x1_0000 && FieldOf(which, n) == Swap(v)
    ensures FieldOf(which, next) == Swap(w)
  {
    FieldNext(which, n, Swap(v));
    BumpSwapped(which, v, w);
  }

  lemma SwappedSmall(n: nat)
    requires n < 0x1_0000
    ensures FieldOf(AUTHORITY, n) == Swap(n)
    ensures n < 0xff00 ==> FieldOf(QUESTION, n) == Swap(256 + n)
    ensures n >= 0xff00 ==> FieldOf(QUESTION, n) == Swap(n - 0xff00)
  {
    SwappedField(AUTHORITY, n, 0);
    SwappedField(QUESTION, n, 256);
    SteppedIs(0, n);
    SteppedIs(256, n);
    SmallMod(n, 0);
    if n < 0xff00 { SmallMod(256 + n, 0); } else { SmallMod(n - 0xff00, 1); }
  }

  lemma SmallMod(n: nat, rounds: nat)
    requires n < 0x1_0000 && rounds <= 1
    ensures (0x1_0000 * rounds + n) % 0x1_0000 == n
  {}

  /** The AUTHORITY field holds the count with its octets swapped: it is right exactly for the
      multiples of 257 that fit. */
  lemma {:induction false} AuthorityField(n: nat)
    ensures FieldOf(AUTHORITY, n) == n <==> n < 0x1_0000 && n % 257 == 0
  {
    if n < 0x1_0000 {
      SwappedSmall(n);
      SwapFixes(n);
    }
  }

  lemma SwapNext(n: nat)
    requires n < 0xff00
    ensures Swap(256 + n) == Swap(n) + 1
  {
    var a, b := n / 256, n % 256;
    assert n == 256 * a + b && 256 + n == 256 * (a + 1) + b;
    SwapOf(a + 1, b);
    SwapOf(a, b);
  }

  /** The QUESTION field, which starts at one, is right for n more questions exactly when n is a
      multiple of 257 and the count fits. */
  lemma {:induction false} QuestionField(n: nat)
    ensures FieldOf(QUESTION, n) == n + 1 <==> n < 0xffff && n % 257 == 0
  {
    if n < 0xff00 {
      SwappedSmall(n);
      SwapNext(n);
      SwapFixes(n);
    } else if n < 0xffff {
      SwappedSmall(n);
      LastQuestions(n - 0xff00);
    }
  }

  lemma LastQuestions(m: nat)
    requires m < 255
    ensures Swap(m) != 0xff00 + m + 1 && (0xff00 + m) % 257 != 0
  {
    SwapOf(0, m);
    assert 0xff00 + m == 257 * 254 + (2 + m);
  }

  /** The ADDITIONAL field comes round after 511 records. */
  lemma AdditionalNext(n: nat, h: nat, v: nat)
    requires h <= 255 && FieldOf(ADDITIONAL, n) == v
    ensures v == 257 * h ==> FieldOf(ADDITIONAL, n + 1) == if h < 255 then v + 1 else 0
    ensures v == 257 * h + 1 && h < 255 ==> FieldOf(ADDITIONAL, n + 1) == v + 256
  {
    FieldNext(ADDITIONAL, n, v);
    if v == 257 * h {
      BumpAdditional(h, h, v);
    } else if v == 257 * h + 1 && h < 255 {
      BumpAdditional(h, h + 1, v);
    }
  }

  lemma {:induction false} AdditionalRound(j: nat, h: nat)
    requires h <= 255
    ensures FieldOf(ADDITIONAL, 511 * j + 2 * h) == 257 * h
    ensures h < 255 ==> FieldOf(ADDITIONAL, 511 * j + 2 * h + 1) == 257 * h + 1
    decreases j, h
  {
    var n := 511 * j + 2 * h;
    if h > 0 {
      AdditionalRound(j, h - 1);
      AdditionalNext(n - 1, h - 1, 257 * (h - 1) + 1);
    } else if j > 0 {
      AdditionalRound(j - 1, 255);
      AdditionalNext(n - 1, 255, 257 * 255);
    }
    AdditionalNext(n, h, 257 * h);
  }

  /** The ADDITIONAL field is right for no record and for one, and for no larger count. */
  lemma {:induction false} AdditionalField(n: nat)
    ensures FieldOf(ADDITIONAL, n) == n <==> n <= 1
  {
    var j, k := n / 511, n % 511;
    var h := k / 2;
    AdditionalRound(j, h);
    OnlyFirst(j, h);
  }

  lemma OnlyFirst(j: nat, h: nat)
    requires h <= 255
    ensures 257 * h == 511 * j + 2 * h ==> j == h == 0
  {
    if 255 * h == 511 * j {
      assert j == 255 * (h - 2 * j);
      assert j <= 127;
    }
  }

  // ---------------------------------------------------------------- records

  /** What a record says before its data. */
  datatype Head = Head(qtype: nat, qclass: nat, ttl: nat)

  datatype Open = Open(name: Written, head: Head)

  datatype Rec = Rec(name: Written, head: Head, sor: nat, end: nat)

  /** Type, class and TTL, in this order. */
  ghost predicate HeadAt(c: Bytes, p: nat, h: Head) {
    p + 8 <= |c| && U16(c, p) == h.qtype && U16(c, p + 2) == h.qclass && U32(c, p + 4) == h.ttl
  }

  /** No name is read from the octets between. */
  ghost predicate Apart(bytes: set<nat>, from: nat, to: nat) {
    forall x: nat | from <= x < to :: x !in bytes
  }

  /** A finished record: its header follows its name, and the size in it is that of its data. */
  ghost predicate RecordAt(c: Bytes, log: Log, r: Rec) {
    && r.name in log.names && r.name.end + RECORD_HEADER == r.sor <= r.end <= |c|
    && r.name.pos < r.name.end && HEADER_SIZE <= r.name.pos
    && HeadAt(c, r.name.end, r.head) && U16(c, r.sor - 2) == r.end - r.sor
    && Apart(log.bytes, r.name.end, r.sor)
  }

  /** The finished records, the places they were for, and where the open one starts (or would).
      `tight` holds as long as octets were only written into records. */
  datatype Frame = Frame(records: seq<Rec>, places: seq<Place>, start: nat, tight: bool)

  ghost predicate HeaderOk(c: Bytes, places: seq<Place>)
    requires |c| >= HEADER_SIZE
  {
    forall which :: U16(c, FieldAt(which)) == Field(places, which)
  }

  /** Where record i starts in a gapless packet. */
  ghost function StartOf(records: seq<Rec>, from: nat, i: nat): nat
    requires i <= |records|
  {
    if i == 0 then from else records[i - 1].end
  }

  ghost predicate Gapless(records: seq<Rec>, from: nat, to: nat) {
    && (forall i {:trigger StartOf(records, from, i)} | 0 <= i < |records| :: records[i].name.pos == StartOf(records, from, i))
    && to == StartOf(records, from, |records|)
  }

  ghost predicate RecordsOk(c: Bytes, log: Log, f: Frame) {
    forall i | 0 <= i < |f.records| :: RecordAt(c, log, f.records[i]) && f.records[i].end <= f.start
  }

  ghost predicate FrameOk(c: Bytes, log: Log, f: Frame, from: nat) {
    && HEADER_SIZE <= f.start <= |c| && |f.places| == |f.records|
    && HeaderOk(c, f.places)
    && RecordsOk(c, log, f)
    && (f.tight ==> Gapless(f.records, from, f.start))
  }

  /** The record being written: its name, its header, and the room for its size. */
  ghost predicate OpenAt(c: Bytes, log: Log, f: Frame, sor: nat, open: Open) {
    && open.name in log.names && open.name.pos == f.start && open.name.pos < open.name.end
    && open.name.end + RECORD_HEADER == sor <= |c|
    && HeadAt(c, open.name.end, open.head) && Apart(log.bytes, open.name.end, sor)
  }

  lemma HeadKept(c: Bytes, d: Bytes, p: nat, h: Head)
    requires HeadAt(c, p, h) && |c| <= |d| && forall x | p <= x < p + 8 :: d[x] == c[x]
    ensures HeadAt(d, p, h) == true
  {}

  lemma RecordKept(c: Bytes, d: Bytes, log: Log, log': Log, r: Rec)
    requires RecordAt(c, log, r) && |c| <= |d| && r.name in log'.names
    requires forall x | r.name.end <= x < r.sor :: d[x] == c[x]
    requires forall x | x in log'.bytes && x < |c| :: x in log.bytes
    ensures RecordAt(d, log', r) == true
  {
    HeadKept(c, d, r.name.end, r.head);
  }

  /** Octets before the open record that do not change keep the finished records. */
  lemma FrameKept(c: Bytes, d: Bytes, log: Log, log': Log, f: Frame, from: nat)
    requires FrameOk(c, log, f, from) && |c| <= |d|
    requires forall w | w in log.names :: w in log'.names
    requires forall x | x in log'.bytes && x < |c| :: x in log.bytes
    requires forall x | 0 <= x < f.start :: d[x] == c[x]
    ensures FrameOk(d, log', f, from)
  {
    forall i | 0 <= i < |f.records| ensures RecordAt(d, log', f.records[i]) == true && f.records[i].end <= f.start {
      assert RecordAt(c, log, f.records[i]);
      RecordKept(c, d, log, log', f.records[i]);
    }
    assert HeaderOk(d, f.places) by {
      forall which ensures U16(d, FieldAt(which)) == Field(f.places, which) {
        assert U16(c, FieldAt(which)) == Field(f.places, which);
      }
    }
  }

  ghost function Closed(f: Frame, open: Open, sor: nat, end: nat, place: Place): Frame {
    Frame(f.records + [Rec(open.name, open.head, sor, end)], f.places + [place], end, f.tight)
  }

  /** What commit writes: the size of the record, and the count of its place. */
  function Committed(c: Bytes, sor: nat, place: Place): (d: Bytes)
    requires HEADER_SIZE + 2 <= sor <= |c| && |c| < 0x1_0000
    ensures |d| == |c|
    ensures U16(d, sor - 2) == |c| - sor
    ensures forall x | HEADER_SIZE <= x < |c| && x != sor - 1 && x != sor - 2 :: d[x] == c[x]
    ensures forall which ::
      U16(d, FieldAt(which)) == if which == place then Bump(place, U16(c, FieldAt(place))) else U16(c, FieldAt(which))
  {
    var sized := Put16(c, sor - 2, |c| - sor);
    Put16(sized, FieldAt(place), Bump(place, U16(sized, FieldAt(place))))
  }

  lemma {:induction false} CountsClosed(c: Bytes, sor: nat, f: Frame, place: Place)
    requires HEADER_SIZE + 2 <= sor <= |c| < 0x1_0000 && HeaderOk(c, f.places)
    ensures HeaderOk(Committed(c, sor, place), f.places + [place]) == true
  {
    var d, places := Committed(c, sor, place), f.places + [place];
    assert places[..|f.places|] == f.places;
    forall which ensures U16(d, FieldAt(which)) == Field(places, which) {
      assert U16(c, FieldAt(which)) == Field(f.places, which);
    }
  }

  lemma {:induction false} RecordsClosed(c: Bytes, log: Log, f: Frame, sor: nat, open: Open, place: Place)
    requires RecordsOk(c, log, f) && HEADER_SIZE <= f.start && OpenAt(c, log, f, sor, open) && |c| < 0x1_0000
    ensures RecordsOk(Committed(c, sor, place), log, Closed(f, open, sor, |c|, place)) == true
  {
    var d := Committed(c, sor, place);
    var g := Closed(f, open, sor, |c|, place);
    forall i | 0 <= i < |g.records| ensures RecordAt(d, log, g.records[i]) == true && g.records[i].end <= g.start {
      if i < |f.records| {
        assert RecordAt(c, log, f.records[i]);
        RecordKept(c, d, log, log, f.records[i]);
      } else {
        HeadKept(c, d, open.name.end, open.head);
      }
    }
  }

  lemma {:induction false} GaplessClosed(f: Frame, from: nat, open: Open, sor: nat, end: nat, place: Place)
    requires Gapless(f.records, from, f.start) && open.name.pos == f.start
    ensures Gapless(Closed(f, open, sor, end, place).records, from, end) == true
  {
    var records := Closed(f, open, sor, end, place).records;
    forall i | 0 <= i < |records| ensures records[i].name.pos == StartOf(records, from, i) {
      assert i < |f.records| ==> StartOf(records, from, i) == StartOf(f.records, from, i);
      assert StartOf(records, from, |f.records|) == StartOf(f.records, from, |f.records|);
    }
  }

  lemma {:induction false} FrameClosed(c: Bytes, log: Log, f: Frame, from: nat, sor: nat, open: Open, place: Place)
    requires FrameOk(c, log, f, from) && OpenAt(c, log, f, sor, open) && |c| < 0x1_0000
    ensures FrameOk(Committed(c, sor, place), log, Closed(f, open, sor, |c|, place), from)
  {
    CountsClosed(c, sor, f, place);
    RecordsClosed(c, log, f, sor, open, place);
    if f.tight { GaplessClosed(f, from, open, sor, |c|, place); }
  }
}
