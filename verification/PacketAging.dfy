/** Taking seconds off every TTL of a packet in place, and the smallest TTL in it. */
module PacketAging {
  import opened DnsName
  import opened PacketFrame
  import opened PacketWalk

  function Put32(c: Bytes, i: nat, v: nat): (r: Bytes)
    requires i + 3 < |c| && v <= MAX_TTL
    ensures |r| == |c| && U32(r, i) == v
    ensures forall x | 0 <= x < |c| && !(i <= x < i + 4) :: r[x] == c[x]
  {
    Put16(Put16(c, i, v / 0x1_0000), i + 2, v % 0x1_0000)
  }

  /** What is left of a TTL. */
  function Left(ttl: nat, seconds: nat): (r: nat)
    ensures r <= ttl
  {
    if ttl > seconds then ttl - seconds else 0
  }

  // ---------------------------------------------------------------- the walk

  /** One record: where its TTL is if it is to be aged, and where it ends. */
  datatype Visit = Visit(opt: bool, ttl: Cursor, next: Cursor)

  function VisitRecord(c: Bytes, p: nat): (v: Visit)
    ensures v.ttl.At? ==> p < v.ttl.pos && v.ttl.pos + 4 <= |c|
    ensures v.next.At? ==> p < v.next.pos <= |c| && (v.ttl.At? ==> v.ttl.pos + 6 <= v.next.pos)
  {
    var q := SkipName(c, p);
    if q.Lost? || q.pos + 2 > |c| then Visit(false, Lost, Lost)
    else
      var opt := U16(c, q.pos) == OPT;
      if q.pos + 8 > |c| then Visit(opt, Lost, Lost)
      else Visit(opt, if opt then Lost else At(q.pos + 4), SkipData(c, q.pos + 8))
  }

  /** The offsets of the TTLs that are aged, up to where the packet stops making sense. */
  function Ttls(c: Bytes, p: nat, n: nat): seq<nat>
    decreases n
  {
    if n == 0 then []
    else
      var v := VisitRecord(c, p);
      (if v.ttl.At? then [v.ttl.pos] else []) + if v.next.At? then Ttls(c, v.next.pos, n - 1) else []
  }

  function AllTtls(c: Bytes): seq<nat> {
    if |c| < HEADER_SIZE then []
    else
      var q := SkipQuestions(c, HEADER_SIZE, U16(c, 4));
      if q.Lost? then [] else Ttls(c, q.pos, RecordCount(c))
  }

  // ---------------------------------------------------------------- ageing

  /** The TTL of one record, if it is to be aged. */
  function AgeOne(c: Bytes, v: Visit, seconds: nat): (d: Bytes)
    requires v.ttl.At? ==> v.ttl.pos + 4 <= |c|
    ensures |d| == |c|
  {
    if v.ttl.At? then Put32(c, v.ttl.pos, Left(U32(c, v.ttl.pos), seconds)) else c
  }

  function AgeFrom(c: Bytes, p: nat, n: nat, seconds: nat): Bytes
    decreases n
  {
    if n == 0 then c
    else
      var v := VisitRecord(c, p);
      var d := AgeOne(c, v, seconds);
      if v.next.At? then AgeFrom(d, v.next.pos, n - 1, seconds) else d
  }

  /** ageDNSPacket. */
  function Age(c: Bytes, seconds: nat): Bytes {
    if |c| < HEADER_SIZE then c
    else
      var q := SkipQuestions(c, HEADER_SIZE, U16(c, 4));
      if q.Lost? then c else AgeFrom(c, q.pos, RecordCount(c), seconds)
  }

  /** x is one of the four octets of a TTL in ts. */
  ghost predicate InTtl(ts: seq<nat>, x: int) {
    exists t | t in ts :: t <= x < t + 4
  }

  /** From p on, c and d differ in nothing but these TTLs. */
  ghost predicate SameBut(c: Bytes, d: Bytes, p: nat, ts: seq<nat>) {
    |d| == |c| && forall x {:trigger InTtl(ts, x)} | p <= x < |c| && !InTtl(ts, x) :: d[x] == c[x]
  }

  /** d is c with every TTL in ts replaced by what is left of it. */
  ghost predicate AgedAt(c: Bytes, d: Bytes, ts: seq<nat>, seconds: nat) {
    SameBut(c, d, 0, ts) && LessAt(c, d, ts, seconds)
  }

  /** The TTL at t has become what is left of it. */
  ghost predicate LessTtl(c: Bytes, d: Bytes, t: nat, seconds: nat)
    requires |d| == |c|
  {
    t + 4 <= |c| && U32(d, t) == Left(U32(c, t), seconds)
  }

  ghost predicate LessAt(c: Bytes, d: Bytes, ts: seq<nat>, seconds: nat)
    requires |d| == |c|
  {
    forall t {:trigger LessTtl(c, d, t, seconds)} | t in ts :: LessTtl(c, d, t, seconds)
  }

  lemma {:induction false} TtlsAfter(c: Bytes, p: nat, n: nat)
    ensures forall t | t in Ttls(c, p, n) :: p < t && t + 4 <= |c|
    decreases n
  {
    if n > 0 {
      var v := VisitRecord(c, p);
      if v.next.At? { TtlsAfter(c, v.next.pos, n - 1); }
      TtlsUnfold(c, p, n, v);
      InBoth(if v.ttl.At? then [v.ttl.pos] else [], Rest(c, p, n));
    }
  }

  lemma InBoth(a: seq<nat>, b: seq<nat>)
    ensures forall t | t in a + b :: t in a || t in b
  {}

  // ---------------------------------------------------------------- what a walk depends on

  lemma {:induction false} SameName(c: Bytes, d: Bytes, p: nat)
    requires |c| == |d|
    requires var q := SkipName(c, p); forall x | p <= x < |c| && (q.At? ==> x < q.pos) :: d[x] == c[x]
    ensures SkipName(d, p) == SkipName(c, p)
    decreases |c| - p
  {
    if p < |c| && 1 <= c[p] < 192 && p + 1 + c[p] <= |c| { SameName(c, d, p + 1 + c[p]); }
  }

  lemma SameRecord(c: Bytes, d: Bytes, p: nat)
    requires |c| == |d|
    requires var v := VisitRecord(c, p);
             forall x | p <= x < |c| && (v.next.At? ==> x < v.next.pos) && !(v.ttl.At? && v.ttl.pos <= x < v.ttl.pos + 4) :: d[x] == c[x]
    ensures VisitRecord(d, p) == VisitRecord(c, p)
  {
    SameName(c, d, p);
  }

  /** The TTLs after the first record. */
  function Rest(c: Bytes, p: nat, n: nat): seq<nat>
    requires n > 0
  {
    var v := VisitRecord(c, p);
    if v.next.At? then Ttls(c, v.next.pos, n - 1) else []
  }

  lemma {:induction false} TtlsUnfold(c: Bytes, p: nat, n: nat, v: Visit)
    requires n > 0 && v == VisitRecord(c, p)
    ensures Ttls(c, p, n) == (if v.ttl.At? then [v.ttl.pos] else []) + Rest(c, p, n)
  {}

  lemma {:induction false} TtlsSplit(c: Bytes, p: nat, n: nat)
    requires n > 0
    ensures var v := VisitRecord(c, p);
            && Ttls(c, p, n) == (if v.ttl.At? then [v.ttl.pos] else []) + Rest(c, p, n)
            && (forall t | t in Rest(c, p, n) :: t in Ttls(c, p, n) && v.next.At? && v.next.pos < t && (v.ttl.At? ==> v.ttl.pos + 4 <= t))
  {
    var v := VisitRecord(c, p);
    TtlsUnfold(c, p, n, v);
    RestAfter(c, p, n, v);
    InSecond(if v.ttl.At? then [v.ttl.pos] else [], Rest(c, p, n));
  }

  lemma InSecond(a: seq<nat>, b: seq<nat>)
    ensures forall t | t in b :: t in a + b
  {}

  lemma {:induction false} RestAfter(c: Bytes, p: nat, n: nat, v: Visit)
    requires n > 0 && v == VisitRecord(c, p)
    ensures forall t | t in Rest(c, p, n) :: v.next.At? && v.next.pos < t
  {
    if v.next.At? { TtlsAfter(c, v.next.pos, n - 1); }
  }

  lemma {:induction false} SameVisit(c: Bytes, d: Bytes, p: nat, n: nat)
    requires n > 0 && SameBut(c, d, p, Ttls(c, p, n))
    ensures VisitRecord(d, p) == VisitRecord(c, p)
    ensures VisitRecord(c, p).next.At? ==> SameBut(c, d, VisitRecord(c, p).next.pos, Rest(c, p, n)) == true
  {
    var v := VisitRecord(c, p);
    var ts := Ttls(c, p, n);
    TtlsSplit(c, p, n);
    forall x | p <= x < |c| && (v.next.At? ==> x < v.next.pos) && !(v.ttl.At? && v.ttl.pos <= x < v.ttl.pos + 4)
      ensures d[x] == c[x]
    {
      assert !InTtl(ts, x);
    }
    SameRecord(c, d, p);
    if v.next.At? {
      forall x | v.next.pos <= x < |c| && !InTtl(Rest(c, p, n), x) ensures d[x] == c[x] {
        assert !InTtl(ts, x);
      }
    }
  }

  /** The TTLs are found again in a packet that differs in nothing but them. */
  lemma {:induction false} SameTtls(c: Bytes, d: Bytes, p: nat, n: nat, ts: seq<nat>)
    requires ts == Ttls(c, p, n) && SameBut(c, d, p, ts) == true
    ensures Ttls(d, p, n) == ts
    decreases n, 1
  {
    if n > 0 {
      var v := VisitRecord(c, p);
      SameVisit(c, d, p, n);
      SameRest(c, d, p, n, v, Rest(c, p, n));
      TtlsUnfold(c, p, n, v);
      TtlsUnfold(d, p, n, v);
    }
  }

  lemma {:induction false} SameRest(c: Bytes, d: Bytes, p: nat, n: nat, v: Visit, rest: seq<nat>)
    requires n > 0 && VisitRecord(c, p) == v && VisitRecord(d, p) == v && rest == Rest(c, p, n)
    requires v.next.At? ==> SameBut(c, d, v.next.pos, rest) == true
    ensures Rest(d, p, n) == rest
    decreases n - 1, 2
  {
    RestIs(c, p, n, v);
    RestIs(d, p, n, v);
    if v.next.At? { SameTtls(c, d, v.next.pos, n - 1, rest); }
  }

  lemma RestIs(c: Bytes, p: nat, n: nat, v: Visit)
    requires n > 0 && v == VisitRecord(c, p)
    ensures v.next.At? ==> Rest(c, p, n) == Ttls(c, v.next.pos, n - 1)
    ensures v.next.Lost? ==> Rest(c, p, n) == []
  {}

  lemma {:induction false} SameQuestions(c: Bytes, d: Bytes, p: nat, n: nat)
    requires |c| == |d| && p <= |c|
    requires var q := SkipQuestions(c, p, n); forall x | p <= x < |c| && (q.At? ==> x < q.pos) :: d[x] == c[x]
    ensures SkipQuestions(d, p, n) == SkipQuestions(c, p, n)
    decreases n
  {
    if n > 0 {
      SameName(c, d, p);
      var q := SkipName(c, p);
      if q.At? && q.pos + 4 <= |c| { SameQuestions(c, d, q.pos + 4, n - 1); }
    }
  }

  /** The walk over a packet in which only TTLs changed is the same walk. */
  lemma {:induction false} SameWalk(c: Bytes, d: Bytes)
    requires SameBut(c, d, 0, AllTtls(c))
    ensures AllTtls(d) == AllTtls(c)
    ensures |c| >= HEADER_SIZE ==>
      SkipQuestions(d, HEADER_SIZE, U16(d, 4)) == SkipQuestions(c, HEADER_SIZE, U16(c, 4)) && RecordCount(d) == RecordCount(c)
  {
    if |c| >= HEADER_SIZE {
      var q := SkipQuestions(c, HEADER_SIZE, U16(c, 4));
      if q.At? { TtlsAfter(c, q.pos, RecordCount(c)); }
      forall x | 0 <= x < |c| && (q.At? ==> x < q.pos) ensures d[x] == c[x] { assert !InTtl(AllTtls(c), x); }
      SameQuestions(c, d, HEADER_SIZE, U16(c, 4));
      assert U16(d, 4) == U16(c, 4) && RecordCount(d) == RecordCount(c);
      if q.At? { SameTtls(c, d, q.pos, RecordCount(c), AllTtls(c)); }
      TtlsAt(c, q, RecordCount(c));
      TtlsAt(d, q, RecordCount(c));
    }
  }

  lemma {:induction false} TtlsAt(c: Bytes, q: Cursor, n: nat)
    requires |c| >= HEADER_SIZE && q == SkipQuestions(c, HEADER_SIZE, U16(c, 4)) && n == RecordCount(c)
    ensures AllTtls(c) == if q.At? then Ttls(c, q.pos, n) else []
  {}

  // ---------------------------------------------------------------- what ageing does

  lemma AgedFirst(c: Bytes, d: Bytes, e: Bytes, t: nat, ts: seq<nat>, seconds: nat)
    requires t + 4 <= |c| && d == Put32(c, t, Left(U32(c, t), seconds))
    requires AgedAt(d, e, ts, seconds) && forall u | u in ts :: t + 4 <= u
    ensures AgedAt(c, e, [t] + ts, seconds)
  {
    var all := [t] + ts;
    forall u | u in all ensures LessTtl(c, e, u, seconds) {
      if u != t {
        assert u in ts && LessTtl(d, e, u, seconds);
      } else {
        assert !InTtl(ts, t) && !InTtl(ts, t + 1) && !InTtl(ts, t + 2) && !InTtl(ts, t + 3);
      }
    }
    forall x | 0 <= x < |c| && !InTtl(all, x) ensures e[x] == c[x] {
      assert t in all;
      assert InTtl(ts, x) ==> InTtl(all, x) by { assert forall u | u in ts :: u in all; }
    }
  }

  lemma OnlyTtl(c: Bytes, v: Visit, ts: seq<nat>, seconds: nat)
    requires v.next.At? && (v.ttl.At? ==> v.ttl.pos + 4 <= |c| && v.ttl.pos + 6 <= v.next.pos)
    ensures SameBut(c, AgeOne(c, v, seconds), v.next.pos, ts) == true
  {}

  lemma {:induction false} AgedRecord(c: Bytes, e: Bytes, p: nat, n: nat, v: Visit, seconds: nat)
    requires n > 0 && v == VisitRecord(c, p) && AgedAt(AgeOne(c, v, seconds), e, Rest(c, p, n), seconds)
    ensures AgedAt(c, e, Ttls(c, p, n), seconds) == true
  {
    TtlsSplit(c, p, n);
    if v.ttl.At? {
      AgedFirst(c, AgeOne(c, v, seconds), e, v.ttl.pos, Rest(c, p, n), seconds);
    } else {
      assert [] + Rest(c, p, n) == Rest(c, p, n);
    }
  }

  /** The walk from p on takes the seconds off the TTLs it comes to, and off nothing else. */
  ghost predicate AgesFrom(c: Bytes, p: nat, n: nat, seconds: nat) {
    AgedAt(c, AgeFrom(c, p, n, seconds), Ttls(c, p, n), seconds)
  }

  lemma AgesNone(c: Bytes, p: nat, seconds: nat)
    ensures AgesFrom(c, p, 0, seconds) == true
  {}

  lemma AgesLast(c: Bytes, p: nat, n: nat, v: Visit, seconds: nat)
    requires n > 0 && v == VisitRecord(c, p) && v.next.Lost?
    ensures AgesFrom(c, p, n, seconds) == true
  {
    AgedRecord(c, AgeOne(c, v, seconds), p, n, v, seconds);
  }

  /** The records after one that was aged, of which nothing but its TTL has changed. */
  lemma {:induction false} AgesRest(c: Bytes, d: Bytes, p: nat, n: nat, v: Visit, seconds: nat)
    requires n > 0 && v == VisitRecord(c, p) && v.next.At?
    requires SameBut(c, d, v.next.pos, Ttls(c, v.next.pos, n - 1)) == true && AgesFrom(d, v.next.pos, n - 1, seconds)
    ensures AgedAt(d, AgeFrom(d, v.next.pos, n - 1, seconds), Rest(c, p, n), seconds) == true
  {
    SameTtls(c, d, v.next.pos, n - 1, Ttls(c, v.next.pos, n - 1));
    assert Rest(c, p, n) == Ttls(d, v.next.pos, n - 1);
  }

  lemma AgeFromOn(c: Bytes, p: nat, n: nat, v: Visit, seconds: nat)
    requires n > 0 && v == VisitRecord(c, p) && v.next.At?
    ensures AgeFrom(c, p, n, seconds) == AgeFrom(AgeOne(c, v, seconds), v.next.pos, n - 1, seconds)
  {}

  lemma {:induction false} AgesOn(c: Bytes, p: nat, n: nat, v: Visit, seconds: nat)
    requires n > 0 && v == VisitRecord(c, p) && v.next.At? && AgesFrom(AgeOne(c, v, seconds), v.next.pos, n - 1, seconds) == true
    ensures AgesFrom(c, p, n, seconds) == true
  {
    OnlyTtl(c, v, Ttls(c, v.next.pos, n - 1), seconds);
    AgesRest(c, AgeOne(c, v, seconds), p, n, v, seconds);
    AgedRecord(c, AgeFrom(AgeOne(c, v, seconds), v.next.pos, n - 1, seconds), p, n, v, seconds);
    AgeFromOn(c, p, n, v, seconds);
  }

  lemma {:induction false} AgeFromDoes(c: Bytes, p: nat, n: nat, seconds: nat)
    ensures AgesFrom(c, p, n, seconds) == true
    decreases n
  {
    if n == 0 {
      AgesNone(c, p, seconds);
    } else {
      var v := VisitRecord(c, p);
      if v.next.At? {
        AgeFromDoes(AgeOne(c, v, seconds), v.next.pos, n - 1, seconds);
        AgesOn(c, p, n, v, seconds);
      } else {
        AgesLast(c, p, n, v, seconds);
      }
    }
  }

  /** d is c after ageing. */
  ghost predicate Ages(c: Bytes, d: Bytes, seconds: nat) {
    AgedAt(c, d, AllTtls(c), seconds)
  }

  /** Ageing any octets whatever changes only the TTLs of the records that can be reached and are not
      OPT records, and takes the seconds off those, down to zero. */
  lemma AgeDoes(c: Bytes, seconds: nat)
    ensures Ages(c, Age(c, seconds), seconds) == true
  {
    if |c| >= HEADER_SIZE {
      var q := SkipQuestions(c, HEADER_SIZE, U16(c, 4));
      if q.At? { AgeFromDoes(c, q.pos, RecordCount(c), seconds); }
    }
  }

  lemma U16Octets(d: Bytes, e: Bytes, i: nat)
    requires i + 1 < |d| && i + 1 < |e| && U16(d, i) == U16(e, i)
    ensures d[i] == e[i] && d[i + 1] == e[i + 1]
  {}

  lemma U32Octets(d: Bytes, e: Bytes, i: nat, x: nat)
    requires i + 3 < |d| && i + 3 < |e| && U32(d, i) == U32(e, i) && i <= x < i + 4
    ensures d[x] == e[x]
  {
    U16Octets(d, e, i);
    U16Octets(d, e, i + 2);
  }

  /** What an aged packet looks like is no matter of choice. */
  lemma AgedUnique(c: Bytes, d: Bytes, e: Bytes, ts: seq<nat>, seconds: nat)
    requires AgedAt(c, d, ts, seconds) && AgedAt(c, e, ts, seconds)
    ensures d == e
  {
    forall x | 0 <= x < |c| ensures d[x] == e[x] {
      if InTtl(ts, x) {
        var t :| t in ts && t <= x < t + 4;
        assert LessTtl(c, d, t, seconds) && LessTtl(c, e, t, seconds);
        U32Octets(d, e, t, x);
      }
    }
  }

  lemma AgedTwice(c: Bytes, d: Bytes, e: Bytes, ts: seq<nat>, a: nat, b: nat)
    requires AgedAt(c, d, ts, a) && AgedAt(d, e, ts, b)
    ensures AgedAt(c, e, ts, a + b) == true
  {
    forall x | 0 <= x < |c| && !InTtl(ts, x) ensures e[x] == c[x] { assert d[x] == c[x]; }
    forall t | t in ts ensures LessTtl(c, e, t, a + b) {
      assert LessTtl(c, d, t, a) && LessTtl(d, e, t, b);
    }
  }

  lemma AgesJoin(c: Bytes, d: Bytes, e: Bytes, a: nat, b: nat)
    requires Ages(c, d, a) && Ages(d, e, b)
    ensures Ages(c, e, a + b) == true
  {
    SameWalk(c, d);
    AgedTwice(c, d, e, AllTtls(c), a, b);
  }

  lemma {:induction false} AgeAgain(c: Bytes, d: Bytes, a: nat, b: nat)
    requires Ages(c, d, a) == true
    ensures Ages(c, Age(d, b), a + b) == true
  {
    AgeDoes(d, b);
    AgesJoin(c, d, Age(d, b), a, b);
  }

  lemma {:induction false} AgeOnly(c: Bytes, e: Bytes, seconds: nat)
    requires Ages(c, e, seconds) == true
    ensures e == Age(c, seconds)
  {
    AgeDoes(c, seconds);
    AgesSame(c, e, Age(c, seconds), seconds);
  }

  lemma AgesSame(c: Bytes, e: Bytes, f: Bytes, seconds: nat)
    requires Ages(c, e, seconds) == true && Ages(c, f, seconds) == true
    ensures e == f
  {
    AgedUnique(c, e, f, AllTtls(c), seconds);
  }

  /** Ageing by a and then by b is ageing by a + b. */
  lemma {:induction false} AgeTwice(c: Bytes, a: nat, b: nat)
    ensures Age(Age(c, a), b) == Age(c, a + b)
  {
    AgeDoes(c, a);
    AgeAgain(c, Age(c, a), a, b);
    AgeOnly(c, Age(Age(c, a), b), a + b);
  }

  // ---------------------------------------------------------------- the smallest TTL

  /** The TTLs that are read: an OPT record ends the reading. */
  function TtlValues(c: Bytes, p: nat, n: nat): seq<nat>
    decreases n
  {
    if n == 0 then []
    else
      var v := VisitRecord(c, p);
      if v.ttl.Lost? then []
      else [U32(c, v.ttl.pos)] + if v.next.At? then TtlValues(c, v.next.pos, n - 1) else []
  }

  function TtlsRead(c: Bytes): seq<nat> {
    if |c| < HEADER_SIZE then []
    else
      var q := SkipQuestions(c, HEADER_SIZE, U16(c, 4));
      if q.Lost? then [] else TtlValues(c, q.pos, RecordCount(c))
  }

  /** The least of the values and m. */
  function Least(m: nat, values: seq<nat>): (r: nat)
    ensures r <= m && (forall v | v in values :: r <= v) && (r == m || r in values)
  {
    if values == [] then m
    else
      var rest := Least(m, values[1..]);
      assert values == [values[0]] + values[1..];
      if values[0] < rest then values[0] else rest
  }

  /** getDNSPacketMinTTL. */
  function MinTtl(c: Bytes): nat {
    Least(MAX_TTL, TtlsRead(c))
  }

  function LeftAll(values: seq<nat>, seconds: nat): (r: seq<nat>)
    ensures |r| == |values|
  {
    seq(|values|, i requires 0 <= i < |values| => Left(values[i], seconds))
  }

  lemma {:induction false} ValuesAged(c: Bytes, d: Bytes, p: nat, n: nat, all: seq<nat>, k: nat, seconds: nat)
    requires AgedAt(c, d, all, seconds) && k <= |all| && Ttls(c, p, n) == all[k..]
    requires SameBut(c, d, p, Ttls(c, p, n)) == true
    ensures TtlValues(d, p, n) == LeftAll(TtlValues(c, p, n), seconds)
    decreases n
  {
    if n > 0 {
      var v := VisitRecord(c, p);
      SameVisit(c, d, p, n);
      var rest := Rest(c, p, n);
      if v.ttl.At? {
        assert all[k..] == [v.ttl.pos] + rest;
        assert all[k] == all[k..][0] == v.ttl.pos && all[k + 1..] == all[k..][1..] == rest;
        assert v.ttl.pos in all && LessTtl(c, d, v.ttl.pos, seconds);
        if v.next.At? {
          ValuesAged(c, d, v.next.pos, n - 1, all, k + 1, seconds);
          LeftAllStep(U32(c, v.ttl.pos), TtlValues(c, v.next.pos, n - 1), seconds);
        } else {
          LeftAllStep(U32(c, v.ttl.pos), [], seconds);
        }
      }
    }
  }

  lemma LeftAllStep(v: nat, values: seq<nat>, seconds: nat)
    ensures LeftAll([v] + values, seconds) == [Left(v, seconds)] + LeftAll(values, seconds)
  {}

  lemma {:induction false} LeastAged(m: nat, values: seq<nat>, seconds: nat)
    requires values != [] && forall v | v in values :: v <= m
    ensures Least(m, LeftAll(values, seconds)) == Left(Least(m, values), seconds)
  {
    assert values == [values[0]] + values[1..];
    LeftAllStep(values[0], values[1..], seconds);
    var aged := LeftAll(values, seconds);
    assert aged[1..] == LeftAll(values[1..], seconds);
    assert values[0] in values && forall v | v in values[1..] :: v in values;
    if values[1..] != [] {
      LeastAged(m, values[1..], seconds);
    } else {
      assert aged[1..] == [];
      assert Least(m, aged[1..]) == m && Least(m, values[1..]) == m;
    }
    assert aged[0] == Left(values[0], seconds);
  }

  lemma {:induction false} ValuesFit(c: Bytes, p: nat, n: nat)
    ensures forall v | v in TtlValues(c, p, n) :: v <= MAX_TTL
    decreases n
  {
    if n > 0 {
      var v := VisitRecord(c, p);
      if v.ttl.At? {
        var rest := if v.next.At? then TtlValues(c, v.next.pos, n - 1) else [];
        if v.next.At? { ValuesFit(c, v.next.pos, n - 1); }
        assert TtlValues(c, p, n) == [U32(c, v.ttl.pos)] + rest;
      }
    }
  }

  /** After ageing the smallest TTL is the old one less the seconds, down to zero, if any was read. */
  lemma MinTtlAged(c: Bytes, seconds: nat)
    ensures TtlsRead(c) != [] ==> MinTtl(Age(c, seconds)) == Left(MinTtl(c), seconds)
    ensures TtlsRead(c) == [] ==> MinTtl(Age(c, seconds)) == MinTtl(c) == MAX_TTL
  {
    var d := Age(c, seconds);
    AgeDoes(c, seconds);
    SameWalk(c, d);
    if |c| >= HEADER_SIZE {
      var q := SkipQuestions(c, HEADER_SIZE, U16(c, 4));
      if q.At? {
        assert SameBut(c, d, q.pos, AllTtls(c));
        assert AllTtls(c)[0..] == AllTtls(c);
        ValuesAged(c, d, q.pos, RecordCount(c), AllTtls(c), 0, seconds);
        ValuesFit(c, q.pos, RecordCount(c));
      }
      assert TtlsRead(d) == LeftAll(TtlsRead(c), seconds);
    }
    if TtlsRead(c) != [] {
      LeastAged(MAX_TTL, TtlsRead(c), seconds);
    }
  }
}
