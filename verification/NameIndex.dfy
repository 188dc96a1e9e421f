/** The writer's index of name positions: what a lookup compares and what every entry promises. */
module NameIndex {
  import opened DnsName
  import opened PacketName

  /** boost::container::static_vector<uint16_t, 34>: names and candidates with more labels are skipped. */
  const MAX_LABELS := 34

  // ---------------------------------------------------------------- strncasecmp

  /** strncasecmp of n octets at i and at j: a zero octet in both ends the comparison. */
  function SameText(a: Bytes, i: nat, b: Bytes, j: nat, n: nat): bool
    requires i + n <= |a| && j + n <= |b|
    decreases n
  {
    if n == 0 then true
    else if Lower(a[i]) != Lower(b[j]) then false
    else if a[i] == 0 then true
    else SameText(a, i + 1, b, j + 1, n - 1)
  }

  ghost predicate NoZero(l: Bytes) { forall i | 0 <= i < |l| :: l[i] != 0 }

  ghost predicate NoZeros(ls: Labels) { forall l {:trigger NoZero(l)} | l in ls :: NoZero(l) }

  /** How many of n octets strncasecmp looks at when they agree: up to and including a zero octet. */
  function Compared(a: Bytes, i: nat, n: nat): (k: nat)
    requires i + n <= |a|
    ensures k <= n
    decreases n
  {
    if n == 0 then 0 else if a[i] == 0 then 1 else 1 + Compared(a, i + 1, n - 1)
  }

  lemma FoldFirst(x: Byte, xs: Bytes, y: Byte, ys: Bytes)
    ensures FoldEq([x] + xs, [y] + ys) <==> Lower(x) == Lower(y) && FoldEq(xs, ys)
  {
    if FoldEq([x] + xs, [y] + ys) {
      FoldSlice([x] + xs, [y] + ys, 1, 1 + |xs|);
      assert ([x] + xs)[1..] == xs && ([y] + ys)[1..] == ys;
      assert Lower(([x] + xs)[0]) == Lower(([y] + ys)[0]);
    }
  }

  /** What strncasecmp decides: whether the octets agree up to and including the first zero octet. */
  lemma {:induction false} SameTextIff(a: Bytes, i: nat, b: Bytes, j: nat, n: nat)
    requires i + n <= |a| && j + n <= |b|
    ensures var k := Compared(a, i, n);
            SameText(a, i, b, j, n) <==> FoldEq(b[j..j + k], a[i..i + k])
    decreases n
  {
    if n > 0 {
      var k := Compared(a, i, n);
      var l, m := a[i..i + k], b[j..j + k];
      assert l[0] == a[i] && m[0] == b[j];
      if a[i] != 0 {
        SameTextIff(a, i + 1, b, j + 1, n - 1);
        assert l == [a[i]] + a[i + 1..i + k] && m == [b[j]] + b[j + 1..j + k];
        FoldFirst(b[j], b[j + 1..j + k], a[i], a[i + 1..i + k]);
      }
    }
  }

  lemma {:induction false} ComparedAll(a: Bytes, i: nat, n: nat)
    requires i + n <= |a| && NoZero(a[i..i + n])
    ensures Compared(a, i, n) == n
    decreases n
  {
    if n > 0 {
      var l := a[i..i + n];
      assert a[i + 1..i + n] == l[1..] && l[0] == a[i];
      ComparedAll(a, i + 1, n - 1);
    }
  }

  /** Without a zero octet in the name that is written, the comparison is that of the labels. */
  lemma {:induction false} SameTextFold(a: Bytes, i: nat, b: Bytes, j: nat, n: nat)
    requires i + n <= |a| && j + n <= |b| && NoZero(a[i..i + n])
    ensures SameText(a, i, b, j, n) <==> FoldEq(b[j..j + n], a[i..i + n])
  {
    ComparedAll(a, i, n);
    SameTextIff(a, i, b, j, n);
  }

  /** With one, labels that differ are taken for the same. */
  lemma ZeroOctetHidesTheRest()
    ensures SameText([97, 0, 98], 0, [97, 0, 99], 0, 3) && !FoldEq([97, 0, 98], [97, 0, 99])
  {
    assert SameText([97, 0, 98], 1, [97, 0, 99], 1, 2);
    assert Lower([97, 0, 98][2]) != Lower([97, 0, 99][2]);
  }

  // ---------------------------------------------------------------- common endings

  /** How many labels two names share at the end, ignoring case. */
  ghost function CommonTail(a: Labels, b: Labels): (n: nat)
    ensures n <= |a| && n <= |b|
  {
    SharedFrom(a, b, 0)
  }

  /** The labels at k from the end agree. */
  ghost predicate SharedAt(a: Labels, b: Labels, k: nat) {
    k < |a| && k < |b| && FoldEq(b[|b| - 1 - k], a[|a| - 1 - k])
  }

  /** The same, the last n labels being shared already. */
  ghost function SharedFrom(a: Labels, b: Labels, n: nat): (r: nat)
    requires n <= |a| && n <= |b|
    ensures n <= r <= |a| && r <= |b|
    decreases |a| - n
  {
    if SharedAt(a, b, n) then SharedFrom(a, b, n + 1) else n
  }

  lemma {:induction false} SharedOnly(a: Labels, b: Labels, n: nat)
    requires n <= |a| && n <= |b|
    ensures var r := SharedFrom(a, b, n); forall k | n <= k < r :: SharedAt(a, b, k)
    decreases |a| - n
  {
    if SharedFrom(a, b, n) > n { SharedOnly(a, b, n + 1); }
  }

  lemma {:induction false} SharedOn(a: Labels, b: Labels, m: nat, n: nat)
    requires m <= |a| && m <= |b| && m <= n <= SharedFrom(a, b, m)
    ensures SharedFrom(a, b, n) == SharedFrom(a, b, m)
    decreases n - m
  {
    if m < n { SharedOn(a, b, m + 1, n); }
  }

  lemma CommonTailEqual(a: Labels, b: Labels)
    ensures var n := CommonTail(a, b); LabelsFoldEq(b[|b| - n..], a[|a| - n..])
  {
    var n := CommonTail(a, b);
    SharedOnly(a, b, 0);
    var x, y := b[|b| - n..], a[|a| - n..];
    forall i | 0 <= i < |x| ensures FoldEq(x[i], y[i]) {
      assert SharedAt(a, b, n - 1 - i);
    }
  }

  /** What an indexed name offers: nothing when it has more labels than can be considered. */
  ghost function Offer(labels: Labels, candidate: Labels): (n: nat)
    ensures n <= |labels|
  {
    if |candidate| > MAX_LABELS then 0 else CommonTail(labels, candidate)
  }

  /** The longest ending that any of the first k indexed names offers. */
  ghost function BestOf(labels: Labels, known: seq<Labels>, k: nat): (n: nat)
    requires k <= |known|
    ensures n <= |labels|
  {
    if k == 0 then 0
    else
      var rest := BestOf(labels, known, k - 1);
      var last := Offer(labels, known[k - 1]);
      if rest < last then last else rest
  }

  ghost function BestTail(labels: Labels, known: seq<Labels>): (n: nat)
    ensures n <= |labels|
  {
    BestOf(labels, known, |known|)
  }

  lemma {:induction false} BestIsMost(labels: Labels, known: seq<Labels>, k: nat)
    requires k <= |known|
    ensures forall i | 0 <= i < k :: Offer(labels, known[i]) <= BestOf(labels, known, k)
    ensures BestOf(labels, known, k) == 0 || exists i | 0 <= i < k :: Offer(labels, known[i]) == BestOf(labels, known, k)
  {
    if k > 0 {
      BestIsMost(labels, known, k - 1);
      assert Offer(labels, known[k - 1]) <= BestOf(labels, known, k);
    }
  }

  /** Nothing beats the whole name. */
  lemma WholeIsBest(labels: Labels, known: seq<Labels>, i: nat)
    requires i < |known| && Offer(labels, known[i]) == |labels|
    ensures BestTail(labels, known) == |labels|
  {
    BestIsMost(labels, known, |known|);
  }

  /** The ending a lookup uses. */
  ghost function Usable(labels: Labels, known: seq<Labels>): (n: nat)
    ensures n <= |labels|
  {
    if |labels| > MAX_LABELS then 0 else BestTail(labels, known)
  }

  lemma {:induction false} SharedAll(a: Labels, b: Labels, m: nat, n: nat)
    requires n <= m <= |a| && m <= |b| && forall k | n <= k < m :: SharedAt(a, b, k)
    ensures SharedFrom(a, b, n) >= m
    decreases m - n
  {
    if n < m { SharedAll(a, b, m, n + 1); }
  }

  lemma FoldTrans(a: Bytes, b: Bytes, c: Bytes)
    requires FoldEq(a, b) && FoldEq(b, c)
    ensures FoldEq(a, c)
  {
    forall i | 0 <= i < |a| ensures Lower(a[i]) == Lower(c[i]) {
      assert Lower(a[i]) == Lower(b[i]);
    }
  }

  /** What is shared with a name is shared with any name that ends with it. */
  lemma {:induction false} SharedThrough(b: Labels, w: Labels, k: Labels)
    requires CommonTail(w, k) == |w|
    ensures CommonTail(b, w) <= CommonTail(b, k)
  {
    var n := CommonTail(b, w);
    SharedOnly(b, w, 0);
    SharedOnly(w, k, 0);
    forall i | 0 <= i < n ensures SharedAt(b, k, i) {
      assert SharedAt(b, w, i) && SharedAt(w, k, i);
      FoldTrans(k[|k| - 1 - i], w[|w| - 1 - i], b[|b| - 1 - i]);
    }
    SharedAll(b, k, n, 0);
  }

  lemma {:induction false} FoldShares(a: Labels, b: Labels)
    requires LabelsFoldEq(b, a)
    ensures CommonTail(a, b) == |a|
  {
    forall i | 0 <= i < |a| ensures SharedAt(a, b, i) {
      assert FoldEq(b[|b| - 1 - i], a[|a| - 1 - i]);
    }
    SharedAll(a, b, |a|, 0);
  }

  /** A lookup can use as much of an ending as is shared with a name that the index covers. */
  lemma {:induction false} SharedWithCovered(b: Labels, w: Labels, known: seq<Labels>)
    requires BestTail(w, known) == |w|
    ensures CommonTail(b, w) <= BestTail(b, known)
  {
    BestIsMost(w, known, |known|);
    BestIsMost(b, known, |known|);
    if w != [] {
      var i :| 0 <= i < |known| && Offer(w, known[i]) == |w|;
      SharedThrough(b, w, known[i]);
      assert Offer(b, known[i]) <= BestTail(b, known);
    }
  }

  lemma {:induction false} BestOfMore(labels: Labels, known: seq<Labels>, more: seq<Labels>, k: nat)
    requires k <= |known| && known <= more
    ensures BestOf(labels, more, k) == BestOf(labels, known, k)
  {
    if k > 0 { BestOfMore(labels, known, more, k - 1); }
  }

  lemma {:induction false} BestGrows(labels: Labels, known: seq<Labels>, l: Labels)
    ensures BestTail(labels, known) <= BestTail(labels, known + [l])
    ensures Offer(labels, l) <= BestTail(labels, known + [l])
  {
    BestOfMore(labels, known, known + [l], |known|);
  }

  // ---------------------------------------------------------------- the index

  /** A label starts at q, low enough to be pointed at, and the name from there on can be read. */
  ghost predicate LabelSpot(c: Bytes, low: set<nat>, q: nat, labels: Labels) {
    && q < MAX_POINTER && q < |c| && 1 <= c[q] <= 63
    && NameAt(c, low, q, labels, q, |labels|)
  }

  /** What was written where: the name asked for, the spelling the packet gives it, and where its
      octets end. */
  datatype Written = Written(pos: nat, labels: Labels, spelled: Labels, end: nat)

  /** All names written so far, the names behind the index, and the octets they are read from
      (`low`: those below the first offset no pointer can carry). */
  datatype Log = Log(names: seq<Written>, known: seq<Labels>, bytes: set<nat>, low: set<nat>)

  /** One pointer more than a candidate of 34 labels can need. */
  const MAX_HOPS := MAX_LABELS + 1

  ghost predicate WrittenAt(c: Bytes, bytes: set<nat>, w: Written) {
    && NameAt(c, bytes, w.pos, w.spelled, w.pos, MAX_HOPS)
    && ValidLabels(w.labels) && LabelsFoldEq(w.spelled, w.labels) && NameEnd(c, w.pos) == w.end
  }

  ghost predicate BytesOk(size: nat, log: Log) {
    && log.low <= log.bytes
    && (forall x | x in log.bytes :: 12 <= x < size)
    && (forall x | x in log.low :: x < MAX_POINTER)
  }

  ghost predicate Indexed(c: Bytes, low: set<nat>, positions: seq<nat>, known: seq<Labels>) {
    && |known| == |positions|
    && forall i {:trigger LabelSpot(c, low, positions[i], known[i])} | 0 <= i < |positions| ::
         LabelSpot(c, low, positions[i], known[i])
  }

  ghost predicate KnownOk(c: Bytes, positions: seq<nat>, log: Log) {
    Indexed(c, log.low, positions, log.known)
  }

  ghost predicate NamesOk(c: Bytes, log: Log) {
    forall i | 0 <= i < |log.names| :: WrittenAt(c, log.bytes, log.names[i])
  }

  ghost predicate LogOk(c: Bytes, positions: seq<nat>, log: Log) {
    BytesOk(|c|, log) && KnownOk(c, positions, log) && NamesOk(c, log)
  }

  /** A name that a pointer can reach ends an indexed name as a whole. */
  ghost predicate Covered(w: Written, known: seq<Labels>) {
    w.pos < MAX_POINTER && |w.labels| <= MAX_LABELS ==> BestTail(w.labels, known) == |w.labels|
  }

  /** Nothing that was written is forgotten. */
  ghost predicate Remembered(log: Log) {
    forall i {:trigger Covered(log.names[i], log.known)} | 0 <= i < |log.names| :: Covered(log.names[i], log.known)
  }

  /** Appending octets, or changing octets no name is read from, keeps everything readable. */
  lemma LogKept(c: Bytes, d: Bytes, positions: seq<nat>, log: Log)
    requires LogOk(c, positions, log) && |c| <= |d|
    requires forall x | x in log.bytes && x < |c| :: d[x] == c[x]
    ensures LogOk(d, positions, log)
  {
    assert KnownOk(d, positions, log) by {
      forall i | 0 <= i < |positions| ensures LabelSpot(d, log.low, positions[i], log.known[i]) {
        var q := positions[i];
        assert LabelSpot(c, log.low, q, log.known[i]);
        assert q in log.low;
        NameFrame(c, d, log.low, q, log.known[i], q, |log.known[i]|);
      }
    }
    assert NamesOk(d, log) by {
      forall i | 0 <= i < |log.names| ensures WrittenAt(d, log.bytes, log.names[i]) {
        var w := log.names[i];
        assert WrittenAt(c, log.bytes, w);
        NameFrame(c, d, log.bytes, w.pos, w.spelled, w.pos, MAX_HOPS);
        EndFrame(c, d, log.bytes, w.pos, w.spelled, w.pos, MAX_HOPS);
      }
    }
  }

  /** The octets from one offset up to another. */
  ghost function Span(from: nat, to: nat): (s: set<nat>)
    ensures forall x: nat :: (x in s <==> from <= x < to)
    decreases if from < to then to - from else 0
  {
    if from >= to then {} else {from} + Span(from + 1, to)
  }

  /** The log after a name was put down from `from` up to `to`; a registered one enters the index. */
  ghost function LogWith(log: Log, w: Written, from: nat, to: nat, register: bool): Log {
    Log(log.names + [w],
        if register then log.known + [w.spelled] else log.known,
        log.bytes + Span(from, to),
        if register then log.low + Span(from, to) else log.low)
  }

  lemma {:induction false} StillCovered(v: Written, known: seq<Labels>, l: Labels, register: bool)
    requires Covered(v, known)
    ensures Covered(v, if register then known + [l] else known) == true
  {
    BestGrows(v.labels, known, l);
  }

  /** A name is remembered when it enters the index, when an indexed name ends with all of it, or when
      no pointer could carry its position. */
  lemma {:induction false} RememberedWith(log: Log, w: Written, from: nat, to: nat, register: bool)
    requires Remembered(log) && LabelsFoldEq(w.spelled, w.labels)
    requires register || w.pos >= MAX_POINTER || |w.labels| > MAX_LABELS || BestTail(w.labels, log.known) == |w.labels|
    ensures Remembered(LogWith(log, w, from, to, register)) == true
  {
    var after := LogWith(log, w, from, to, register);
    FoldShares(w.labels, w.spelled);
    BestGrows(w.labels, log.known, w.spelled);
    forall i | 0 <= i < |after.names| ensures Covered(after.names[i], after.known) == true {
      if i < |log.names| {
        assert Covered(log.names[i], log.known);
        StillCovered(log.names[i], log.known, w.spelled, register);
      }
    }
  }

  ghost function PositionsWith(positions: seq<nat>, from: nat, register: bool): seq<nat> {
    if register then positions + [from] else positions
  }

  lemma {:induction false} NamesWith(c: Bytes, d: Bytes, positions: seq<nat>, log: Log, w: Written, register: bool)
    requires LogOk(d, positions, log) && |c| <= |d|
    requires WrittenAt(d, log.bytes + Span(|c|, |d|), w)
    ensures NamesOk(d, LogWith(log, w, |c|, |d|, register))
  {
    var after := LogWith(log, w, |c|, |d|, register);
    forall i | 0 <= i < |after.names| ensures WrittenAt(d, after.bytes, after.names[i]) {
      if i < |log.names| {
        var v := log.names[i];
        assert WrittenAt(d, log.bytes, v);
        NameMore(d, log.bytes, after.bytes, v.pos, v.spelled, v.pos, v.pos, MAX_HOPS, MAX_HOPS);
      }
    }
  }

  lemma SpotMore(c: Bytes, low: set<nat>, low': set<nat>, q: nat, labels: Labels)
    requires LabelSpot(c, low, q, labels) && low <= low'
    ensures LabelSpot(c, low', q, labels) == true
  {
    NameMore(c, low, low', q, labels, q, q, |labels|, |labels|);
  }

  lemma KnownMore(c: Bytes, low: set<nat>, low': set<nat>, positions: seq<nat>, known: seq<Labels>)
    requires Indexed(c, low, positions, known) && low <= low'
    ensures Indexed(c, low', positions, known)
  {
    forall i | 0 <= i < |positions| ensures LabelSpot(c, low', positions[i], known[i]) == true {
      SpotMore(c, low, low', positions[i], known[i]);
    }
  }

  lemma KnownOneMore(c: Bytes, low: set<nat>, positions: seq<nat>, known: seq<Labels>, q: nat, labels: Labels)
    requires Indexed(c, low, positions, known) && LabelSpot(c, low, q, labels)
    ensures Indexed(c, low, positions + [q], known + [labels])
  {
    var ps, ks := positions + [q], known + [labels];
    forall i | 0 <= i < |ps| ensures LabelSpot(c, low, ps[i], ks[i]) == true {
      if i < |positions| { assert LabelSpot(c, low, positions[i], known[i]); }
    }
  }

  lemma {:induction false} KnownWith(c: Bytes, d: Bytes, positions: seq<nat>, log: Log, w: Written, register: bool)
    requires LogOk(d, positions, log) && |c| <= |d|
    requires register ==> LabelSpot(d, log.low + Span(|c|, |d|), |c|, w.spelled)
    ensures KnownOk(d, PositionsWith(positions, |c|, register), LogWith(log, w, |c|, |d|, register))
  {
    if register {
      var low := log.low + Span(|c|, |d|);
      KnownMore(d, log.low, low, positions, log.known);
      KnownOneMore(d, low, positions, log.known, |c|, w.spelled);
    }
  }

  /** A name was put down in the octets from |c| on.  It may enter the index when it ends below the
      first offset no pointer can carry. */
  lemma {:induction false} LogWrite(c: Bytes, d: Bytes, positions: seq<nat>, log: Log, w: Written, register: bool)
    requires LogOk(c, positions, log) && 12 <= |c| <= |d| && d[..|c|] == c
    requires WrittenAt(d, log.bytes + Span(|c|, |d|), w)
    requires register ==> |d| <= MAX_POINTER && LabelSpot(d, log.low + Span(|c|, |d|), |c|, w.spelled)
    ensures LogOk(d, PositionsWith(positions, |c|, register), LogWith(log, w, |c|, |d|, register))
  {
    LogKept(c, d, positions, log);
    NamesWith(c, d, positions, log, w, register);
    KnownWith(c, d, positions, log, w, register);
  }

  // ---------------------------------------------------------------- what is put down for a name

  /** The labels of a name that its ending does not cover, as they stand before a pointer. */
  lemma {:induction false} FrontOfPrefix(labels: Labels, k: nat)
    requires ValidLabels(labels) && k <= |labels|
    ensures ValidLabels(labels[..k]) && ValidLabels(labels[k..])
    ensures Front(labels[..k]) == Wire(labels)[..Off(labels, k)]
    ensures |Wire(labels)| == |Front(labels[..k])| + |Wire(labels[k..])|
  {
    assert labels == labels[..k] + labels[k..];
    WireAppend(labels[..k], labels[k..]);
  }

  /** Written out in full, in any spelling. */
  lemma {:induction false} WholeWritten(c: Bytes, low: set<nat>, bytes: set<nat>, labels: Labels, spelled: Labels)
    requires ValidLabels(labels) && ValidLabels(spelled) && LabelsFoldEq(spelled, labels)
    ensures var d := c + Wire(spelled);
            && WrittenAt(d, bytes + Span(|c|, |d|), Written(|c|, labels, spelled, |d|))
            && (spelled != [] && |c| < MAX_POINTER ==> LabelSpot(d, low + Span(|c|, |d|), |c|, spelled))
  {
    var d := c + Wire(spelled);
    var all, little := bytes + Span(|c|, |d|), low + Span(|c|, |d|);
    WireLength(spelled, 0);
    assert d[|c|..|c| + |Wire(spelled)|] == Wire(spelled);
    WholeNameAt(d, all, |c|, spelled, |c|);
    NameMore(d, all, all, |c|, spelled, |c|, |c|, 0, MAX_HOPS);
    WholeNameAt(d, little, |c|, spelled, |c|);
    NameMore(d, little, little, |c|, spelled, |c|, |c|, 0, |spelled|);
    if spelled != [] {
      LabelInWire(spelled, 0);
      assert d[|c|] == Wire(spelled)[0];
    }
  }

  /** The two octets of a pointer. */
  function PointerBytes(t: nat): Bytes
    requires t < MAX_POINTER
  {
    var hi: Byte, lo: Byte := 192 + t / 256, t % 256;
    [hi, lo]
  }

  /** The first k labels, then a pointer to where the rest can be read. */
  ghost function Shortened(labels: Labels, k: nat, t: nat): Bytes
    requires ValidLabels(labels) && k <= |labels| && t < MAX_POINTER
  {
    FrontOfPrefix(labels, k);
    Front(labels[..k]) + PointerBytes(t)
  }

  lemma {:induction false} ShortenedReads(c: Bytes, s: set<nat>, labels: Labels, k: nat, t: nat, back: Labels)
    requires ValidLabels(labels) && k <= |labels| && LabelSpot(c, s, t, back) && t < |c|
    ensures var d := c + Shortened(labels, k, t);
            NameAt(d, s + Span(|c|, |d|), |c|, labels[..k] + back, |c|, |back| + 1) && NameEnd(d, |c|) == |d|
  {
    FrontOfPrefix(labels, k);
    var front := labels[..k];
    var d := c + Shortened(labels, k, t);
    var q := |c| + |Front(front)|;
    var all := s + Span(|c|, |d|);
    NameFrame(c, d, s, t, back, t, |back|);
    NameMore(d, s, all, t, back, t, t, |back|, |back|);
    assert d[|c|..q] == Front(front);
    PrefixThenPointerAt(d, all, |c|, front, q, t, back, |c|, |back|);
  }

  lemma TailReplaced(labels: Labels, k: nat, back: Labels)
    requires k <= |labels| && LabelsFoldEq(back, labels[k..])
    ensures LabelsFoldEq(labels[..k] + back, labels)
  {
    assert forall i | k <= i < |labels| :: (labels[..k] + back)[i] == back[i - k] && labels[i] == labels[k..][i - k];
  }

  lemma {:induction false} CompressedWritten(c: Bytes, low: set<nat>, bytes: set<nat>, labels: Labels, k: nat, t: nat, back: Labels)
    requires ValidLabels(labels) && k < |labels| && low <= bytes
    requires LabelSpot(c, low, t, back) && |back| <= MAX_LABELS && LabelsFoldEq(back, labels[k..])
    ensures var d := c + Shortened(labels, k, t);
            var spelled := labels[..k] + back;
            && WrittenAt(d, bytes + Span(|c|, |d|), Written(|c|, labels, spelled, |d|))
            && (k > 0 && |c| < MAX_POINTER ==> LabelSpot(d, low + Span(|c|, |d|), |c|, spelled))
  {
    var d := c + Shortened(labels, k, t);
    var spelled := labels[..k] + back;
    var all, little := bytes + Span(|c|, |d|), low + Span(|c|, |d|);
    ShortenedReads(c, low, labels, k, t, back);
    NameMore(d, little, all, |c|, spelled, |c|, |c|, |back| + 1, MAX_HOPS);
    TailReplaced(labels, k, back);
    if k > 0 {
      FrontOfPrefix(labels, k);
      FrontStep(labels[..k]);
      assert ValidLabel(labels[0]);
      assert d[|c|] == |labels[0]|;
      HopsByLabels(d, little, |c|, spelled, |c|, |back| + 1);
    }
  }
}
