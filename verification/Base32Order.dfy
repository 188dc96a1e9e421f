/** Base32hex keeps the order of hashes, so that a search among encoded NSEC3 owner names is a search
    in hash order. */
module Base32Order {
  import opened DnsName
  import opened CanonicalOrder
  import opened Words
  import opened Base32

  /** The order of hashes of equal length: octet by octet, from octet i on. */
  function HashOrder(x: Bytes, y: Bytes, i: nat): int
    requires i <= |x| == |y|
    decreases |x| - i
  {
    if i == |x| then 0 else if x[i] != y[i] then x[i] as int - y[i] as int else HashOrder(x, y, i + 1)
  }

  /** Words that agree before bit i are ordered by it. */
  lemma {:induction false} FirstBitDecides(a: Word, b: Word, i: nat)
    requires |a| == |b| && i < |a| && (forall k | 0 <= k < i :: a[k] == b[k]) && !a[i] && b[i]
    ensures Value(a) < Value(b)
  {
    if i < |a| - 1 { FirstBitDecides(a[..|a| - 1], b[..|b| - 1], i); } else { assert a[..i] == b[..i]; }
  }

  /** The first bit in which two groups differ. */
  lemma {:induction false} FirstDifference(s: Bytes, t: Bytes, i: nat) returns (d: nat)
    requires i <= 40 && |s| >= 5 && |t| >= 5 && s[..5] != t[..5]
    requires forall k | 0 <= k < i :: StreamBit(s, k) == StreamBit(t, k)
    ensures d < 40 && StreamBit(s, d) != StreamBit(t, d) && forall k | 0 <= k < d :: StreamBit(s, k) == StreamBit(t, k)
    decreases 40 - i
  {
    if i == 40 {
      SameOctets(s, t, 5, 40);
      assert false;
    } else if StreamBit(s, i) != StreamBit(t, i) {
      return i;
    } else {
      d := FirstDifference(s, t, i + 1);
    }
  }

  /** Octets whose bits agree are equal. */
  lemma SameOctets(s: Bytes, t: Bytes, n: nat, bits: nat)
    requires n <= |s| && n <= |t| && 8 * n <= bits && forall k | 0 <= k < bits :: StreamBit(s, k) == StreamBit(t, k)
    ensures s[..n] == t[..n]
  {
    forall i | 0 <= i < n ensures s[i] == t[i] {
      forall j | 0 <= j < 8 ensures Bits(s[i], 8)[j] == Bits(t[i], 8)[j] {
        assert (8 * i + j) / 8 == i && (8 * i + j) % 8 == j;
        assert StreamBit(s, 8 * i + j) == StreamBit(t, 8 * i + j);
      }
      assert Bits(s[i], 8) == Bits(t[i], 8);
      OctetBits(s[i]);
      OctetBits(t[i]);
    }
  }

  /** The first differing bit decides between the octets it is in... */
  lemma OctetDecided(s: Bytes, t: Bytes, d: nat)
    requires d < 40 && |s| >= 5 && |t| >= 5 && !StreamBit(s, d) && StreamBit(t, d)
    requires forall k | 0 <= k < d :: StreamBit(s, k) == StreamBit(t, k)
    ensures s[..d / 8] == t[..d / 8] && s[d / 8] < t[d / 8]
  {
    var o := d / 8;
    SameOctets(s, t, o, d);
    forall j | 0 <= j < d % 8 ensures Bits(s[o], 8)[j] == Bits(t[o], 8)[j] {
      assert (8 * o + j) / 8 == o && (8 * o + j) % 8 == j;
      assert StreamBit(s, 8 * o + j) == StreamBit(t, 8 * o + j);
    }
    FirstBitDecides(Bits(s[o], 8), Bits(t[o], 8), d % 8);
    OctetBits(s[o]);
    OctetBits(t[o]);
  }

  /** ...and between the characters. */
  lemma CharDecided(s: Bytes, t: Bytes, d: nat)
    requires d < 40 && !StreamBit(s, d) && StreamBit(t, d)
    requires forall k | 0 <= k < d :: StreamBit(s, k) == StreamBit(t, k)
    ensures forall c | 0 <= c < d / 5 :: Char(s, c) == Char(t, c)
    ensures Lower(Char(s, d / 5)) < Lower(Char(t, d / 5))
  {
    forall c | 0 <= c < d / 5 ensures Char(s, c) == Char(t, c) {
      SameFive(s, t, 5 * c, 5);
      FiveValue(s, 5 * c);
      FiveValue(t, 5 * c);
    }
    var start := 5 * (d / 5);
    SameFive(s, t, start, d % 5);
    FiveBit(s, start, d % 5);
    FiveBit(t, start, d % 5);
    assert start + d % 5 == d;
    FirstBitDecides(FiveBits(s, start), FiveBits(t, start), d % 5);
    FiveValue(s, start);
    FiveValue(t, start);
  }

  lemma SameFive(s: Bytes, t: Bytes, start: nat, n: nat)
    requires n <= 5 && forall k | 0 <= k < start + n :: StreamBit(s, k) == StreamBit(t, k)
    ensures forall j | 0 <= j < n :: FiveBits(s, start)[j] == FiveBits(t, start)[j]
    ensures n == 5 ==> FiveBits(s, start) == FiveBits(t, start)
  {
    forall j | 0 <= j < n ensures FiveBits(s, start)[j] == FiveBits(t, start)[j] {
      FiveBit(s, start, j);
      FiveBit(t, start, j);
    }
  }

  lemma FiveValue(s: Bytes, start: nat)
    ensures ExtractBits(s, start) == Value(FiveBits(s, start))
  {
    Extracted(s, start);
    assert Pow2(5) == 32;
    ValueOfBits(ExtractBits(s, start), 5);
  }

  lemma {:induction false} LexSkip(a: Bytes, b: Bytes, i: nat, j: nat)
    requires i <= j <= |a| && j <= |b| && forall k | i <= k < j :: a[k] == b[k]
    ensures LexFrom(a, b, i) == LexFrom(a, b, j)
    decreases j - i
  {
    if i < j { LexSkip(a, b, i + 1, j); }
  }

  lemma {:induction false} HashSkip(x: Bytes, y: Bytes, i: nat, j: nat)
    requires i <= j <= |x| == |y| && forall k | i <= k < j :: x[k] == y[k]
    ensures HashOrder(x, y, i) == HashOrder(x, y, j)
    decreases j - i
  {
    if i < j { HashSkip(x, y, i + 1, j); }
  }

  /** From octet o and from character n on, the two orders are the same. */
  ghost predicate SameOrder(x: Bytes, y: Bytes, o: nat, e: Bytes, f: Bytes, n: nat)
    requires o <= |x| == |y| && n <= |e| && n <= |f|
  {
    && (HashOrder(x, y, o) < 0 <==> LexFrom(e, f, n) < 0)
    && (HashOrder(x, y, o) == 0 <==> LexFrom(e, f, n) == 0)
  }

  /** Groups that agree on the bits before d and not on bit d. */
  ghost predicate PartAt(s: Bytes, t: Bytes, d: nat) {
    d < 40 && !StreamBit(s, d) && StreamBit(t, d) && forall k | 0 <= k < d :: StreamBit(s, k) == StreamBit(t, k)
  }

  lemma {:induction false} HashDecides(x: Bytes, y: Bytes, o: nat, d: nat)
    requires o + 5 <= |x| == |y| && PartAt(x[o..], y[o..], d)
    ensures HashOrder(x, y, o) < 0
  {
    var s, t, k := x[o..], y[o..], o + d / 8;
    OctetDecided(s, t, d);
    SliceSame(x, y, o, d / 8);
    HashSkip(x, y, o, k);
    assert x[k] == s[d / 8] && y[k] == t[d / 8];
    HashHere(x, y, k);
  }

  lemma SliceSame(x: Bytes, y: Bytes, o: nat, n: nat)
    requires o + n <= |x| == |y| && x[o..][..n] == y[o..][..n]
    ensures forall k | o <= k < o + n :: x[k] == y[k]
  {
    forall k | o <= k < o + n ensures x[k] == y[k] { assert x[k] == x[o..][..n][k - o] && y[k] == y[o..][..n][k - o]; }
  }

  lemma {:induction false} HashHere(x: Bytes, y: Bytes, k: nat)
    requires k < |x| == |y| && x[k] < y[k]
    ensures HashOrder(x, y, k) < 0
  {}

  lemma {:induction false} LexHere(e: Bytes, f: Bytes, k: nat)
    requires k < |e| && k < |f| && Lower(e[k]) < Lower(f[k])
    ensures LexFrom(e, f, k) < 0
  {}

  lemma CharsSame(e: Bytes, f: Bytes, n: nat, s: Bytes, t: Bytes, m: nat)
    requires m <= 8 && GroupAt(e, n, s, 8) && GroupAt(f, n, t, 8) && forall c | 0 <= c < m :: Char(s, c) == Char(t, c)
    ensures LexFrom(e, f, n) == LexFrom(e, f, n + m)
  {
    forall k | n <= k < n + m ensures e[k] == f[k] {
      assert e[n + (k - n)] == Char(s, k - n) && f[n + (k - n)] == Char(t, k - n);
    }
    LexSkip(e, f, n, n + m);
  }

  lemma {:induction false} LexDecides(e: Bytes, f: Bytes, n: nat, s: Bytes, t: Bytes, d: nat)
    requires GroupAt(e, n, s, 8) && GroupAt(f, n, t, 8) && PartAt(s, t, d)
    ensures LexFrom(e, f, n) < 0
  {
    CharDecided(s, t, d);
    CharsSame(e, f, n, s, t, d / 5);
    assert e[n + d / 5] == Char(s, d / 5) && f[n + d / 5] == Char(t, d / 5);
    LexHere(e, f, n + d / 5);
  }

  /** The group that starts at octet o and at character n differs: it decides both orders alike. */
  lemma GroupDecides(x: Bytes, y: Bytes, o: nat, e: Bytes, f: Bytes, n: nat, d: nat)
    requires o + 5 <= |x| == |y| && n <= |e| && n <= |f| && GroupAt(e, n, x[o..], 8) && GroupAt(f, n, y[o..], 8)
    requires PartAt(x[o..], y[o..], d) || PartAt(y[o..], x[o..], d)
    ensures SameOrder(x, y, o, e, f, n) == true
  {
    if PartAt(x[o..], y[o..], d) {
      HashDecides(x, y, o, d);
      LexDecides(e, f, n, x[o..], y[o..], d);
    } else {
      HashDecides(y, x, o, d);
      LexDecides(f, e, n, y[o..], x[o..], d);
      LexFlip(e, f, n);
      HashFlip(x, y, o);
    }
  }

  /** It does not differ: the next group decides. */
  lemma GroupPasses(x: Bytes, y: Bytes, o: nat, e: Bytes, f: Bytes, n: nat)
    requires o + 5 <= |x| == |y| && n + 8 <= |e| && n + 8 <= |f|
    requires GroupAt(e, n, x[o..], 8) && GroupAt(f, n, y[o..], 8) && x[o..][..5] == y[o..][..5]
    requires SameOrder(x, y, o + 5, e, f, n + 8)
    ensures SameOrder(x, y, o, e, f, n) == true
  {
    var s, t := x[o..], y[o..];
    SliceSame(x, y, o, 5);
    HashSkip(x, y, o, o + 5);
    forall c | 0 <= c < 8 ensures Char(s, c) == Char(t, c) { SameChar(s, t, c); }
    CharsSame(e, f, n, s, t, 8);
  }

  lemma GroupsDiffer(s: Bytes, t: Bytes) returns (d: nat)
    requires |s| >= 5 && |t| >= 5 && s[..5] != t[..5]
    ensures PartAt(s, t, d) || PartAt(t, s, d)
  {
    d := FirstDifference(s, t, 0);
  }

  lemma NothingLeft(x: Bytes, y: Bytes, e: Bytes, f: Bytes, n: nat)
    requires |x| == |y| && n == |e| == |f|
    ensures SameOrder(x, y, |x|, e, f, n) == true
  {}

  lemma {:induction false} OrderFrom(x: Bytes, y: Bytes, o: nat, e: Bytes, f: Bytes, n: nat)
    requires o <= |x| == |y| && (|x| - o) % 5 == 0 && n <= |e| && n <= |f|
    requires e[n..] == Encode(x, o) && f[n..] == Encode(y, o)
    ensures SameOrder(x, y, o, e, f, n) == true
    decreases |x| - o
  {
    if o < |x| {
      GroupStands(e, n, x, o);
      GroupStands(f, n, y, o);
      if x[o..][..5] == y[o..][..5] {
        OrderFrom(x, y, o + 5, e, f, n + 8);
        GroupPasses(x, y, o, e, f, n);
      } else {
        var d := GroupsDiffer(x[o..], y[o..]);
        GroupDecides(x, y, o, e, f, n, d);
      }
    } else {
      assert |e[n..]| == 0 && |f[n..]| == 0;
      NothingLeft(x, y, e, f, n);
    }
  }

  lemma {:induction false} HashFlip(x: Bytes, y: Bytes, i: nat)
    requires i <= |x| == |y|
    ensures HashOrder(y, x, i) == -HashOrder(x, y, i)
    decreases |x| - i
  {
    if i < |x| { HashFlip(x, y, i + 1); }
  }

  lemma SameChar(s: Bytes, t: Bytes, c: nat)
    requires c < 8 && |s| >= 5 && |t| >= 5 && s[..5] == t[..5]
    ensures Char(s, c) == Char(t, c)
  {
    forall k | 0 <= k < 5 * c + 5 ensures StreamBit(s, k) == StreamBit(t, k) {
      assert s[k / 8] == s[..5][k / 8] && t[k / 8] == t[..5][k / 8];
    }
    SameFive(s, t, 5 * c, 5);
    FiveValue(s, 5 * c);
    FiveValue(t, 5 * c);
  }

  /** Hashes of equal length, a multiple of five octets, are in the order of their encodings as labels;
      different hashes have different labels. */
  lemma {:induction false} EncodingKeepsOrder(x: Bytes, y: Bytes)
    requires |x| == |y| && |x| % 5 == 0
    ensures HashOrder(x, y, 0) < 0 <==> Lex(Encode(x, 0), Encode(y, 0)) < 0
    ensures HashOrder(x, y, 0) == 0 <==> Lex(Encode(x, 0), Encode(y, 0)) == 0
  {
    var e, f := Encode(x, 0), Encode(y, 0);
    assert e[0..] == e && f[0..] == f;
    OrderFrom(x, y, 0, e, f, 0);
  }

  /** An encoding stands in for such a hash as the first label of an owner name: below one zone, owner
      names are in the order of their hashes. */
  lemma {:induction false} OwnersInHashOrder(x: Bytes, y: Bytes, zone: Labels)
    requires |x| == |y| && |x| % 5 == 0
    ensures Canon([Encode(x, 0)] + zone, [Encode(y, 0)] + zone) < 0 <==> HashOrder(x, y, 0) < 0
  {
    EncodingKeepsOrder(x, y);
    var a, b := [Encode(x, 0)] + zone, [Encode(y, 0)] + zone;
    CommonZone(a, b, zone, 0);
  }

  lemma {:induction false} CommonZone(a: Labels, b: Labels, zone: Labels, n: nat)
    requires |a| == |b| == |zone| + 1 && a[1..] == zone && b[1..] == zone && n <= |zone|
    ensures CanonFrom(a, b, n) == Lex(a[0], b[0])
    decreases |zone| - n
  {
    if n < |zone| {
      var i := |a| - 1 - n;
      assert a[i] == a[1..][i - 1] && b[i] == b[1..][i - 1];
      LexZero(a[i], b[i], 0);
      CommonZone(a, b, zone, n + 1);
    }
  }
}
