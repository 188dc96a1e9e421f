/** Domain names: octets, labels, the stored wire form and case folding. */
module DnsName {
  type Byte = b: int | 0 <= b < 256

  type Bytes = seq<Byte>

  type Label = seq<Byte>

  type Labels = seq<Label>

  ghost predicate ValidLabel(l: Label) { 1 <= |l| <= 63 }

  ghost predicate ValidLabels(ls: Labels) { forall l {:trigger ValidLabel(l)} | l in ls :: ValidLabel(l) }

  /** dns_tolower: ASCII folding. */
  function Lower(b: Byte): Byte {
    if 65 <= b <= 90 then b + 32 else b
  }

  function LowerAll(s: Bytes): Bytes {
    seq(|s|, i requires 0 <= i < |s| => Lower(s[i]))
  }

  /** Equal but for ASCII case. */
  predicate FoldEq(a: Bytes, b: Bytes) {
    |a| == |b| && forall i {:trigger Lower(a[i])} {:trigger Lower(b[i])} | 0 <= i < |a| :: Lower(a[i]) == Lower(b[i])
  }

  ghost predicate LabelsFoldEq(a: Labels, b: Labels) {
    |a| == |b| && forall i {:trigger FoldEq(a[i], b[i])} | 0 <= i < |a| :: FoldEq(a[i], b[i])
  }

  /** d_storage: every label after its length, then a zero octet. */
  function Wire(ls: Labels): Bytes
    requires ValidLabels(ls)
  {
    if ls == [] then [0] else LabelWire(ls[0]) + Wire(ls[1..])
  }

  /** The labels a storage holds; an unset name holds none. */
  ghost predicate Holds(storage: Bytes, ls: Labels) {
    ValidLabels(ls) && (storage == Wire(ls) || (storage == [] && ls == []))
  }

  /** One label after its length. */
  function LabelWire(l: Label): (r: Bytes)
    requires ValidLabel(l)
    ensures |r| == |l| + 1
  {
    var n: Byte := |l|;
    [n] + l
  }

  /** Where label i starts in the stored form. */
  ghost function Off(ls: Labels, i: nat): (r: nat)
    requires ValidLabels(ls) && i <= |ls|
    ensures r < |Wire(ls)|
  {
    WireLength(ls, i);
    |Wire(ls)| - |Wire(ls[i..])|
  }

  lemma {:induction false} WireLength(ls: Labels, i: nat)
    requires ValidLabels(ls) && i <= |ls|
    ensures 1 <= |Wire(ls[i..])| <= |Wire(ls)|
    ensures 1 + 2 * |ls| <= |Wire(ls)|
  {
    if ls != [] {
      WireLength(ls[1..], if i == 0 then 0 else i - 1);
      if i == 0 { assert ls[i..] == ls; } else { assert ls[i..] == ls[1..][i - 1..]; }
      assert ValidLabel(ls[0]);
    } else {
      assert ls[i..] == [];
    }
  }

  lemma OffStep(ls: Labels, i: nat)
    requires ValidLabels(ls) && i < |ls|
    ensures Off(ls, i + 1) == Off(ls, i) + 1 + |ls[i]|
  {
    assert ls[i..][1..] == ls[i + 1..];
    assert ls[i..][0] == ls[i];
  }

  /** From the offset of label i on, the stored form is that of the remaining labels. */
  lemma {:induction false} WireFrom(ls: Labels, i: nat)
    requires ValidLabels(ls) && i <= |ls|
    ensures Wire(ls)[Off(ls, i)..] == Wire(ls[i..])
  {
    if i == 0 {
      assert ls[0..] == ls;
    } else {
      WireFrom(ls[1..], i - 1);
      assert ls[i..] == ls[1..][i - 1..];
      OffStep(ls, 0);
      assert ls[1..][..] == ls[1..] && ls[0..] == ls;
      assert Wire(ls)[1 + |ls[0]|..] == Wire(ls[1..]);
    }
  }

  lemma {:induction false} LabelInWire(ls: Labels, i: nat)
    requires ValidLabels(ls) && i < |ls|
    ensures Off(ls, i) + 1 + |ls[i]| < |Wire(ls)|
    ensures Wire(ls)[Off(ls, i)] == |ls[i]|
    ensures Wire(ls)[Off(ls, i) + 1..Off(ls, i) + 1 + |ls[i]|] == ls[i]
  {
    WireFrom(ls, i);
    var w := Wire(ls)[Off(ls, i)..];
    assert ls[i..][0] == ls[i];
    assert w == LabelWire(ls[i]) + Wire(ls[i..][1..]);
    WireLength(ls[i..][1..], 0);
    assert w[0] == |ls[i]|;
    assert w[1..1 + |ls[i]|] == ls[i];
  }

  lemma {:induction false} WireAppend(a: Labels, b: Labels)
    requires ValidLabels(a) && ValidLabels(b)
    ensures ValidLabels(a + b)
    ensures Wire(a + b) == Wire(a)[..|Wire(a)| - 1] + Wire(b)
  {
    if a == [] {
      assert a + b == b;
    } else {
      WireAppend(a[1..], b);
      assert (a + b)[1..] == a[1..] + b && (a + b)[0] == a[0];
      WireLength(a[1..], 0);
    }
  }

  lemma {:induction false} WireLast(labels: Labels)
    requires ValidLabels(labels)
    ensures Wire(labels)[|Wire(labels)| - 1] == 0
  {
    if labels != [] { WireLast(labels[1..]); }
  }

  lemma {:induction false} WireFold(a: Labels, b: Labels)
    requires ValidLabels(a) && ValidLabels(b) && LabelsFoldEq(a, b)
    ensures FoldEq(Wire(a), Wire(b))
  {
    if a != [] {
      assert LabelsFoldEq(a[1..], b[1..]);
      WireFold(a[1..], b[1..]);
      assert FoldEq(a[0], b[0]);
      var x, y := LabelWire(a[0]), LabelWire(b[0]);
      assert FoldEq(x, y);
      assert Wire(a) == x + Wire(a[1..]) && Wire(b) == y + Wire(b[1..]);
    }
  }

  lemma FoldSym(a: Bytes, b: Bytes)
    ensures FoldEq(a, b) <==> FoldEq(b, a)
  {}

  lemma FoldSlice(a: Bytes, b: Bytes, i: nat, j: nat)
    requires FoldEq(a, b) && i <= j <= |a|
    ensures FoldEq(a[i..j], b[i..j])
  {}

  lemma {:induction false} WireFoldBack(a: Labels, b: Labels)
    requires ValidLabels(a) && ValidLabels(b) && FoldEq(Wire(a), Wire(b))
    ensures LabelsFoldEq(a, b)
  {
    if a == [] || b == [] {
      assert Lower(Wire(a)[0]) == Lower(Wire(b)[0]);
    } else {
      var x, y := Wire(a), Wire(b);
      assert Lower(x[0]) == Lower(y[0]) && x[0] == |a[0]| && y[0] == |b[0]|;
      var n := |a[0]|;
      assert x == LabelWire(a[0]) + Wire(a[1..]) && y == LabelWire(b[0]) + Wire(b[1..]);
      assert |b[0]| == n by { assert ValidLabel(a[0]) && ValidLabel(b[0]); }
      assert x[1..1 + n] == a[0] && y[1..1 + n] == b[0];
      FoldSlice(x, y, 1, 1 + n);
      FoldSlice(x, y, 1 + n, |x|);
      WireFoldBack(a[1..], b[1..]);
      assert a == [a[0]] + a[1..] && b == [b[0]] + b[1..];
    }
  }

  lemma {:induction false} WireInjective(a: Labels, b: Labels)
    requires ValidLabels(a) && ValidLabels(b) && Wire(a) == Wire(b)
    ensures a == b
  {
    if a != [] && b != [] {
      assert |a[0]| == Wire(a)[0] == |b[0]|;
      assert a[0] == Wire(a)[1..1 + |a[0]|] == b[0];
      assert Wire(a[1..]) == Wire(a)[1 + |a[0]|..] == Wire(b[1..]);
      WireInjective(a[1..], b[1..]);
      assert a == [a[0]] + a[1..] && b == [b[0]] + b[1..];
    } else {
      assert Wire(a)[0] == Wire(b)[0];
    }
  }

  // ---------------------------------------------------------------- walking over a storage

  /** A walk over a storage stands at label k. */
  ghost predicate WalkAt(storage: Bytes, labels: Labels, p: nat, k: nat)
    requires Holds(storage, labels)
  {
    k <= |labels| && (storage == [] ==> p == 0) && (storage != [] ==> p == Off(labels, k))
  }

  lemma WalkStart(storage: Bytes, labels: Labels)
    requires Holds(storage, labels)
    ensures WalkAt(storage, labels, 0, 0)
  {
    assert labels[0..] == labels;
  }

  lemma WalkOn(storage: Bytes, labels: Labels, p: nat, k: nat)
    requires Holds(storage, labels) && WalkAt(storage, labels, p, k) && p < |storage| && storage[p] != 0
    ensures k < |labels| && storage[p] == |labels[k]| && p + 1 + |labels[k]| <= |storage|
    ensures storage[p + 1..p + 1 + |labels[k]|] == labels[k]
    ensures WalkAt(storage, labels, p + 1 + |labels[k]|, k + 1)
  {
    WireLast(labels);
    assert labels[|labels|..] == [];
    LabelInWire(labels, k);
    OffStep(labels, k);
  }

  lemma WalkEnd(storage: Bytes, labels: Labels, p: nat, k: nat)
    requires Holds(storage, labels) && WalkAt(storage, labels, p, k) && !(p < |storage| && storage[p] != 0)
    ensures k == |labels|
  {
    assert k < |labels| ==> ValidLabel(labels[k]);
    if k < |labels| { LabelInWire(labels, k); }
  }
}
