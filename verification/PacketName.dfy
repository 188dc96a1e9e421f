/** Names inside a packet: labels, compression pointers (section 4.1.4 of RFC 1035), and what reading
    one depends on. */
module PacketName {
  import opened DnsName

  const MAX_POINTER := 16384

  /** The offset a two-octet pointer carries. */
  function PointerTarget(hi: Byte, lo: Byte): nat
    requires hi >= 192
  {
    (hi - 192) * 256 + lo
  }

  /** At p, in a fragment that starts at `frag`, the labels can be read from the octets in `s` with
      at most `hops` pointers; every pointer goes back before its fragment and does not land on a pointer. */
  ghost predicate NameAt(c: Bytes, s: set<nat>, p: nat, labels: Labels, frag: nat, hops: nat)
    decreases hops, |labels|
  {
    && frag <= p < |c| && p in s
    && if c[p] == 0 then labels == []
       else if c[p] <= 63 then
         && labels != [] && p + 1 + c[p] < |c| && labels[0] == c[p + 1..p + 1 + c[p]]
         && (forall x | p < x <= p + c[p] :: x in s)
         && NameAt(c, s, p + 1 + c[p], labels[1..], frag, hops)
       else
         && c[p] >= 192 && p + 1 < |c| && p + 1 in s && hops > 0
         && var t := PointerTarget(c[p], c[p + 1]);
            t < frag && t < |c| && c[t] <= 63 && NameAt(c, s, t, labels, t, hops - 1)
  }

  /** Reading a name only looks at the octets in s. */
  lemma {:induction false} NameFrame(c: Bytes, d: Bytes, s: set<nat>, p: nat, labels: Labels, frag: nat, hops: nat)
    requires NameAt(c, s, p, labels, frag, hops) && |c| <= |d|
    requires forall x | x in s && x < |c| :: d[x] == c[x]
    ensures NameAt(d, s, p, labels, frag, hops)
    decreases hops, |labels|
  {
    if c[p] == 0 {
    } else if c[p] <= 63 {
      NameFrame(c, d, s, p + 1 + c[p], labels[1..], frag, hops);
    } else {
      var t := PointerTarget(c[p], c[p + 1]);
      NameFrame(c, d, s, t, labels, t, hops - 1);
    }
  }

  lemma {:induction false} NameMore(c: Bytes, s: set<nat>, s': set<nat>, p: nat, labels: Labels, frag: nat, frag': nat, hops: nat, hops': nat)
    requires NameAt(c, s, p, labels, frag, hops) && s <= s' && frag <= frag' <= p && hops <= hops'
    ensures NameAt(c, s', p, labels, frag', hops')
    decreases hops, |labels|
  {
    if c[p] == 0 {
    } else if c[p] <= 63 {
      NameMore(c, s, s', p + 1 + c[p], labels[1..], frag, frag', hops, hops');
    } else {
      var t := PointerTarget(c[p], c[p + 1]);
      NameMore(c, s, s', t, labels, t, t, hops - 1, hops' - 1);
    }
  }

  /** No pointer lands on a pointer, so after the first one there is a label before each. */
  lemma {:induction false} HopsByLabels(c: Bytes, s: set<nat>, p: nat, labels: Labels, frag: nat, hops: nat)
    requires NameAt(c, s, p, labels, frag, hops)
    ensures NameAt(c, s, p, labels, frag, |labels| + 1)
    ensures c[p] <= 63 ==> NameAt(c, s, p, labels, frag, |labels|)
    decreases hops, |labels|
  {
    if c[p] == 0 {
    } else if c[p] <= 63 {
      HopsByLabels(c, s, p + 1 + c[p], labels[1..], frag, hops);
      NameMore(c, s, s, p, labels, frag, frag, |labels|, |labels| + 1);
    } else {
      var t := PointerTarget(c[p], c[p + 1]);
      HopsByLabels(c, s, t, labels, t, hops - 1);
    }
  }

  lemma {:induction false} NameLabelsValid(c: Bytes, s: set<nat>, p: nat, labels: Labels, frag: nat, hops: nat)
    requires NameAt(c, s, p, labels, frag, hops)
    ensures ValidLabels(labels)
    decreases hops, |labels|
  {
    if c[p] == 0 {
    } else if c[p] <= 63 {
      NameLabelsValid(c, s, p + 1 + c[p], labels[1..], frag, hops);
      assert ValidLabel(labels[0]);
      assert labels == [labels[0]] + labels[1..];
    } else {
      var t := PointerTarget(c[p], c[p + 1]);
      NameLabelsValid(c, s, t, labels, t, hops - 1);
    }
  }

  /** Where the octets of the name at p end in the packet itself. */
  function NameEnd(c: Bytes, p: nat): nat
    decreases |c| - p
  {
    if p >= |c| then p
    else if c[p] == 0 then p + 1
    else if c[p] >= 192 then p + 2
    else NameEnd(c, p + 1 + c[p])
  }

  lemma {:induction false} EndFrame(c: Bytes, d: Bytes, s: set<nat>, p: nat, labels: Labels, frag: nat, hops: nat)
    requires NameAt(c, s, p, labels, frag, hops) && |c| <= |d|
    requires forall x | x in s && x < |c| :: d[x] == c[x]
    ensures p < NameEnd(d, p) == NameEnd(c, p) <= |c|
    decreases hops, |labels|
  {
    if 1 <= c[p] <= 63 { EndFrame(c, d, s, p + 1 + c[p], labels[1..], frag, hops); }
  }

  // ---------------------------------------------------------------- what the writer puts down

  /** A label in front of a name that can be read. */
  lemma {:induction false} NameCons(c: Bytes, s: set<nat>, p: nat, l: Label, rest: Labels, frag: nat, hops: nat)
    requires ValidLabel(l) && frag <= p && p + 1 + |l| < |c| && c[p] == |l| && c[p + 1..p + 1 + |l|] == l
    requires forall x | p <= x <= p + |l| :: x in s
    requires NameAt(c, s, p + 1 + |l|, rest, frag, hops)
    ensures NameAt(c, s, p, [l] + rest, frag, hops)
  {
    assert ([l] + rest)[1..] == rest;
  }

  lemma SliceOfSlice(c: Bytes, p: nat, w: Bytes, i: nat, j: nat)
    requires p + |w| <= |c| && c[p..p + |w|] == w && i <= j <= |w|
    ensures c[p + i..p + j] == w[i..j]
    ensures i < |w| ==> c[p + i] == w[i]
  {
    forall k | 0 <= k < j - i ensures c[p + i..p + j][k] == w[i..j][k] {
      assert w[i + k] == c[p..p + |w|][i + k] == c[p + (i + k)];
    }
    if i < |w| { assert c[p + i] == c[p..p + |w|][i]; }
  }

  /** A label at p, and what follows it. */
  lemma LabelThenRest(c: Bytes, p: nat, l: Label, rest: Bytes)
    requires ValidLabel(l) && p + 1 + |l| + |rest| <= |c|
    requires c[p..p + 1 + |l| + |rest|] == LabelWire(l) + rest
    ensures c[p] == |l| && c[p + 1..p + 1 + |l|] == l
    ensures c[p + 1 + |l|..p + 1 + |l| + |rest|] == rest
  {
    var w := LabelWire(l) + rest;
    SliceOfSlice(c, p, w, 0, 0);
    SliceOfSlice(c, p, w, 1, 1 + |l|);
    SliceOfSlice(c, p, w, 1 + |l|, |w|);
  }

  /** The labels stand one after the other from p up to q. */
  ghost predicate LabelsAt(c: Bytes, s: set<nat>, p: nat, front: Labels, q: nat)
    decreases |front|
  {
    if front == [] then p == q
    else
      && ValidLabel(front[0]) && p + 1 + |front[0]| < |c| && c[p] == |front[0]|
      && c[p + 1..p + 1 + |front[0]|] == front[0]
      && (forall x | p <= x <= p + |front[0]| :: x in s)
      && LabelsAt(c, s, p + 1 + |front[0]|, front[1..], q)
  }

  lemma FrontTail(front: Labels, back: Labels)
    requires front != []
    ensures front + back == [front[0]] + (front[1..] + back)
  {}

  /** Labels in front of a name that can be read. */
  lemma {:induction false} NameFront(c: Bytes, s: set<nat>, p: nat, front: Labels, q: nat, back: Labels, frag: nat, hops: nat)
    requires LabelsAt(c, s, p, front, q) && frag <= p && NameAt(c, s, q, back, frag, hops)
    ensures NameAt(c, s, p, front + back, frag, hops)
    decreases |front|
  {
    if front == [] {
      assert front + back == back;
    } else {
      FrontTail(front, back);
      NameFront(c, s, p + 1 + |front[0]|, front[1..], q, back, frag, hops);
      NameCons(c, s, p, front[0], front[1..] + back, frag, hops);
    }
  }

  lemma {:induction false} EndAfter(c: Bytes, s: set<nat>, p: nat, front: Labels, q: nat)
    requires LabelsAt(c, s, p, front, q)
    ensures NameEnd(c, p) == NameEnd(c, q)
    decreases |front|
  {
    if front != [] { EndAfter(c, s, p + 1 + |front[0]|, front[1..], q); }
  }

  /** The labels of a name without the final zero octet. */
  ghost function Front(labels: Labels): (r: Bytes)
    requires ValidLabels(labels)
    ensures |r| == |Wire(labels)| - 1
  {
    WireLength(labels, 0);
    Wire(labels)[..|Wire(labels)| - 1]
  }

  lemma FrontStep(labels: Labels)
    requires ValidLabels(labels) && labels != []
    ensures Front(labels) == LabelWire(labels[0]) + Front(labels[1..])
  {
    WireLength(labels[1..], 0);
  }

  lemma {:induction false} FrontAt(c: Bytes, s: set<nat>, p: nat, front: Labels, q: nat)
    requires ValidLabels(front) && q == p + |Front(front)| < |c| && c[p..q] == Front(front)
    requires forall x | p <= x < q :: x in s
    ensures LabelsAt(c, s, p, front, q)
    decreases |front|
  {
    if front != [] {
      assert ValidLabel(front[0]);
      FrontStep(front);
      LabelThenRest(c, p, front[0], Front(front[1..]));
      FrontAt(c, s, p + 1 + |front[0]|, front[1..], q);
    }
  }

  /** The wire form of a whole name reads back as that name. */
  lemma {:induction false} WholeNameAt(c: Bytes, s: set<nat>, p: nat, labels: Labels, frag: nat)
    requires ValidLabels(labels) && frag <= p && p + |Wire(labels)| <= |c|
    requires c[p..p + |Wire(labels)|] == Wire(labels)
    requires forall x | p <= x < p + |Wire(labels)| :: x in s
    ensures NameAt(c, s, p, labels, frag, 0) && NameEnd(c, p) == p + |Wire(labels)|
  {
    var q := p + |Front(labels)|;
    SliceOfSlice(c, p, Wire(labels), 0, |Front(labels)|);
    WireLast(labels);
    assert c[q] == c[p..p + |Wire(labels)|][|Front(labels)|] == 0;
    FrontAt(c, s, p, labels, q);
    NameFront(c, s, p, labels, q, [], frag, 0);
    EndAfter(c, s, p, labels, q);
    assert labels + [] == labels;
  }

  /** Labels followed by a pointer to a name read back as the labels and then that name. */
  lemma PrefixThenPointerAt(c: Bytes, s: set<nat>, p: nat, front: Labels, q: nat, t: nat, back: Labels, frag: nat, hops: nat)
    requires ValidLabels(front) && frag <= p && q == p + |Front(front)| && q + 1 < |c| && c[p..q] == Front(front)
    requires t < frag && t < MAX_POINTER && c[q] == 192 + t / 256 && c[q + 1] == t % 256
    requires forall x | p <= x < q + 2 :: x in s
    requires NameAt(c, s, t, back, t, hops) && c[t] <= 63
    ensures NameAt(c, s, p, front + back, frag, hops + 1) && NameEnd(c, p) == q + 2
  {
    FrontAt(c, s, p, front, q);
    EndAfter(c, s, p, front, q);
    assert PointerTarget(c[q], c[q + 1]) == t;
    assert NameAt(c, s, q, back, frag, hops + 1);
    NameFront(c, s, p, front, q, back, frag, hops + 1);
  }
}
