/** GenericDNSPacketWriter::lookupName: the search for an ending that is already in the packet. */
module NameLookup {
  import opened Wrappers
  import opened DnsName
  import opened PacketName
  import opened NameIndex

  ghost predicate Offsets(v: seq<nat>, labels: Labels)
    requires ValidLabels(labels)
  {
    |v| == |labels| && forall i {:trigger v[i]} | 0 <= i < |v| :: v[i] == Off(labels, i)
  }

  /** Where the labels start in the stored form of a name; nothing when there are too many. */
  method NameVector(raw: Bytes, ghost labels: Labels) returns (r: Option<seq<nat>>)
    requires ValidLabels(labels) && raw == Wire(labels)
    ensures r.None? <==> |labels| > MAX_LABELS
    ensures r.Some? ==> Offsets(r.value, labels)
  {
    var nvect: seq<nat> := [];
    var iter := 0;
    assert labels[0..] == labels;
    while iter < |raw|
      invariant |nvect| <= |labels| && |nvect| <= MAX_LABELS && iter == Off(labels, |nvect|)
      invariant forall i | 0 <= i < |nvect| :: nvect[i] == Off(labels, i)
      decreases |raw| - iter
    {
      WireFrom(labels, |nvect|);
      assert raw[iter] == Wire(labels[|nvect|..])[0];
      assert |nvect| < |labels| ==> ValidLabel(labels[|nvect|]) && labels[|nvect|..][0] == labels[|nvect|];
      if raw[iter] == 0 { break; }
      LabelInWire(labels, |nvect|);
      OffStep(labels, |nvect|);
      if |nvect| == MAX_LABELS { return None; }
      nvect := nvect + [iter];
      iter := iter + raw[iter] + 1;
    }
    r := Some(nvect);
  }

  /** The labels of the name at q, each at the offset it has in the packet. */
  ghost predicate Spots(c: Bytes, low: set<nat>, v: seq<nat>, labels: Labels) {
    |v| <= |labels| && forall i | 0 <= i < |v| :: LabelSpot(c, low, v[i], labels[i..])
  }

  lemma {:induction false} SpotOfName(c: Bytes, low: set<nat>, q: nat, labels: Labels, frag: nat, hops: nat)
    requires NameAt(c, low, q, labels, frag, hops) && 1 <= c[q] <= 63 && q < MAX_POINTER
    ensures LabelSpot(c, low, q, labels)
  {
    HopsByLabels(c, low, q, labels, frag, hops);
    NameMore(c, low, low, q, labels, frag, q, |labels|, |labels|);
  }

  lemma SpotsStep(c: Bytes, low: set<nat>, v: seq<nat>, labels: Labels, q: nat)
    requires Spots(c, low, v, labels) && |v| < |labels| && LabelSpot(c, low, q, labels[|v|..])
    ensures Spots(c, low, v + [q], labels) == true
  {}

  /** The offsets of the labels of an indexed name, across pointers; nothing when there are too many. */
  method PacketVector(c: Bytes, p: nat, ghost low: set<nat>, ghost labels: Labels) returns (r: Option<seq<nat>>)
    requires LabelSpot(c, low, p, labels) && (forall x | x in low :: x < MAX_POINTER)
    ensures r.None? <==> |labels| > MAX_LABELS
    ensures r.Some? ==> |r.value| == |labels| && Spots(c, low, r.value, labels)
  {
    var pvect: seq<nat> := [];
    var iter: nat := p;
    ghost var frag: nat, hops: nat := p, |labels|;
    assert labels[0..] == labels;
    while iter < |c|
      invariant |pvect| <= |labels| && |pvect| <= MAX_LABELS
      invariant NameAt(c, low, iter, labels[|pvect|..], frag, hops)
      invariant Spots(c, low, pvect, labels) == true
      decreases hops, |labels| - |pvect|
    {
      ghost var rest := labels[|pvect|..];
      var len := c[iter];
      if len >= 64 {
        iter := PointerTarget(len, c[iter + 1]);
        frag, hops := iter, hops - 1;
        continue;
      }
      if len == 0 { break; }
      if iter >= MAX_POINTER { assert false; break; }
      SpotOfName(c, low, iter, rest, frag, hops);
      if |pvect| == MAX_LABELS { return None; }
      SpotsStep(c, low, pvect, labels, iter);
      assert rest[1..] == labels[|pvect| + 1..];
      pvect := pvect + [iter];
      iter := iter + len + 1;
    }
    r := Some(pvect);
  }

  /** The octets from label i on. */
  ghost function TailLength(labels: Labels, i: nat): (r: nat)
    requires i <= |labels|
    decreases |labels| - i
  {
    if i == |labels| then 1 else 1 + |labels[i]| + TailLength(labels, i + 1)
  }

  lemma {:induction false} TailLengthIs(labels: Labels, i: nat)
    requires ValidLabels(labels) && i <= |labels|
    ensures |Wire(labels[i..])| == TailLength(labels, i)
    decreases |labels| - i
  {
    if i < |labels| {
      TailLengthIs(labels, i + 1);
      OffStep(labels, i);
    } else {
      assert labels[i..] == [];
    }
  }

  /** Compares the labels from the last one back: how many octets of the name are covered (one for
      the final zero octet when nothing is) and where the covered ending starts in the packet. */
  method MatchFromEnd(raw: Bytes, c: Bytes, nvect: seq<nat>, pvect: seq<nat>, ghost low: set<nat>, ghost labels: Labels, ghost back: Labels)
    returns (matchLen: nat, found: bool, spot: nat)
    requires ValidLabels(labels) && NoZeros(labels) && raw == Wire(labels)
    requires Offsets(nvect, labels)
    requires |pvect| == |back| && Spots(c, low, pvect, back)
    ensures var n := CommonTail(labels, back);
            && matchLen == TailLength(labels, |labels| - n)
            && (found <==> n > 0)
            && (found ==> spot == pvect[|back| - n])
  {
    var ni, pi := |nvect|, |pvect|;
    matchLen := 1;
    ghost var n := CommonTail(labels, back);
    while ni > 0 && pi > 0
      invariant 0 <= ni <= |labels| && 0 <= pi <= |back|
      invariant |labels| - ni == |back| - pi <= n
      invariant matchLen == TailLength(labels, ni)
    {
      var x, y := nvect[ni - 1], pvect[pi - 1];
      assert LabelSpot(c, low, y, back[pi - 1..]);
      NextPair(raw, c, low, labels, back, ni, pi, x, y);
      var nlen, plen := raw[x], c[y];
      if nlen != plen { break; }
      if !SameText(raw, x + 1, c, y + 1, nlen) { break; }
      matchLen := matchLen + nlen + 1;
      ni, pi := ni - 1, pi - 1;
    }
    assert ni == |labels| - n && pi == |back| - n;
    found := pi < |pvect|;
    spot := if found then pvect[pi] else 0;
  }

  lemma {:induction false} LabelInName(labels: Labels, k: nat)
    requires ValidLabels(labels) && k < |labels|
    ensures var raw, at := Wire(labels), Off(labels, k);
            at + 1 + |labels[k]| < |raw| && raw[at] == |labels[k]| && raw[at + 1..at + 1 + |labels[k]|] == labels[k]
  {
    LabelInWire(labels, k);
  }

  lemma LabelInPacket(c: Bytes, low: set<nat>, q: nat, back: Labels, k: nat)
    requires k < |back| && LabelSpot(c, low, q, back[k..])
    ensures q + 1 + |back[k]| < |c| && c[q] == |back[k]| && c[q + 1..q + 1 + |back[k]|] == back[k]
  {
    assert back[k..][0] == back[k];
  }

  /** The labels before ni and pi: where the vectors say they are, and what their agreeing means. */
  lemma NextPair(raw: Bytes, c: Bytes, low: set<nat>, labels: Labels, back: Labels, ni: nat, pi: nat, x: nat, y: nat)
    requires ValidLabels(labels) && NoZeros(labels) && raw == Wire(labels)
    requires 0 < ni <= |labels| && 0 < pi <= |back| && |labels| - ni == |back| - pi <= CommonTail(labels, back)
    requires x == Off(labels, ni - 1) && LabelSpot(c, low, y, back[pi - 1..])
    ensures x + 1 + raw[x] < |raw| && y + 1 + c[y] < |c|
    ensures raw[x] == c[y] && SameText(raw, x + 1, c, y + 1, raw[x]) <==> |labels| - ni < CommonTail(labels, back)
    ensures TailLength(labels, ni - 1) == raw[x] + 1 + TailLength(labels, ni)
  {
    LabelInName(labels, ni - 1);
    LabelInPacket(c, low, y, back, pi - 1);
    SharedOn(labels, back, 0, |labels| - ni);
    assert labels[ni - 1] in labels && NoZero(labels[ni - 1]);
    if raw[x] == c[y] { SameTextFold(raw, x + 1, c, y + 1, raw[x]); }
  }

  lemma {:induction false} LongerTail(labels: Labels, n: nat, m: nat)
    requires ValidLabels(labels) && n < m <= |labels|
    ensures 1 <= |Wire(labels[|labels| - n..])| < |Wire(labels[|labels| - m..])|
  {
    var t := labels[|labels| - m..];
    assert t[1..][m - 1 - n..] == labels[|labels| - n..];
    WireLength(t[1..], m - 1 - n);
  }

  /** An ending of n labels was found: how long it is, and where it can be read. */
  ghost predicate Found(c: Bytes, low: set<nat>, labels: Labels, n: nat, pos: nat, matchLen: nat, back: Labels)
    requires ValidLabels(labels) && n <= |labels|
  {
    if n == 0 then pos == 0 && matchLen == 0
    else
      && matchLen == |Wire(labels[|labels| - n..])|
      && LabelSpot(c, low, pos, back) && |back| == n && LabelsFoldEq(back, labels[|labels| - n..])
  }

  lemma CandidateFound(c: Bytes, low: set<nat>, labels: Labels, candidate: Labels, v: seq<nat>)
    requires ValidLabels(labels) && |v| == |candidate| && Spots(c, low, v, candidate)
    requires CommonTail(labels, candidate) > 0
    ensures var n := CommonTail(labels, candidate);
            Found(c, low, labels, n, v[|candidate| - n], |Wire(labels[|labels| - n..])|, candidate[|candidate| - n..]) == true
  {
    var n := CommonTail(labels, candidate);
    CommonTailEqual(labels, candidate);
    assert LabelSpot(c, low, v[|candidate| - n], candidate[|candidate| - n..]);
  }

  /** Comparing octets is comparing labels. */
  lemma LongerFound(c: Bytes, low: set<nat>, labels: Labels, was: nat, n: nat, pos: nat, matchLen: nat, back: Labels)
    requires ValidLabels(labels) && labels != [] && was <= |labels| && n <= |labels|
    requires Found(c, low, labels, was, pos, matchLen, back)
    ensures n > 0 && matchLen < |Wire(labels[|labels| - n..])| <==> was < n
  {
    if n < was { LongerTail(labels, n, was); }
    if was < n { LongerTail(labels, was, n); }
    if 0 < n { LongerTail(labels, 0, n); }
  }

  lemma WholeTail(labels: Labels, n: nat)
    requires ValidLabels(labels) && n <= |labels|
    ensures |Wire(labels[|labels| - n..])| == |Wire(labels)| <==> n == |labels|
  {
    assert labels[|labels| - |labels|..] == labels;
    if n < |labels| { LongerTail(labels, n, |labels|); }
  }

  /** What one indexed name offers: the octets it covers and where they start. */
  method Candidate(raw: Bytes, c: Bytes, nvect: seq<nat>, p: nat, ghost low: set<nat>, ghost labels: Labels, ghost candidate: Labels)
    returns (matchLen: nat, found: bool, spot: nat, ghost back: Labels)
    requires ValidLabels(labels) && labels != [] && NoZeros(labels) && raw == Wire(labels)
    requires Offsets(nvect, labels)
    requires LabelSpot(c, low, p, candidate) && (forall x | x in low :: x < MAX_POINTER)
    ensures found <==> Offer(labels, candidate) > 0
    ensures found ==> Found(c, low, labels, Offer(labels, candidate), spot, matchLen, back) == true
    ensures matchLen == |raw| <==> Offer(labels, candidate) == |labels|
  {
    var pvect := PacketVector(c, p, low, candidate);
    if pvect.None? {
      WireLength(labels, 0);
      return 0, false, 0, [];
    }
    matchLen, found, spot := MatchFromEnd(raw, c, nvect, pvect.value, low, labels, candidate);
    ghost var n := CommonTail(labels, candidate);
    TailLengthIs(labels, |labels| - n);
    WholeTail(labels, n);
    back := candidate[|candidate| - n..];
    if n > 0 { CandidateFound(c, low, labels, candidate, pvect.value); }
  }

  /** Whether the candidate covers more. */
  lemma Better(c: Bytes, low: set<nat>, labels: Labels, was: nat, pos: nat, matchLen: nat, back: Labels, n: nat, pos': nat, matchLen': nat, back': Labels)
    requires ValidLabels(labels) && was <= |labels| && n <= |labels|
    requires Found(c, low, labels, was, pos, matchLen, back) && Found(c, low, labels, n, pos', matchLen', back') && n > 0
    ensures matchLen < matchLen' <==> was < n
  {
    LongerFound(c, low, labels, was, n, pos, matchLen, back);
  }

  /** Finds the longest ending that an indexed name offers, and only such an ending. */
  method LookupName(raw: Bytes, c: Bytes, positions: seq<nat>, ghost low: set<nat>, ghost known: seq<Labels>, ghost labels: Labels)
    returns (pos: nat, matchLen: nat, ghost back: Labels)
    requires ValidLabels(labels) && labels != [] && NoZeros(labels) && raw == Wire(labels)
    requires Indexed(c, low, positions, known)
    requires forall x | x in low :: x < MAX_POINTER
    ensures Found(c, low, labels, Usable(labels, known), pos, matchLen, back) == true
  {
    pos, matchLen, back := 0, 0, [];
    var nvect := NameVector(raw, labels);
    if nvect.None? { return; }
    for i := 0 to |positions|
      invariant Found(c, low, labels, BestOf(labels, known, i), pos, matchLen, back) == true
    {
      assert LabelSpot(c, low, positions[i], known[i]);
      ghost var was, offer := BestOf(labels, known, i), Offer(labels, known[i]);
      ghost var next := BestOf(labels, known, i + 1);
      assert next == if was < offer then offer else was;
      var cmatchlen, found, spot;
      ghost var tail;
      cmatchlen, found, spot, tail := Candidate(raw, c, nvect.value, positions[i], low, labels, known[i]);
      if cmatchlen == |raw| {
        WholeIsBest(labels, known, i);
        return spot, cmatchlen, tail;
      }
      if found {
        Better(c, low, labels, was, pos, matchLen, back, offer, spot, cmatchlen, tail);
        if matchLen < cmatchlen {
          pos, matchLen, back := spot, cmatchlen, tail;
        }
      }
      assert Found(c, low, labels, next, pos, matchLen, back) == true;
    }
  }
}
