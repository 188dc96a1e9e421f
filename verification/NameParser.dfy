/** DNSName::packetParser: reading a possibly compressed name out of any packet. */
module NameParser {
  import opened DnsName
  import opened PacketName

  const MAX_NAME := 255
  const MAX_REDIRECTS := 100

  datatype ParseError = PastEnd | BeforeBeginning | CompressedNotAllowed | InvalidLabelType
                      | NameTooLong | LabelPastEnd | ForwardReference | TooManyRedirects

  /** Where parsePacketUncompressed stops: at a zero octet or at a pointer. */
  datatype Scanned = Stops(at: nat) | BadScan(error: ParseError)

  /** `total` counts the octets of the fragment so far. */
  function Scan(c: Bytes, pos: nat, total: nat, uncompress: bool): (r: Scanned)
    requires pos < |c|
    ensures r.Stops? ==> pos <= r.at < |c| && (c[r.at] == 0 || (c[r.at] >= 192 && uncompress))
    decreases |c| - pos
  {
    var len := c[pos];
    if len == 0 then Stops(pos)
    else if len >= 192 then if uncompress then Stops(pos) else BadScan(CompressedNotAllowed)
    else if len >= 64 then BadScan(InvalidLabelType)
    else if total + len > MAX_NAME - 1 then BadScan(NameTooLong)
    else if pos + 1 + len >= |c| then BadScan(LabelPastEnd)
    else Scan(c, pos + 1 + len, total + 1 + len, uncompress)
  }

  /** How a fragment is added to the storage: over the final zero octet, with a new one after it. */
  function Extend(storage: Bytes, fragment: Bytes): Bytes {
    if fragment == [] then storage
    else (if storage == [] then [] else storage[..|storage| - 1]) + fragment + [0]
  }

  function OrRoot(storage: Bytes): Bytes {
    if storage == [] then [0] else storage
  }

  /** One fragment: where it stops, and the target of the pointer that ends it, if one does. */
  datatype Fragment = Ends(stop: nat) | Jumps(stop: nat, target: nat) | BadFragment(error: ParseError)

  /** After a scan: the end, or the pointer it stopped at. */
  function AfterScan(c: Bytes, offset: nat, depth: nat, minOffset: nat, stop: nat): (f: Fragment)
    requires stop < |c| && (c[stop] == 0 || c[stop] >= 192)
    ensures f.Ends? ==> f.stop == stop
    ensures f.Jumps? ==> f.stop == stop && stop + 1 < |c| && f.target < offset
  {
    if c[stop] != 0 && stop + 1 < |c| then
      // a scan only stops at a zero octet or at a pointer it may follow, so the source's abort() and
      // its second check of `uncompress` are never reached
      var target := PointerTarget(c[stop], c[stop + 1]);
      if target >= offset then BadFragment(ForwardReference)
      else if target < minOffset then BadFragment(BeforeBeginning)
      else if depth + 1 > MAX_REDIRECTS then BadFragment(TooManyRedirects)
      else Jumps(stop, target)
    else
      Ends(stop)
  }

  function ReadFragment(c: Bytes, offset: nat, uncompress: bool, depth: nat, minOffset: nat): (f: Fragment)
    ensures f.Ends? ==> offset <= f.stop < |c|
    ensures f.Jumps? ==> offset <= f.stop && f.stop + 1 < |c| && f.target < offset
  {
    if offset >= |c| then BadFragment(PastEnd)
    else if offset < minOffset then BadFragment(BeforeBeginning)
    else
      match Scan(c, offset, 0, uncompress)
      case BadScan(e) => BadFragment(e)
      case Stops(stop) => AfterScan(c, offset, depth, minOffset, stop)
  }

  /** The storage after a parse, and the position after the name in the packet. */
  datatype Outcome = Parsed(storage: Bytes, next: nat) | Unparsable(error: ParseError)

  /** packetParser. */
  function Parse(c: Bytes, offset: nat, uncompress: bool, depth: nat, minOffset: nat, storage: Bytes): (r: Outcome)
    ensures r.Parsed? ==> offset < r.next <= |c|
    decreases offset
  {
    match ReadFragment(c, offset, uncompress, depth, minOffset)
    case BadFragment(e) => Unparsable(e)
    case Ends(stop) => Parsed(OrRoot(Extend(storage, c[offset..stop])), stop + 1)
    case Jumps(stop, target) =>
      match Parse(c, target, true, depth + 1, minOffset, Extend(storage, c[offset..stop]))
      case Unparsable(e) => Unparsable(e)
      case Parsed(now, _) => Parsed(OrRoot(now), stop + 2)
  }

  /** How many octets a run consumed in the packet, unless it failed. */
  datatype Consumed = Consumed(octets: nat) | Refused(error: ParseError)

  /** A run that consumed some octets, or failed, is what `p` says. */
  ghost predicate Agrees(p: Outcome, r: Consumed, offset: nat, storage: Bytes) {
    match p
    case Parsed(now, next) => r.Consumed? && r.octets == next - offset && storage == now
    case Unparsable(e) => r == Refused(e)
  }

  // ---------------------------------------------------------------- the parser as it runs

  class NameBuilder {
    var storage: Bytes

    constructor ()
      ensures storage == []
    {
      storage := [];
    }

    method ParsePacketUncompressed(view: Bytes, start: nat, uncompress: bool) returns (r: Scanned)
      requires start < |view|
      modifies this
      ensures r == Scan(view, start, 0, uncompress)
      ensures storage == if r.Stops? then Extend(old(storage), view[start..r.at]) else old(storage)
    {
      var pos, total := start, 0;
      while true
        invariant start <= pos < |view| && total == pos - start
        invariant Scan(view, start, 0, uncompress) == Scan(view, pos, total, uncompress)
        invariant storage == old(storage)
        decreases |view| - pos
      {
        var len := view[pos];
        if len == 0 { break; }
        if len >= 192 {
          if !uncompress { return BadScan(CompressedNotAllowed); }
          break;
        }
        if len >= 64 { return BadScan(InvalidLabelType); }
        if total + len > MAX_NAME - 1 { return BadScan(NameTooLong); }
        if pos + 1 + len >= |view| { return BadScan(LabelPastEnd); }
        pos, total := pos + 1 + len, total + 1 + len;
      }
      if total != 0 {
        var existing := |storage|;
        if existing > 0 { existing := existing - 1; }
        storage := storage[..existing] + view[start..pos] + [0];
      }
      r := Stops(pos);
    }

    /** The part of packetParser before the recursive call. */
    method ReadHere(packet: Bytes, offset: nat, uncompress: bool, depth: nat, minOffset: nat) returns (f: Fragment)
      modifies this
      ensures f == ReadFragment(packet, offset, uncompress, depth, minOffset)
      ensures !f.BadFragment? ==> storage == Extend(old(storage), packet[offset..f.stop])
    {
      if offset >= |packet| { return BadFragment(PastEnd); }
      if offset < minOffset { return BadFragment(BeforeBeginning); }
      var r := ParsePacketUncompressed(packet, offset, uncompress);
      if r.BadScan? { return BadFragment(r.error); }
      var pos := r.at;
      assert ReadFragment(packet, offset, uncompress, depth, minOffset) == AfterScan(packet, offset, depth, minOffset, pos);
      var len := packet[pos];
      pos := pos + 1;
      if len == 0 || pos >= |packet| { return Ends(r.at); }
      assert len >= 192 && uncompress;  // neither abort() nor a second refusal to follow the pointer
      var newpos := PointerTarget(len, packet[pos]);
      if newpos >= offset { return BadFragment(ForwardReference); }
      if newpos < minOffset { return BadFragment(BeforeBeginning); }
      if depth + 1 > MAX_REDIRECTS { return BadFragment(TooManyRedirects); }
      f := Jumps(r.at, newpos);
    }

    method PacketParser(packet: Bytes, offset: nat, uncompress: bool, depth: nat, minOffset: nat) returns (r: Consumed)
      modifies this
      ensures Agrees(Parse(packet, offset, uncompress, depth, minOffset, old(storage)), r, offset, storage) == true
      decreases offset
    {
      var f := ReadHere(packet, offset, uncompress, depth, minOffset);
      if f.BadFragment? { return Refused(f.error); }
      var pos := f.stop + 1;
      if f.Jumps? {
        var inner := PacketParser(packet, f.target, true, depth + 1, minOffset);
        if inner.Refused? { return Refused(inner.error); }
        pos := pos + 1;
      }
      if storage == [] { storage := [0]; }
      r := Consumed(pos - offset);
    }

    /** packetParser when its caller asks for the type and the class after the name; the fragments that
        pointers lead to are read without them. */
    method ParseTyped(packet: Bytes, offset: nat, uncompress: bool, minOffset: nat, wantType: bool, wantClass: bool)
      returns (r: Consumed, tail: Tail)
      modifies this
      ensures Agrees(Parse(packet, offset, uncompress, 0, minOffset, old(storage)), r, offset, storage) == true
      ensures r.Consumed? ==> TailAt(packet, offset + r.octets, wantType, wantClass, tail)
    {
      tail := Tail(0, 0);
      r := PacketParser(packet, offset, uncompress, 0, minOffset);
      if r.Consumed? { tail := ReadTail(packet, offset + r.octets, wantType, wantClass); }
    }
  }

  /** The type and the class after a name, zero where not asked for; or why they cannot be read. */
  datatype Tail = Tail(qtype: nat, qclass: nat) | TypePastEnd | ClassPastEnd

  ghost predicate TailAt(c: Bytes, pos: nat, wantType: bool, wantClass: bool, tail: Tail) {
    match tail
    case TypePastEnd => wantType && pos + 2 > |c|
    case ClassPastEnd => wantClass && pos + 4 > |c| && (wantType ==> pos + 2 <= |c|)
    case Tail(qtype, qclass) =>
      && (wantType ==> pos + 2 <= |c| && qtype / 256 == c[pos] && qtype % 256 == c[pos + 1])
      && (wantClass ==> pos + 4 <= |c| && qclass / 256 == c[pos + 2] && qclass % 256 == c[pos + 3])
  }

  method ReadTail(c: Bytes, start: nat, wantType: bool, wantClass: bool) returns (tail: Tail)
    ensures TailAt(c, start, wantType, wantClass, tail)
  {
    var pos := start;
    var qtype, qclass := 0, 0;
    if wantType {
      if pos + 2 > |c| { return TypePastEnd; }
      qtype := 256 * c[pos] as int + c[pos + 1];
    }
    pos := pos + 2;
    if wantClass {
      if pos + 2 > |c| { return ClassPastEnd; }
      qclass := 256 * c[pos] as int + c[pos + 1];
    }
    tail := Tail(qtype, qclass);
  }

  // ---------------------------------------------------------------- what a parse leaves behind

  /** The labels of a scanned fragment. */
  ghost function FragmentLabels(c: Bytes, pos: nat, stop: nat): Labels
    requires pos <= stop <= |c|
    decreases stop - pos
  {
    if pos == stop || pos + 1 + c[pos] > stop then []
    else [c[pos + 1..pos + 1 + c[pos]]] + FragmentLabels(c, pos + 1 + c[pos], stop)
  }

  lemma {:induction false} ScanLabels(c: Bytes, pos: nat, total: nat, uncompress: bool)
    requires pos < |c| && Scan(c, pos, total, uncompress).Stops?
    ensures var stop := Scan(c, pos, total, uncompress).at;
            ValidLabels(FragmentLabels(c, pos, stop)) && Front(FragmentLabels(c, pos, stop)) == c[pos..stop]
    decreases |c| - pos
  {
    var stop := Scan(c, pos, total, uncompress).at;
    if c[pos] != 0 && c[pos] < 192 {
      var l := c[pos + 1..pos + 1 + c[pos]];
      ScanLabels(c, pos + 1 + c[pos], total + 1 + c[pos], uncompress);
      var ls := FragmentLabels(c, pos, stop);
      var rest := FragmentLabels(c, pos + 1 + c[pos], stop);
      assert ValidLabel(l);
      assert ls == [l] + rest && ls[1..] == rest;
      FrontStep(ls);
      assert c[pos..stop] == LabelWire(l) + c[pos + 1 + c[pos]..stop];
    } else {
      assert FragmentLabels(c, pos, stop) == [];
    }
  }

  lemma {:induction false} FrontZero(labels: Labels)
    requires ValidLabels(labels)
    ensures Wire(labels) == Front(labels) + [0]
    ensures labels != [] ==> Front(labels) != []
  {
    WireLast(labels);
    WireLength(labels, 0);
  }

  lemma ExtendLabels(storage: Bytes, ls: Labels, more: Labels)
    requires Holds(storage, ls) && ValidLabels(more)
    ensures Holds(Extend(storage, Front(more)), ls + more)
  {
    FrontZero(more);
    if more == [] {
      assert Front(more) == [] && ls + more == ls;
    } else {
      WireAppend(ls, more);
      if storage == [] {
        assert ls + more == more;
        assert Extend(storage, Front(more)) == Front(more) + [0];
      } else {
        assert Extend(storage, Front(more)) == storage[..|storage| - 1] + Wire(more);
      }
    }
  }

  lemma {:induction false} FragmentExtends(c: Bytes, offset: nat, uncompress: bool, storage: Bytes, ls: Labels)
    requires offset < |c| && Scan(c, offset, 0, uncompress).Stops? && Holds(storage, ls)
    ensures var stop := Scan(c, offset, 0, uncompress).at;
            Holds(Extend(storage, c[offset..stop]), ls + FragmentLabels(c, offset, stop))
  {
    ScanLabels(c, offset, 0, uncompress);
    ExtendLabels(storage, ls, FragmentLabels(c, offset, Scan(c, offset, 0, uncompress).at));
  }

  ghost predicate Stores(storage: Bytes, ls: Labels) {
    ValidLabels(ls) && storage == Wire(ls)
  }

  lemma RootKept(storage: Bytes, ls: Labels)
    requires Holds(storage, ls)
    ensures Stores(OrRoot(storage), ls)
  {
    WireLength(ls, 0);
  }

  /** The labels of the name after a parse that started with the labels ls. */
  ghost function Gathered(c: Bytes, offset: nat, uncompress: bool, depth: nat, minOffset: nat, ls: Labels): Labels
    decreases offset
  {
    var f := ReadFragment(c, offset, uncompress, depth, minOffset);
    if f.BadFragment? then ls
    else
      var more := ls + FragmentLabels(c, offset, f.stop);
      if f.Jumps? then Gathered(c, f.target, true, depth + 1, minOffset, more) else more
  }

  /** A parse that succeeds leaves the labels gathered. */
  ghost predicate LeavesGathered(c: Bytes, offset: nat, uncompress: bool, depth: nat, minOffset: nat, storage: Bytes, ls: Labels) {
    var r := Parse(c, offset, uncompress, depth, minOffset, storage);
    r.Parsed? ==> Stores(r.storage, Gathered(c, offset, uncompress, depth, minOffset, ls))
  }

  lemma LastFragment(c: Bytes, offset: nat, uncompress: bool, depth: nat, minOffset: nat, storage: Bytes, ls: Labels)
    requires Holds(storage, ls) && ReadFragment(c, offset, uncompress, depth, minOffset).Ends?
    ensures LeavesGathered(c, offset, uncompress, depth, minOffset, storage, ls) == true
  {
    var f := ReadFragment(c, offset, uncompress, depth, minOffset);
    FragmentExtends(c, offset, uncompress, storage, ls);
    RootKept(Extend(storage, c[offset..f.stop]), ls + FragmentLabels(c, offset, f.stop));
  }

  lemma {:induction false} JumpHolds(c: Bytes, offset: nat, uncompress: bool, depth: nat, minOffset: nat, storage: Bytes, ls: Labels, f: Fragment)
    requires Holds(storage, ls) && f == ReadFragment(c, offset, uncompress, depth, minOffset) && f.Jumps?
    ensures Holds(Extend(storage, c[offset..f.stop]), ls + FragmentLabels(c, offset, f.stop)) == true
  {
    FragmentExtends(c, offset, uncompress, storage, ls);
  }

  /** What the rest of a parse leaves is what the whole parse leaves. */
  lemma {:induction false} MoreFragments(c: Bytes, offset: nat, uncompress: bool, depth: nat, minOffset: nat, storage: Bytes, ls: Labels, f: Fragment)
    requires f == ReadFragment(c, offset, uncompress, depth, minOffset) && f.Jumps?
    requires LeavesGathered(c, f.target, true, depth + 1, minOffset, Extend(storage, c[offset..f.stop]),
                            ls + FragmentLabels(c, offset, f.stop))
    ensures LeavesGathered(c, offset, uncompress, depth, minOffset, storage, ls) == true
  {
    var rest := Parse(c, f.target, true, depth + 1, minOffset, Extend(storage, c[offset..f.stop]));
    var g := Gathered(c, f.target, true, depth + 1, minOffset, ls + FragmentLabels(c, offset, f.stop));
    if rest.Parsed? { RootKept(rest.storage, g); }
  }

  /** Every successful parse leaves labels of 1 to 63 octets followed by one zero octet, across all
      fragments and redirects, whatever the packet holds. */
  lemma {:induction false} ParseWellFormed(c: Bytes, offset: nat, uncompress: bool, depth: nat, minOffset: nat, storage: Bytes, ls: Labels)
    requires Holds(storage, ls)
    ensures LeavesGathered(c, offset, uncompress, depth, minOffset, storage, ls) == true
    decreases offset
  {
    var f := ReadFragment(c, offset, uncompress, depth, minOffset);
    match f
    case Jumps(stop, target) =>
      var more, labels := Extend(storage, c[offset..stop]), ls + FragmentLabels(c, offset, stop);
      JumpHolds(c, offset, uncompress, depth, minOffset, storage, ls, f);
      ParseWellFormed(c, target, true, depth + 1, minOffset, more, labels);
      MoreFragments(c, offset, uncompress, depth, minOffset, storage, ls, f);
    case Ends(_) => LastFragment(c, offset, uncompress, depth, minOffset, storage, ls);
    case BadFragment(_) => Unparsed(c, offset, uncompress, depth, minOffset, storage, ls);
  }

  lemma Unparsed(c: Bytes, offset: nat, uncompress: bool, depth: nat, minOffset: nat, storage: Bytes, ls: Labels)
    requires ReadFragment(c, offset, uncompress, depth, minOffset).BadFragment?
    ensures LeavesGathered(c, offset, uncompress, depth, minOffset, storage, ls) == true
  {}

  // ---------------------------------------------------------------- reading what can be read

  /** Scanning a name that can be read finds its first labels and stops where the rest can be read. */
  lemma {:induction false} ScanReads(c: Bytes, s: set<nat>, p: nat, labels: Labels, frag: nat, hops: nat, total: nat, uncompress: bool)
    requires NameAt(c, s, p, labels, frag, hops) && (uncompress || hops == 0)
    requires ValidLabels(labels) && total + |Wire(labels)| <= MAX_NAME
    ensures Scan(c, p, total, uncompress).Stops?
    ensures var stop := Scan(c, p, total, uncompress).at;
            var n := |FragmentLabels(c, p, stop)|;
            && n <= |labels| && FragmentLabels(c, p, stop) == labels[..n]
            && NameAt(c, s, stop, labels[n..], frag, hops)
            && NameEnd(c, p) == NameEnd(c, stop)
    decreases hops, |labels|
  {
    if 1 <= c[p] <= 63 {
      ScanReads(c, s, p + 1 + c[p], labels[1..], frag, hops, total + 1 + c[p], uncompress);
      var stop := Scan(c, p, total, uncompress).at;
      var rest := FragmentLabels(c, p + 1 + c[p], stop);
      assert labels[..1 + |rest|] == [labels[0]] + labels[1..][..|rest|];
      assert labels[1 + |rest|..] == labels[1..][|rest|..];
    }
  }

  /** One fragment of such a name. */
  lemma FragmentReads(c: Bytes, s: set<nat>, p: nat, labels: Labels, hops: nat, uncompress: bool, depth: nat, minOffset: nat)
    returns (f: Fragment, front: Labels, back: Labels)
    requires NameAt(c, s, p, labels, p, hops) && (uncompress || hops == 0)
    requires ValidLabels(labels) && |Wire(labels)| <= MAX_NAME
    requires depth + hops <= MAX_REDIRECTS && (forall x | x in s :: x >= minOffset)
    ensures ReadFragment(c, p, uncompress, depth, minOffset) == f && !f.BadFragment?
    ensures labels == front + back && front == FragmentLabels(c, p, f.stop)
    ensures f.Ends? ==> labels == front && NameEnd(c, p) == f.stop + 1
    ensures f.Jumps? ==>
      && hops > 0 && NameAt(c, s, f.target, back, f.target, hops - 1) == true
      && ValidLabels(back) && |Wire(back)| <= MAX_NAME && NameEnd(c, p) == f.stop + 2
  {
    ScanReads(c, s, p, labels, p, hops, 0, uncompress);
    var stop := Scan(c, p, 0, uncompress).at;
    front := FragmentLabels(c, p, stop);
    back := labels[|front|..];
    if c[stop] == 0 {
      f := Ends(stop);
    } else {
      var t := PointerTarget(c[stop], c[stop + 1]);
      f := Jumps(stop, t);
      assert t in s && t >= minOffset;
      WireLength(labels, |front|);
    }
  }

  /** The parser ends where the name ends in the packet. */
  ghost predicate Reads(c: Bytes, p: nat, uncompress: bool, depth: nat, minOffset: nat, storage: Bytes) {
    var r := Parse(c, p, uncompress, depth, minOffset, storage);
    r.Parsed? && r.next == NameEnd(c, p)
  }

  /** The same whatever was read before. */
  ghost predicate ReadsAlways(c: Bytes, p: nat, uncompress: bool, depth: nat, minOffset: nat) {
    forall storage {:trigger Reads(c, p, uncompress, depth, minOffset, storage)} :: Reads(c, p, uncompress, depth, minOffset, storage)
  }

  lemma ReadsEnd(c: Bytes, p: nat, uncompress: bool, depth: nat, minOffset: nat, f: Fragment)
    requires ReadFragment(c, p, uncompress, depth, minOffset) == f && f.Ends? && NameEnd(c, p) == f.stop + 1
    ensures ReadsAlways(c, p, uncompress, depth, minOffset) == true
  {}

  lemma ReadsOn(c: Bytes, p: nat, uncompress: bool, depth: nat, minOffset: nat, f: Fragment)
    requires ReadFragment(c, p, uncompress, depth, minOffset) == f && f.Jumps? && NameEnd(c, p) == f.stop + 2
    requires ReadsAlways(c, f.target, true, depth + 1, minOffset)
    ensures ReadsAlways(c, p, uncompress, depth, minOffset) == true
  {
    forall storage ensures Reads(c, p, uncompress, depth, minOffset, storage) {
      assert Reads(c, f.target, true, depth + 1, minOffset, Extend(storage, c[p..f.stop]));
    }
  }

  /** A fragment of a name that can be read, and where the rest of the name is read from. */
  lemma FragmentGoes(c: Bytes, s: set<nat>, p: nat, labels: Labels, hops: nat, uncompress: bool, depth: nat, minOffset: nat)
    returns (f: Fragment, back: Labels)
    requires NameAt(c, s, p, labels, p, hops) && (uncompress || hops == 0)
    requires ValidLabels(labels) && |Wire(labels)| <= MAX_NAME
    requires depth + hops <= MAX_REDIRECTS && (forall x | x in s :: x >= minOffset)
    ensures ReadFragment(c, p, uncompress, depth, minOffset) == f && !f.BadFragment?
    ensures f.Ends? ==> NameEnd(c, p) == f.stop + 1
    ensures f.Jumps? ==>
      && hops > 0 && NameAt(c, s, f.target, back, f.target, hops - 1) == true
      && ValidLabels(back) && |Wire(back)| <= MAX_NAME && NameEnd(c, p) == f.stop + 2
  {
    var front;
    f, front, back := FragmentReads(c, s, p, labels, hops, uncompress, depth, minOffset);
  }

  /** What the octets say, the parser finds: it ends where the name ends... */
  lemma {:induction false} ParseReads(c: Bytes, s: set<nat>, p: nat, labels: Labels, hops: nat, uncompress: bool, depth: nat, minOffset: nat)
    requires NameAt(c, s, p, labels, p, hops) && (uncompress || hops == 0)
    requires ValidLabels(labels) && |Wire(labels)| <= MAX_NAME
    requires depth + hops <= MAX_REDIRECTS && (forall x | x in s :: x >= minOffset)
    ensures ReadsAlways(c, p, uncompress, depth, minOffset) == true
    decreases p
  {
    var f, back := FragmentGoes(c, s, p, labels, hops, uncompress, depth, minOffset);
    if f.Jumps? {
      ParseReads(c, s, f.target, back, hops - 1, true, depth + 1, minOffset);
      ReadsOn(c, p, uncompress, depth, minOffset, f);
    } else {
      ReadsEnd(c, p, uncompress, depth, minOffset, f);
    }
  }

  ghost predicate Gathers(c: Bytes, p: nat, labels: Labels, uncompress: bool, depth: nat, minOffset: nat, ls: Labels) {
    Gathered(c, p, uncompress, depth, minOffset, ls) == ls + labels
  }

  lemma GathersEnd(c: Bytes, p: nat, labels: Labels, uncompress: bool, depth: nat, minOffset: nat, ls: Labels, f: Fragment)
    requires ReadFragment(c, p, uncompress, depth, minOffset) == f && f.Ends? && labels == FragmentLabels(c, p, f.stop)
    ensures Gathers(c, p, labels, uncompress, depth, minOffset, ls) == true
  {}

  lemma GathersOn(c: Bytes, p: nat, labels: Labels, front: Labels, back: Labels, uncompress: bool, depth: nat, minOffset: nat,
                  ls: Labels, f: Fragment)
    requires ReadFragment(c, p, uncompress, depth, minOffset) == f && f.Jumps?
    requires front == FragmentLabels(c, p, f.stop) && labels == front + back
    requires Gathers(c, f.target, back, true, depth + 1, minOffset, ls + front)
    ensures Gathers(c, p, labels, uncompress, depth, minOffset, ls) == true
  {
    Joins(ls, front, back);
  }

  lemma Joins(a: Labels, b: Labels, c: Labels)
    ensures a + b + c == a + (b + c)
  {}

  /** ...and gathers its labels. */
  lemma {:induction false} GatherReads(c: Bytes, s: set<nat>, p: nat, labels: Labels, hops: nat, uncompress: bool, depth: nat, minOffset: nat,
                                       ls: Labels)
    requires NameAt(c, s, p, labels, p, hops) && (uncompress || hops == 0)
    requires ValidLabels(labels) && |Wire(labels)| <= MAX_NAME
    requires depth + hops <= MAX_REDIRECTS && (forall x | x in s :: x >= minOffset)
    ensures Gathers(c, p, labels, uncompress, depth, minOffset, ls) == true
    decreases p
  {
    var f, front, back := FragmentReads(c, s, p, labels, hops, uncompress, depth, minOffset);
    if f.Jumps? {
      GatherReads(c, s, f.target, back, hops - 1, true, depth + 1, minOffset, ls + front);
      GathersOn(c, p, labels, front, back, uncompress, depth, minOffset, ls, f);
    } else {
      GathersEnd(c, p, labels, uncompress, depth, minOffset, ls, f);
    }
  }

  /** The labels are added to the storage, in the spelling they have in the packet.  A name
      without pointers is read whether they may be followed or not. */
  lemma {:induction false} ParseDecodes(c: Bytes, s: set<nat>, p: nat, labels: Labels, hops: nat, uncompress: bool,
                                        depth: nat, minOffset: nat, storage: Bytes, ls: Labels)
    requires NameAt(c, s, p, labels, p, hops) && (uncompress || hops == 0)
    requires ValidLabels(labels) && |Wire(labels)| <= MAX_NAME
    requires depth + hops <= MAX_REDIRECTS && (forall x | x in s :: x >= minOffset)
    requires Holds(storage, ls)
    ensures ValidLabels(ls + labels)
    ensures Parse(c, p, uncompress, depth, minOffset, storage) == Parsed(Wire(ls + labels), NameEnd(c, p))
  {
    ParseReads(c, s, p, labels, hops, uncompress, depth, minOffset);
    assert Reads(c, p, uncompress, depth, minOffset, storage);
    GatherReads(c, s, p, labels, hops, uncompress, depth, minOffset, ls);
    ParseWellFormed(c, p, uncompress, depth, minOffset, storage, ls);
  }

  /** Labels up to a pointer. */
  lemma {:induction false} ScanRefuses(c: Bytes, s: set<nat>, p: nat, front: Labels, q: nat, total: nat)
    requires ValidLabels(front) && LabelsAt(c, s, p, front, q) && q < |c| && c[q] >= 192 && total + |Front(front)| < MAX_NAME
    ensures p < |c| && Scan(c, p, total, false) == BadScan(CompressedNotAllowed)
    decreases |front|
  {
    if front != [] {
      FrontStep(front);
      ScanRefuses(c, s, p + 1 + |front[0]|, front[1..], q, total + 1 + |front[0]|);
    }
  }

  /** Where pointers may not be followed, a name whose first fragment ends in one is refused. */
  lemma PointerRefused(c: Bytes, s: set<nat>, p: nat, front: Labels, q: nat, depth: nat, minOffset: nat, storage: Bytes)
    requires ValidLabels(front) && LabelsAt(c, s, p, front, q) && q < |c| && c[q] >= 192 && |Front(front)| < MAX_NAME
    requires minOffset <= p
    ensures Parse(c, p, false, depth, minOffset, storage) == Unparsable(CompressedNotAllowed)
  {
    ScanRefuses(c, s, p, front, q, 0);
  }

  lemma QuestionParses(c: Bytes, s: set<nat>, p: nat, labels: Labels, minOffset: nat)
    requires NameAt(c, s, p, labels, p, 0) && ValidLabels(labels) && |Wire(labels)| <= MAX_NAME
    requires forall x | x in s :: x >= minOffset
    ensures Parse(c, p, false, 0, minOffset, []) == Parsed(Wire(labels), NameEnd(c, p))
  {
    ParseDecodes(c, s, p, labels, 0, false, 0, minOffset, [], []);
    assert [] + labels == labels;
  }

  /** A question as the recursor reads it: pointers are not followed, and type and class are asked for. */
  method ReadQuestion(packet: Bytes, offset: nat, minOffset: nat, ghost s: set<nat>, ghost labels: Labels)
    returns (name: Bytes, octets: nat, qtype: nat, qclass: nat)
    requires NameAt(packet, s, offset, labels, offset, 0) && ValidLabels(labels) && |Wire(labels)| <= MAX_NAME
    requires (forall x | x in s :: x >= minOffset) && NameEnd(packet, offset) + 4 <= |packet|
    ensures name == Wire(labels) && offset + octets == NameEnd(packet, offset) + 4
    ensures var end := NameEnd(packet, offset);
            && qtype / 256 == packet[end] && qtype % 256 == packet[end + 1]
            && qclass / 256 == packet[end + 2] && qclass % 256 == packet[end + 3]
  {
    var builder := new NameBuilder();
    QuestionParses(packet, s, offset, labels, minOffset);
    var r, tail := builder.ParseTyped(packet, offset, false, minOffset, true, true);
    name, octets, qtype, qclass := builder.storage, r.octets + 4, tail.qtype, tail.qclass;
  }
}
