/** Text of names whose last label has no dot after it, and which text is refused. */
module NameTextLimits {
  import opened Wrappers
  import opened DnsName
  import opened NameText
  import opened NameTextRoundTrip

  /** The text form without its final dot. */
  ghost function Undotted(ls: Labels): Bytes
    requires ls != []
  {
    if |ls| == 1 then Escape(ls[0]) else Escape(ls[0]) + [DOT] + Undotted(ls[1..])
  }

  lemma {:induction false} UndottedIs(ls: Labels)
    requires ls != []
    ensures TextOf(ls) == Undotted(ls) + [DOT]
  {
    if |ls| == 1 {
      assert TextOf(ls[1..]) == [];
    } else {
      UndottedIs(ls[1..]);
      DotLast(Escape(ls[0]) + [DOT], Undotted(ls[1..]));
    }
  }

  lemma DotLast(a: Bytes, b: Bytes)
    ensures a + (b + [DOT]) == a + b + [DOT]
  {}

  lemma DropDot(text: Bytes)
    ensures (text + [DOT])[..|text + [DOT]| - 1] == text
    ensures BACKSLASH in text + [DOT] <==> BACKSLASH in text
  {}

  // ---------------------------------------------------------------- the last label, through the machine

  /** At the end of the text the label that is open ends as if a dot followed. */
  lemma {:induction false} LastLabel(m: Machine, ret: Bytes, l: Label)
    requires AtLabel(m, ret) && ValidLabel(l)
    ensures var x := AtEnd(Run(m, Escape(l))); x.cs >= 5 && x.ret == ret + LabelWire(l)
  {
    LabelOctets(m, ret, l);
    assert (ret + [0] + l)[|ret| := |l|] == ret + LabelWire(l);
  }

  lemma RootLast(ret: Bytes, l: Label)
    requires ValidLabel(l)
    ensures ret + LabelWire(l) + [0] == ret + Wire([l])
  {
    assert Wire([l][1..]) == [0];
  }

  lemma {:induction false} OpenRun(m: Machine, ret: Bytes, ls: Labels)
    requires AtLabel(m, ret) && ValidLabels(ls) && ls != []
    ensures var x := AtEnd(Run(m, Undotted(ls))); x.cs >= 5 && x.ret + [0] == ret + Wire(ls)
    decreases |ls|
  {
    assert ValidLabel(ls[0]);
    if |ls| == 1 {
      LastLabel(m, ret, ls[0]);
      RootLast(ret, ls[0]);
      assert ls == [ls[0]];
    } else {
      LabelRun(m, ret, ls[0]);
      RunAppend(m, Escape(ls[0]) + [DOT], Undotted(ls[1..]));
      OpenRun(Run(m, Escape(ls[0]) + [DOT]), ret + LabelWire(ls[0]), ls[1..]);
      WireFirst(ret, ls);
    }
  }

  lemma {:induction false} SegmentUndotted(ls: Labels)
    requires ValidLabels(ls) && ls != []
    ensures Segment(Undotted(ls)) == Success(Wire(ls))
  {
    FirstCharacter(ls);
    UndottedIs(ls);
    OpenRun(START, [], ls);
    assert [] + Wire(ls) == Wire(ls);
  }

  // ---------------------------------------------------------------- which text is refused

  /** A label without characters before the dot at k. */
  predicate EmptyAt(text: Bytes, k: nat)
    requires k < |text|
  {
    text[k] == DOT && (k == 0 || text[k - 1] == DOT)
  }

  /** 64 characters without a dot. */
  ghost predicate LongAt(text: Bytes, k: nat) {
    k + 64 <= |text| && forall x | k <= x < k + 64 :: text[x] != DOT
  }

  ghost predicate BadAt(text: Bytes, k: nat)
    requires k < |text|
  {
    EmptyAt(text, k) || LongAt(text, k)
  }

  ghost predicate BadFrom(text: Bytes, p: nat) {
    |text| > MAX_TEXT || exists k {:trigger BadAt(text, k)} | p <= k < |text| :: BadAt(text, k)
  }

  /** From the start of a label to the start of the next nothing is wrong but what is wrong with the label. */
  lemma BadNext(text: Bytes, p: nat, q: nat, next: nat)
    requires p < q <= |text| && q <= p + 63 && (forall x | p <= x < q :: text[x] != DOT) && (q < |text| ==> text[q] == DOT)
    requires next == if q < |text| then q + 1 else q
    ensures BadFrom(text, p) <==> BadFrom(text, next)
  {
    forall k | p <= k < next ensures !BadAt(text, k) {
      assert q < |text| ==> text[q] == DOT;
    }
  }

  /** The text from the start of a label on is refused for its length, for a label without characters
      or for one of more than 63; the width of the count makes no difference. */
  lemma {:induction false} SplitFailsIff(text: Bytes, p: nat, storage: Bytes)
    requires p <= |text| && p <= MAX_TEXT && (p == 0 || p == |text| || text[p - 1] == DOT)
    ensures Split(text, p, storage).Failure? <==> BadFrom(text, p)
    decreases |text| - p
  {
    if p < |text| {
      var q := NextDot(text, p);
      if text[p] == DOT {
        assert BadAt(text, p);
      } else if q - p > 63 {
        assert BadAt(text, p);
      } else {
        var next := if q < |text| then q + 1 else q;
        var len: Byte := (q - p) % 256;
        BadNext(text, p, q, next);
        if next <= MAX_TEXT { SplitFailsIff(text, next, storage + [len] + text[p..q]); }
      }
    }
  }

  /** Text without a backslash is refused exactly when it has more than 254 characters, a dot at the
      start or after a dot, or 64 characters in a row none of which is a dot. */
  lemma ReadFailsIff(text: Bytes)
    requires BACKSLASH !in text && text != [DOT]
    ensures Read(text).Failure? <==> BadFrom(text, 0)
  {
    if text != [] { SplitFailsIff(text, 0, []); }
  }

  // ---------------------------------------------------------------- what is read from text without a backslash

  /** The labels as they are, each with a dot after it. */
  ghost function Dotted(ls: Labels): Bytes {
    if ls == [] then [] else ls[0] + [DOT] + Dotted(ls[1..])
  }

  ghost predicate NoDots(ls: Labels) {
    forall l {:trigger l in ls} | l in ls :: DOT !in l
  }

  /** The labels the text consists of, with or without a dot at the end. */
  ghost predicate Spells(text: Bytes, p: nat, ls: Labels)
    requires p <= |text|
  {
    NoDots(ls) && (text[p..] == Dotted(ls) || text[p..] + [DOT] == Dotted(ls))
  }

  lemma SpellsFirst(text: Bytes, p: nat, q: nat, next: nat, ls: Labels)
    requires p <= q <= |text| && (forall x | p <= x < q :: text[x] != DOT) && (q < |text| ==> text[q] == DOT)
    requires next == (if q < |text| then q + 1 else q) && Spells(text, next, ls) && (q == |text| ==> ls == [])
    ensures Spells(text, p, [text[p..q]] + ls) == true
  {
    var all := [text[p..q]] + ls;
    assert all[1..] == ls;
    if q < |text| {
      assert text[p..] == text[p..q] + [DOT] + text[next..];
      DotLast(text[p..q] + [DOT], text[next..]);
    } else {
      assert text[p..] + [DOT] == text[p..q] + [DOT] + Dotted(ls);
    }
  }

  lemma FirstGiven(storage: Bytes, l: Label, rest: Labels, n: Byte)
    requires ValidLabel(l) && ValidLabels(rest) && n == |l|
    ensures ValidLabels([l] + rest) && storage + [n] + l + Wire(rest) == storage + Wire([l] + rest)
  {
    assert storage + [n] + l == storage + LabelWire(l);
    assert ([l] + rest)[1..] == rest;
    WireFirst(storage, [l] + rest);
  }

  lemma {:induction false} SplitGives(text: Bytes, p: nat, storage: Bytes) returns (ls: Labels)
    requires p <= |text| && p <= MAX_TEXT && Split(text, p, storage).Success?
    ensures ValidLabels(ls) && Split(text, p, storage) == Success(storage + Wire(ls))
    ensures Spells(text, p, ls) == true && (p == |text| ==> ls == [])
    decreases |text| - p
  {
    if p == |text| {
      ls := [];
    } else {
      var q, len, next := SplitSuccess(text, p, storage);
      var l := text[p..q];
      var rest := SplitGives(text, next, storage + [len] + l);
      ls := [l] + rest;
      SpellsFirst(text, p, q, next, rest);
      FirstGiven(storage, l, rest, len);
    }
  }

  /** A label that was read. */
  lemma SplitSuccess(text: Bytes, p: nat, storage: Bytes) returns (q: nat, len: Byte, next: nat)
    requires p < |text| && Split(text, p, storage).Success?
    ensures p < q <= |text| && len == q - p && ValidLabel(text[p..q])
    ensures (forall x | p <= x < q :: text[x] != DOT) && (q < |text| ==> text[q] == DOT)
    ensures next == (if q < |text| then q + 1 else q) && next <= MAX_TEXT
    ensures Split(text, p, storage) == Split(text, next, storage + [len] + text[p..q])
  {
    q := NextDot(text, p);
    next := if q < |text| then q + 1 else q;
    assert next <= MAX_TEXT;
    len := (q - p) % 256;
  }

  /** What is read from text without a backslash: the labels between its dots. */
  lemma ReadGives(text: Bytes) returns (ls: Labels)
    requires BACKSLASH !in text && text != [DOT] && Read(text).Success?
    ensures ValidLabels(ls) && Read(text) == Success(Wire(ls))
    ensures Spells(text, 0, ls)
  {
    if text == [] {
      ls := [];
    } else {
      ls := SplitGives(text, 0, []);
      assert [] + Wire(ls) == Wire(ls);
    }
  }

  // ---------------------------------------------------------------- printed names, exactly

  lemma {:induction false} DottedLength(ls: Labels)
    requires ValidLabels(ls)
    ensures |Dotted(ls)| + 1 == |Wire(ls)|
  {
    if ls != [] {
      assert ValidLabel(ls[0]);
      DottedLength(ls[1..]);
    }
  }

  ghost predicate AllPlainLabels(ls: Labels) {
    forall l {:trigger AllPlain(l)} | l in ls :: AllPlain(l)
  }

  lemma {:induction false} PlainLabel(l: Bytes)
    ensures AllPlain(l) <==> BACKSLASH !in Escape(l)
  {
    EscapePlain(l);
    if l != [] {
      PlainLabel(l[1..]);
      if AllPlain(l) {
        forall i | 0 <= i < |l[1..]| ensures IsPlain(l[1..][i]) { assert l[1..][i] == l[i + 1]; }
        assert IsPlain(l[0]);
      }
    }
  }

  /** Labels are printed as they are, with a dot after each, exactly when no octet of them has to be
      escaped. */
  lemma {:induction false} PlainPrinted(ls: Labels)
    ensures AllPlainLabels(ls) <==> BACKSLASH !in TextOf(ls)
    ensures AllPlainLabels(ls) ==> TextOf(ls) == Dotted(ls)
  {
    if ls != [] {
      PlainLabel(ls[0]);
      EscapePlain(ls[0]);
      PlainPrinted(ls[1..]);
      assert ls == [ls[0]] + ls[1..];
      assert BACKSLASH in TextOf(ls) <==> BACKSLASH in Escape(ls[0]) || BACKSLASH in TextOf(ls[1..]);
    }
  }

  lemma {:induction false} TextLength(ls: Labels)
    requires ValidLabels(ls) && ls != [] && BACKSLASH !in TextOf(ls)
    ensures |Undotted(ls)| + 2 == |Wire(ls)| && TextOf(ls) == Undotted(ls) + [DOT]
  {
    DottedLength(ls);
    PlainPrinted(ls);
    UndottedIs(ls);
  }

  lemma {:induction false} SameNextDot(text: Bytes, full: Bytes, p: nat)
    requires p <= |text| && full == text + [DOT]
    ensures NextDot(full, p) == NextDot(text, p)
    decreases |text| - p
  {
    if p < |text| && text[p] != DOT { SameNextDot(text, full, p + 1); }
  }

  lemma EmptyText(ls: Labels)
    requires ls != []
    ensures TextOf(ls) != []
  {}

  lemma SplitRoot(text: Bytes, storage: Bytes, l: Label)
    requires ValidLabel(l)
    ensures SplitsTo(text, |text|, storage + LabelWire(l), []) == true
  {}

  /** The label at p, whether or not a dot follows it. */
  lemma {:induction false} SplitOne(text: Bytes, p: nat, q: nat, next: nat, storage: Bytes, l: Label)
    requires ValidLabel(l) && p < q <= |text| && q == NextDot(text, p) && text[p] != DOT && text[p..q] == l
    requires next == (if q < |text| then q + 1 else q) && next <= MAX_TEXT
    ensures Split(text, p, storage) == Split(text, next, storage + LabelWire(l))
  {
    var n: Byte := |l|;
    assert storage + [n] + l == storage + LabelWire(l);
  }

  lemma SplitsFirst(text: Bytes, p: nat, next: nat, storage: Bytes, ls: Labels)
    requires ValidLabels(ls) && ls != [] && ValidLabel(ls[0]) && p <= |text| && next <= |text|
    requires Split(text, p, storage) == Split(text, next, storage + LabelWire(ls[0]))
    requires SplitsTo(text, next, storage + LabelWire(ls[0]), ls[1..])
    ensures SplitsTo(text, p, storage, ls) == true
  {
    WireFirst(storage, ls);
  }

  /** The first label stands at p; what follows its dot, or the end, is the text of the others. */
  lemma {:induction false} OpenStands(text: Bytes, full: Bytes, p: nat, ls: Labels, q: nat)
    requires ValidLabels(ls) && ls != [] && p <= |text| && full == text + [DOT] && q == p + |ls[0]|
    requires full[p..] == TextOf(ls) && BACKSLASH !in TextOf(ls)
    ensures ValidLabel(ls[0]) && p < q <= |text| && text[p] != DOT && NextDot(text, p) == q && text[p..q] == ls[0]
    ensures q == |text| <==> ls[1..] == []
    ensures full[q + 1..] == TextOf(ls[1..]) && BACKSLASH !in TextOf(ls[1..])
  {
    FirstStands(full, p, ls);
    SameNextDot(text, full, p);
    assert text[p..q] == full[p..q] && text[p] == ls[0][0] && IsPlain(ls[0][0]);
    assert q == |text| <==> |full[q + 1..]| == 0;
    if ls[1..] != [] { EmptyText(ls[1..]); }
  }

  lemma {:induction false} SplitFirst(text: Bytes, full: Bytes, p: nat, storage: Bytes, ls: Labels, q: nat, next: nat)
    requires ValidLabels(ls) && ls != [] && p <= |text| && full == text + [DOT] && |text| <= MAX_TEXT
    requires full[p..] == TextOf(ls) && BACKSLASH !in TextOf(ls)
    requires q == p + |ls[0]| && next == if q < |text| then q + 1 else q
    ensures ValidLabel(ls[0]) && q <= |text| && Split(text, p, storage) == Split(text, next, storage + LabelWire(ls[0]))
    ensures q == |text| <==> ls[1..] == []
    ensures full[q + 1..] == TextOf(ls[1..]) && BACKSLASH !in TextOf(ls[1..])
  {
    OpenStands(text, full, p, ls, q);
    SplitOne(text, p, q, next, storage, ls[0]);
  }

  /** From p on, the text is that of the labels without the last dot, and no label needs an escape. */
  lemma {:induction false} SplitUndotted(text: Bytes, full: Bytes, p: nat, storage: Bytes, ls: Labels)
    requires ValidLabels(ls) && ls != [] && p <= |text| && full == text + [DOT] && |text| <= MAX_TEXT
    requires full[p..] == TextOf(ls) && BACKSLASH !in TextOf(ls)
    ensures SplitsTo(text, p, storage, ls) == true
    decreases |ls|
  {
    var q := p + |ls[0]|;
    var next := if q < |text| then q + 1 else q;
    SplitFirst(text, full, p, storage, ls, q, next);
    if q < |text| {
      SplitUndotted(text, full, next, storage + LabelWire(ls[0]), ls[1..]);
    } else {
      SplitRoot(text, storage, ls[0]);
    }
    SplitsFirst(text, p, next, storage, ls);
  }

  /** The printed name without its final dot is read back exactly when the name has at most 255 octets,
      or 256 if nothing in it had to be escaped. */
  lemma {:induction false} ReadUndotted(ls: Labels)
    requires ValidLabels(ls) && ls != []
    ensures var text := Print(ls)[..|Print(ls)| - 1];
            Read(text) == Success(Wire(ls)) <==> |Wire(ls)| <= if BACKSLASH in Print(ls) then 255 else 256
  {
    var text := Undotted(ls);
    FirstCharacter(ls);
    UndottedIs(ls);
    DropDot(text);
    if BACKSLASH in text {
      SegmentUndotted(ls);
    } else {
      TextLength(ls);
      if |text| <= MAX_TEXT {
        assert (text + [DOT])[0..] == text + [DOT];
        SplitUndotted(text, text + [DOT], 0, [], ls);
        assert [] + Wire(ls) == Wire(ls);
      } else {
        ReadFailsIff(text);
      }
    }
  }

  lemma {:induction false} OneMoreLabel(l: Label, rest: Labels)
    requires ValidLabel(l) && ValidLabels(rest)
    ensures ValidLabels([l] + rest) && |Wire([l] + rest)| == 1 + |l| + |Wire(rest)|
  {
    assert ([l] + rest)[1..] == rest;
  }

  /** Four labels of 63, 63, 63 and 62 letters: their text without a dot at the end is read as a name of
      256 octets. */
  lemma {:induction false} TooLongIsRead() returns (text: Bytes, storage: Bytes)
    ensures |text| == MAX_TEXT && Read(text) == Success(storage) && |storage| == 256
  {
    var l: Label := seq(63, _ => 97);
    var m: Label := seq(62, _ => 97);
    assert ValidLabel(l) && ValidLabel(m) && AllPlain(l) && AllPlain(m);
    var one: Labels := [m] + [];
    var ls := [l] + ([l] + ([l] + one));
    OneMoreLabel(m, []);
    OneMoreLabel(l, one);
    OneMoreLabel(l, [l] + one);
    OneMoreLabel(l, [l] + ([l] + one));
    PlainPrinted(ls);
    ReadUndotted(ls);
    TextLength(ls);
    text, storage := Print(ls)[..|Print(ls)| - 1], Wire(ls);
  }

  /** With its final dot it is read back exactly when the name has at most 255 octets. */
  lemma {:induction false} ReadPrintedExactly(ls: Labels)
    requires ValidLabels(ls)
    ensures Read(Print(ls)) == Success(Wire(ls)) <==> |Wire(ls)| <= 255
  {
    if |Wire(ls)| <= 255 {
      ReadPrinted(ls);
    } else {
      FirstCharacter(ls);
      if BACKSLASH in TextOf(ls) {
        SegmentPrinted(ls);
      } else {
        TextLength(ls);
        ReadFailsIff(TextOf(ls));
      }
    }
  }
}
