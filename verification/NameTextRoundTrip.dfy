/** A name read back from its text form is the name, octet for octet. */
module NameTextRoundTrip {
  import opened Wrappers
  import opened DnsName
  import opened NameText

  lemma {:induction false} RunAppend(m: Machine, a: Bytes, b: Bytes)
    ensures Run(m, a + b) == Run(Run(m, a), b)
    decreases |a|
  {
    if a == [] {
      assert a + b == b;
    } else {
      assert (a + b)[1..] == a[1..] + b;
      RunAppend(Step(m, a[0]), a[1..], b);
    }
  }

  lemma HeadFirst(prefix: Bytes, l: Bytes)
    requires l != []
    ensures prefix + [l[0]] + l[1..] == prefix + l
  {}

  lemma {:induction false} WireFirst(prefix: Bytes, ls: Labels)
    requires ValidLabels(ls) && ls != []
    ensures prefix + LabelWire(ls[0]) + Wire(ls[1..]) == prefix + Wire(ls)
  {}

  // ---------------------------------------------------------------- through the state machine

  /** A label may start: `ret` holds what came before. */
  predicate AtLabel(m: Machine, ret: Bytes) {
    (m.cs == 1 || m.cs == 6) && m.ret == ret && m.val == 0
  }

  /** n octets of a label have been read; an escaped one may still wait to be put down. */
  predicate Inside(m: Machine, ret: Bytes, n: nat, lenpos: nat) {
    && m.lenpos == lenpos
    && ((m.cs == 5 && m.ret == ret && m.labellen == n && m.val == 0)
        || (m.cs == 7 && m.ret + [m.val] == ret && m.labellen + 1 == n))
  }

  /** The machine after the octet that may wait has been put down. */
  function Settled(m: Machine): Machine {
    if m.cs == 7 then AppendVal(m).(cs := 5) else m
  }

  lemma InsideSettled(m: Machine, ret: Bytes, n: nat, lenpos: nat)
    requires Inside(m, ret, n, lenpos) && n <= 255
    ensures Settled(m) == Machine(5, ret, lenpos, n, 0)
  {}

  lemma StepBackslash(m: Machine, ret: Bytes, n: nat, lenpos: nat)
    requires Inside(m, ret, n, lenpos) && n <= 255
    ensures Step(m, BACKSLASH) == Machine(2, ret, lenpos, n, 0)
  {}

  lemma StepPlain(m: Machine, ret: Bytes, n: nat, lenpos: nat, c: Byte)
    requires Inside(m, ret, n, lenpos) && n < 255 && IsPlain(c)
    ensures Step(m, c) == Machine(5, ret + [c], lenpos, n + 1, 0)
  {}

  lemma {:induction false} RunOne(m: Machine, c: Byte)
    ensures Run(m, [c]) == Step(m, c)
  {
    assert [c][1..] == [];
  }

  lemma {:induction false} RunTwo(m: Machine, c: Byte, d: Byte)
    ensures Run(m, [c, d]) == Step(Step(m, c), d)
  {
    assert [c, d][1..] == [d];
    RunOne(Step(m, c), d);
  }

  /** The digits of an escape make the number. */
  lemma {:induction false} DecimalRun(m: Machine, b: Byte)
    requires m.cs == 2 && m.val == 0
    ensures Run(m, Decimal(b)[1..]) == m.(cs := 7, val := b)
  {
    var d := Decimal(b);
    assert d[1..][1..] == [d[2], d[3]] && d[1..][0] == d[1];
    DecimalDigits(b);
    var m1 := Step(m, d[1]);
    assert m1 == m.(cs := 3, val := b / 100);
    var m2 := Step(m1, d[2]);
    assert m2 == m.(cs := 4, val := b / 10);
    RunTwo(m1, d[2], d[3]);
  }

  /** After a backslash, the rest of an escape gives the octet. */
  lemma {:induction false} AfterBackslash(m: Machine, ret: Bytes, n: nat, lenpos: nat, b: Byte)
    requires n < 255 && m == Machine(2, ret, lenpos, n, 0) && !IsPlain(b)
    ensures Inside(Run(m, EscapeOctet(b)[1..]), ret + [b], n + 1, lenpos)
  {
    if b == DOT || b == BACKSLASH {
      assert EscapeOctet(b)[1..] == [b];
      RunOne(m, b);
    } else {
      DecimalRun(m, b);
    }
  }

  lemma {:induction false} EscapeInside(m: Machine, ret: Bytes, n: nat, lenpos: nat, b: Byte)
    requires Inside(m, ret, n, lenpos) && n < 255
    ensures Inside(Run(m, EscapeOctet(b)), ret + [b], n + 1, lenpos)
  {
    if IsPlain(b) {
      StepPlain(m, ret, n, lenpos, b);
      RunOne(m, b);
    } else {
      StepBackslash(m, ret, n, lenpos);
      AfterBackslash(Step(m, BACKSLASH), ret, n, lenpos, b);
      assert EscapeOctet(b)[0] == BACKSLASH;
    }
  }

  lemma {:induction false} EscapeFirst(m: Machine, ret: Bytes, b: Byte)
    requires AtLabel(m, ret)
    ensures Inside(Run(m, EscapeOctet(b)), ret + [0] + [b], 1, |ret|)
  {
    if IsPlain(b) {
      RunOne(m, b);
    } else {
      assert EscapeOctet(b)[0] == BACKSLASH;
      assert Step(m, BACKSLASH) == Machine(2, ret + [0], |ret|, 0, 0);
      AfterBackslash(Step(m, BACKSLASH), ret + [0], 0, |ret|, b);
    }
  }

  lemma {:induction false} EscapeRest(m: Machine, ret: Bytes, n: nat, lenpos: nat, l: Bytes)
    requires Inside(m, ret, n, lenpos) && n + |l| <= 255
    ensures Inside(Run(m, Escape(l)), ret + l, n + |l|, lenpos)
    decreases |l|
  {
    if l == [] {
      assert ret + l == ret;
    } else {
      EscapeInside(m, ret, n, lenpos, l[0]);
      RunAppend(m, EscapeOctet(l[0]), Escape(l[1..]));
      EscapeRest(Run(m, EscapeOctet(l[0])), ret + [l[0]], n + 1, lenpos, l[1..]);
      HeadFirst(ret, l);
    }
  }

  lemma {:induction false} LabelOctets(m: Machine, ret: Bytes, l: Label)
    requires AtLabel(m, ret) && ValidLabel(l)
    ensures Settled(Run(m, Escape(l))) == Machine(5, ret + [0] + l, |ret|, |l|, 0)
    ensures var x := Run(m, Escape(l)); x.cs == 5 || x.cs == 7
  {
    EscapeFirst(m, ret, l[0]);
    RunAppend(m, EscapeOctet(l[0]), Escape(l[1..]));
    EscapeRest(Run(m, EscapeOctet(l[0])), ret + [0] + [l[0]], 1, |ret|, l[1..]);
    HeadFirst(ret + [0], l);
    InsideSettled(Run(m, Escape(l)), ret + [0] + l, |l|, |ret|);
  }

  lemma DotEnds(x: Machine, ret: Bytes, l: Label)
    requires ValidLabel(l) && (x.cs == 5 || x.cs == 7) && Settled(x) == Machine(5, ret + [0] + l, |ret|, |l|, 0)
    ensures Step(x, DOT).cs == 6 && AtLabel(Step(x, DOT), ret + LabelWire(l))
  {
    assert (ret + [0] + l)[|ret| := |l|] == ret + LabelWire(l);
  }

  /** A whole label and its dot put the label down after its length. */
  lemma {:induction false} LabelRun(m: Machine, ret: Bytes, l: Label)
    requires AtLabel(m, ret) && ValidLabel(l)
    ensures var x := Run(m, Escape(l) + [DOT]); x.cs == 6 && AtLabel(x, ret + LabelWire(l))
  {
    LabelOctets(m, ret, l);
    RunAppend(m, Escape(l), [DOT]);
    RunOne(Run(m, Escape(l)), DOT);
    DotEnds(Run(m, Escape(l)), ret, l);
  }

  lemma {:induction false} NameRun(m: Machine, ret: Bytes, ls: Labels)
    requires AtLabel(m, ret) && ValidLabels(ls)
    ensures Run(m, TextOf(ls)).ret + [0] == ret + Wire(ls)
    ensures Run(m, TextOf(ls)).cs == if ls == [] then m.cs else 6
    decreases |ls|
  {
    if ls != [] {
      assert ValidLabel(ls[0]);
      LabelRun(m, ret, ls[0]);
      RunAppend(m, Escape(ls[0]) + [DOT], TextOf(ls[1..]));
      NameRun(Run(m, Escape(ls[0]) + [DOT]), ret + LabelWire(ls[0]), ls[1..]);
      WireFirst(ret, ls);
    }
  }

  lemma {:induction false} SegmentPrinted(ls: Labels)
    requires ValidLabels(ls) && ls != []
    ensures Segment(TextOf(ls)) == Success(Wire(ls))
  {
    var text := TextOf(ls);
    NameRun(START, [], ls);
    assert [] + Wire(ls) == Wire(ls);
    FirstCharacter(ls);
    var m := Run(START, text);
    assert m.cs == 6 && AtEnd(m) == m;
  }

  lemma {:induction false} FirstCharacter(ls: Labels)
    requires ValidLabels(ls) && ls != []
    ensures |TextOf(ls)| >= 2 && TextOf(ls)[0] != 0 && TextOf(ls)[0] != DOT
  {
    assert ValidLabel(ls[0]);
    assert TextOf(ls)[0] == EscapeOctet(ls[0][0])[0];
  }

  // ---------------------------------------------------------------- through the fast path

  predicate AllPlain(l: Bytes) {
    forall i | 0 <= i < |l| :: IsPlain(l[i])
  }

  lemma {:induction false} EscapePlain(l: Bytes)
    ensures BACKSLASH !in Escape(l) ==> AllPlain(l) && Escape(l) == l
  {
    if l != [] {
      EscapePlain(l[1..]);
      assert EscapeOctet(l[0])[0] in Escape(l);
      assert forall c | c in Escape(l[1..]) :: c in Escape(l);
      if BACKSLASH !in Escape(l) {
        assert IsPlain(l[0]) && l == [l[0]] + l[1..];
        forall i | 0 <= i < |l| ensures IsPlain(l[i]) { assert i > 0 ==> l[i] == l[1..][i - 1]; }
      }
    }
  }

  lemma {:induction false} DotAt(text: Bytes, p: nat, l: Bytes, k: nat)
    requires p + |l| < |text| && text[p..p + |l|] == l && AllPlain(l) && text[p + |l|] == DOT && k <= |l|
    ensures NextDot(text, p + k) == p + |l|
    decreases |l| - k
  {
    if k < |l| {
      assert text[p + k] == text[p..p + |l|][k] && IsPlain(l[k]);
      DotAt(text, p, l, k + 1);
    }
  }

  /** Reading the text from p on adds the labels to the storage. */
  ghost predicate SplitsTo(text: Bytes, p: nat, storage: Bytes, ls: Labels)
    requires ValidLabels(ls) && p <= |text|
  {
    Split(text, p, storage) == Success(storage + Wire(ls))
  }

  /** The first label stands at p as it is, and after its dot the text of the others. */
  lemma FirstStands(text: Bytes, p: nat, ls: Labels)
    requires ValidLabels(ls) && ls != [] && p <= |text| && text[p..] == TextOf(ls) && BACKSLASH !in TextOf(ls)
    ensures var l := ls[0];
            && ValidLabel(l) && AllPlain(l) && p + |l| < |text| && text[p..p + |l|] == l && NextDot(text, p) == p + |l|
            && text[p + |l| + 1..] == TextOf(ls[1..]) && BACKSLASH !in TextOf(ls[1..])
  {
    var l, rest := ls[0], TextOf(ls[1..]);
    assert ValidLabel(l);
    NotInParts(Escape(l), [DOT], rest);
    EscapePlain(l);
    PartsOf(text, p, l, rest);
    DotAt(text, p, l, 0);
  }

  lemma SplitsOn(text: Bytes, p: nat, storage: Bytes, ls: Labels)
    requires ValidLabels(ls) && ls != [] && ValidLabel(ls[0]) && p + |ls[0]| + 1 <= |text|
    requires Split(text, p, storage) == Split(text, p + |ls[0]| + 1, storage + LabelWire(ls[0]))
    requires SplitsTo(text, p + |ls[0]| + 1, storage + LabelWire(ls[0]), ls[1..])
    ensures SplitsTo(text, p, storage, ls) == true
  {
    WireFirst(storage, ls);
  }

  lemma SplitsNone(text: Bytes, storage: Bytes)
    ensures SplitsTo(text, |text|, storage, []) == true
  {}

  /** From p on, the text is that of the labels, none of which needs an escape. */
  lemma {:induction false} SplitPrinted(text: Bytes, p: nat, storage: Bytes, ls: Labels)
    requires ValidLabels(ls) && p <= |text| && text[p..] == TextOf(ls) && BACKSLASH !in TextOf(ls)
    requires p + |Wire(ls)| <= 255
    ensures SplitsTo(text, p, storage, ls) == true
    decreases |ls|
  {
    if ls == [] {
      assert |text[p..]| == 0;
      SplitsNone(text, storage);
    } else {
      var l := ls[0];
      FirstStands(text, p, ls);
      WireLength(ls[1..], 0);
      SplitLabel(text, p, storage, l);
      SplitPrinted(text, p + |l| + 1, storage + LabelWire(l), ls[1..]);
      SplitsOn(text, p, storage, ls);
    }
  }

  lemma NotInParts(a: Bytes, b: Bytes, c: Bytes)
    ensures BACKSLASH !in a + b + c ==> BACKSLASH !in a && BACKSLASH !in c
  {}

  lemma SplitLabel(text: Bytes, p: nat, storage: Bytes, l: Label)
    requires ValidLabel(l) && AllPlain(l) && p + |l| < |text| && text[p..p + |l|] == l && NextDot(text, p) == p + |l|
    requires p + |l| + 1 <= MAX_TEXT
    ensures Split(text, p, storage) == Split(text, p + |l| + 1, storage + LabelWire(l))
  {
    var n: Byte := |l|;
    assert storage + [n] + l == storage + LabelWire(l);
    assert text[p] == text[p..p + |l|][0] && IsPlain(l[0]);
  }

  lemma PartsOf(text: Bytes, p: nat, l: Bytes, rest: Bytes)
    requires p <= |text| && text[p..] == l + [DOT] + rest
    ensures p + |l| < |text| && text[p..p + |l|] == l && text[p + |l|] == DOT && text[p + |l| + 1..] == rest
    ensures l != [] ==> text[p] == l[0]
  {
    var w := text[p..];
    assert w[|l|] == DOT && w[..|l|] == l && w[|l| + 1..] == rest;
  }

  // ---------------------------------------------------------------- both

  /** A name of at most 255 octets with any octets in its labels, printed and read again, is the same
      name: through the state machine if an octet had to be escaped, without it otherwise. */
  lemma {:induction false} ReadPrinted(ls: Labels)
    requires ValidLabels(ls) && |Wire(ls)| <= 255
    ensures Read(Print(ls)) == Success(Wire(ls))
  {
    if ls != [] {
      var text := TextOf(ls);
      FirstCharacter(ls);
      if BACKSLASH in text {
        SegmentPrinted(ls);
      } else {
        assert text[0..] == text;
        SplitPrinted(text, 0, [], ls);
        assert [] + Wire(ls) == Wire(ls);
      }
    }
  }

  /** Names that print alike are the same. */
  lemma {:induction false} PrintInjective(a: Labels, b: Labels)
    requires ValidLabels(a) && ValidLabels(b) && |Wire(a)| <= 255 && |Wire(b)| <= 255 && Print(a) == Print(b)
    ensures a == b
  {
    ReadPrinted(a);
    ReadPrinted(b);
    WireInjective(a, b);
  }
}
