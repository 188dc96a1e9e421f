/** Character-strings printed from a record, read again and written: the octets of the record. */
module TxtRoundTrip {
  import opened Wrappers
  import opened DnsName
  import opened PacketName
  import opened NameText
  import opened TxtText

  lemma {:induction false} TextRunAppend(m: TextMachine, a: Bytes, b: Bytes)
    ensures TextRun(m, a + b) == TextRun(TextRun(m, a), b)
    decreases |a|
  {
    if a == [] {
      assert a + b == b;
    } else {
      assert (a + b)[1..] == a[1..] + b;
      TextRunAppend(TextStep(m, a[0]), a[1..], b);
    }
  }

  lemma {:induction false} TextRunOne(m: TextMachine, c: Byte)
    ensures TextRun(m, [c]) == TextStep(m, c)
  {
    assert [c][1..] == [];
  }

  lemma {:induction false} TextRunTwo(m: TextMachine, c: Byte, d: Byte)
    ensures TextRun(m, [c, d]) == TextStep(TextStep(m, c), d)
  {
    assert [c, d][1..] == [d];
    TextRunOne(TextStep(m, c), d);
  }

  // ---------------------------------------------------------------- one string

  /** The machine is in a string of which `segment` has been read; an escaped octet may still wait to
      be put down. */
  predicate InString(m: TextMachine, ret: seq<Bytes>, segment: Bytes) {
    && m.ret == ret
    && ((m.cs == 2 && m.segment == segment && m.val == 0) || (m.cs == 6 && m.segment + [m.val] == segment))
  }

  lemma TextBackslash(m: TextMachine, ret: seq<Bytes>, segment: Bytes)
    requires InString(m, ret, segment) && |segment| <= 255
    ensures TextStep(m, BACKSLASH) == TextMachine(3, ret, segment, 0)
  {}

  lemma TextPlain(m: TextMachine, ret: seq<Bytes>, segment: Bytes, c: Byte)
    requires InString(m, ret, segment) && |segment| <= 254 && IsPlainText(c)
    ensures TextStep(m, c) == TextMachine(2, ret, segment + [c], 0)
  {}

  lemma TextQuote(m: TextMachine, ret: seq<Bytes>, segment: Bytes)
    requires InString(m, ret, segment) && |segment| <= 255
    ensures TextStep(m, QUOTE) == TextMachine(7, ret, segment, 0)
  {}

  lemma {:induction false} TextDecimal(m: TextMachine, b: Byte)
    requires m.cs == 3 && m.val == 0
    ensures TextRun(m, Decimal(b)[1..]) == m.(cs := 6, val := b)
  {
    var d := Decimal(b);
    assert d[1..][1..] == [d[2], d[3]] && d[1..][0] == d[1];
    DecimalDigits(b);
    var m1 := TextStep(m, d[1]);
    assert m1 == m.(cs := 4, val := b / 100);
    var m2 := TextStep(m1, d[2]);
    assert m2 == m.(cs := 5, val := b / 10);
    TextRunTwo(m1, d[2], d[3]);
  }

  lemma {:induction false} TextEscaped(m: TextMachine, ret: seq<Bytes>, segment: Bytes, b: Byte)
    requires m == TextMachine(3, ret, segment, 0) && |segment| <= 254 && !IsPlainText(b)
    ensures InString(TextRun(m, EscapeTextOctet(b)[1..]), ret, segment + [b])
  {
    if b == QUOTE || b == BACKSLASH {
      assert EscapeTextOctet(b)[1..] == [b];
      TextRunOne(m, b);
    } else {
      TextDecimal(m, b);
    }
  }

  lemma {:induction false} OctetRun(m: TextMachine, ret: seq<Bytes>, segment: Bytes, b: Byte)
    requires InString(m, ret, segment) && |segment| <= 254
    ensures InString(TextRun(m, EscapeTextOctet(b)), ret, segment + [b])
  {
    if IsPlainText(b) {
      TextPlain(m, ret, segment, b);
      TextRunOne(m, b);
    } else {
      TextBackslash(m, ret, segment);
      TextEscaped(TextStep(m, BACKSLASH), ret, segment, b);
      assert EscapeTextOctet(b)[0] == BACKSLASH;
    }
  }

  /** No string of at most 255 octets is split. */
  lemma {:induction false} StringRun(m: TextMachine, ret: seq<Bytes>, segment: Bytes, s: Bytes)
    requires InString(m, ret, segment) && |segment| + |s| <= 255
    ensures InString(TextRun(m, EscapeText(s)), ret, segment + s)
    decreases |s|
  {
    if s == [] {
      assert segment + s == segment;
    } else {
      OctetRun(m, ret, segment, s[0]);
      TextRunAppend(m, EscapeTextOctet(s[0]), EscapeText(s[1..]));
      StringRun(TextRun(m, EscapeTextOctet(s[0])), ret, segment + [s[0]], s[1..]);
      Grown(segment, s);
    }
  }

  lemma Grown(segment: Bytes, s: Bytes)
    requires s != []
    ensures segment + [s[0]] + s[1..] == segment + s
  {}

  /** Between strings: the last one is yet to be pushed, unless there was none. */
  predicate Between(m: TextMachine, done: seq<Bytes>) {
    && m.val == 0
    && ((m.cs == 1 && m.ret == [] && done == [])
        || ((m.cs == 7 || m.cs == 8) && done == m.ret + [m.segment]))
  }

  lemma {:induction false} QuotedRun(m: TextMachine, done: seq<Bytes>, s: Bytes)
    requires Between(m, done) && |s| <= 255
    ensures Between(TextRun(m, Quoted(s)), done + [s]) && TextRun(m, Quoted(s)).cs == 7
  {
    var x := TextStep(m, QUOTE);
    assert x == TextMachine(2, done, [], 0);
    StringRun(x, done, [], s);
    assert [] + s == s;
    var q: Bytes := [QUOTE];
    assert Quoted(s) == q + (EscapeText(s) + q);
    TextRunAppend(m, q, EscapeText(s) + q);
    TextRunOne(m, QUOTE);
    TextRunAppend(x, EscapeText(s), q);
    TextQuote(TextRun(x, EscapeText(s)), done, s);
    TextRunOne(TextRun(x, EscapeText(s)), QUOTE);
  }

  // ---------------------------------------------------------------- many strings

  /** The strings in text form, after those in `ret`. */
  function TextAfter(ret: Bytes, strings: seq<Bytes>): Bytes
    decreases |strings|
  {
    if strings == [] then ret else TextAfter(Joined(ret, strings[0]), strings[1..])
  }

  ghost predicate Short(strings: seq<Bytes>) {
    forall i | 0 <= i < |strings| :: |strings[i]| <= 255
  }

  lemma {:induction false} TextAfterRun(ret: Bytes, done: seq<Bytes>, strings: seq<Bytes>)
    requires Short(strings) && Between(TextRun(TEXT_START, ret), done)
    requires (ret == [] && done == []) || (ret != [] && TextRun(TEXT_START, ret).cs == 7)
    ensures Between(TextRun(TEXT_START, TextAfter(ret, strings)), done + strings)
    ensures strings != [] || ret != [] ==> TextRun(TEXT_START, TextAfter(ret, strings)).cs == 7
    decreases |strings|
  {
    if strings == [] {
      assert done + strings == done;
    } else {
      var s := strings[0];
      JoinedRun(ret, done, s);
      assert Short(strings[1..]);
      TextAfterRun(Joined(ret, s), done + [s], strings[1..]);
      assert done + [s] + strings[1..] == done + strings;
    }
  }

  lemma {:induction false} JoinedRun(ret: Bytes, done: seq<Bytes>, s: Bytes)
    requires |s| <= 255 && Between(TextRun(TEXT_START, ret), done)
    requires (ret == [] && done == []) || (ret != [] && TextRun(TEXT_START, ret).cs == 7)
    ensures Joined(ret, s) != []
    ensures Between(TextRun(TEXT_START, Joined(ret, s)), done + [s]) && TextRun(TEXT_START, Joined(ret, s)).cs == 7
  {
    if ret == [] {
      assert Joined(ret, s) == Quoted(s);
      QuotedRun(TEXT_START, done, s);
    } else {
      var m := TextRun(TEXT_START, ret);
      TextRunAppend(TEXT_START, ret, [SPACE]);
      TextRunOne(m, SPACE);
      TextRunAppend(TEXT_START, ret + [SPACE], Quoted(s));
      QuotedRun(TextStep(m, SPACE), done, s);
    }
  }

  /** Cutting up the printed text gives the strings. */
  lemma {:induction false} SegmentsOfText(strings: seq<Bytes>)
    requires strings != [] && Short(strings)
    ensures SegmentText(TextAfter([], strings)) == Some(strings)
  {
    TextAfterRun([], [], strings);
    assert [] + strings == strings;
  }

  lemma {:induction false} TextAfterGrows(ret: Bytes, strings: seq<Bytes>)
    ensures strings != [] || ret != [] ==> TextAfter(ret, strings) != []
    decreases |strings|
  {
    if strings != [] { TextAfterGrows(Joined(ret, strings[0]), strings[1..]); }
  }

  /** Printing the strings of a record. */
  lemma {:induction false} GetTextPrints(c: Bytes, pos: nat, end: nat, strings: seq<Bytes>, ret: Bytes)
    requires Short(strings) && pos <= end <= |c| && c[pos..end] == Rdata(strings)
    ensures GetText(c, pos, end, true, ret) == Printed(TextAfter(ret, strings), end)
    decreases |strings|
  {
    if strings == [] {
      assert |c[pos..end]| == 0;
    } else {
      var s := strings[0];
      RdataParts(c, pos, end, strings);
      assert Short(strings[1..]);
      var next := pos + 1 + |s|;
      assert GetText(c, pos, end, true, ret) == GetText(c, next, end, true, Joined(ret, s));
      GetTextPrints(c, next, end, strings[1..], Joined(ret, s));
    }
  }

  lemma {:induction false} RdataParts(c: Bytes, pos: nat, end: nat, strings: seq<Bytes>)
    requires strings != [] && |strings[0]| <= 255 && pos <= end <= |c| && c[pos..end] == Rdata(strings)
    ensures var s := strings[0];
            && pos + 1 + |s| <= end && c[pos] == |s| && c[pos + 1..pos + 1 + |s|] == s
            && c[pos + 1 + |s|..end] == Rdata(strings[1..])
  {
    StringThenRest(c, pos, end, |strings[0]|, strings[0], Rdata(strings[1..]));
  }

  lemma StringThenRest(c: Bytes, pos: nat, end: nat, n: Byte, s: Bytes, rest: Bytes)
    requires pos <= end <= |c| && n == |s| && c[pos..end] == [n] + s + rest
    ensures pos + 1 + |s| <= end && c[pos] == n && c[pos + 1..pos + 1 + |s|] == s && c[pos + 1 + |s|..end] == rest
  {
    var w := c[pos..end];
    assert w[0] == n && w[1..1 + |s|] == s && w[1 + |s|..] == rest;
    SliceOfSlice(c, pos, w, 0, 0);
    SliceOfSlice(c, pos, w, 1, 1 + |s|);
    SliceOfSlice(c, pos, w, 1 + |s|, |w|);
  }

  /** A TXT record printed and written again has the same data, for every non-empty list of strings of
      0 to 255 octets, whatever the octets. */
  lemma {:induction false} TextRoundTrip(c: Bytes, pos: nat, end: nat, strings: seq<Bytes>)
    requires strings != [] && Short(strings) && pos <= end <= |c| && c[pos..end] == Rdata(strings)
    ensures GetText(c, pos, end, true, []).Printed?
    ensures XfrText(GetText(c, pos, end, true, []).text) == Some(c[pos..end])
  {
    GetTextPrints(c, pos, end, strings, []);
    SegmentsOfText(strings);
    TextAfterGrows([], strings);
  }

  // ---------------------------------------------------------------- strings that are split

  ghost function Concat(segments: seq<Bytes>): Bytes {
    if segments == [] then [] else Concat(segments[..|segments| - 1]) + segments[|segments| - 1]
  }

  ghost predicate AllFull(segments: seq<Bytes>) {
    forall i | 0 <= i < |segments| :: |segments[i]| == 255
  }

  /** s is cut up into full segments and a last one, which is empty only if s is. */
  ghost predicate Cut(full: seq<Bytes>, last: Bytes, s: Bytes) {
    Concat(full) + last == s && AllFull(full) && |last| <= 255 && (last == [] ==> full == [])
  }

  /** s has been read of a string; an escaped octet may still wait to be put down. */
  ghost predicate HasRead(m: TextMachine, s: Bytes) {
    || (m.cs == 2 && m.val == 0 && Cut(m.ret, m.segment, s))
    || (m.cs == 6 && s != [] && m.val == s[|s| - 1] && Cut(m.ret, m.segment, s[..|s| - 1]))
  }

  lemma CutMore(m: TextMachine, s: Bytes, c: Byte)
    requires Cut(m.ret, m.segment, s)
    ensures Cut(AppendSplit(m, c).ret, AppendSplit(m, c).segment, s + [c])
  {
    if |m.segment| > 254 {
      var more := m.ret + [m.segment];
      assert more[..|m.ret|] == m.ret;
    }
  }

  /** The octet that may wait is put down. */
  function TextSettled(m: TextMachine): TextMachine {
    if m.cs == 6 then Value(m).(cs := 2) else m
  }

  lemma SettledCut(m: TextMachine, s: Bytes)
    requires HasRead(m, s)
    ensures var x := TextSettled(m); x.cs == 2 && x.val == 0 && Cut(x.ret, x.segment, s)
  {
    if m.cs == 6 {
      var front := s[..|s| - 1];
      CutMore(m, front, m.val);
      assert front + [m.val] == s;
    }
  }

  lemma PlainRead(m: TextMachine, s: Bytes, c: Byte)
    requires HasRead(m, s) && IsPlainText(c)
    ensures HasRead(TextStep(m, c), s + [c]) == true
  {
    SettledCut(m, s);
    CutMore(TextSettled(m), s, c);
  }

  lemma BackslashRead(m: TextMachine, s: Bytes)
    requires HasRead(m, s)
    ensures TextStep(m, BACKSLASH) == TextSettled(m).(cs := 3)
  {}

  lemma EscapedRead(m: TextMachine, s: Bytes, c: Byte)
    requires m.cs == 3 && m.val == 0 && Cut(m.ret, m.segment, s) && !IsDigit(c)
    ensures HasRead(TextStep(m, c), s + [c]) == true
  {
    CutMore(m, s, c);
  }

  lemma {:induction false} NumberRead(m: TextMachine, s: Bytes, b: Byte)
    requires m.cs == 3 && m.val == 0 && Cut(m.ret, m.segment, s)
    ensures HasRead(TextRun(m, Decimal(b)[1..]), s + [b]) == true
  {
    TextDecimal(m, b);
    assert (s + [b])[..|s|] == s;
  }

  lemma {:induction false} OctetRead(m: TextMachine, s: Bytes, b: Byte)
    requires HasRead(m, s) == true
    ensures HasRead(TextRun(m, EscapeTextOctet(b)), s + [b]) == true
  {
    if IsPlainText(b) {
      TextRunOne(m, b);
      PlainRead(m, s, b);
    } else {
      var x := TextSettled(m).(cs := 3);
      BackslashRead(m, s);
      SettledCut(m, s);
      if b == QUOTE || b == BACKSLASH {
        TextRunTwo(m, BACKSLASH, b);
        EscapedRead(x, s, b);
      } else {
        assert Decimal(b)[0] == BACKSLASH;
        NumberRead(x, s, b);
      }
    }
  }

  lemma {:induction false} AllRead(m: TextMachine, before: Bytes, s: Bytes)
    requires HasRead(m, before) == true
    ensures HasRead(TextRun(m, EscapeText(s)), before + s) == true
    decreases |s|
  {
    if s == [] {
      assert before + s == before;
    } else {
      OctetRead(m, before, s[0]);
      TextRunAppend(m, EscapeTextOctet(s[0]), EscapeText(s[1..]));
      AllRead(TextRun(m, EscapeTextOctet(s[0])), before + [s[0]], s[1..]);
      Grown(before, s);
    }
  }

  lemma NothingRead()
    ensures HasRead(TextStep(TEXT_START, QUOTE), []) == true
  {}

  lemma QuoteRead(m: TextMachine, s: Bytes)
    requires HasRead(m, s)
    ensures var x := TextStep(m, QUOTE); x.cs == 7 && Cut(x.ret, x.segment, s) == true
  {
    SettledCut(m, s);
  }

  lemma {:induction false} QuotedRead(s: Bytes)
    ensures var m := TextRun(TEXT_START, Quoted(s)); m.cs == 7 && Cut(m.ret, m.segment, s) == true
  {
    var q: Bytes := [QUOTE];
    var x := TextStep(TEXT_START, QUOTE);
    var y := TextRun(x, EscapeText(s));
    NothingRead();
    AllRead(x, [], s);
    assert [] + s == s;
    assert Quoted(s) == q + (EscapeText(s) + q);
    TextRunAppend(TEXT_START, q, EscapeText(s) + q);
    TextRunOne(TEXT_START, QUOTE);
    TextRunAppend(x, EscapeText(s), q);
    TextRunOne(y, QUOTE);
    QuoteRead(y, s);
  }

  /** A quoted string of any length is cut into segments that join to it: all of 255 octets but the
      last, which is not empty unless the string is. */
  lemma {:induction false} LongStringSplit(s: Bytes) returns (segments: seq<Bytes>)
    ensures SegmentText(Quoted(s)) == Some(segments) && segments != [] && Concat(segments) == s
    ensures var n := |segments| - 1;
            AllFull(segments[..n]) && |segments[n]| <= 255 && (segments[n] == [] ==> s == [])
  {
    QuotedRead(s);
    var m := TextRun(TEXT_START, Quoted(s));
    segments := m.ret + [m.segment];
    assert segments[..|m.ret|] == m.ret;
  }

  // ---------------------------------------------------------------- text that needs no escape

  ghost predicate AllPlainText(s: Bytes) {
    forall i | 0 <= i < |s| :: IsPlainText(s[i])
  }

  /** A string is printed as it is, between quotes, exactly when no octet of it has to be escaped. */
  lemma {:induction false} PlainTextPrinted(s: Bytes)
    ensures AllPlainText(s) <==> EscapeText(s) == s
    ensures |EscapeText(s)| >= |s|
  {
    if s != [] {
      var rest := s[1..];
      PlainTextPrinted(rest);
      assert s == [s[0]] + rest;
      assert AllPlainText(s) <==> IsPlainText(s[0]) && AllPlainText(rest) by {
        if IsPlainText(s[0]) && AllPlainText(rest) {
          forall i | 0 <= i < |s| ensures IsPlainText(s[i]) { assert i > 0 ==> s[i] == rest[i - 1]; }
        }
        if AllPlainText(s) {
          forall i | 0 <= i < |rest| ensures IsPlainText(rest[i]) { assert rest[i] == s[i + 1]; }
        }
      }
      var e, f := EscapeTextOctet(s[0]), EscapeText(rest);
      if e == [s[0]] {
        assert (e + f)[1..] == f;
      } else {
        assert |e + f| > |s|;
      }
    }
  }
}
