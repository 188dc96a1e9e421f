/** Character-strings (section 3.3.14 of RFC 1035): printed from a record with escapes and quotes, cut
    up again by the generated state machine, and written to a packet. */
module TxtText {
  import opened Wrappers
  import opened DnsName
  import opened NameText

  const QUOTE: Byte := 34
  const SPACE: Byte := 32

  // ---------------------------------------------------------------- printing

  predicate IsPlainText(b: Byte) {
    32 <= b < 127 && b != QUOTE && b != BACKSLASH
  }

  function EscapeTextOctet(b: Byte): (r: Bytes)
    ensures r != []
  {
    if b >= 127 || b < 32 then Decimal(b)
    else if b == QUOTE || b == BACKSLASH then [BACKSLASH, b]
    else [b]
  }

  /** txtEscape. */
  function EscapeText(s: Bytes): Bytes {
    if s == [] then [] else EscapeTextOctet(s[0]) + EscapeText(s[1..])
  }

  function Quoted(s: Bytes): Bytes {
    [QUOTE] + EscapeText(s) + [QUOTE]
  }

  /** What getText has printed and where it stands, unless it ran out of the packet. */
  datatype Printed = PastPacket | Printed(text: Bytes, pos: nat)

  /** One more string, after a space unless it is the first. */
  function Joined(ret: Bytes, s: Bytes): Bytes {
    (if ret != [] then ret + [SPACE] else ret) + Quoted(s)
  }

  /** getText with a length before each string, from pos on. */
  function GetText(c: Bytes, pos: nat, end: nat, multi: bool, ret: Bytes): (r: Printed)
    decreases end - pos
  {
    if pos >= end then Printed(ret, pos)
    else if pos >= |c| || pos + 1 + c[pos] > |c| then PastPacket
    else
      var next := pos + 1 + c[pos];
      var more := Joined(ret, c[pos + 1..next]);
      if multi then GetText(c, next, end, multi, more) else Printed(more, next)
  }

  method TxtEscape(s: Bytes) returns (r: Bytes)
    ensures r == EscapeText(s)
  {
    r := [];
    var i := 0;
    assert s[0..] == s;
    while i < |s|
      invariant 0 <= i <= |s| && r + EscapeText(s[i..]) == EscapeText(s)
    {
      MoreText(s, i, r);
      var letter := s[i];
      if letter >= 127 || letter < 32 { r := r + Decimal(letter); }
      else if letter == QUOTE || letter == BACKSLASH { r := r + [BACKSLASH, letter]; }
      else { r := r + [letter]; }
      i := i + 1;
    }
  }

  lemma MoreText(s: Bytes, i: nat, r: Bytes)
    requires i < |s|
    ensures r + EscapeText(s[i..]) == (r + EscapeTextOctet(s[i])) + EscapeText(s[i + 1..])
  {
    assert s[i..][1..] == s[i + 1..];
  }

  class PacketReader {
    const content: Bytes
    const startRecord: nat
    const recordLength: nat
    var pos: nat

    constructor (content: Bytes, startRecord: nat, recordLength: nat)
      ensures this.content == content && this.startRecord == startRecord && this.recordLength == recordLength
      ensures pos == startRecord
    {
      this.content, this.startRecord, this.recordLength, pos := content, startRecord, recordLength, startRecord;
    }

    /** getText with a length before each string; none stands for the exception past the packet. */
    method ReadText(multi: bool) returns (r: Option<Bytes>)
      modifies this
      ensures var g := GetText(content, old(pos), startRecord + recordLength, multi, []);
              && (r.Some? <==> g.Printed?) && (r.Some? ==> r.value == g.text && pos == g.pos)
    {
      var ret: Bytes := [];
      var end := startRecord + recordLength;
      ghost var g := GetText(content, pos, end, multi, []);
      while pos < end
        invariant g == GetText(content, pos, end, multi, ret)
        decreases end - pos
      {
        if pos >= |content| { return None; }
        var len := content[pos];
        pos := pos + 1;
        if pos + len > |content| { return None; }
        ret := Join(ret, content[pos..pos + len]);
        pos := pos + len;
        if !multi { return Some(ret); }
      }
      r := Some(ret);
    }
  }

  method Join(before: Bytes, s: Bytes) returns (ret: Bytes)
    ensures ret == Joined(before, s)
  {
    ret := before;
    if ret != [] { ret := ret + [SPACE]; }
    ret := ret + [QUOTE];
    var text := TxtEscape(s);
    ret := ret + text;
    ret := ret + [QUOTE];
  }

  // ---------------------------------------------------------------- the state machine

  /** State, segments so far, the current one, and the number being read. */
  datatype TextMachine = TextMachine(cs: nat, ret: seq<Bytes>, segment: Bytes, val: Byte)

  /** appendSplit: a segment of 255 octets is full. */
  function AppendSplit(m: TextMachine, c: Byte): TextMachine {
    if |m.segment| > 254 then m.(ret := m.ret + [m.segment], segment := [c]) else m.(segment := m.segment + [c])
  }

  function Push(m: TextMachine): TextMachine {
    m.(ret := m.ret + [m.segment], segment := [])
  }

  function Digit(m: TextMachine, c: Byte): TextMachine {
    var v: Byte := (m.val as int * 10 + c as int - 48) % 256;
    m.(val := v)
  }

  function Value(m: TextMachine): TextMachine {
    AppendSplit(m, m.val).(val := 0)
  }

  /** One character: the transitions of the generated tables. */
  function TextStep(m: TextMachine, c: Byte): TextMachine {
    match m.cs
    case 1 => // before the first quote
      if c == QUOTE then m.(segment := [], cs := 2) else m.(cs := 0)
    case 2 => // in a string
      if c == QUOTE then m.(cs := 7) else if c == BACKSLASH then m.(cs := 3) else AppendSplit(m, c).(cs := 2)
    case 3 => // after a backslash
      if IsDigit(c) then Digit(m, c).(cs := 4) else AppendSplit(m, c).(cs := 2)
    case 4 => // after one digit
      if IsDigit(c) then Digit(m, c).(cs := 5) else m.(cs := 0)
    case 5 => // after two
      if IsDigit(c) then Digit(m, c).(cs := 6) else m.(cs := 0)
    case 6 => // after three
      if c == QUOTE then Value(m).(cs := 7)
      else if c == BACKSLASH then Value(m).(cs := 3)
      else AppendSplit(Value(m), c).(cs := 2)
    case 7 => // after a string
      if c == SPACE || 9 <= c <= 13 then m.(cs := 8) else if c == QUOTE then Push(m).(cs := 2) else m.(cs := 0)
    case 8 => // between strings
      if c == QUOTE then Push(m).(cs := 2) else m.(cs := 0)
    case _ => m
  }

  function TextRun(m: TextMachine, s: Bytes): TextMachine
    decreases |s|
  {
    if s == [] then m else TextRun(TextStep(m, s[0]), s[1..])
  }

  const TEXT_START := TextMachine(1, [], [], 0)

  /** segmentDNSText; none stands for its exception. */
  function SegmentText(text: Bytes): Option<seq<Bytes>> {
    var m := TextRun(TEXT_START, text);
    if m.cs < 7 then None else Some(Push(m).ret)
  }

  method SegmentDNSText(text: Bytes) returns (r: Option<seq<Bytes>>)
    ensures r == SegmentText(text)
  {
    var m := TEXT_START;
    var p := 0;
    assert text[0..] == text;
    while p != |text|
      invariant 0 <= p <= |text| && TextRun(TEXT_START, text) == TextRun(m, text[p..])
      decreases |text| - p
    {
      assert text[p..][1..] == text[p + 1..];
      m := TextStep(m, text[p]);
      p := p + 1;
      if m.cs == 0 { TextStuck(m, text[p..]); break; }
    }
    if m.cs >= 7 { m := Push(m); }
    r := if m.cs < 7 then None else Some(m.ret);
  }

  lemma {:induction false} TextStuck(m: TextMachine, s: Bytes)
    requires m.cs == 0
    ensures TextRun(m, s) == m
    decreases |s|
  {
    if s != [] { TextStuck(m, s[1..]); }
  }

  // ---------------------------------------------------------------- writing

  /** Every string after its length. */
  function Rdata(strings: seq<Bytes>): Bytes {
    if strings == [] then []
    else
      var n: Byte := |strings[0]| % 256;
      [n] + strings[0] + Rdata(strings[1..])
  }

  /** xfrText with lengths: what is appended to the packet. */
  function XfrText(text: Bytes): Option<Bytes> {
    if text == [] then Some([0])
    else match SegmentText(text) case None => None case Some(segments) => Some(Rdata(segments))
  }

  method WriteText(content: Bytes, text: Bytes) returns (ok: bool, r: Bytes)
    ensures ok <==> XfrText(text).Some?
    ensures r == if ok then content + XfrText(text).value else content
  {
    if text == [] { return true, content + [0]; }
    var segments := SegmentDNSText(text);
    if segments.None? { return false, content; }
    r := content;
    var i := 0;
    var all := segments.value;
    assert all[0..] == all;
    while i < |all|
      invariant 0 <= i <= |all| && r + Rdata(all[i..]) == content + Rdata(all)
    {
      ghost var rest := all[i..];
      assert rest[1..] == all[i + 1..];
      r := r + [|all[i]| % 256] + all[i];
      i := i + 1;
    }
    ok := true;
  }
}
