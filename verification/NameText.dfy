/** The text form of names (section 5.1 of RFC 1035): printing with escapes, and the two ways of
    reading, one for text without escapes and the generated state machine for the rest. */
module NameText {
  import opened Wrappers
  import opened DnsName

  const DOT: Byte := 46
  const BACKSLASH: Byte := 92
  const MAX_TEXT := 254

  datatype TextError = DotInWrongPosition | LabelTooLong | NameTooLong | Unparsable

  // ---------------------------------------------------------------- printing

  /** A backslash and three decimal digits. */
  function Decimal(b: Byte): (r: Bytes)
    ensures |r| == 4
  {
    var x: Byte, y: Byte, z: Byte := 48 + b / 100, 48 + b / 10 % 10, 48 + b % 10;
    [BACKSLASH, x, y, z]
  }

  /** The digits, read one after the other, make the number. */
  lemma DecimalDigits(b: Byte)
    ensures var d := Decimal(b);
            && IsDigit(d[1]) && IsDigit(d[2]) && IsDigit(d[3])
            && d[1] - 48 == b / 100 && 10 * (b / 100) + d[2] - 48 == b / 10 && 10 * (b / 10) + d[3] - 48 == b
  {}

  /** Printed as they are: visible characters but the dot and the backslash. */
  predicate IsPlain(b: Byte) {
    32 < b < 127 && b != DOT && b != BACKSLASH
  }

  /** One octet of appendEscapedLabel. */
  function EscapeOctet(b: Byte): (r: Bytes)
    ensures r != []
  {
    if b == DOT then [BACKSLASH, DOT]
    else if b == BACKSLASH then [BACKSLASH, BACKSLASH]
    else if 32 < b < 127 then [b]
    else Decimal(b)
  }

  function Escape(l: Bytes): Bytes {
    if l == [] then [] else EscapeOctet(l[0]) + Escape(l[1..])
  }

  /** The labels in text form, each with a dot after it. */
  function TextOf(ls: Labels): Bytes {
    if ls == [] then [] else Escape(ls[0]) + [DOT] + TextOf(ls[1..])
  }

  /** toString() of a name that is set. */
  function Print(ls: Labels): Bytes {
    if ls == [] then [DOT] else TextOf(ls)
  }

  method AppendEscapedLabel(output: Bytes, raw: Bytes) returns (r: Bytes)
    ensures r == output + Escape(raw)
  {
    r := output;
    var pos := 0;
    assert raw[0..] == raw;
    while pos < |raw|
      invariant 0 <= pos <= |raw|
      invariant r + Escape(raw[pos..]) == output + Escape(raw)
    {
      var p := raw[pos];
      MoreEscaped(raw, pos, r);
      if p == DOT {
        r := r + [BACKSLASH, DOT];
      } else if p == BACKSLASH {
        r := r + [BACKSLASH, BACKSLASH];
      } else if p > 32 && p < 127 {
        r := r + [p];
      } else {
        r := r + Decimal(p);
      }
      pos := pos + 1;
    }
  }

  lemma MoreEscaped(raw: Bytes, pos: nat, r: Bytes)
    requires pos < |raw|
    ensures r + Escape(raw[pos..]) == (r + EscapeOctet(raw[pos])) + Escape(raw[pos + 1..])
  {
    var rest := raw[pos..];
    assert rest[1..] == raw[pos + 1..];
  }

  method ToString(storage: Bytes, ghost ls: Labels) returns (output: Bytes)
    requires ValidLabels(ls) && storage == Wire(ls)
    ensures output == Print(ls)
  {
    if |storage| == 1 { return [DOT]; }
    output := [];
    var p: nat := 0;
    ghost var k: nat := 0;
    WalkStart(storage, ls);
    while p < |storage| && storage[p] != 0
      invariant WalkAt(storage, ls, p, k) == true
      invariant k <= |ls| && output + TextFrom(ls, k) == TextFrom(ls, 0)
      decreases |ls| - k
    {
      WalkOn(storage, ls, p, k);
      MoreText(ls, k, output);
      var len := storage[p];
      output := AppendEscapedLabel(output, storage[p + 1..p + 1 + len]);
      output := output + [DOT];
      p := p + len + 1;
      k := k + 1;
    }
    WalkEnd(storage, ls, p, k);
    TextFromIs(ls, 0);
  }

  /** The text of the labels from k on. */
  ghost function TextFrom(ls: Labels, k: nat): Bytes
    requires k <= |ls|
    decreases |ls| - k
  {
    if k == |ls| then [] else Escape(ls[k]) + [DOT] + TextFrom(ls, k + 1)
  }

  lemma {:induction false} TextFromIs(ls: Labels, k: nat)
    requires k <= |ls|
    ensures TextFrom(ls, k) == TextOf(ls[k..])
    decreases |ls| - k
  {
    if k < |ls| {
      assert ls[k..][0] == ls[k] && ls[k..][1..] == ls[k + 1..];
      TextFromIs(ls, k + 1);
    }
  }

  lemma MoreText(ls: Labels, k: nat, output: Bytes)
    requires k < |ls|
    ensures output + TextFrom(ls, k) == (output + Escape(ls[k]) + [DOT]) + TextFrom(ls, k + 1)
  {}

  // ---------------------------------------------------------------- the state machine

  /** The machine's state, the name so far, where the length of the current label goes, its length and
      the number being read; both are eight bits wide.  State 0 is an error. */
  datatype Machine = Machine(cs: nat, ret: Bytes, lenpos: nat, labellen: Byte, val: Byte)

  function StartLabel(m: Machine): Machine {
    m.(lenpos := |m.ret|, ret := m.ret + [0], labellen := 0)
  }

  /** The length goes where the label started; a label that is too long is an exception. */
  function EndLabel(m: Machine): Machine {
    if m.labellen > 63 || m.lenpos >= |m.ret| then m.(cs := 0)
    else m.(ret := m.ret[m.lenpos := m.labellen], labellen := 0)
  }

  function Append(m: Machine, c: Byte): Machine {
    var n: Byte := (m.labellen + 1) % 256;
    m.(ret := m.ret + [c], labellen := n)
  }

  function AppendVal(m: Machine): Machine {
    Append(m, m.val).(val := 0)
  }

  function AddDigit(m: Machine, c: Byte): Machine {
    var v: Byte := (m.val as int * 10 + c as int - 48) % 256;
    m.(val := v)
  }

  function Go(m: Machine, cs: nat): Machine {
    if m.cs == 0 then m else m.(cs := cs)
  }

  function Error(m: Machine): Machine {
    m.(cs := 0)
  }

  predicate IsDigit(c: Byte) { 48 <= c <= 57 }

  /** One character: the transitions of the generated tables. */
  function Step(m: Machine, c: Byte): Machine {
    match m.cs
    case 1 => // nothing read yet
      if c == DOT then Error(m)
      else if c == BACKSLASH then Go(StartLabel(m), 2)
      else Go(Append(StartLabel(m), c), 5)
    case 2 => // after a backslash
      if IsDigit(c) then Go(AddDigit(m, c), 3) else Go(Append(m, c), 5)
    case 3 => // after one digit
      if IsDigit(c) then Go(AddDigit(m, c), 4) else Error(m)
    case 4 => // after two
      if IsDigit(c) then Go(AddDigit(m, c), 7) else Error(m)
    case 5 => // in a label
      if c == DOT then Go(EndLabel(m), 6)
      else if c == BACKSLASH then Go(m, 2)
      else Go(Append(m, c), 5)
    case 6 => // after a dot
      if c == DOT then Error(m)
      else if c == BACKSLASH then Go(StartLabel(m), 2)
      else Go(Append(StartLabel(m), c), 5)
    case 7 => // after three digits
      if c == DOT then Go(EndLabel(AppendVal(m)), 6)
      else if c == BACKSLASH then Go(AppendVal(m), 2)
      else Go(Append(AppendVal(m), c), 5)
    case _ => m
  }

  function Run(m: Machine, s: Bytes): Machine
    decreases |s|
  {
    if s == [] then m else Run(Step(m, s[0]), s[1..])
  }

  /** At the end of the text an open label ends as well. */
  function AtEnd(m: Machine): Machine {
    match m.cs
    case 5 => EndLabel(m)
    case 7 => EndLabel(AppendVal(m))
    case _ => m
  }

  const START := Machine(1, [], 0, 0, 0)

  /** segmentDNSNameRaw. */
  function Segment(text: Bytes): Result<Bytes, TextError> {
    if text == [] || text[0] == 0 || text[0] == DOT then Success([0])
    else
      var m := AtEnd(Run(START, text));
      if m.cs < 5 then Failure(Unparsable) else Success(m.ret + [0])
  }

  method SegmentDNSNameRaw(text: Bytes) returns (r: Result<Bytes, TextError>)
    ensures r == Segment(text)
  {
    if text == [] || text[0] == 0 || text[0] == DOT { return Success([0]); }
    var m := START;
    var p := 0;
    assert text[0..] == text;
    while p != |text|
      invariant 0 <= p <= |text| && Run(START, text) == Run(m, text[p..])
      decreases |text| - p
    {
      ghost var rest := text[p..];
      assert rest[1..] == text[p + 1..];
      m := Step(m, text[p]);
      p := p + 1;
      if m.cs == 0 { Stuck(m, text[p..]); break; }
    }
    if m.cs != 0 { m := AtEnd(m); }
    r := if m.cs < 5 then Failure(Unparsable) else Success(m.ret + [0]);
  }

  lemma {:induction false} Stuck(m: Machine, s: Bytes)
    requires m.cs == 0
    ensures Run(m, s) == m
  {
    if s != [] { Stuck(m, s[1..]); }
  }

  // ---------------------------------------------------------------- text without escapes

  function NextDot(text: Bytes, p: nat): (q: nat)
    requires p <= |text|
    ensures p <= q <= |text| && (forall k | p <= k < q :: text[k] != DOT) && (q < |text| ==> text[q] == DOT)
    decreases |text| - p
  {
    if p == |text| || text[p] == DOT then p else NextDot(text, p + 1)
  }

  /** The labels from p on; the count of a label's characters is eight bits wide. */
  function Split(text: Bytes, p: nat, storage: Bytes): Result<Bytes, TextError>
    requires p <= |text|
    decreases |text| - p
  {
    if p == |text| then Success(storage + [0])
    else if text[p] == DOT then Failure(DotInWrongPosition)
    else
      var q := NextDot(text, p);
      var len: Byte := (q - p) % 256;
      var next := if q < |text| then q + 1 else q;
      if len > 63 then Failure(LabelTooLong)
      else if next > MAX_TEXT then Failure(NameTooLong)
      else Split(text, next, storage + [len] + text[p..q])
  }

  /** DNSName(string_view). */
  function Read(text: Bytes): Result<Bytes, TextError> {
    if text == [] || text == [DOT] then Success([0])
    else if BACKSLASH !in text then Split(text, 0, [])
    else
      var r := Segment(text);
      if r.Success? && |r.value| > 255 then Failure(NameTooLong) else r
  }

  method ReadName(text: Bytes) returns (r: Result<Bytes, TextError>)
    ensures r == Read(text)
  {
    if text == [] || text == [DOT] { return Success([0]); }
    if BACKSLASH in text {
      r := SegmentDNSNameRaw(text);
      if r.Success? && |r.value| > 255 { r := Failure(NameTooLong); }
      return;
    }
    var storage: Bytes := [];
    var iter := 0;
    while iter != |text|
      invariant 0 <= iter <= |text| && Split(text, 0, []) == Split(text, iter, storage)
      decreases |text| - iter
    {
      if text[iter] == DOT { return Failure(DotInWrongPosition); }
      var begin := iter;
      var q, labellen := CountLabel(text, begin);
      iter := if q != |text| then q + 1 else q;
      if labellen > 63 { return Failure(LabelTooLong); }
      if iter > MAX_TEXT { return Failure(NameTooLong); }
      storage := storage + [labellen] + text[begin..q];
    }
    r := Success(storage + [0]);
  }

  method CountLabel(text: Bytes, begin: nat) returns (iter: nat, labellen: Byte)
    requires begin <= |text|
    ensures iter == NextDot(text, begin) && labellen == (iter - begin) % 256
  {
    iter := begin;
    labellen := 0;
    while iter != |text| && text[iter] != DOT
      invariant begin <= iter <= |text| && labellen == (iter - begin) % 256
      invariant NextDot(text, begin) == NextDot(text, iter)
      decreases |text| - iter
    {
      labellen := (labellen + 1) % 256;
      iter := iter + 1;
    }
  }
}
