/** Base32 with the extended hex alphabet (section 7 of RFC 4648), as NSEC3 owner names use it. */
module Base32 {
  import opened DnsName
  import opened Words

  const EQUALS: Byte := 61

  /** The octet at i of a C string, which a zero octet follows. */
  function Octet(s: Bytes, i: nat): Word {
    Bits(if i < |s| then s[i] else 0, 8)
  }

  /** The bit at i of a string of octets. */
  function StreamBit(s: Bytes, i: nat): bool {
    Octet(s, i / 8)[i % 8]
  }

  /** cl << 8 | cc: the octet at a bit, and the next one if five bits reach into it. */
  function TwoOctets(s: Bytes, start: nat): (r: Word)
    ensures |r| == 16
  {
    Octet(s, start / 8) + if start / 8 < (start + 4) / 8 then Octet(s, start / 8 + 1) else Zeros(8)
  }

  lemma TwoOctetsBit(s: Bytes, start: nat, j: nat)
    requires j < 5
    ensures TwoOctets(s, start)[start % 8 + j] == StreamBit(s, start + j)
  {
    if start % 8 + j < 8 {
      assert (start + j) / 8 == start / 8 && (start + j) % 8 == start % 8 + j;
    } else {
      assert (start + j) / 8 == start / 8 + 1 && (start + j) % 8 == start % 8 + j - 8;
    }
  }

  /** >> (16 - (5 + start % 8)) & (0xffff >> 11). */
  function Field(s: Bytes, start: nat): (r: Word)
    ensures |r| == 16 && forall i | 0 <= i < 11 :: !r[i]
  {
    And(Shr(TwoOctets(s, start), 11 - start % 8), Shr(Ones(16), 11))
  }

  /** extract_bits of five bits. */
  function ExtractBits(s: Bytes, start: nat): (r: nat)
    ensures r < 32 && r == Value(Field(s, start)[11..])
  {
    ValueOfTail(Field(s, start), 11);
    BitsOfValue(Field(s, start)[11..]);
    assert Pow2(5) == 32;
    Value(Field(s, start))
  }

  function FiveBits(s: Bytes, start: nat): Word {
    [StreamBit(s, start), StreamBit(s, start + 1), StreamBit(s, start + 2), StreamBit(s, start + 3), StreamBit(s, start + 4)]
  }

  lemma FiveBit(s: Bytes, start: nat, d: nat)
    requires d < 5
    ensures FiveBits(s, start)[d] == StreamBit(s, start + d)
  {
    if d == 0 {} else if d == 1 {} else if d == 2 {} else if d == 3 {} else {}
  }

  /** They are the five bits of the string from there on. */
  lemma Extracted(s: Bytes, start: nat)
    ensures Bits(ExtractBits(s, start), 5) == FiveBits(s, start)
  {
    var x, five := Field(s, start), FiveBits(s, start);
    forall j | 0 <= j < 5 ensures x[11..][j] == five[j] {
      TwoOctetsBit(s, start, j);
      FiveBit(s, start, j);
      assert Shr(TwoOctets(s, start), 11 - start % 8)[11 + j] == TwoOctets(s, start)[start % 8 + j];
    }
    assert x[11..] == five;
    BitsOfValue(five);
  }

  lemma ExtractedBit(s: Bytes, start: nat, d: nat)
    requires d < 5
    ensures Bits(ExtractBits(s, start), 5)[d] == StreamBit(s, start + d)
  {
    Extracted(s, start);
    FiveBit(s, start, d);
  }

  type Block = s: Bytes | |s| == 5 witness [0, 0, 0, 0, 0]

  /** |= on an octet. */
  function OrOctet(a: Byte, b: Word): Byte
    requires |b| == 8
  {
    OctetValue(Or(Bits(a, 8), b));
    Value(Or(Bits(a, 8), b))
  }

  /** set_bits of five bits: the octets of x << shift, the last of them into the octet the five bits
      end in. */
  function SetBits(block: Block, x: nat, start: nat): Block
    requires start <= 35
  {
    var shift := (8 - (start + 5) % 8) % 8;
    var y := Shl(Bits(x, 32), shift);
    var at := start / 8;
    if shift + 5 > 8 && at < 4 then block[at := OrOctet(block[at], y[16..24])][at + 1 := OrOctet(block[at + 1], y[24..32])]
    else block[at := OrOctet(block[at], y[24..32])]
  }

  /** The alphabet. */
  function Digit(v: nat): Byte
    requires v < 32
  {
    if v < 10 then 48 + v else 87 + v
  }

  /** unbase32hex: a value below 36, the stuffing character, or an error. */
  function Undigit(c: Byte): (r: int)
    ensures r == -1 || r == EQUALS || 0 <= r < 36
  {
    if 48 <= c <= 57 then c as int - 48
    else if 97 <= c <= 122 then 10 + (c as int - 97)
    else if 65 <= c <= 90 then 10 + (c as int - 65)
    else if c == EQUALS then EQUALS
    else -1
  }

  lemma DigitBack(v: nat)
    requires v < 32
    ensures Undigit(Digit(v)) == v
  {}

  // ---------------------------------------------------------------- encoding

  /** How many characters a group of `todo` octets makes; the rest of eight is stuffing. */
  function Chars(todo: nat): (r: nat)
    ensures r <= 8
  {
    match todo
    case 1 => 2
    case 2 => 4
    case 3 => 5
    case 4 => 7
    case _ => 8
  }

  function Repeat(c: Byte, n: nat): (r: Bytes)
    ensures |r| == n
  {
    seq(n, i => c)
  }

  /** Character i of a group. */
  function Char(s: Bytes, i: nat): Byte {
    Digit(ExtractBits(s, 5 * i))
  }

  /** The first n characters of a group. */
  function Group(s: Bytes, n: nat): (r: Bytes)
    requires n <= 8
    ensures |r| == n
  {
    seq(n, i requires 0 <= i < n => Char(s, i))
  }

  /** The characters for the octets from `offset` on. */
  function Encode(input: Bytes, offset: nat): Bytes
    decreases |input| - offset
  {
    if offset >= |input| then []
    else
      var n := Chars(|input| - offset);
      Group(input[offset..], n) + Repeat(EQUALS, 8 - n) + Encode(input, offset + 5)
  }

  method EncodeGroup(s: Bytes, chars: nat) returns (ret: Bytes)
    requires chars <= 8
    ensures ret == Group(s, chars)
  {
    ret := [];
    for n := 0 to chars
      invariant ret == Group(s, n)
    {
      ret := ret + [Digit(ExtractBits(s, n * 5))];
    }
  }

  method ToBase32Hex(input: Bytes) returns (ret: Bytes)
    ensures ret == Encode(input, 0)
  {
    ret := [];
    var offset := 0;
    while offset < |input|
      invariant 0 <= offset
      invariant Encode(input, 0) == ret + Encode(input, offset)
      decreases |input| - offset
    {
      var todo := |input| - offset;
      var stuffing := match todo case 1 => 6 case 2 => 4 case 3 => 3 case 4 => 1 case _ => 0;
      var group := EncodeGroup(input[offset..], 8 - stuffing);
      MoreGroups(input, offset, ret);
      ret := ret + group + Repeat(EQUALS, stuffing);
      offset := offset + 5;
    }
  }

  lemma MoreGroups(input: Bytes, offset: nat, ret: Bytes)
    requires offset < |input|
    ensures var n := Chars(|input| - offset);
            ret + Encode(input, offset) == (ret + Group(input[offset..], n) + Repeat(EQUALS, 8 - n)) + Encode(input, offset + 5)
  {}

  // ---------------------------------------------------------------- decoding

  const ZERO: Block := [0, 0, 0, 0, 0]

  /** The characters from n on, with `count` of a group in the block already. */
  function DecodeFrom(input: Bytes, n: nat, block: Block, count: nat): Bytes
    requires n <= |input| && count < 8
    decreases |input| - n
  {
    if n == |input| || Undigit(input[n]) == EQUALS || Undigit(input[n]) < 0 then block[..count * 5 / 8]
    else
      var next := SetBits(block, Undigit(input[n]), count * 5);
      if count + 1 == 8 then next + DecodeFrom(input, n + 1, ZERO, 0)
      else DecodeFrom(input, n + 1, next, count + 1)
  }

  function Decode(input: Bytes): Bytes {
    DecodeFrom(input, 0, ZERO, 0)
  }

  method FromBase32Hex(input: Bytes) returns (ret: Bytes)
    ensures ret == Decode(input)
  {
    ret := [];
    var block: Block := ZERO;
    var n, toWrite := 0, 0;
    while n < |input|
      invariant n <= |input| && toWrite == n % 8
      invariant Decode(input) == ret + DecodeFrom(input, n, block, toWrite)
    {
      var c := Undigit(input[n]);
      if c == EQUALS || c < 0 { break; }
      MoreCharacters(input, n, block, toWrite, ret);
      NextInGroup(n);
      block := SetBits(block, c, n % 8 * 5);
      toWrite := toWrite + 1;
      if toWrite == 8 {
        ret := ret + block;
        block := ZERO;
        toWrite := 0;
      }
      n := n + 1;
    }
    ret := ret + block[..toWrite * 5 / 8];
  }

  lemma NextInGroup(n: nat)
    ensures (n + 1) % 8 == if n % 8 == 7 then 0 else n % 8 + 1
  {}

  lemma MoreCharacters(input: Bytes, n: nat, block: Block, count: nat, ret: Bytes)
    requires n < |input| && count < 8 && Undigit(input[n]) != EQUALS && Undigit(input[n]) >= 0
    ensures var next := SetBits(block, Undigit(input[n]), count * 5);
            ret + DecodeFrom(input, n, block, count)
            == if count == 7 then (ret + next) + DecodeFrom(input, n + 1, ZERO, 0)
               else ret + DecodeFrom(input, n + 1, next, count + 1)
  {}

  // ---------------------------------------------------------------- round trip

  /** A block that holds the first n bits of a string and no others. */
  ghost predicate Holds40(block: Block, s: Bytes, n: nat) {
    forall o, j | 0 <= o < 5 && 0 <= j < 8 :: Bits(block[o], 8)[j] == (8 * o + j < n && StreamBit(s, 8 * o + j))
  }

  lemma {:induction false} OrOctetBits(a: Byte, b: Word)
    requires |b| == 8
    ensures Bits(OrOctet(a, b), 8) == Or(Bits(a, 8), b)
  {
    OctetValue(Or(Bits(a, 8), b));
  }

  /** The high bits of a small number are clear. */
  lemma {:induction false} SmallBits(x: nat)
    requires x < 32
    ensures forall i | 0 <= i < 27 :: !Bits(x, 32)[i]
    ensures Bits(x, 32)[27..] == Bits(x, 5)
  {
    BitsSplit(x, 27, 5);
    assert Pow2(5) == 32;
    assert x / 32 == 0;
    ZeroBits(27);
  }

  lemma {:induction false} ZeroBits(w: nat)
    ensures Bits(0, w) == Zeros(w)
  {
    if w > 0 { ZeroBits(w - 1); }
  }

  function Halved(x: nat, v: nat): nat {
    if v == 0 then x else Halved(x / 2, v - 1)
  }

  lemma {:induction false} BitsHalved(x: nat, w: nat, v: nat)
    ensures Bits(x, w + v) == Bits(Halved(x, v), w) + Bits(x, v)
    decreases v
  {
    if v > 0 {
      BitsHalved(x / 2, w, v - 1);
      assert w + v - 1 == w + (v - 1);
      assert Bits(x, w + v) == Bits(x / 2, w + (v - 1)) + [x % 2 == 1];
      assert Bits(x, v) == Bits(x / 2, v - 1) + [x % 2 == 1];
    }
  }

  lemma BitsSplit(x: nat, w: nat, v: nat)
    requires v == 5
    ensures Bits(x, w + v) == Bits(x / 32, w) + Bits(x, v)
  {
    BitsHalved(x, w, v);
    assert Halved(x, 5) == Halved(x / 2, 4) == Halved(x / 2 / 2, 3) == Halved(x / 2 / 2 / 2, 2);
    assert Halved(x / 2 / 2 / 2, 2) == Halved(x / 2 / 2 / 2 / 2, 1) == x / 2 / 2 / 2 / 2 / 2 == x / 32;
  }

  /** The bits of x << shift. */
  lemma {:induction false} ShiftedBits(x: nat, shift: nat, k: nat)
    requires x < 32 && k < 32
    ensures Shl(Bits(x, 32), shift)[k] == (27 <= k + shift < 32 && Bits(x, 5)[k + shift - 27])
  {
    SmallBits(x);
    var b := Bits(x, 32);
    if 27 <= k + shift < 32 { assert b[k + shift] == b[27..][k + shift - 27]; }
  }

  /** Where five bits end, and how far the last of them is from the end of its octet. */
  lemma LastOctet(start: nat)
    requires start <= 35
    ensures var shift := (8 - (start + 5) % 8) % 8;
            var at, last := start / 8, (start + 4) / 8;
            && start + 5 + shift == 8 * last + 8 && last <= 4
            && ((shift + 5 > 8 && at < 4) <==> last == at + 1) && (last == at || last == at + 1)
  {}

  /** What the octets of a block become. */
  lemma {:induction false} SetOctet(block: Block, x: nat, start: nat, o: nat)
    requires start <= 35 && o < 5
    ensures var shift := (8 - (start + 5) % 8) % 8;
            var y := Shl(Bits(x, 32), shift);
            var at, last := start / 8, (start + 4) / 8;
            Bits(SetBits(block, x, start)[o], 8)
            == if o == last then Or(Bits(block[o], 8), y[24..32])
               else if o == at then Or(Bits(block[o], 8), y[16..24]) else Bits(block[o], 8)
  {
    LastOctet(start);
    var y := Shl(Bits(x, 32), (8 - (start + 5) % 8) % 8);
    OrOctetBits(block[o], y[24..32]);
    OrOctetBits(block[o], y[16..24]);
  }

  /** Setting five bits of a block sets those bits and no others. */
  lemma {:induction false} SetOctetBit(block: Block, x: nat, start: nat, o: nat, j: nat)
    requires start <= 35 && x < 32 && o < 5 && j < 8
    ensures var i := 8 * o + j;
            Bits(SetBits(block, x, start)[o], 8)[j]
            == (Bits(block[o], 8)[j] || (start <= i < start + 5 && Bits(x, 5)[i - start]))
  {
    var shift := (8 - (start + 5) % 8) % 8;
    var y := Shl(Bits(x, 32), shift);
    LastOctet(start);
    SetOctet(block, x, start, o);
    if o == (start + 4) / 8 {
      ShiftedBits(x, shift, 24 + j);
      assert y[24..32][j] == y[24 + j];
    } else if o == start / 8 {
      ShiftedBits(x, shift, 16 + j);
      assert y[16..24][j] == y[16 + j];
    }
  }

  /** r is the block with the five bits of x from start on set. */
  ghost predicate SetTo(r: Block, block: Block, x: nat, start: nat) {
    forall o, j | 0 <= o < 5 && 0 <= j < 8 ::
      Bits(r[o], 8)[j] == (Bits(block[o], 8)[j] || (start <= 8 * o + j < start + 5 && Bits(x, 5)[8 * o + j - start]))
  }

  lemma SetAll(block: Block, x: nat, start: nat)
    requires start <= 35 && x < 32
    ensures SetTo(SetBits(block, x, start), block, x, start) == true
  {
    var r := SetBits(block, x, start);
    forall o, j | 0 <= o < 5 && 0 <= j < 8
      ensures Bits(r[o], 8)[j] == (Bits(block[o], 8)[j] || (start <= 8 * o + j < start + 5 && Bits(x, 5)[8 * o + j - start]))
    {
      SetOctetBit(block, x, start, o, j);
    }
  }

  /** x holds the five bits of the string from start on. */
  ghost predicate HoldsFive(x: nat, s: Bytes, start: nat) {
    forall i {:trigger StreamBit(s, i)} | start <= i < start + 5 :: Bits(x, 5)[i - start] == StreamBit(s, i)
  }

  lemma ExtractedFive(s: Bytes, start: nat)
    ensures HoldsFive(ExtractBits(s, start), s, start) == true && ExtractBits(s, start) < 32
  {
    forall i {:trigger StreamBit(s, i)} | start <= i < start + 5 ensures Bits(ExtractBits(s, start), 5)[i - start] == StreamBit(s, i) {
      ExtractedBit(s, start, i - start);
    }
  }

  lemma NextHolds(r: Block, block: Block, x: nat, s: Bytes, start: nat)
    requires start <= 35 && Holds40(block, s, start) == true && SetTo(r, block, x, start) == true
    requires HoldsFive(x, s, start) == true
    ensures Holds40(r, s, start + 5) == true
  {}

  /** One more character of a group puts five more bits of the string into the block. */
  lemma SetNext(block: Block, s: Bytes, start: nat)
    requires start <= 35 && Holds40(block, s, start) == true
    ensures Holds40(SetBits(block, ExtractBits(s, start), start), s, start + 5) == true
  {
    var x := ExtractBits(s, start);
    ExtractedFive(s, start);
    SetAll(block, x, start);
    NextHolds(SetBits(block, x, start), block, x, s, start);
  }

  lemma ZeroHolds(s: Bytes)
    ensures Holds40(ZERO, s, 0)
  {
    ZeroBits(8);
  }

  /** The whole octets among the bits a block holds are those of the string. */
  lemma HeldOctets(block: Block, s: Bytes, n: nat, k: nat)
    requires Holds40(block, s, n) && 8 * k <= n && k <= 5 && k <= |s|
    ensures block[..k] == s[..k]
  {
    forall i | 0 <= i < k ensures block[i] == s[i] {
      forall j | 0 <= j < 8 ensures Bits(block[i], 8)[j] == Bits(s[i], 8)[j] {
        assert (8 * i + j) / 8 == i && (8 * i + j) % 8 == j;
      }
      assert Bits(block[i], 8) == Bits(s[i], 8);
      OctetBits(block[i]);
      OctetBits(s[i]);
    }
  }

  lemma DecodeStep(e: Bytes, n: nat, block: Block, count: nat, v: nat)
    requires n < |e| && count < 7 && v < 32 && e[n] == Digit(v)
    ensures DecodeFrom(e, n, block, count) == DecodeFrom(e, n + 1, SetBits(block, v, 5 * count), count + 1)
  {
    DigitBack(v);
    assert count * 5 == 5 * count;
  }

  /** Characters n and on are the first `chars` of the group s. */
  ghost predicate GroupAt(e: Bytes, n: nat, s: Bytes, chars: nat) {
    n + chars <= |e| && forall k {:trigger Char(s, k)} | 0 <= k < chars :: e[n + k] == Char(s, k)
  }

  /** Where the characters of a group stand, the decoder gathers the bits of the group. */
  lemma {:induction false} DecodeGroup(e: Bytes, n: nat, s: Bytes, chars: nat) returns (full: Block)
    requires chars < 8 && GroupAt(e, n, s, chars)
    ensures Holds40(full, s, 5 * chars) == true
    ensures DecodeFrom(e, n, ZERO, 0) == DecodeFrom(e, n + chars, full, chars)
  {
    if chars == 0 {
      full := ZERO;
      ZeroHolds(s);
    } else {
      var k := chars - 1;
      var block := DecodeGroup(e, n, s, k);
      assert e[n + k] == Char(s, k);
      var start := 5 * k;
      DecodeStep(e, n + k, block, k, ExtractBits(s, start));
      SetNext(block, s, start);
      full := SetBits(block, ExtractBits(s, start), start);
      assert k * 5 == start && 5 * chars == start + 5;
    }
  }

  /** A full group decodes to its five octets. */
  lemma DecodeFull(e: Bytes, n: nat, s: Bytes)
    requires |s| >= 5 && GroupAt(e, n, s, 8)
    ensures DecodeFrom(e, n, ZERO, 0) == s[..5] + DecodeFrom(e, n + 8, ZERO, 0)
  {
    var block := DecodeGroup(e, n, s, 7);
    assert e[n + 7] == Char(s, 7);
    DigitBack(ExtractBits(s, 35));
    SetNext(block, s, 35);
    var next := SetBits(block, ExtractBits(s, 35), 35);
    HeldOctets(next, s, 40, 5);
    assert next == next[..5];
  }

  /** A shorter one, with its stuffing, to what there is of it. */
  lemma {:induction false} DecodeShort(e: Bytes, n: nat, s: Bytes)
    requires 1 <= |s| < 5 && GroupAt(e, n, s, Chars(|s|)) && n + Chars(|s|) < |e| && e[n + Chars(|s|)] == EQUALS
    ensures DecodeFrom(e, n, ZERO, 0) == s
  {
    var chars := Chars(|s|);
    var block := DecodeGroup(e, n, s, chars);
    assert chars * 5 / 8 == |s|;
    HeldOctets(block, s, 5 * chars, |s|);
    assert s[..|s|] == s;
  }

  lemma GroupStands(e: Bytes, n: nat, input: Bytes, offset: nat)
    requires offset < |input| && n <= |e| && e[n..] == Encode(input, offset)
    ensures var chars := Chars(|input| - offset);
            && GroupAt(e, n, input[offset..], chars) && n + 8 <= |e|
            && (chars < 8 ==> e[n + chars] == EQUALS)
            && e[n + 8..] == Encode(input, offset + 5)
  {
    var chars, rest := Chars(|input| - offset), input[offset..];
    var g, p, t := Group(rest, chars), Repeat(EQUALS, 8 - chars), Encode(input, offset + 5);
    var w := e[n..];
    assert w == g + p + t;
    forall k | 0 <= k < chars ensures e[n + k] == Char(rest, k) {
      assert e[n + k] == w[k] == g[k];
    }
    if chars < 8 { assert e[n + chars] == w[chars] == p[0]; }
    assert w[8..] == t;
    assert e[n + 8..] == e[n..][8..];
  }

  /** From character n on, what is left of the input is decoded. */
  ghost predicate Decodes(e: Bytes, n: nat, input: Bytes, offset: nat)
    requires offset <= |input| && n <= |e|
  {
    DecodeFrom(e, n, ZERO, 0) == input[offset..]
  }

  lemma DecodesNothing(e: Bytes, input: Bytes)
    ensures Decodes(e, |e|, input, |input|) == true
  {
    assert input[|input|..] == [];
  }

  lemma DecodesLast(e: Bytes, n: nat, input: Bytes, offset: nat)
    requires offset < |input| < offset + 5 && n <= |e| && e[n..] == Encode(input, offset)
    ensures Decodes(e, n, input, offset) == true
  {
    GroupStands(e, n, input, offset);
    DecodeShort(e, n, input[offset..]);
  }

  lemma DecodesOn(e: Bytes, n: nat, input: Bytes, offset: nat)
    requires offset + 5 <= |input| && n + 8 <= |e| && GroupAt(e, n, input[offset..], 8) && Decodes(e, n + 8, input, offset + 5)
    ensures Decodes(e, n, input, offset) == true
  {
    DecodeFull(e, n, input[offset..]);
    assert input[offset..] == input[offset..][..5] + input[offset + 5..];
  }

  lemma {:induction false} DecodeEncode(e: Bytes, n: nat, input: Bytes, offset: nat)
    requires offset <= |input| && n <= |e| && e[n..] == Encode(input, offset)
    ensures Decodes(e, n, input, offset) == true
    decreases |input| - offset
  {
    if offset == |input| {
      assert |e[n..]| == 0;
      DecodesNothing(e, input);
    } else if |input| - offset < 5 {
      DecodesLast(e, n, input, offset);
    } else {
      GroupStands(e, n, input, offset);
      DecodeEncode(e, n + 8, input, offset + 5);
      DecodesOn(e, n, input, offset);
    }
  }

  /** Decoding what was encoded gives it back, for every string of octets. */
  lemma {:induction false} RoundTrip(x: Bytes)
    ensures Decode(Encode(x, 0)) == x
  {
    var e := Encode(x, 0);
    assert e[0..] == e && x[0..] == x;
    DecodeEncode(e, 0, x, 0);
  }

  lemma UndigitFolds(a: Byte, b: Byte)
    requires Lower(a) == Lower(b)
    ensures Undigit(a) == Undigit(b)
  {}

  ghost predicate SameDecode(a: Bytes, b: Bytes, n: nat, block: Block, count: nat)
    requires n <= |a| == |b| && count < 8
  {
    DecodeFrom(a, n, block, count) == DecodeFrom(b, n, block, count)
  }

  predicate Ends(input: Bytes, n: nat)
    requires n <= |input|
  {
    n == |input| || Undigit(input[n]) == EQUALS || Undigit(input[n]) < 0
  }

  lemma SameAtEnd(a: Bytes, b: Bytes, n: nat, block: Block, count: nat)
    requires n <= |a| == |b| && count < 8 && Ends(a, n) && Ends(b, n)
    ensures SameDecode(a, b, n, block, count) == true
  {}

  lemma SameOn(a: Bytes, b: Bytes, n: nat, block: Block, count: nat, next: Block)
    requires n < |a| == |b| && count < 8 && !Ends(a, n) && !Ends(b, n)
    requires next == SetBits(block, Undigit(a[n]), count * 5) == SetBits(block, Undigit(b[n]), count * 5)
    requires if count == 7 then SameDecode(a, b, n + 1, ZERO, 0) else SameDecode(a, b, n + 1, next, count + 1)
    ensures SameDecode(a, b, n, block, count) == true
  {}

  /** Letters decode alike in either case. */
  lemma {:induction false} DecodeFolds(a: Bytes, b: Bytes, n: nat, block: Block, count: nat)
    requires FoldEq(a, b) && n <= |a| && count < 8
    ensures SameDecode(a, b, n, block, count) == true
    decreases |a| - n
  {
    if n < |a| {
      assert Lower(a[n]) == Lower(b[n]);
      UndigitFolds(a[n], b[n]);
    }
    if Ends(a, n) {
      SameAtEnd(a, b, n, block, count);
    } else {
      var next := SetBits(block, Undigit(a[n]), count * 5);
      if count == 7 { DecodeFolds(a, b, n + 1, ZERO, 0); } else { DecodeFolds(a, b, n + 1, next, count + 1); }
      SameOn(a, b, n, block, count, next);
    }
  }
}
