/** The keys a NetmaskTree is asked about: an address family and the network bits, which are the
    leading bits that remain once the host bits have been cleared. */
module NetmaskKey {
  import opened PatriciaTrie

  datatype Family = NoFamily | IPv4 | IPv6

  datatype Key = Key(family: Family, bits: seq<bool>)
  {
    /** getBits(): the prefix length. */
    function Bits(): nat { |bits| }

    function FullBits(): nat {
      match family
      case NoFamily => 0
      case IPv4 => 32
      case IPv6 => 128
    }

    ghost predicate Valid() { |bits| <= FullBits() }

    /** getBit(-1 - i): the i-th bit from the top, 0 outside the network bits. */
    function Bit(i: nat): bool { i < |bits| && bits[i] }

    /** getSuper(): the enclosing network with at most `width` bits. */
    function Super(width: nat): Key {
      if width <= |bits| then Key(family, bits[..width]) else this
    }
  }

  const ROOT_KEY := Key(NoFamily, [])

  /** Where a key sits in the tree: left below the root for IPv4, right for IPv6. */
  function PosOf(k: Key): Pos {
    match k.family
    case NoFamily => k.bits
    case IPv4 => [false] + k.bits
    case IPv6 => [true] + k.bits
  }

  lemma PosInjective(a: Key, b: Key)
    requires a.Valid() && b.Valid() && PosOf(a) == PosOf(b)
    ensures a == b
  {
    if a.family != NoFamily && b.family != NoFamily {
      assert PosOf(a)[1..] == a.bits && PosOf(b)[1..] == b.bits;
    }
  }

  /** A key covers another when it is the same network or an enclosing one. */
  predicate Covers(a: Key, b: Key) {
    a.family == b.family && a.bits <= b.bits
  }

  lemma CoversIsPrefix(a: Key, b: Key)
    requires a.Valid() && b.Valid() && a.family != NoFamily && b.family != NoFamily
    ensures Covers(a, b) <==> PosOf(a) <= PosOf(b)
  {
    assert PosOf(a)[1..] == a.bits && PosOf(b)[1..] == b.bits;
    if PosOf(a) <= PosOf(b) {
      assert PosOf(a)[0] == PosOf(b)[0];
      assert forall i | 0 <= i < |a.bits| :: a.bits[i] == PosOf(a)[i + 1] == PosOf(b)[i + 1] == b.bits[i];
    }
  }

  /** The turns of a position are the family bit and then the network bits. */
  lemma PosShape(k: Key)
    requires k.Valid() && k.family != NoFamily
    ensures ValidPos(PosOf(k)) && |PosOf(k)| == |k.bits| + 1 && FullBits(PosOf(k)) == k.FullBits()
    ensures PosOf(k)[0] == k.family.IPv6?
  {}

  lemma PosBit(k: Key, i: nat)
    requires k.family != NoFamily && i < |k.bits|
    ensures PosOf(k)[i + 1] == k.Bit(i)
  {}

  /** The same for a position that is known by a name. */
  lemma PosTurn(k: Key, p: Pos, i: nat, turn: nat)
    requires k.Valid() && k.family != NoFamily && p == PosOf(k) && i < |k.bits| && turn == i + 1
    ensures turn < |p| && p[turn] == k.Bit(i)
  {}

  lemma SuperPos(k: Key, width: nat)
    requires k.Valid() && k.family != NoFamily && width <= |k.bits|
    ensures k.Super(width).Valid() && PosOf(k.Super(width)) == PosOf(k)[..width + 1]
  {}

  /** A node away from the root has a key with a family. */
  lemma KeyShape(k: Key)
    requires k.Valid() && PosOf(k) != []
    ensures k.family != NoFamily && |PosOf(k)| == |k.bits| + 1
  {}
}
