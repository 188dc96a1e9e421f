/** Addresses and netmasks as machine words: clearing host bits, reading bits, matching octets. */
module NetmaskWords {
  import opened Words
  import opened NetmaskKey

  /** A socket address: an IPv4 address as a word in host order, or the octets of an IPv6 address and
      the octet that follows them in memory, the first of the scope id. */
  datatype Address = V4(word: Word) | V6(octets: seq<Word>, scope: Word) | NoAddress
  {
    ghost predicate Valid() {
      match this
      case V4(word) => |word| == 32
      case V6(octets, scope) => |octets| == 16 && |scope| == 8 && forall i | 0 <= i < 16 :: |octets[i]| == 8
      case NoAddress => true
    }

    function Family(): Family {
      match this
      case V4(_) => IPv4
      case V6(_, _) => IPv6
      case NoAddress => NoFamily
    }

    /** All its bits, from the top. */
    ghost function AllBits(): (r: seq<bool>)
      requires Valid()
      ensures |r| == Width()
    {
      match this
      case V4(word) => word
      case V6(octets, _) => seq(128, i requires 0 <= i < 128 => octets[i / 8][i % 8])
      case NoAddress => []
    }

    /** getBits. */
    function Width(): nat {
      match this
      case V4(_) => 32
      case V6(_, _) => 128
      case NoAddress => 0
    }

    /** getBit: from the bottom, or from the top for a negative index. */
    function GetBit(index: int): bool
      requires Valid()
    {
      match this
      case V4(word) =>
        if index >= 32 || index < -32 then false
        else
          var i := if index < 0 then 32 + index else index;
          And(word, Shl(One(32), i)) != Zeros(32)
      case V6(octets, _) =>
        if index >= 128 || index < -128 then false
        else
          var i := if index < 0 then 128 + index else index;
          And(octets[15 - i / 8], Shl(One(8), i % 8)) != Zeros(8)
      case NoAddress => false
    }

    /** The octet at an index from the start of the address, which may be the one after it. */
    function Octet(i: nat): Word
      requires Valid() && V6? && i <= 16
    {
      if i < 16 then octets[i] else scope
    }

    ghost function Key(): Key
      requires Valid()
    {
      NetmaskKey.Key(Family(), AllBits())
    }
  }

  /** getBit counts from the top with negative indices. */
  lemma GetBitIs(a: Address, i: nat)
    requires a.Valid() && i < a.Width()
    ensures a.GetBit(-1 - i) == a.AllBits()[i]
  {
    match a
    case V4(word) => SingleBit(word, 31 - i);
    case V6(octets, _) =>
      var x := 127 - i;
      assert 15 - x / 8 == i / 8 && x % 8 == 7 - i % 8;
      SingleBit(octets[i / 8], x % 8);
    case NoAddress =>
  }

  lemma SamePrefix(x: Word, y: Word, n: nat)
    requires n <= |x| == |y| && forall i | 0 <= i < n :: x[i] == y[i]
    ensures x[..n] == y[..n]
  {}

  class Netmask {
    var network: Address
    var bits: nat
    var mask: Word

    ghost predicate Valid()
      reads this
    {
      && network.Valid() && bits <= (if network.NoAddress? then 128 else network.Width())
      && mask == Mask(32, if bits < 32 then bits else 32)
      && Masked(network, bits)
    }

    /** The key under which a tree keeps this netmask. */
    ghost function Key(): Key
      reads this
      requires Valid() && !network.NoAddress?
    {
      NetmaskKey.Key(network.Family(), network.AllBits()[..bits])
    }

    constructor (network: Address, bits: nat)
      requires network.Valid() && bits < 256
      ensures Valid() && this.network.Family() == network.Family()
      ensures !network.NoAddress? ==>
        && this.bits == (if bits < network.Width() then bits else network.Width())
        && Key() == network.Key().Super(this.bits)
      ensures network.V6? ==> this.network.scope == network.scope
    {
      this.network, this.bits, this.mask := network, 0, Zeros(32);
      new;
      SetBits(bits);
    }

    /** setBits: the first bits stay, the others are cleared. */
    method SetBits(value: nat)
      requires network.Valid() && value < 256
      modifies this
      ensures Valid() && network.Family() == old(network).Family()
      ensures bits == (var most := if network.V4? then 32 else 128; if value < most then value else most)
      ensures forall i | 0 <= i < network.Width() :: network.AllBits()[i] == (i < bits && old(network).AllBits()[i])
      ensures !network.NoAddress? ==> Key() == old(network).Key().Super(bits)
      ensures network.V6? ==> network.scope == old(network).scope
    {
      var most := if network.V4? then 32 else 128;
      bits := if value < most then value else most;
      mask := if bits < 32 then Mask(32, bits) else Ones(32);
      assert mask == Mask(32, if bits < 32 then bits else 32);
      match network {
        case V4(word) =>
          network := V4(And(word, mask));
        case V6(octets, scope) =>
          var now := ClearHostBits(octets, bits);
          network := V6(now, scope);
        case NoAddress =>
      }
      ghost var was := old(network);
      forall i | 0 <= i < network.Width() ensures network.AllBits()[i] == (i < bits && was.AllBits()[i]) {}
      if !network.NoAddress? { SamePrefix(network.AllBits(), was.AllBits(), bits); }
    }

    /** match: the octets of the network, and what is left of the next one under the mask. */
    method Matches(address: Address) returns (r: bool)
      requires Valid() && address.Valid()
      ensures r <==> Fits(network, bits, address)
    {
      if network.Family() != address.Family() || network.NoAddress? { return false; }
      if network.V4? {
        MaskedEqual(address.word, network.word, bits);
        MaskedWord(network.word, bits);
        return And(address.word, mask) == network.word;
      }
      var whole, rest := bits / 8, bits % 8;
      var index := 0;
      while index < whole
        invariant index <= whole
        invariant forall k | 0 <= k < index :: network.octets[k] == address.octets[k]
      {
        if network.octets[index] != address.octets[index] {
          OctetDiffers(network, address, bits, index);
          return false;
        }
        index := index + 1;
      }
      r := network.Octet(index) == And(address.Octet(index), Mask(8, rest));
      LastOctet(network, address, bits);
    }
  }

  method ClearHostBits(octets: seq<Word>, bits: nat) returns (now: seq<Word>)
    requires |octets| == 16 && bits <= 128 && forall i | 0 <= i < 16 :: |octets[i]| == 8
    ensures |now| == 16 && forall i | 0 <= i < 16 :: |now[i]| == 8
    ensures forall i | 0 <= i < 128 :: now[i / 8][i % 8] == (i < bits && octets[i / 8][i % 8])
  {
    var whole, rest := bits / 8, bits % 8;
    now := octets;
    if whole < 16 { now := now[whole := And(now[whole], Mask(8, rest))]; }
    var idx := whole + 1;
    while idx < 16
      invariant |now| == 16
      invariant forall k | 0 <= k < 16 :: (if k > whole && k < idx then now[k] == Zeros(8)
                                           else if k == whole then now[k] == And(octets[k], Mask(8, rest)) else now[k] == octets[k])
    {
      now := now[idx := Zeros(8)];
      idx := idx + 1;
    }
  }

  lemma MaskedWord(word: Word, bits: nat)
    requires |word| == 32 && bits <= 32 && Masked(V4(word), bits)
    ensures And(word, Mask(32, bits)) == word
  {
    forall i | bits <= i < 32 ensures !word[i] { assert !V4(word).AllBits()[i]; }
  }

  /** What match decides.  For all 128 bits of an IPv6 address it still compares the next octet in
      memory, the mask's own scope id against nothing. */
  ghost predicate Fits(network: Address, bits: nat, address: Address)
    requires network.Valid() && address.Valid()
  {
    && network.Family() == address.Family() && !network.NoAddress? && bits <= network.Width()
    && network.AllBits()[..bits] == address.AllBits()[..bits]
    && (bits == 128 ==> network.scope == Zeros(8))
  }

  ghost predicate Masked(network: Address, bits: nat)
    requires network.Valid()
  {
    forall i | bits <= i < network.Width() :: !network.AllBits()[i]
  }

  lemma BitOfOctet(a: Address, k: nat, j: nat)
    requires a.Valid() && a.V6? && k < 16 && j < 8
    ensures a.AllBits()[8 * k + j] == a.octets[k][j]
  {
    assert (8 * k + j) / 8 == k && (8 * k + j) % 8 == j;
  }

  lemma OctetDiffers(n: Address, a: Address, bits: nat, k: nat)
    requires n.Valid() && a.Valid() && n.V6? && a.V6? && bits <= 128 && 8 * k + 8 <= bits && n.octets[k] != a.octets[k]
    ensures n.AllBits()[..bits] != a.AllBits()[..bits]
  {
    var j :| 0 <= j < 8 && n.octets[k][j] != a.octets[k][j];
    BitOfOctet(n, k, j);
    BitOfOctet(a, k, j);
    assert n.AllBits()[..bits][8 * k + j] != a.AllBits()[..bits][8 * k + j];
  }

  /** The octet that the prefix ends in agrees under the mask when the bits of the prefix in it do. */
  lemma LastBits(n: Address, a: Address, bits: nat)
    requires n.Valid() && a.Valid() && n.V6? && a.V6? && bits < 128 && Masked(n, bits)
    ensures n.Octet(bits / 8) == And(a.Octet(bits / 8), Mask(8, bits % 8))
            <==> n.Octet(bits / 8)[..bits % 8] == a.Octet(bits / 8)[..bits % 8]
  {
    var whole, rest := bits / 8, bits % 8;
    var x := n.Octet(whole);
    forall j | rest <= j < 8 ensures !x[j] { BitOfOctet(n, whole, j); }
    assert And(x, Mask(8, rest)) == x;
    MaskedEqual(x, a.Octet(whole), rest);
  }

  /** The prefixes agree when their whole octets do and the bits in the one after them. */
  lemma StartSame(n: Address, a: Address, bits: nat)
    requires n.Valid() && a.Valid() && n.V6? && a.V6? && bits < 128
    requires forall k | 0 <= k < bits / 8 :: n.octets[k] == a.octets[k]
    requires n.Octet(bits / 8)[..bits % 8] == a.Octet(bits / 8)[..bits % 8]
    ensures SameStart(n, a, bits) == true
  {
    var whole, rest := bits / 8, bits % 8;
    forall i | 0 <= i < bits ensures n.AllBits()[i] == a.AllBits()[i] {
      if i / 8 == whole {
        BitOfOctet(n, whole, i % 8);
        BitOfOctet(a, whole, i % 8);
        assert n.Octet(whole)[..rest][i % 8] == a.Octet(whole)[..rest][i % 8];
      }
    }
  }

  lemma StartBits(n: Address, a: Address, bits: nat)
    requires n.Valid() && a.Valid() && n.V6? && a.V6? && bits < 128 && SameStart(n, a, bits)
    ensures n.Octet(bits / 8)[..bits % 8] == a.Octet(bits / 8)[..bits % 8]
  {
    var whole, rest := bits / 8, bits % 8;
    forall j | 0 <= j < rest ensures n.Octet(whole)[j] == a.Octet(whole)[j] {
      BitOfOctet(n, whole, j);
      BitOfOctet(a, whole, j);
      assert n.AllBits()[..bits][8 * whole + j] == a.AllBits()[..bits][8 * whole + j];
    }
  }

  /** All the octets agree: what is left to compare is the octet past them, with nothing of the other. */
  lemma PastTheEnd(n: Address, a: Address)
    requires n.Valid() && a.Valid() && n.V6? && a.V6? && forall k | 0 <= k < 16 :: n.octets[k] == a.octets[k]
    ensures SameStart(n, a, 128) && And(a.Octet(16), Mask(8, 0)) == Zeros(8)
  {
    forall i | 0 <= i < 128 ensures n.AllBits()[i] == a.AllBits()[i] {}
    assert And(a.Octet(16), Mask(8, 0)) == Zeros(8);
  }

  lemma LastOctet(n: Address, a: Address, bits: nat)
    requires n.Valid() && a.Valid() && n.V6? && a.V6? && bits <= 128 && Masked(n, bits)
    requires forall k | 0 <= k < bits / 8 :: n.octets[k] == a.octets[k]
    ensures n.Octet(bits / 8) == And(a.Octet(bits / 8), Mask(8, bits % 8)) <==> Fits(n, bits, a)
  {
    if bits == 128 {
      PastTheEnd(n, a);
    } else {
      LastBits(n, a, bits);
      if n.Octet(bits / 8)[..bits % 8] == a.Octet(bits / 8)[..bits % 8] { StartSame(n, a, bits); }
      if SameStart(n, a, bits) { StartBits(n, a, bits); }
    }
  }

  ghost predicate SameStart(n: Address, a: Address, bits: nat)
    requires n.Valid() && a.Valid() && bits <= n.Width() && bits <= a.Width()
  {
    n.AllBits()[..bits] == a.AllBits()[..bits]
  }

  /** A netmask's own match is that its key covers the address, unless it is a whole IPv6 address with
      a scope id. */
  lemma FitsIsCovers(network: Address, bits: nat, address: Address)
    requires network.Valid() && address.Valid() && !network.NoAddress? && bits <= network.Width()
    ensures Fits(network, bits, address)
            <==> Covers(Key(network.Family(), network.AllBits()[..bits]), address.Key()) && (bits == 128 ==> network.scope == Zeros(8))
  {
    if network.Family() == address.Family() {
      var x, y := network.AllBits()[..bits], address.AllBits();
      assert x <= y <==> x == y[..bits];
    }
  }

  /** The address ::%1 as a netmask does not match itself. */
  lemma ScopedHostMissesItself()
    ensures var host := V6(seq(16, i => Zeros(8)), Bits(1, 8));
            && host.Valid() && !Fits(host, 128, host)
            && Covers(Key(host.Family(), host.AllBits()[..128]), host.Key())
  {
    var host := V6(seq(16, i => Zeros(8)), Bits(1, 8));
    assert Bits(1, 8)[7] && !Zeros(8)[7];
    FitsIsCovers(host, 128, host);
    assert host.AllBits()[..128] == host.AllBits();
  }
}
