/** NSEC3 records that cover too little to be worth keeping: their hashes agree in too many bits. */
module HashPrefix {
  import opened DnsName
  import opened Words
  import opened Base32

  function Least(a: nat, b: nat): nat { if a < b then a else b }

  /** How many leading bits the hashes share, from bit i on, as far as the shorter one goes. */
  function CommonBits(one: Bytes, two: Bytes, i: nat): (n: nat)
    requires i <= 8 * Least(|one|, |two|)
    ensures i <= n <= 8 * Least(|one|, |two|)
    ensures forall k | i <= k < n :: StreamBit(one, k) == StreamBit(two, k)
    ensures n < 8 * Least(|one|, |two|) ==> StreamBit(one, n) != StreamBit(two, n)
    decreases 8 * Least(|one|, |two|) - i
  {
    if i == 8 * Least(|one|, |two|) || StreamBit(one, i) != StreamBit(two, i) then i else CommonBits(one, two, i + 1)
  }

  lemma {:induction false} CommonOn(one: Bytes, two: Bytes, i: nat, j: nat)
    requires i <= j <= 8 * Least(|one|, |two|) && forall k | i <= k < j :: StreamBit(one, k) == StreamBit(two, k)
    ensures CommonBits(one, two, i) == CommonBits(one, two, j)
    decreases j - i
  {
    if i < j { CommonOn(one, two, i + 1, j); }
  }

  /** Octets that are equal share all their bits. */
  lemma SameOctet(one: Bytes, two: Bytes, i: nat)
    requires i < |one| && i < |two| && one[i] == two[i]
    ensures forall k | 8 * i <= k < 8 * i + 8 :: StreamBit(one, k) == StreamBit(two, k)
  {
    forall k | 8 * i <= k < 8 * i + 8 ensures StreamBit(one, k) == StreamBit(two, k) { assert k / 8 == i; }
  }

  /** Octets that differ do so in some bit. */
  lemma OtherOctet(one: Bytes, two: Bytes, i: nat)
    requires i < |one| && i < |two| && forall k | 8 * i <= k < 8 * i + 8 :: StreamBit(one, k) == StreamBit(two, k)
    ensures one[i] == two[i]
  {
    forall j | 0 <= j < 8 ensures Bits(one[i], 8)[j] == Bits(two[i], 8)[j] {
      assert (8 * i + j) / 8 == i && (8 * i + j) % 8 == j;
      assert StreamBit(one, 8 * i + j) == StreamBit(two, 8 * i + j);
    }
    assert Bits(one[i], 8) == Bits(two[i], 8);
    OctetBits(one[i]);
    OctetBits(two[i]);
  }

  /** commonPrefixIsLong: equal octets count at once, the first two that differ bit by bit. */
  method CommonPrefixIsLong(one: Bytes, two: Bytes, bound: nat) returns (long: bool)
    ensures long <==> CommonBits(one, two, 0) > bound
  {
    var length := 0;
    var minLength := Least(|one|, |two|);
    for i := 0 to minLength
      invariant length == 8 * i <= bound || i == 0 == length
      invariant CommonBits(one, two, 0) == CommonBits(one, two, 8 * i)
    {
      if one[i] == two[i] {
        SameOctet(one, two, i);
        CommonOn(one, two, 8 * i, 8 * i + 8);
        length := length + 8;
        if length > bound { return true; }
        continue;
      }
      long := BitsOfOctet(one, two, i, bound);
      return;
    }
    long := length > bound;
  }

  /** The octets at i differ: the bits before them all agree. */
  method BitsOfOctet(one: Bytes, two: Bytes, i: nat, bound: nat) returns (long: bool)
    requires i < |one| && i < |two| && one[i] != two[i] && (8 * i <= bound || i == 0)
    requires CommonBits(one, two, 0) == CommonBits(one, two, 8 * i)
    ensures long <==> CommonBits(one, two, 0) > bound
  {
    var length := 8 * i;
    var j := 0;
    while j < 8
      invariant 0 <= j <= 8 && length == 8 * i + j
      invariant forall k | 8 * i <= k < length :: StreamBit(one, k) == StreamBit(two, k)
      invariant length <= bound || length == 0
    {
      CommonOn(one, two, 8 * i, length);
      assert length / 8 == i && length % 8 == j;
      if Bits(one[i], 8)[j] != Bits(two[i], 8)[j] { return length > bound; }
      length := length + 1;
      if length > bound {
        CommonOn(one, two, 8 * i, length);
        return true;
      }
      j := j + 1;
    }
    OtherOctet(one, two, i);
    long := length > bound;
  }

  /** The hashes of a record differ and share more bits than the bound. */
  ghost predicate SmallCovering(ownerLabel: Bytes, nextHash: Bytes, maxCommonPrefix: nat) {
    Decode(ownerLabel) != nextHash && CommonBits(Decode(ownerLabel), nextHash, 0) > maxCommonPrefix
  }

  /** isSmallCoveringNSEC3: the owner's hash is its first label; the only record of a zone is kept. */
  method IsSmallCoveringNSEC3(ownerLabel: Bytes, nextHash: Bytes, maxCommonPrefix: nat) returns (small: bool)
    ensures small <==> SmallCovering(ownerLabel, nextHash, maxCommonPrefix)
  {
    var ownerHash := FromBase32Hex(ownerLabel);
    if ownerHash == nextHash { return false; }
    small := CommonPrefixIsLong(ownerHash, nextHash, maxCommonPrefix);
  }
}
