/** Histories of a NetmaskTree, and what its match has to do with that of the netmasks in it. */
module NetmaskRuns {
  import opened Wrappers
  import opened PatriciaTrie
  import opened PatriciaLinks
  import opened Words
  import opened NetmaskKey
  import opened NetmaskTree
  import opened NetmaskWords

  // ---------------------------------------------------------------- histories

  datatype Op<T> = Store(key: Key, value: T) | Delete(key: Key) | DeleteAll

  /** What one call makes of the map. */
  ghost function Step<T>(before: map<Pos, T>, op: Op<T>): map<Pos, T> {
    match op
    case Store(key, value) => if key.family == NoFamily then before else before[PosOf(key) := value]
    case Delete(key) => if key.family == NoFamily then before else before - {PosOf(key)}
    case DeleteAll => map[]
  }

  /** The map a history amounts to. */
  ghost function Meaning<T>(ops: seq<Op<T>>): map<Pos, T> {
    if ops == [] then map[] else Step(Meaning(ops[..|ops| - 1]), ops[|ops| - 1])
  }

  /** A key is only erased after has_key has found it, as the recursor's policy zones do. */
  method DeleteIfThere<T(0)>(tree: NetmaskTree<T>, key: Key)
    requires tree.Valid() && key.Valid() && key.family != NoFamily
    modifies tree, tree.shape.at.Values
    ensures tree.Valid() && tree.Contents() == old(tree.Contents()) - {PosOf(key)}
    ensures fresh(tree.shape.at.Values - old(tree.shape.at.Values))
  {
    var ok, has := tree.HasKey(key);
    if has { ghost var reached := tree.Erase(key); }
  }

  method Apply<T(0)>(tree: NetmaskTree<T>, op: Op<T>)
    requires tree.Valid() && (op.DeleteAll? || op.key.Valid())
    modifies tree, tree.shape.at.Values
    ensures tree.Valid() && tree.Contents() == Step(old(tree.Contents()), op)
    ensures fresh(tree.shape.at.Values - old(tree.shape.at.Values))
  {
    match op {
      case Store(key, value) => var ok := tree.InsertOrAssign(key, value);
      case Delete(key) => if key.family != NoFamily { DeleteIfThere(tree, key); }
      case DeleteAll => tree.Clear();
    }
  }

  /** A tree that went through a history holds the map the history amounts to: no more, no less. */
  method Replay<T(0)>(ops: seq<Op<T>>, zero: T) returns (tree: NetmaskTree<T>)
    requires forall i | 0 <= i < |ops| :: ops[i].DeleteAll? || ops[i].key.Valid()
    ensures tree.Valid() && tree.Contents() == Meaning(ops)
    ensures tree.size == |Meaning(ops)|
  {
    tree := new NetmaskTree(zero);
    ReplayFrom(tree, ops, 0);
  }

  method ReplayFrom<T(0)>(tree: NetmaskTree<T>, ops: seq<Op<T>>, i: nat)
    requires i <= |ops| && forall i | 0 <= i < |ops| :: ops[i].DeleteAll? || ops[i].key.Valid()
    requires tree.Valid() && tree.Contents() == Meaning(ops[..i])
    modifies tree, tree.shape.at.Values
    ensures tree.Valid() && tree.Contents() == Meaning(ops)
    decreases |ops| - i
  {
    if i == |ops| {
      assert ops[..i] == ops;
    } else {
      Apply(tree, ops[i]);
      assert ops[..i + 1][..i] == ops[..i];
      ReplayFrom(tree, ops, i + 1);
    }
  }

  // ---------------------------------------------------------------- the index and the linear scan

  /** A netmask as a value. */
  datatype Mask = Mask(network: Address, bits: nat)
  {
    ghost predicate Valid() {
      network.Valid() && !network.NoAddress? && bits <= network.Width()
    }

    ghost function Key(): Key
      requires Valid()
    {
      NetmaskKey.Key(network.Family(), network.AllBits()[..bits])
    }

    /** A whole IPv6 address with a scope id. */
    predicate Odd() {
      network.V6? && bits == 128 && network.scope != Zeros(8)
    }
  }

  lemma KeyBits(a: Address)
    requires a.Valid() && !a.NoAddress?
    ensures a.Key().Valid() && a.Key().Bits() == a.Key().FullBits() && a.Key().Super(a.Width()) == a.Key()
  {
    assert a.AllBits()[..a.Width()] == a.AllBits();
  }

  ghost predicate AllValid(masks: seq<Mask>) {
    forall i | 0 <= i < |masks| :: masks[i].Valid()
  }

  /** The map has just these netmasks. */
  ghost predicate Lists<T>(contents: map<Pos, T>, masks: seq<Mask>)
    requires AllValid(masks)
  {
    && (forall i | 0 <= i < |masks| :: PosOf(masks[i].Key()) in contents)
    && (forall p | p in contents :: exists i :: 0 <= i < |masks| && PosOf(masks[i].Key()) == p)
  }

  ghost predicate Covered(masks: seq<Mask>, address: Address)
    requires AllValid(masks) && address.Valid()
  {
    exists i :: 0 <= i < |masks| && Covers(masks[i].Key(), address.Key())
  }

  /** The linear scan: some netmask matches the address by its own octets and mask. */
  ghost predicate Scanned(masks: seq<Mask>, address: Address)
    requires AllValid(masks) && address.Valid()
  {
    exists i :: 0 <= i < |masks| && Fits(masks[i].network, masks[i].bits, address)
  }

  /** A stored netmask covers the address when its position is on the way to that of the address. */
  lemma CoversIsOnTheWay(m: Mask, address: Address)
    requires m.Valid() && address.Valid() && !address.NoAddress?
    ensures Covers(m.Key(), address.Key()) <==> PosOf(m.Key()) <= PosOf(address.Key())
  {
    KeyBits(address);
    CoversIsPrefix(m.Key(), address.Key());
  }

  lemma IndexCovers<T>(contents: map<Pos, T>, masks: seq<Mask>, address: Address, best: Option<Pos>)
    requires address.Valid() && !address.NoAddress? && AllValid(masks) && Lists(contents, masks)
    requires BestMatch(contents, PosOf(address.Key()), best)
    ensures best.Some? <==> Covered(masks, address)
  {
    forall i | 0 <= i < |masks|
      ensures Covers(masks[i].Key(), address.Key()) <==> PosOf(masks[i].Key()) <= PosOf(address.Key())
    {
      CoversIsOnTheWay(masks[i], address);
    }
    if best.Some? {
      var i :| 0 <= i < |masks| && PosOf(masks[i].Key()) == best.value;
      assert Covers(masks[i].Key(), address.Key());
    }
  }

  /** Something covers the address, and all that do are whole IPv6 addresses with a scope id. */
  ghost predicate OddlyCovered(masks: seq<Mask>, address: Address)
    requires AllValid(masks) && address.Valid()
  {
    Covered(masks, address) && forall i | 0 <= i < |masks| && Covers(masks[i].Key(), address.Key()) :: masks[i].Odd()
  }

  /** The scan finds the netmasks that cover the address, but for those that are whole IPv6 addresses
      with a scope id, whose own match never holds. */
  lemma ScanCovers(masks: seq<Mask>, address: Address)
    requires address.Valid() && !address.NoAddress? && AllValid(masks)
    ensures Scanned(masks, address) <==> exists i :: 0 <= i < |masks| && Covers(masks[i].Key(), address.Key()) && !masks[i].Odd()
    ensures Scanned(masks, address) <==> Covered(masks, address) && !OddlyCovered(masks, address)
  {
    forall i | 0 <= i < |masks|
      ensures Fits(masks[i].network, masks[i].bits, address) <==> Covers(masks[i].Key(), address.Key()) && !masks[i].Odd()
    {
      var m := masks[i];
      FitsIsCovers(m.network, m.bits, address);
      assert m.bits == 128 ==> m.network.V6?;
    }
  }

  /** NetmaskTree::match of an address: looking it up finds something exactly when a netmask covers the
      address.  A scan of the stored netmasks gives the same answer, except exactly when all that cover
      the address are whole IPv6 addresses with a scope id. */
  method MatchIndex<T(0)>(tree: NetmaskTree<T>, address: Address, ghost masks: seq<Mask>) returns (r: bool)
    requires tree.Valid() && address.Valid() && !address.NoAddress? && AllValid(masks) && Lists(tree.Contents(), masks)
    ensures r <==> Covered(masks, address)
    ensures r != Scanned(masks, address) <==> OddlyCovered(masks, address)
  {
    KeyBits(address);
    var key := KeyOf(address);
    var ok, best := tree.LookupAddress(key, -1);
    IndexCovers(tree.Contents(), masks, address, Spot(best));
    ScanCovers(masks, address);
    r := best != null;
  }

  /** The bits an address is looked up by, read one at a time with getBit. */
  method KeyOf(address: Address) returns (key: Key)
    requires address.Valid()
    ensures key == address.Key()
  {
    var bits: seq<bool> := [];
    ghost var all := address.AllBits();
    for i := 0 to address.Width()
      invariant bits == all[..i]
    {
      GetBitIs(address, i);
      var bit := address.GetBit(-1 - i);
      assert bit == all[i];
      bits := bits + [bit];
    }
    key := NetmaskKey.Key(address.Family(), bits);
  }
}
