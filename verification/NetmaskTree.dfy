/** NetmaskTree: a mutable Patricia trie of nodes with child and parent pointers.  Ghost fields tie
    the nodes to a value of PatriciaTrie, and every operation is proved against what that value
    stores. */
module NetmaskTree {
  import opened Wrappers
  import opened PatriciaTrie
  import opened PatriciaOrder
  import opened PatriciaErase
  import opened PatriciaLinks
  import opened NetmaskKey

  class TreeNode<T> {
    var left: TreeNode?<T>
    var right: TreeNode?<T>
    var parent: TreeNode?<T>
    const key: Key
    var value: T
    var isAssigned: bool
    var dBits: nat
    ghost const pos: Pos

    /** The cell this node stands for. */
    ghost function View(): Cell<T>
      reads this
    {
      Cell(Spot(left), Spot(right), Spot(parent), isAssigned, value, dBits)
    }

    constructor (key: Key, value: T, ghost pos: Pos)
      ensures this.key == key && this.pos == pos
      ensures this.value == value && !isAssigned && dBits == key.FullBits()
      ensures left == null && right == null && parent == null
    {
      this.key, this.value, this.pos := key, value, pos;
      left, right, parent := null, null, null;
      isAssigned, dBits := false, key.FullBits();
    }

    /** make_left / make_right: a new leaf on the `turn` side. */
    method MakeChild(key: Key, zero: T, turn: bool, ghost k: Pos) returns (child: TreeNode<T>)
      modifies this
      ensures fresh(child) && child.key == key && child.pos == k
      ensures child.View() == Cell(None, None, Some(pos), false, zero, key.FullBits())
      ensures child.parent == this && child.left == child.right == null
      ensures View() == old(View()).SetChild(turn, Some(child.pos)).(dBits := this.key.Bits())
      ensures parent == old(parent)
      ensures if turn then right == child && left == old(left) else left == child && right == old(right)
    {
      dBits := this.key.Bits();
      child := new TreeNode(key, zero, k);
      if turn { right := child; } else { left := child; }
      child.parent := this;
    }

    /** split(): a node for `key` between this node and its parent.  The source throws when the
        parent link is missing, which is what the precondition rules out. */
    method Split(key: Key, zero: T, bits: nat, ghost side: bool, ghost k: Pos) returns (above: TreeNode<T>)
      requires parent != null && parent != this
      requires (parent.left == this) == !side && (parent.right == this) == side
      modifies this, parent
      ensures fresh(above) && above.key == key && above.pos == k
      ensures above.View() == Cell(None, None, Some(old(parent).pos), false, zero, bits).SetChild(this.key.Bit(bits), Some(pos))
      ensures View() == old(View()).(parent := Some(above.pos))
      ensures old(parent).View() == old(parent.View()).SetChild(side, Some(above.pos))
      ensures parent == above && unchanged(`left, `right)
      ensures above.parent == old(parent) && above.left in {null, this} && above.right in {null, this}
      ensures old(parent).parent == old(parent.parent)
      ensures old(parent).left == if side then old(parent.left) else above
      ensures old(parent).right == if side then above else old(parent.right)
    {
      above := new TreeNode(key, zero, k);
      above.dBits := bits;
      above.parent := parent;
      if parent.left == this { parent.left := above; } else { parent.right := above; }
      parent := above;
      if this.key.Bit(bits) { above.right := this; } else { above.left := this; }
    }

    /** fork(): a branch node where this node's key and `key` part, holding both. */
    method Fork(key: Key, zero: T, bits: nat, ghost side: bool, ghost k: Pos, ghost b: Pos) returns (node: TreeNode<T>, branch: TreeNode<T>)
      requires parent != null && parent != this
      requires (parent.left == this) == !side && (parent.right == this) == side
      modifies this, parent
      ensures fresh(node) && node.key == key && node.pos == k
      ensures fresh(branch) && branch != node && branch.key == this.key.Super(bits) && branch.pos == b
      ensures node.View() == Cell(None, None, Some(branch.pos), false, zero, key.FullBits())
      ensures branch.View() == if this.key.Bit(bits)
                               then Cell(Some(node.pos), Some(pos), Some(old(parent).pos), false, zero, bits)
                               else Cell(Some(pos), Some(node.pos), Some(old(parent).pos), false, zero, bits)
      ensures View() == old(View()).(parent := Some(branch.pos))
      ensures old(parent).View() == old(parent.View()).SetChild(side, Some(branch.pos))
      ensures parent == branch && unchanged(`left, `right)
      ensures node.parent == branch && node.left == node.right == null
      ensures branch.parent == old(parent) && {branch.left, branch.right} == {this, node}
      ensures old(parent).parent == old(parent.parent)
      ensures old(parent).left == if side then old(parent.left) else branch
      ensures old(parent).right == if side then branch else old(parent.right)
    {
      branch := new TreeNode(this.key.Super(bits), zero, b);
      branch.dBits := bits;
      branch.parent := parent;
      if parent.left == this { parent.left := branch; } else { parent.right := branch; }
      node := new TreeNode(key, zero, k);
      parent := branch;
      node.parent := branch;
      if this.key.Bit(bits) { branch.right, branch.left := this, node; } else { branch.right, branch.left := node, this; }
    }
  }

  type Nodes<T> = map<Pos, TreeNode<T>>

  ghost function Spot<T>(node: TreeNode?<T>): Option<Pos> {
    if node == null then None else Some(node.pos)
  }

  ghost predicate In<T>(at: Nodes<T>, node: TreeNode?<T>) {
    node != null ==> node.pos in at && at[node.pos] == node
  }

  /** Every node sits at the position of its key. */
  ghost predicate Keyed<T>(at: Nodes<T>) {
    forall p | p in at :: at[p].key.Valid() && PosOf(at[p].key) == p
  }

  ghost predicate Match<T>(at: Nodes<T>, m: Trie<T>, p: Pos)
    requires p in at && p in m
    reads at[p]
  {
    var n := at[p];
    In(at, n.left) && In(at, n.right) && In(at, n.parent) && n.View() == m[p]
  }

  /** The nodes realise the trie. */
  ghost predicate Linked<T>(at: Nodes<T>, m: Trie<T>)
    reads at.Values
  {
    && at.Keys == m.Keys
    && (forall p | p in at :: at[p].pos == p)
    && forall p {:trigger Match(at, m, p)} | p in at :: Match(at, m, p)
  }

  /** Nodes that nobody wrote to still match their unchanged cells. */
  twostate lemma MatchFrame<T>(was: (Nodes<T>, Trie<T>), new at: Nodes<T>, new m: Trie<T>, new written: set<Pos>)
    requires old(Linked(was.0, was.1))
    requires forall q | q in was.0 :: q in at && q in m && at[q] == was.0[q]
    requires forall q | q in was.0 && q !in written :: m[q] == was.1[q] && unchanged(was.0[q])
    ensures forall q {:trigger Match(at, m, q)} | q in was.0 && q !in written :: Match(at, m, q)
  {
    forall q | q in was.0 && q !in written ensures Match(at, m, q) {
      assert old(Match(was.0, was.1, q));
    }
  }

  /** A leaf for `key` on the free `turn` side of `node`. */
  method AttachLeaf<T>(ghost at: Nodes<T>, ghost m: Trie<T>, ghost p: Pos, ghost k: Pos,
                       node: TreeNode<T>, key: Key, turn: bool, zero: T)
    returns (child: TreeNode<T>, ghost n: Trie<T>)
    requires Linked(at, m) && p in at && at[p] == node && k !in at
    modifies node
    ensures fresh(child) && child.left == null && child.key == key
    ensures n == HangLeaf(m, p, k, turn, node.key.Bits(), key.FullBits(), zero) && Linked(at[k := child], n)
  {
    assert Match(at, m, p);
    child := node.MakeChild(key, zero, turn, k);
    n := HangLeaf(m, p, k, turn, node.key.Bits(), key.FullBits(), zero);
    ghost var at1 := at[k := child];
    MatchFrame((at, m), at1, n, {p});
    assert Match(at1, n, k) && Match(at1, n, p);
  }

  method SplitAbove<T>(ghost at: Nodes<T>, ghost m: Trie<T>, ghost q: Pos, ghost p: Pos, ghost k: Pos, ghost side: bool,
                       node: TreeNode<T>, key: Key, zero: T)
    returns (above: TreeNode<T>, ghost n: Trie<T>)
    requires Linked(at, m) && p in at && at[p] == node && Hangs(m, q, p, side)
    requires k !in at
    modifies node, at[q]
    ensures fresh(above) && above.key == key && (above.left == null) == node.key.Bit(key.Bits())
    ensures n == PutAbove(m, q, p, k, side, node.key.Bit(key.Bits()), key.Bits(), zero) && Linked(at[k := above], n)
  {
    assert Match(at, m, p) && Match(at, m, q);
    assert node.parent == at[q] && (at[q].left == node <==> !side) && (at[q].right == node <==> side);
    above := node.Split(key, zero, key.Bits(), side, k);
    n := PutAbove(m, q, p, k, side, node.key.Bit(key.Bits()), key.Bits(), zero);
    ghost var at1 := at[k := above];
    MatchFrame((at, m), at1, n, {p, q});
    assert Match(at1, n, k) && Match(at1, n, p) && Match(at1, n, q);
  }

  lemma StillIn<T>(at: Nodes<T>, b: Pos, branch: TreeNode<T>, k: Pos, child: TreeNode<T>, c: TreeNode?<T>)
    requires b !in at && k !in at && b != k && branch.pos == b && child.pos == k
    requires In(at, c) || c == branch || c == child
    ensures In(Filed(Filed(at, b, branch), k, child), c) == true
  {}

  method ForkNodes<T>(ghost at: Nodes<T>, ghost m: Trie<T>, ghost q: Pos, ghost p: Pos, ghost b: Pos, ghost k: Pos, ghost side: bool,
                      node: TreeNode<T>, key: Key, bits: nat, zero: T)
    returns (child: TreeNode<T>, branch: TreeNode<T>, ghost n: Trie<T>)
    requires Linked(at, m) && p in at && at[p] == node && Hangs(m, q, p, side)
    requires b !in at && k !in at && b != k
    modifies node, at[q]
    ensures fresh(branch) && fresh(child) && branch.key == node.key.Super(bits) && child.key == key && child.left == null
    ensures n == PutFork(m, q, p, b, k, side, node.key.Bit(bits), bits, key.FullBits(), zero)
    ensures branch.pos == b && child.pos == k && at[p].pos == p && at[q].pos == q
    ensures forall r {:trigger Match(Filed(Filed(at, b, branch), k, child), n, r)} | r in at || r in {b, k} ::
      Match(Filed(Filed(at, b, branch), k, child), n, r)
  {
    assert Match(at, m, p) && Match(at, m, q);
    assert node.parent == at[q] && (at[q].left == node <==> !side) && (at[q].right == node <==> side);
    child, branch := node.Fork(key, zero, bits, side, k, b);
    n := PutFork(m, q, p, b, k, side, node.key.Bit(bits), bits, key.FullBits(), zero);
    ghost var at1 := Filed(Filed(at, b, branch), k, child);
    MatchFrame((at, m), at1, n, {p, q});
    StillIn(at, b, branch, k, child, node.left);
    StillIn(at, b, branch, k, child, node.right);
    StillIn(at, b, branch, k, child, at[q].left);
    StillIn(at, b, branch, k, child, at[q].right);
    StillIn(at, b, branch, k, child, at[q].parent);
    assert Match(at1, n, k) && Match(at1, n, b) && Match(at1, n, p) && Match(at1, n, q);
  }

  method ForkAt<T>(ghost at: Nodes<T>, ghost m: Trie<T>, ghost q: Pos, ghost p: Pos, ghost b: Pos, ghost k: Pos, ghost side: bool,
                   node: TreeNode<T>, key: Key, bits: nat, zero: T)
    returns (child: TreeNode<T>, branch: TreeNode<T>, ghost n: Trie<T>)
    requires Linked(at, m) && p in at && at[p] == node && Hangs(m, q, p, side)
    requires b !in at && k !in at && b != k
    modifies node, at[q]
    ensures fresh(branch) && fresh(child) && branch.key == node.key.Super(bits) && child.key == key && child.left == null
    ensures n == PutFork(m, q, p, b, k, side, node.key.Bit(bits), bits, key.FullBits(), zero)
    ensures Linked(Filed(Filed(at, b, branch), k, child), n) == true
  {
    assert forall r | r in at :: at[r].pos == r;
    child, branch, n := ForkNodes(at, m, q, p, b, k, side, node, key, bits, zero);
    ghost var more := Filed(Filed(at, b, branch), k, child);
    NodesLinked(more, n);
  }

  lemma NodesLinked<T>(at: Nodes<T>, m: Trie<T>)
    requires at.Keys == m.Keys && forall p | p in at :: at[p].pos == p
    requires forall p {:trigger Match(at, m, p)} | p in at :: Match(at, m, p)
    ensures Linked(at, m) == true
  {}

  /** No node was dropped. */
  ghost predicate Extends<T>(at: Nodes<T>, more: Nodes<T>) {
    forall p | p in at :: p in more && more[p] == at[p]
  }

  /** A node for k has been put in and only waits to be marked as assigned. */
  ghost predicate Grown<T>(at: Nodes<T>, m: Trie<T>, more: Nodes<T>, n: Trie<T>, k: Pos, node: TreeNode<T>, zero: T)
    reads more.Values
  {
    && Linked(more, n) && Keyed(more) && Extends(at, more)
    && Placed(m, n, k, zero) && k in more && more[k] == node
  }

  lemma FileTwo<T>(at: Nodes<T>, b: Pos, branch: TreeNode<T>, k: Pos, child: TreeNode<T>)
    requires Keyed(at) && b !in at && k !in at && b != k
    requires branch.key.Valid() && PosOf(branch.key) == b && child.key.Valid() && PosOf(child.key) == k
    ensures Keyed(at[b := branch][k := child]) && Extends(at, at[b := branch][k := child])
  {}

  ghost function Filed<T>(at: Nodes<T>, k: Pos, node: TreeNode<T>): Nodes<T> {
    at[k := node]
  }

  method GrowLeaf<T>(ghost at: Nodes<T>, ghost m: Trie<T>, ghost p: Pos, ghost k: Pos, node: TreeNode<T>, key: Key, turn: bool, zero: T)
    returns (child: TreeNode<T>, ghost more: Nodes<T>, ghost n: Trie<T>)
    requires Linked(at, m) && Keyed(at) && p in at && at[p] == node
    requires key.Valid() && PosOf(key) == k && k !in m
    requires Placed(m, HangLeaf(m, p, k, turn, node.key.Bits(), key.FullBits(), zero), k, zero)
    modifies node
    ensures Grown(at, m, more, n, k, child, zero) && child.left == null
    ensures forall p | p in more :: p in at || fresh(more[p])
  {
    child, n := AttachLeaf(at, m, p, k, node, key, turn, zero);
    more := Filed(at, k, child);
  }

  method GrowSplit<T>(ghost at: Nodes<T>, ghost m: Trie<T>, ghost q: Pos, ghost p: Pos, ghost k: Pos, ghost side: bool,
                      node: TreeNode<T>, key: Key, zero: T)
    returns (above: TreeNode<T>, ghost more: Nodes<T>, ghost n: Trie<T>)
    requires Linked(at, m) && Keyed(at) && p in at && at[p] == node
    requires key.Valid() && PosOf(key) == k && k !in m && Hangs(m, q, p, side)
    requires Placed(m, PutAbove(m, q, p, k, side, node.key.Bit(key.Bits()), key.Bits(), zero), k, zero)
    modifies node, at[q]
    ensures Grown(at, m, more, n, k, above, zero)
    ensures (above.left == null) == node.key.Bit(key.Bits())
    ensures forall p | p in more :: p in at || fresh(more[p])
  {
    above, n := SplitAbove(at, m, q, p, k, side, node, key, zero);
    more := Filed(at, k, above);
  }

  method GrowFork<T>(ghost at: Nodes<T>, ghost m: Trie<T>, ghost q: Pos, ghost p: Pos, ghost b: Pos, ghost k: Pos, ghost side: bool,
                     node: TreeNode<T>, key: Key, bits: nat, zero: T)
    returns (child: TreeNode<T>, ghost more: Nodes<T>, ghost n: Trie<T>)
    requires Linked(at, m) && Keyed(at) && p in at && at[p] == node
    requires key.Valid() && PosOf(key) == k && k !in m && b !in m && b != k && Hangs(m, q, p, side)
    requires node.key.Super(bits).Valid() && PosOf(node.key.Super(bits)) == b
    requires Placed(m, PutFork(m, q, p, b, k, side, node.key.Bit(bits), bits, key.FullBits(), zero), k, zero)
    modifies node, at[q]
    ensures Grown(at, m, more, n, k, child, zero) && child.left == null
    ensures forall p | p in more :: p in at || fresh(more[p])
  {
    ghost var branch: TreeNode<T>;
    child, branch, n := ForkAt(at, m, q, p, b, k, side, node, key, bits, zero);
    more := Filed(Filed(at, b, branch), k, child);
    FileTwo(at, b, branch, k, child);
  }

  /** What a node's fields say about its cell. */
  lemma Fields<T>(at: Nodes<T>, m: Trie<T>, p: Pos)
    requires Linked(at, m) && p in at
    ensures at[p].left == null <==> m[p].left.None?
    ensures at[p].right == null <==> m[p].right.None?
    ensures at[p].left != null ==> m[p].left == Some(at[p].left.pos) && In(at, at[p].left)
    ensures at[p].right != null ==> m[p].right == Some(at[p].right.pos) && In(at, at[p].right)
    ensures at[p].isAssigned == m[p].isAssigned && at[p].dBits == m[p].dBits && at[p].pos == p
  {
    assert Match(at, m, p);
  }

  lemma ChildField<T>(at: Nodes<T>, m: Trie<T>, p: Pos, turn: bool, c: TreeNode?<T>)
    requires Linked(at, m) && p in at && c == if turn then at[p].right else at[p].left
    ensures In(at, c) && m[p].Child(turn) == Spot(c)
  {
    assert Match(at, m, p);
  }

  /** Where insert stands once there is a node for k: the node was there, or it has been put in;
      with no node on its left the flag says whether k comes before everything stored. */
  ghost predicate Landed<T>(at: Nodes<T>, m: Trie<T>, more: Nodes<T>, n: Trie<T>, k: Pos, node: TreeNode<T>, isLeft: bool, zero: T)
    reads more.Values, node
  {
    && Linked(more, n)
    && (if k in m then more == at && n == m && k in at && node == at[k] else Grown(at, m, more, n, k, node, zero))
    && (isLeft && node.left == null) == NewLeft(m, k)
  }

  method LandLeaf<T>(ghost at: Nodes<T>, ghost m: Trie<T>, ghost p: Pos, ghost k: Pos, node: TreeNode<T>,
                     key: Key, turn: bool, ghost isLeft: bool, zero: T)
    returns (child: TreeNode<T>, ghost more: Nodes<T>, ghost n: Trie<T>)
    requires Linked(at, m) && Keyed(at) && p in at && at[p] == node && Wf(m) && Blank(m, zero)
    requires key.Valid() && key.family != NoFamily && PosOf(key) == k
    requires p != [] && CanAttach(m, p, k) && turn == k[|p|]
    requires isLeft == (LeftEdge(m, p) && !(turn && (m[p].left.Some? || m[p].isAssigned)))
    modifies node
    ensures Landed(at, m, more, n, k, child, isLeft, zero)
    ensures forall p | p in more :: p in at || fresh(more[p])
  {
    LeftAttach(m, p, k);
    LeafReady(m, p, k, zero);
    PosShape(key);
    KeyShape(node.key);
    child, more, n := GrowLeaf(at, m, p, k, node, key, turn, zero);
  }

  method LandFork<T>(ghost at: Nodes<T>, ghost m: Trie<T>, ghost p: Pos, ghost k: Pos, node: TreeNode<T>,
                     key: Key, bits: nat, ghost isLeft: bool, zero: T)
    returns (child: TreeNode<T>, ghost more: Nodes<T>, ghost n: Trie<T>)
    requires Linked(at, m) && Keyed(at) && p in at && at[p] == node && Wf(m) && Blank(m, zero)
    requires key.Valid() && key.family != NoFamily && PosOf(key) == k
    requires OnPath(m, p, k, bits + 1) && bits + 1 < |p| && bits + 1 < |k| && p[bits + 1] != k[bits + 1]
    requires isLeft == (LeftEdge(m, p) && !k[bits + 1])
    modifies at.Values
    ensures Landed(at, m, more, n, k, child, isLeft, zero)
    ensures forall p | p in more :: p in at || fresh(more[p])
  {
    PosShape(key);
    KeyShape(node.key);
    PosBit(node.key, bits);
    SuperPos(node.key, bits);
    ForkReady(m, p, k, bits + 1, zero);
    assert NewLeft(m, k) == isLeft by {
      ForkFresh(m, p, k, bits + 1);
      LeftFork(m, p, k, bits + 1);
    }
    ghost var q := m[p].parent.value;
    child, more, n := GrowFork(at, m, q, p, k[..bits + 1], k, p[|q|], node, key, bits, zero);
  }

  method LandSplit<T>(ghost at: Nodes<T>, ghost m: Trie<T>, ghost p: Pos, ghost k: Pos, node: TreeNode<T>,
                      key: Key, ghost isLeft: bool, zero: T)
    returns (above: TreeNode<T>, ghost more: Nodes<T>, ghost n: Trie<T>)
    requires Linked(at, m) && Keyed(at) && p in at && at[p] == node && Wf(m) && Blank(m, zero)
    requires key.Valid() && key.family != NoFamily && PosOf(key) == k
    requires OnPath(m, p, k, |k|) && |k| < |p| && isLeft == LeftEdge(m, p)
    modifies at.Values
    ensures Landed(at, m, more, n, k, above, isLeft, zero)
    ensures forall p | p in more :: p in at || fresh(more[p])
  {
    PosShape(key);
    KeyShape(node.key);
    PosBit(node.key, key.Bits());
    SplitReady(m, p, k, zero);
    assert NewLeft(m, k) == (isLeft && p[|k|]) by {
      SplitFresh(m, p, k);
      LeftSplit(m, p, k);
    }
    ghost var q := m[p].parent.value;
    above, more, n := GrowSplit(at, m, q, p, k, p[|q|], node, key, zero);
  }

  /** Why the loop of insert stops at a node: a branch is missing, the key parts from the node's
      prefix, or the key is used up. */
  datatype Stop = Missing | Parted | UsedUp

  ghost predicate Stopped<T>(at: Nodes<T>, m: Trie<T>, k: Pos, node: TreeNode<T>, stop: Stop, bits: nat, turn: bool, isLeft: bool) {
    var p := node.pos;
    && p in at && at[p] == node && p in m
    && match stop
       case Missing =>
         p != [] && CanAttach(m, p, k) && turn == k[|p|]
         && isLeft == (LeftEdge(m, p) && !(turn && (m[p].left.Some? || m[p].isAssigned)))
       case Parted =>
         OnPath(m, p, k, bits + 1) && bits + 1 < |p| && bits + 1 < |k| && p[bits + 1] != k[bits + 1]
         && isLeft == (LeftEdge(m, p) && !k[bits + 1])
       case UsedUp =>
         OnPath(m, p, k, |k|) && isLeft == LeftEdge(m, p)
  }

  /** One round of the loop of insert: where it goes on, or why it stops here. */
  method DescendStep<T>(ghost at: Nodes<T>, ghost m: Trie<T>, ghost k: Pos, node: TreeNode<T>, key: Key, bits: nat, leftmost: bool)
    returns (next: TreeNode<T>, stop: Stop, turn: bool, isLeft: bool, done: bool)
    requires Linked(at, m) && Keyed(at) && Wf(m) && In(at, node) && OnPath(m, node.pos, k, bits + 1)
    requires key.Valid() && key.family != NoFamily && PosOf(key) == k && bits < key.Bits()
    requires leftmost == LeftEdge(m, node.pos)
    ensures done ==> next == node && Stopped(at, m, k, node, stop, bits, turn, isLeft) == true
    ensures !done ==> In(at, next) && OnPath(m, next.pos, k, bits + 2) == true && isLeft == LeftEdge(m, next.pos)
  {
    ghost var p, i := node.pos, bits + 1;
    PosShape(key);
    Fields(at, m, p);
    BitsTell(m, p, k, bits);
    KeyShape(node.key);
    PosTurn(key, k, bits, i);
    turn := key.Bit(bits);
    next, stop, isLeft, done := node, Missing, leftmost, true;
    if bits >= node.dBits {
      // the node is used up; continue with the next
      StepPath(m, p, k, i);
      if turn && (node.left != null || node.isAssigned) { isLeft := false; }
      var child := if turn then node.right else node.left;
      ChildField(at, m, p, turn, child);
      if child != null {
        PathTo(m, p, k, i, turn, child.pos);
        LeftStep(m, p, turn);
        next, done := child, false;
      }
    } else if bits >= node.key.Bits() {
      // the branch ends here, yet the key has more bits
      StepPath(m, p, k, i);
      if turn && node.isAssigned { isLeft := false; }
    } else {
      PosTurn(node.key, p, bits, i);
      if turn != node.key.Bit(bits) {
        // the branch goes on in a different direction
        if turn { isLeft := false; }
        stop := Parted;
      } else {
        StayPath(m, p, k, i);
        done := false;
      }
    }
  }

  /** The loop of insert, from the node of the key's family on. */
  method Descend<T>(ghost at: Nodes<T>, ghost m: Trie<T>, ghost k: Pos, start: TreeNode<T>, key: Key, leftmost: bool)
    returns (node: TreeNode<T>, stop: Stop, bits: nat, turn: bool, isLeft: bool)
    requires Linked(at, m) && Keyed(at) && Wf(m)
    requires key.Valid() && key.family != NoFamily && PosOf(key) == k
    requires OnPath(m, start.pos, k, 1) && at[start.pos] == start && leftmost == LeftEdge(m, start.pos)
    ensures Stopped(at, m, k, node, stop, bits, turn, isLeft)
  {
    PosShape(key);
    node, isLeft, turn := start, leftmost, false;
    bits := 0;
    while bits < key.Bits()
      invariant bits <= key.Bits() && In(at, node) && OnPath(m, node.pos, k, bits + 1) == true
      invariant isLeft == LeftEdge(m, node.pos)
    {
      var done;
      node, stop, turn, isLeft, done := DescendStep(at, m, k, node, key, bits, isLeft);
      if done { return; }
      bits := bits + 1;
    }
    stop := UsedUp;
  }

  /** Descend, then attach, fork or split as needed. */
  method Walk<T>(ghost at: Nodes<T>, ghost m: Trie<T>, ghost k: Pos, start: TreeNode<T>, key: Key, leftmost: bool, zero: T)
    returns (node: TreeNode<T>, isLeft: bool, ghost more: Nodes<T>, ghost n: Trie<T>)
    requires Linked(at, m) && Keyed(at) && Wf(m) && Blank(m, zero)
    requires key.Valid() && key.family != NoFamily && PosOf(key) == k
    requires OnPath(m, start.pos, k, 1) && at[start.pos] == start && leftmost == LeftEdge(m, start.pos)
    modifies at.Values
    ensures Landed(at, m, more, n, k, node, isLeft, zero)
    ensures forall p | p in more :: p in at || fresh(more[p])
  {
    var stop, bits, turn;
    node, stop, bits, turn, isLeft := Descend(at, m, k, start, key, leftmost);
    ghost var p := node.pos;
    more, n := at, m;
    match stop
    case Missing =>
      node, more, n := LandLeaf(at, m, p, k, node, key, turn, isLeft, zero);
    case Parted =>
      node, more, n := LandFork(at, m, p, k, node, key, bits, isLeft, zero);
    case UsedUp =>
      PosShape(key);
      KeyShape(node.key);
      if node.key.Bits() > key.Bits() {
        // the key is an enclosing network of the node's
        node, more, n := LandSplit(at, m, p, k, node, key, isLeft, zero);
      } else {
        assert p == p[..|k|] == k[..|k|] == k;
        Fields(at, m, k);
        LeftHere(m, k);
      }
  }

  /** Finds or makes the node for `key`. */
  method Place<T>(ghost at: Nodes<T>, ghost m: Trie<T>, ghost k: Pos, root: TreeNode<T>, key: Key, zero: T)
    returns (node: TreeNode<T>, isLeft: bool, ghost more: Nodes<T>, ghost n: Trie<T>)
    requires Linked(at, m) && Keyed(at) && Wf(m) && Blank(m, zero) && [] in at && at[[]] == root
    requires key.Valid() && key.family != NoFamily && PosOf(key) == k
    modifies at.Values
    ensures Landed(at, m, more, n, k, node, isLeft, zero)
    ensures forall p | p in more :: p in at || fresh(more[p])
  {
    PosShape(key);
    Fields(at, m, []);
    StartPath(m, k);
    isLeft := true;
    // left for IPv4, right for IPv6
    var start := if key.family == IPv4 then root.left else root.right;
    if key.family == IPv6 && root.left != null { isLeft := false; }
    if start == null {
      assert CanAttach(m, [], k);
      LeftAttachRoot(m, k);
      LeafReady(m, [], k, zero);
      node, more, n := GrowLeaf(at, m, [], k, root, key, key.family == IPv6, zero);
    } else {
      LeftStart(m, k[0]);
      node, isLeft, more, n := Walk(at, m, k, start, key, isLeft, zero);
    }
  }

  /** Sets the assigned flag of the node at k. */
  method Mark<T>(ghost at: Nodes<T>, ghost m: Trie<T>, ghost k: Pos, node: TreeNode<T>)
    requires Linked(at, m) && k in at && at[k] == node
    modifies node`isAssigned
    ensures node.isAssigned && Linked(at, Assign(m, k))
  {
    assert Match(at, m, k);
    node.isAssigned := true;
    MatchFrame((at, m), at, Assign(m, k), {k});
    assert Match(at, Assign(m, k), k);
  }

  /** Everything that holds of a tree between operations, but for the size counter. */
  ghost predicate Sound<T>(at: Nodes<T>, m: Trie<T>, root: TreeNode<T>, left: TreeNode?<T>, zero: T)
    reads at.Values
  {
    && Linked(at, m) && Keyed(at) && Wf(m) && Blank(m, zero)
    && [] in at && at[[]] == root
    && In(at, left) && Leftmost(m, Spot(left))
  }

  /** insert, up to the counters: `fresh` nodes aside the tree is the same, and `added` tells whether
      the key is new. */
  method InsertNode<T>(ghost at: Nodes<T>, ghost m: Trie<T>, root: TreeNode<T>, left: TreeNode?<T>, key: Key, zero: T)
    returns (node: TreeNode<T>, added: bool, first: TreeNode?<T>, ghost more: Nodes<T>, ghost n: Trie<T>)
    requires Sound(at, m, root, left, zero) && key.Valid() && key.family != NoFamily
    modifies at.Values
    ensures Sound(more, n, root, first, zero)
    ensures PosOf(key) in more && more[PosOf(key)] == node && node.isAssigned
    ensures added == (PosOf(key) !in Bound(m))
    ensures Bound(n) == if added then Bound(m)[PosOf(key) := zero] else Bound(m)
    ensures |Bound(n)| == |Bound(m)| + if added then 1 else 0
    ensures Extends(at, more)
    ensures forall p | p in more :: p in at || fresh(more[p])
  {
    ghost var k := PosOf(key);
    PosShape(key);
    var isLeft;
    node, isLeft, more, n := Place(at, m, k, root, key, zero);
    if node.left != null { isLeft := false; }
    assert isLeft == NewLeft(m, k);
    assert Extends(at, more);
    Settle(m, n, k, zero);
    Fields(more, n, k);
    first := left;
    added := !node.isAssigned;
    if added {
      LeftmostInsert(m, Assign(n, k), k, zero, Spot(left));
      if isLeft { first := node; }
      Mark(more, n, k, node);
      n := Assign(n, k);
    } else {
      if isLeft { LeftmostKnown(m, k, Spot(left)); }
      assert !(isLeft && left != node);  // "lost track of left-most node in tree"
    }
  }

  /** One round of the loop of lookup: where it goes on, or null when it ends; the last assigned node. */
  method FindStep<T>(ghost at: Nodes<T>, ghost m: Trie<T>, ghost k: Pos, node: TreeNode<T>, key: Key, bits: nat, best: TreeNode?<T>)
    returns (next: TreeNode?<T>, found: TreeNode?<T>)
    requires Linked(at, m) && Keyed(at) && Wf(m) && In(at, node) && OnPath(m, node.pos, k, bits + 1)
    requires key.Valid() && key.family != NoFamily && k == PosOf(key) && bits < key.Bits()
    requires In(at, best) && BestSoFar(m, k, bits + 1, Spot(best))
    ensures In(at, next) && In(at, found)
    ensures next == null ==> BestMatch(Bound(m), k, Last(m, node.pos, bits + 1, Spot(found))) == true
    ensures next != null ==> OnPath(m, next.pos, k, bits + 2) == true && BestSoFar(m, k, bits + 2, Spot(found)) == true
  {
    ghost var p, i := node.pos, bits + 1;
    PosShape(key);
    Fields(at, m, p);
    BitsTell(m, p, k, bits);
    KeyShape(node.key);
    PosTurn(key, k, bits, i);
    next, found := null, best;
    if bits >= node.dBits {
      // the node is used up; continue with the next, keeping track of the last assigned node
      if node.isAssigned && bits == node.key.Bits() { found := node; }
      next := if key.Bit(bits) then node.right else node.left;
      ChildField(at, m, p, k[i], next);
      StepPath(m, p, k, i);
      if next == null { BestEnd(m, p, k, i, Spot(best)); } else { BestStep(m, p, k, i, Spot(best)); }
    } else if bits >= node.key.Bits() {
      // the branch ends here
      StepPath(m, p, k, i);
      BestEnd(m, p, k, i, Spot(best));
    } else {
      PosTurn(node.key, p, bits, i);
      if key.Bit(bits) != node.key.Bit(bits) {
        // the branch goes on in a different direction
        BestAside(m, p, k, i, Spot(best));
      } else {
        BestStay(m, p, k, i, Spot(best));
        StayPath(m, p, k, i);
        next := node;
      }
    }
  }

  /** lookupImpl: the node of the best match for `key`, or null. */
  method Find<T>(ghost at: Nodes<T>, ghost m: Trie<T>, root: TreeNode<T>, key: Key) returns (best: TreeNode?<T>)
    requires Linked(at, m) && Keyed(at) && Wf(m) && [] in at && at[[]] == root
    requires key.Valid() && key.family != NoFamily
    ensures In(at, best) && BestMatch(Bound(m), PosOf(key), Spot(best)) == true
  {
    ghost var k := PosOf(key);
    PosShape(key);
    var start := if key.family == IPv4 then root.left else root.right;
    ChildField(at, m, [], k[0], start);
    StartPath(m, k);
    BestStart(m, k);
    if start == null {
      BestNone(m, k);
      return null;
    }
    best := FindFrom(at, m, k, start, key);
  }

  /** The loop of lookup, and the check of the node it ends at. */
  method FindFrom<T>(ghost at: Nodes<T>, ghost m: Trie<T>, ghost k: Pos, start: TreeNode<T>, key: Key) returns (best: TreeNode?<T>)
    requires Linked(at, m) && Keyed(at) && Wf(m) && In(at, start) && OnPath(m, start.pos, k, 1)
    requires key.Valid() && key.family != NoFamily && k == PosOf(key) && BestSoFar(m, k, 1, None)
    ensures In(at, best) && BestMatch(Bound(m), k, Spot(best)) == true
  {
    PosShape(key);
    best := null;
    var node: TreeNode<T> := start;
    var bits := 0;
    while bits < key.Bits()
      invariant bits <= key.Bits() && In(at, node) && OnPath(m, node.pos, k, bits + 1) == true
      invariant In(at, best) && BestSoFar(m, k, bits + 1, Spot(best)) == true
    {
      var next;
      next, best := FindStep(at, m, k, node, key, bits, best);
      if next == null { break; }
      node := next;
      bits := bits + 1;
    }
    if bits == key.Bits() { BestFinish(m, node.pos, k, Spot(best)); }
    Fields(at, m, node.pos);
    KeyShape(node.key);
    if node.isAssigned && bits == node.key.Bits() { best := node; }
  }

  /** Stores a value in an assigned node, as the caller of insert does through its result. */
  method Store<T>(ghost at: Nodes<T>, ghost m: Trie<T>, node: TreeNode<T>, v: T)
    requires Linked(at, m) && node.pos in at && at[node.pos] == node
    modifies node`value
    ensures Linked(at, SetValue(m, node.pos, v))
  {
    ghost var k := node.pos;
    assert Match(at, m, k);
    node.value := v;
    MatchFrame((at, m), at, SetValue(m, k, v), {k});
    assert Match(at, SetValue(m, k, v), k);
  }

  method StoreSound<T>(ghost at: Nodes<T>, ghost m: Trie<T>, root: TreeNode<T>, left: TreeNode?<T>, node: TreeNode<T>, v: T, zero: T)
    returns (ghost n: Trie<T>)
    requires Sound(at, m, root, left, zero) && node.pos in Bound(m) && at[node.pos] == node
    modifies node`value
    ensures Sound(at, n, root, left, zero) && Bound(n) == Bound(m)[node.pos := v]
  {
    ghost var k := node.pos;
    SetValueWf(m, k, v);
    SetValueBound(m, k, v, zero);
    Store(at, m, node, v);
    n := SetValue(m, k, v);
  }

  lemma Overwrite<T>(b: map<Pos, T>, c: map<Pos, T>, k: Pos, zero: T, v: T)
    requires c == b[k := zero] || (k in b && c == b)
    ensures c[k := v] == b[k := v] && |c[k := v]| == |c|
  {
    assert c[k := v].Keys == c.Keys;
  }

  /** insert_or_assign, up to the counters. */
  method InsertOrAssignNode<T>(ghost at: Nodes<T>, ghost m: Trie<T>, root: TreeNode<T>, left: TreeNode?<T>, key: Key, v: T, zero: T)
    returns (added: bool, first: TreeNode?<T>, ghost more: Nodes<T>, ghost n: Trie<T>)
    requires Sound(at, m, root, left, zero) && key.Valid() && key.family != NoFamily
    modifies at.Values
    ensures Sound(more, n, root, first, zero)
    ensures Bound(n) == Bound(m)[PosOf(key) := v]
    ensures |Bound(n)| == |Bound(m)| + if added then 1 else 0
    ensures Extends(at, more)
    ensures forall p | p in more :: p in at || fresh(more[p])
  {
    var node;
    PosShape(key);
    node, added, first, more, n := InsertNode(at, m, root, left, key, zero);
    Fields(more, n, PosOf(key));
    Overwrite(Bound(m), Bound(n), PosOf(key), zero, v);
    n := StoreSound(more, n, root, first, node, v, zero);
  }

  // ---------------------------------------------------------------- traversal

  /** traverse_lnr: the node that follows `node` in order, or null after the last one. */
  method TraverseLnr<T>(ghost at: Nodes<T>, ghost m: Trie<T>, node: TreeNode<T>) returns (next: TreeNode?<T>)
    requires Linked(at, m) && Shaped(m) && node.pos in at && at[node.pos] == node
    ensures In(at, next) && Successor(m, Some(node.pos), Spot(next))
  {
    ghost var p := node.pos;
    Fields(at, m, p);
    if node.right != null {
      FollowRight(m, p);
      next := TraverseL(at, m, Some(p), node.right);
      return;
    }
    LastStart(m, p);
    var tnode: TreeNode<T> := node;
    assert Match(at, m, p);
    while tnode.parent != null
      invariant In(at, tnode) && LastOf(m, p, tnode.pos) == true && Match(at, m, tnode.pos)
      decreases |tnode.pos|
    {
      ghost var t := tnode.pos;
      LastAscend(m, p, t);
      var child := tnode;
      tnode := tnode.parent;
      Fields(at, m, tnode.pos);
      if tnode.left == child { return tnode; }
      assert Match(at, m, tnode.pos);
    }
    LastDone(m, p, tnode.pos);
    next := null;
  }

  /** traverse_l: descends left as deep as possible. */
  method TraverseL<T>(ghost at: Nodes<T>, ghost m: Trie<T>, ghost from: Option<Pos>, node: TreeNode<T>)
    returns (leaf: TreeNode<T>)
    requires Linked(at, m) && Shaped(m) && In(at, node) && Following(m, from, node.pos)
    ensures In(at, leaf) && Successor(m, from, Some(leaf.pos))
  {
    leaf := node;
    Fields(at, m, leaf.pos);
    PosBound(m, leaf.pos);
    while leaf.left != null
      invariant In(at, leaf) && Following(m, from, leaf.pos) == true
      invariant (leaf.left == null <==> m[leaf.pos].left.None?) && |leaf.pos| <= MAX_POS
      decreases MAX_POS - |leaf.pos|
    {
      Fields(at, m, leaf.pos);
      FollowLeft(m, from, leaf.pos);
      leaf := leaf.left;
      Fields(at, m, leaf.pos);
      PosBound(m, leaf.pos);
    }
    FollowDone(m, from, leaf.pos);
  }

  /** traverse_lnr_assigned: the same, but skipping the nodes that hold nothing. */
  method TraverseLnrAssigned<T>(ghost at: Nodes<T>, ghost m: Trie<T>, node: TreeNode<T>) returns (next: TreeNode?<T>)
    requires Linked(at, m) && Shaped(m) && node.pos in at && at[node.pos] == node
    ensures In(at, next) && NextAssigned(m, node.pos, Spot(next))
  {
    ghost var p := node.pos;
    next := TraverseLnr(at, m, node);
    if next != null { Fields(at, m, next.pos); }
    while next != null && !next.isAssigned
      invariant In(at, next) && NoneBetween(m, p, Spot(next)) == true
      invariant next != null ==> next.isAssigned == m[next.pos].isAssigned
      decreases After(m, Spot(next))
    {
      ghost var q := next.pos;
      next := TraverseLnr(at, m, next);
      SkipUnassigned(m, p, q, Spot(next));
      if next != null { Fields(at, m, next.pos); }
    }
  }

  // ---------------------------------------------------------------- removal

  /** One round of the loop of erase: null when nothing lies at or below the key. */
  method ReachStep<T>(ghost at: Nodes<T>, ghost m: Trie<T>, ghost k: Pos, node: TreeNode<T>, key: Key, bits: nat)
    returns (next: TreeNode?<T>)
    requires Linked(at, m) && Keyed(at) && Wf(m) && In(at, node) && OnPath(m, node.pos, k, bits + 1)
    requires key.Valid() && key.family != NoFamily && k == PosOf(key) && bits < key.Bits()
    ensures In(at, next)
    ensures next == null ==> Reached(m, k, None) == true
    ensures next != null ==> OnPath(m, next.pos, k, bits + 2) == true
  {
    ghost var p, i := node.pos, bits + 1;
    PosShape(key);
    Fields(at, m, p);
    BitsTell(m, p, k, bits);
    KeyShape(node.key);
    PosTurn(key, k, bits, i);
    next := node;
    if bits >= node.dBits {
      // the node is used up; continue with the next
      next := if key.Bit(bits) then node.right else node.left;
      ChildField(at, m, p, k[i], next);
      if next == null { ReachedNothing(m, p, k, i); } else { PathTo(m, p, k, i, k[i], next.pos); }
    } else if bits >= node.key.Bits() {
      // the branch ends here, and the key has more bits
      ReachedNothing(m, p, k, i);
      next := null;
    } else {
      PosTurn(node.key, p, bits, i);
      if key.Bit(bits) != node.key.Bit(bits) {
        // the branch goes on in a different direction
        ReachedNothing(m, p, k, i);
        next := null;
      } else {
        StayPath(m, p, k, i);
      }
    }
  }

  /** The loop of erase: the topmost node at or below the key, or null. */
  method Reach<T>(ghost at: Nodes<T>, ghost m: Trie<T>, root: TreeNode<T>, key: Key) returns (node: TreeNode?<T>)
    requires Linked(at, m) && Keyed(at) && Wf(m) && [] in at && at[[]] == root
    requires key.Valid() && key.family != NoFamily
    ensures In(at, node) && Reached(m, PosOf(key), Spot(node))
  {
    ghost var k := PosOf(key);
    PosShape(key);
    node := if key.family == IPv4 then root.left else root.right;
    ChildField(at, m, [], k[0], node);
    StartPath(m, k);
    if node == null { return; }
    var bits := 0;
    while node != null && bits < key.Bits()
      invariant bits <= key.Bits() && In(at, node)
      invariant node == null ==> Reached(m, k, None) == true
      invariant node != null ==> OnPath(m, node.pos, k, bits + 1) == true
      decreases key.Bits() - bits
    {
      node := ReachStep(at, m, k, node, key, bits);
      bits := bits + 1;
    }
    if node != null {
      Fields(at, m, node.pos);
      ReachedSome(m, node.pos, k);
    }
  }

  /** Cuts a leaf off below its parent. */
  method Detach<T>(ghost at: Nodes<T>, ghost m: Trie<T>, ghost q: Pos, ghost p: Pos, node: TreeNode<T>, up: TreeNode<T>)
    requires Linked(at, m) && p in at && at[p] == node && q in at && at[q] == up
    requires OnlyLink(m, q, p) && m[q].Child(p[|q|]) == Some(p)
    modifies up
    ensures Linked(at - {p}, Prune(m, p))
  {
    assert Match(at, m, p) && Match(at, m, q);
    ghost var n := Prune(m, p);
    if up.left == node { up.left := null; } else { up.right := null; }
    forall r | r in at && r != p ensures Match(at - {p}, n, r) {
      assert old(Match(at, m, r));
      ElsewhereLinked(m, q, p, r);
    }
  }

  lemma ElsewhereLinked<T>(m: Trie<T>, q: Pos, p: Pos, r: Pos)
    requires OnlyLink(m, q, p) && r in m
    ensures r != q || p[|q|] ==> m[r].left != Some(p)
    ensures r != q || !p[|q|] ==> m[r].right != Some(p)
    ensures m[r].parent != Some(p)
  {
    assert m[r].Child(false) == m[r].left && m[r].Child(true) == m[r].right;
  }

  /** cleanup_tree: removes the node if it is an unassigned leaf, and then looks at its parent. */
  method CleanupTree<T>(ghost at: Nodes<T>, ghost m: Trie<T>, node: TreeNode<T>, zero: T)
    returns (ghost less: Nodes<T>, ghost n: Trie<T>)
    requires Linked(at, m) && WfBut(m, node.pos) && Blank(m, zero) && node.pos in at && at[node.pos] == node
    modifies at.Values
    ensures Linked(less, n) && Wf(n) && Blank(n, zero) && Bound(n) == Bound(m) && Extends(less, at) && [] in less
    decreases |node.pos|
  {
    ghost var p := node.pos;
    Fields(at, m, p);
    assert Match(at, m, p);
    less, n := at, m;
    if node.left == null && node.right == null && !node.isAssigned {
      var up := node.parent;
      if up != null {
        assert Local(m, p);
        LeafLinks(m, p);
        PruneWf(m, p);
        PruneBlank(m, p, zero);
        PruneBound(m, p);
        Detach(at, m, up.pos, p, node, up);
        less, n := CleanupTree(at - {p}, Prune(m, p), up, zero);
      } else {
        assert Local(m, p) && LinkUp(m, p);
        PruneDone(m, p);
      }
    } else {
      PruneDone(m, p);
    }
  }

  /** Unassigns a node and gives it the default value. */
  method Release<T>(ghost at: Nodes<T>, ghost m: Trie<T>, node: TreeNode<T>, zero: T)
    requires Linked(at, m) && node.pos in at && at[node.pos] == node
    modifies node`isAssigned, node`value
    ensures Linked(at, Unassign(m, node.pos, zero))
  {
    ghost var p := node.pos;
    assert Match(at, m, p);
    node.isAssigned := false;
    node.value := zero;
    MatchFrame((at, m), at, Unassign(m, p, zero), {p});
    assert Match(at, Unassign(m, p, zero), p);
  }

  /** erase, up to the counters, once the walk has reached `node`. */
  method EraseNode<T>(ghost at: Nodes<T>, ghost m: Trie<T>, root: TreeNode<T>, left: TreeNode?<T>, node: TreeNode<T>, zero: T)
    returns (first: TreeNode?<T>, ghost less: Nodes<T>, ghost n: Trie<T>)
    requires Sound(at, m, root, left, zero) && node.pos in at && at[node.pos] == node && node.pos != []
    modifies at.Values
    ensures Sound(less, n, root, first, zero) && Bound(n) == Bound(m) - {node.pos} && Extends(less, at)
  {
    ghost var p := node.pos;
    ghost var u := Unassign(m, p, zero);
    UnassignWf(m, p, zero);
    UnassignBound(m, p, zero);
    UnassignBlank(m, p, zero);
    Release(at, m, node, zero);
    first := left;
    if node == left { first := TraverseLnrAssigned(at, u, node); }
    LeftmostErase(m, u, p, Spot(left), Spot(first));
    less, n := CleanupTree(at, u, node, zero);
    assert first != null ==> first.pos in Bound(n);
  }

  // ---------------------------------------------------------------- copying

  ghost predicate Apart<T>(at: Nodes<T>, other: Nodes<T>) {
    forall n | n in other.Values :: n !in at.Values
  }

  /** The step of copyTree's loop to the next node. */
  method CopyNext<T>(ghost at: Nodes<T>, ghost m: Trie<T>, node: TreeNode<T>) returns (next: TreeNode?<T>)
    requires Linked(at, m) && Wf(m) && node.pos in at && at[node.pos] == node
    ensures In(at, next) && After(m, Spot(next)) < After(m, Some(node.pos))
    ensures Copied(m, Spot(next)) == if node.pos in Bound(m) then Copied(m, Some(node.pos))[node.pos := m[node.pos].value]
                                     else Copied(m, Some(node.pos))
  {
    next := TraverseLnr(at, m, node);
    NextIsFewer(m, node.pos, Spot(next));
    CopyStep(m, node.pos, Spot(next));
  }

  /** The body of copyTree's loop: an assigned node is inserted into the tree of `root`. */
  method CopyNode<T>(ghost at: Nodes<T>, ghost m: Trie<T>, node: TreeNode<T>,
                     ghost to: Nodes<T>, ghost t: Trie<T>, root: TreeNode<T>, left: TreeNode?<T>, size: nat, zero: T)
    returns (first: TreeNode?<T>, count: nat, ghost more: Nodes<T>, ghost n: Trie<T>)
    requires Linked(at, m) && Keyed(at) && Wf(m) && node.pos in at && at[node.pos] == node
    requires Sound(to, t, root, left, zero) && size == |Bound(t)| && Apart(at, to)
    modifies to.Values
    ensures Linked(at, m) && Sound(more, n, root, first, zero) && count == |Bound(n)| && Apart(at, more)
    ensures Bound(n) == if node.pos in Bound(m) then Bound(t)[node.pos := m[node.pos].value] else Bound(t)
    ensures forall p | p in more :: more[p] in to.Values || fresh(more[p])
  {
    Fields(at, m, node.pos);
    assert Match(at, m, node.pos);
    assert Local(m, node.pos);
    first, count, more, n := left, size, to, t;
    if node.isAssigned {
      KeyShape(node.key);
      var added;
      added, first, more, n := InsertOrAssignNode(to, t, root, left, node.key, node.value, zero);
      if added { count := count + 1; }
    }
  }

  /** The loop of copyTree. */
  method CopyNodes<T>(ghost at: Nodes<T>, ghost m: Trie<T>, rhs: TreeNode<T>,
                      ghost to: Nodes<T>, ghost t: Trie<T>, root: TreeNode<T>, left: TreeNode?<T>, zero: T)
    returns (first: TreeNode?<T>, count: nat, ghost more: Nodes<T>, ghost n: Trie<T>)
    requires Linked(at, m) && Keyed(at) && Wf(m) && [] in at && at[[]] == rhs
    requires Sound(to, t, root, left, zero) && Bound(t) == map[] && Apart(at, to)
    modifies to.Values
    ensures Linked(at, m) && Sound(more, n, root, first, zero) && count == |Bound(n)| && Bound(n) == Bound(m)
  {
    FollowRoot(m);
    Fields(at, m, []);
    var node: TreeNode?<T> := TraverseL(at, m, None, rhs);
    CopyStart(m, Spot(node));
    first, count, more, n := CopyRest(at, m, node, to, t, root, left, zero);
    CopyEnd(m);
  }

  /** What the loop keeps: the tree to be copied as it is, and of the other what was copied so far. */
  ghost predicate Copying<T>(at: Nodes<T>, m: Trie<T>, node: TreeNode?<T>,
                             to: Nodes<T>, t: Trie<T>, root: TreeNode<T>, left: TreeNode?<T>, count: nat, zero: T)
    reads at.Values, to.Values
  {
    && Linked(at, m) && Keyed(at) && Wf(m) && In(at, node)
    && Sound(to, t, root, left, zero) && count == |Bound(t)| && Apart(at, to) && Bound(t) == Copied(m, Spot(node))
  }

  method CopyRound<T>(ghost at: Nodes<T>, ghost m: Trie<T>, node: TreeNode<T>,
                      ghost to: Nodes<T>, ghost t: Trie<T>, root: TreeNode<T>, left: TreeNode?<T>, size: nat, zero: T)
    returns (next: TreeNode?<T>, first: TreeNode?<T>, count: nat, ghost more: Nodes<T>, ghost n: Trie<T>)
    requires Copying(at, m, node, to, t, root, left, size, zero)
    modifies to.Values
    ensures Copying(at, m, next, more, n, root, first, count, zero) == true && After(m, Spot(next)) < After(m, Some(node.pos))
    ensures forall p | p in more :: more[p] in to.Values || fresh(more[p])
  {
    first, count, more, n := CopyNode(at, m, node, to, t, root, left, size, zero);
    next := CopyNext(at, m, node);
  }

  method CopyRest<T>(ghost at: Nodes<T>, ghost m: Trie<T>, start: TreeNode?<T>,
                     ghost to: Nodes<T>, ghost t: Trie<T>, root: TreeNode<T>, left: TreeNode?<T>, zero: T)
    returns (first: TreeNode?<T>, count: nat, ghost more: Nodes<T>, ghost n: Trie<T>)
    requires Copying(at, m, start, to, t, root, left, 0, zero)
    modifies to.Values
    ensures Copying(at, m, null, more, n, root, first, count, zero) == true
  {
    var node: TreeNode?<T> := start;
    first, count, more, n := left, 0, to, t;
    while node != null
      invariant Copying(at, m, node, more, n, root, first, count, zero) == true
      invariant forall p | p in more :: more[p] in to.Values || fresh(more[p])
      decreases After(m, Spot(node))
    {
      node, first, count, more, n := CopyRound(at, m, node, more, n, root, first, count, zero);
    }
  }

  /** The nodes of a tree, by position, and the trie they realise. */
  datatype Shape<T> = Shape(at: Nodes<T>, cells: Trie<T>)

  /** The nodes visited, and where they sit. */
  ghost predicate Listed<T>(at: Nodes<T>, visited: seq<TreeNode<T>>, ps: seq<Pos>) {
    |ps| == |visited| && forall i | 0 <= i < |ps| :: ps[i] == visited[i].pos && In(at, visited[i])
  }

  lemma ListedMore<T>(at: Nodes<T>, visited: seq<TreeNode<T>>, ps: seq<Pos>, node: TreeNode<T>)
    requires Listed(at, visited, ps) && In(at, node)
    ensures Listed(at, visited + [node], ps + [node.pos]) == true
  {}

  class NetmaskTree<T(0)> {
    var root: TreeNode<T>
    var left: TreeNode?<T>
    var size: nat
    const zero: T
    ghost var shape: Shape<T>

    /** Everything but the size counter. */
    ghost predicate Core()
      reads this, shape.at.Values
    {
      Sound(shape.at, shape.cells, root, left, zero)
    }

    ghost predicate Valid()
      reads this, shape.at.Values
    {
      Core() && size == |Contents()|
    }

    /** What is stored: positions and values. */
    ghost function Contents(): map<Pos, T>
      reads this
    {
      Bound(shape.cells)
    }

    constructor (zero: T)
      ensures Valid() && Contents() == map[] && fresh(shape.at.Values) && this.zero == zero
    {
      var r := new TreeNode(ROOT_KEY, zero, []);
      root, left, size, this.zero := r, null, 0, zero;
      shape := Shape(map[[] := r], Empty(zero));
      new;
      EmptyWf(zero);
      assert Match(shape.at, shape.cells, []);
    }

    /** Records what an operation on the nodes has led to. */
    method Commit(first: TreeNode?<T>, count: nat, ghost more: Nodes<T>, ghost n: Trie<T>)
      requires Sound(more, n, root, first, zero)
      modifies `left, `size, `shape
      ensures Core() && shape == Shape(more, n) && left == first && size == count
    {
      size := count;
      left := first;
      shape := Shape(more, n);
    }

    /** insert: the node for `key`, which is stored afterwards; null stands for the exception that
        a key without an address family raises. */
    method Insert(key: Key) returns (node: TreeNode?<T>)
      requires Valid() && key.Valid()
      modifies this, shape.at.Values
      ensures Valid()
      ensures key.family == NoFamily ==> node == null && Contents() == old(Contents())
      ensures key.family != NoFamily ==> node != null && In(shape.at, node) && node.pos == PosOf(key)
      ensures key.family != NoFamily ==>
        Contents() == if PosOf(key) in old(Contents()) then old(Contents()) else old(Contents())[PosOf(key) := zero]
      ensures Extends(old(shape.at), shape.at)
      ensures forall p | p in shape.at :: p in old(shape.at) || fresh(shape.at[p])
    {
      if key.family == NoFamily { return null; }
      PosShape(key);
      assert forall p | p in shape.at :: shape.at[p] as object != this;
      var added, first;
      ghost var more, n;
      node, added, first, more, n := InsertNode(shape.at, shape.cells, root, left, key, zero);
      Commit(first, if added then size + 1 else size, more, n);
    }

    /** insert_or_assign. */
    method InsertOrAssign(key: Key, v: T) returns (ok: bool)
      requires Valid() && key.Valid()
      modifies this, shape.at.Values
      ensures Valid()
      ensures ok == (key.family != NoFamily)
      ensures Contents() == if ok then old(Contents())[PosOf(key) := v] else old(Contents())
      ensures Extends(old(shape.at), shape.at)
      ensures forall p | p in shape.at :: p in old(shape.at) || fresh(shape.at[p])
    {
      if key.family == NoFamily { return false; }
      var added, first;
      ghost var more, n;
      added, first, more, n := InsertOrAssignNode(shape.at, shape.cells, root, left, key, v, zero);
      Commit(first, if added then size + 1 else size, more, n);
      ok := true;
    }

    /** lookup of a network: the best match is the longest stored prefix of the key; not ok stands for
        the exception that a key without an address family raises. */
    method Lookup(key: Key) returns (ok: bool, best: TreeNode?<T>)
      requires Valid() && key.Valid()
      ensures ok == (key.family != NoFamily)
      ensures In(shape.at, best) && (ok ==> BestMatch(Contents(), PosOf(key), Spot(best))) && (!ok ==> best == null)
      ensures best != null ==> best.key.Valid() && PosOf(best.key) == best.pos && best.value == Contents()[best.pos]
    {
      if key.family == NoFamily { return false, null; }
      best := Find(shape.at, shape.cells, root, key);
      if best != null { assert Match(shape.at, shape.cells, best.pos); }
      ok := true;
    }

    /** lookup of an address, using at most maxBits of it. */
    method LookupAddress(address: Key, maxBits: int) returns (ok: bool, best: TreeNode?<T>)
      requires Valid() && address.Bits() == address.FullBits()
      ensures ok == (address.family != NoFamily) && In(shape.at, best) && (!ok ==> best == null)
      ensures var width := if maxBits < 0 || maxBits > address.FullBits() then address.FullBits() else maxBits;
              ok ==> BestMatch(Contents(), PosOf(address.Super(width)), Spot(best))
    {
      var width := if maxBits < 0 || maxBits > address.FullBits() then address.FullBits() else maxBits;
      ok, best := Lookup(address.Super(width));
    }

    /** has_key. */
    method HasKey(key: Key) returns (ok: bool, has: bool)
      requires Valid() && key.Valid()
      ensures ok == (key.family != NoFamily) && has == (ok && PosOf(key) in Contents())
    {
      var best;
      ok, best := Lookup(key);
      has := best != null && best.key == key;
      if best != null && best.pos == PosOf(key) { PosInjective(best.key, key); }
      if ok && PosOf(key) in Contents() { assert best.pos == PosOf(key); }
    }

    /** erase.  It looks at where the walk ended, not at whether that node is the key's own. */
    method Erase(key: Key) returns (ghost reached: Option<Pos>)
      requires Valid() && key.Valid()
      modifies this, shape.at.Values
      ensures Core() && Extends(shape.at, old(shape.at))
      ensures key.family == NoFamily ==> Valid() && Contents() == old(Contents())
      ensures key.family != NoFamily ==>
        && Reached(old(shape.cells), PosOf(key), reached)
        && Contents() == Erased(old(shape.cells), reached)
        && size == |old(Contents())| - SizeDrop(reached)
      ensures key.family != NoFamily ==>
        ((Contents() == old(Contents()) - {PosOf(key)} && Valid())
         <==> (PosOf(key) in old(Contents()) || forall r | r in old(Contents()) :: !(PosOf(key) <= r)))
    {
      reached := None;
      if key.family == NoFamily { return; }
      PosShape(key);
      var node := Reach(shape.at, shape.cells, root, key);
      EraseExactIff(shape.cells, PosOf(key), Spot(node));
      if node != null {
        reached := Some(node.pos);
        ghost var r := AssignedBelow(shape.cells, node.pos);
        assert size > 0;  // "size of tree is zero before erase"
        var first;
        ghost var less, n;
        first, less, n := EraseNode(shape.at, shape.cells, root, left, node, zero);
        Commit(first, size - 1, less, n);
      }
    }

    /** clear. */
    method Clear()
      requires Valid()
      modifies this
      ensures Valid() && Contents() == map[] && fresh(shape.at.Values)
    {
      var r := new TreeNode(ROOT_KEY, zero, []);
      EmptyWf(zero);
      ghost var m := Empty(zero);
      assert Match(map[[] := r], m, []);
      root := r;
      Commit(null, 0, map[[] := r], m);
    }

    /** copyTree: copies the tree of another root into this empty tree. */
    method CopyTree(ghost other: Shape<T>, rhs: TreeNode<T>)
      requires Linked(other.at, other.cells) && Keyed(other.at) && Wf(other.cells) && [] in other.at && other.at[[]] == rhs
      requires Valid() && Contents() == map[] && Apart(other.at, shape.at)
      modifies this, shape.at.Values
      ensures Valid() && Contents() == Bound(other.cells)
    {
      var first, count;
      ghost var more, n;
      first, count, more, n := CopyNodes(other.at, other.cells, rhs, shape.at, shape.cells, root, left, zero);
      Commit(first, count, more, n);
    }

    /** What iterating from begin() to end() visits: every stored position once, in order. */
    method Entries() returns (visited: seq<TreeNode<T>>, ghost ps: seq<Pos>)
      requires Valid()
      ensures Listed(shape.at, visited, ps)
      ensures forall i, j | 0 <= i < j < |ps| :: Before(ps[i], ps[j]) && ps[i] != ps[j]
      ensures forall r :: r in ps <==> r in Contents()
    {
      ghost var at, m := shape.at, shape.cells;
      visited, ps := [], [];
      var node := left;
      VisitStart(m, Spot(node));
      while node != null
        invariant In(at, node) && Visited(m, ps, Spot(node)) == true
        invariant Listed(at, visited, ps) == true
        decreases After(m, Spot(node))
      {
        var next := TraverseLnrAssigned(at, m, node);
        NextIsFewer(m, node.pos, Spot(next));
        VisitStep(m, ps, node.pos, Spot(next));
        ListedMore(at, visited, ps, node);
        visited, ps := visited + [node], ps + [node.pos];
        node := next;
      }
      VisitAll(m, ps);
    }
  }
}
