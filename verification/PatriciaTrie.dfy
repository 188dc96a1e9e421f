/** The shape of a NetmaskTree as a value: every node of the tree sits at a position, the
    sequence of left (0) and right (1) turns that leads to its prefix, and a map from positions
    to cells describes all of them.  The module says when such a map is a well-formed Patricia
    trie, and proves that attaching, forking, splitting, unassigning and pruning keep it one. */
module PatriciaTrie {
  import opened Wrappers

  /** Family bit (0 for IPv4, 1 for IPv6) followed by the network bits; the root is at []. */
  type Pos = seq<bool>

  datatype Cell<T> = Cell(left: Option<Pos>, right: Option<Pos>, parent: Option<Pos>,
                          isAssigned: bool, value: T, dBits: nat)
  {
    function Child(turn: bool): Option<Pos> { if turn then right else left }

    predicate Leaf() { left.None? && right.None? }

    function SetChild(turn: bool, child: Option<Pos>): Cell<T> {
      if turn then this.(right := child) else this.(left := child)
    }
  }

  type Trie<T> = map<Pos, Cell<T>>

  const MAX_POS := 129

  /** Address width of the family of a non-root position. */
  function FullBits(p: Pos): nat
    requires p != []
  {
    if p[0] then 128 else 32
  }

  ghost predicate ValidPos(p: Pos) {
    p != [] && |p| - 1 <= FullBits(p)
  }

  // ---------------------------------------------------------------- well-formedness

  ghost predicate LinkUp<T>(m: Trie<T>, p: Pos)
    requires p in m
  {
    if p == [] then m[p].parent.None? && !m[p].isAssigned
    else
      && ValidPos(p)
      && m[p].parent.Some?
      && var q := m[p].parent.value;
      && q in m && q < p && m[q].Child(p[|q|]) == Some(p)
  }

  ghost predicate LinkDown<T>(m: Trie<T>, p: Pos, turn: bool)
    requires p in m
  {
    m[p].Child(turn).Some? ==>
      var c := m[p].Child(turn).value;
      c in m && p < c && c[|p|] == turn && m[c].parent == Some(p)
  }

  /** d_bits is either the prefix length or, on a node that never had a child, the address width. */
  ghost predicate BitsUsed<T>(m: Trie<T>, p: Pos)
    requires p in m
  {
    p != [] ==> m[p].dBits == |p| - 1 || (m[p].Leaf() && m[p].dBits == FullBits(p))
  }

  ghost predicate LeafUsed<T>(m: Trie<T>, p: Pos)
    requires p in m
  {
    p != [] && m[p].Leaf() ==> m[p].isAssigned
  }

  ghost predicate Local<T>(m: Trie<T>, p: Pos)
    requires p in m
  {
    LinkUp(m, p) && LinkDown(m, p, false) && LinkDown(m, p, true) && BitsUsed(m, p)
  }

  /** The child of p on the way to r exists and does not overshoot r. */
  ghost predicate Toward<T>(m: Trie<T>, p: Pos, r: Pos)
    requires p in m && r in m
  {
    p < r ==> m[p].Child(r[|p|]).Some? && m[p].Child(r[|p|]).value <= r
  }

  /** The links form a Patricia trie. */
  ghost predicate Shaped<T>(m: Trie<T>) {
    && [] in m
    && (forall p {:trigger Local(m, p)} | p in m :: Local(m, p))
    && (forall p, r {:trigger Toward(m, p, r)} | p in m && r in m :: Toward(m, p, r))
  }

  /** A well-formed trie, but for the leaf at `hole` (if it is one) that may be unassigned. */
  ghost predicate WfBut<T>(m: Trie<T>, hole: Pos) {
    && Shaped(m)
    && (forall p {:trigger LeafUsed(m, p)} | p in m && p != hole :: LeafUsed(m, p))
  }

  ghost predicate Wf<T>(m: Trie<T>) { WfBut(m, []) }

  lemma PosBound<T>(m: Trie<T>, p: Pos)
    requires Shaped(m) && p in m
    ensures |p| <= MAX_POS
  {
    assert Local(m, p);
  }

  /** What the trie stores: the assigned positions and their values. */
  ghost function Bound<T>(m: Trie<T>): map<Pos, T> {
    map p | p in m && m[p].isAssigned :: m[p].value
  }

  const EMPTY_DBITS := 0

  function Empty<T>(v: T): Trie<T> {
    map[[] := Cell(None, None, None, false, v, EMPTY_DBITS)]
  }

  lemma EmptyWf<T>(v: T)
    ensures Wf(Empty(v)) && Bound(Empty(v)) == map[]
  {}

  // ---------------------------------------------------------------- in-order comparison

  /** p comes before q when a node's left branch is visited first, then the node, then its
      right branch. */
  predicate Before(p: Pos, q: Pos) {
    if q == [] then p != [] && !p[0]
    else if p == [] then q[0]
    else if p[0] != q[0] then !p[0]
    else Before(p[1..], q[1..])
  }

  lemma {:induction false} BeforeIrreflexive(p: Pos)
    ensures !Before(p, p)
  {
    if p != [] { BeforeIrreflexive(p[1..]); }
  }

  lemma {:induction false} BeforeTotal(p: Pos, q: Pos)
    requires p != q
    ensures Before(p, q) != Before(q, p)
  {
    if p != [] && q != [] && p[0] == q[0] {
      assert p == [p[0]] + p[1..] && q == [q[0]] + q[1..];
      BeforeTotal(p[1..], q[1..]);
    }
  }

  lemma {:induction false} BeforeTransitive(p: Pos, q: Pos, r: Pos)
    requires Before(p, q) && Before(q, r)
    ensures Before(p, r)
  {
    if p != [] && q != [] && r != [] && p[0] == q[0] == r[0] {
      BeforeTransitive(p[1..], q[1..], r[1..]);
    }
  }

  /** Below a node: the next turn decides on which side of the node a position lies. */
  lemma {:induction false} BeforeBelow(p: Pos, q: Pos)
    requires p < q
    ensures Before(p, q) == q[|p|]
    ensures Before(q, p) == !q[|p|]
  {
    if p != [] {
      assert p[1..] < q[1..];
      BeforeBelow(p[1..], q[1..]);
    }
  }

  /** After a fork: the first differing turn decides. */
  lemma {:induction false} BeforeFork(p: Pos, q: Pos, i: nat)
    requires i < |p| && i < |q| && p[..i] == q[..i] && p[i] != q[i]
    ensures Before(p, q) == !p[i]
  {
    if i > 0 {
      assert p[..i][0] == q[..i][0];
      assert p[1..][..i - 1] == p[..i][1..] == q[..i][1..] == q[1..][..i - 1];
      BeforeFork(p[1..], q[1..], i - 1);
    }
  }

  /** Everything at or below c lies on the same side of a position that is not at or below c. */
  lemma {:induction false} BeforeSubtree(c: Pos, r: Pos, q: Pos)
    requires c <= r && !(c <= q)
    ensures Before(r, q) == Before(c, q)
    ensures Before(q, r) == Before(q, c)
  {
    if q != [] && c[0] == q[0] {
      assert r[0] == c[0] && c == [c[0]] + c[1..] && q == [q[0]] + q[1..];
      if c[1..] <= q[1..] {
        assert false;
      } else {
        assert c[1..] <= r[1..];
        BeforeSubtree(c[1..], r[1..], q[1..]);
      }
    }
  }

  /** `l` is the first assigned position in order (None when nothing is assigned). */
  ghost predicate Leftmost<T>(m: Trie<T>, l: Option<Pos>) {
    match l
    case None => Bound(m) == map[]
    case Some(p) => p in Bound(m) && forall r | r in Bound(m) :: r == p || Before(p, r)
  }

  /** r comes after `from`; everything does when there is no such position. */
  ghost predicate Past(from: Option<Pos>, r: Pos) {
    from.Some? ==> Before(from.value, r)
  }

  /** `s` is the first position after `from` in order among all nodes. */
  ghost predicate Successor<T>(m: Trie<T>, from: Option<Pos>, s: Option<Pos>) {
    match s
    case None => forall r | r in m :: !Past(from, r)
    case Some(q) => q in m && Past(from, q) && forall r | r in m && Past(from, r) :: r == q || Before(q, r)
  }

  /** k is not stored, and p is the deepest position on the way to it, with a free branch. */
  ghost predicate CanAttach<T>(m: Trie<T>, p: Pos, k: Pos) {
    && p in m && p < k && ValidPos(k) && k !in m
    && m[p].Child(k[|p|]).None?
    && forall r | r in m && r <= k :: r <= p
  }

  // ---------------------------------------------------------------- walking towards a key

  /** r and k share their first i turns. */
  ghost predicate Agree(r: Pos, k: Pos, i: int) {
    0 <= i <= |r| && i <= |k| && r[..i] == k[..i]
  }

  /** The walk for `k` has matched i turns and stands at p: p agrees with k that far, and every
      position that agrees with k that far lies at or below p. */
  ghost predicate OnPath<T>(m: Trie<T>, p: Pos, k: Pos, i: nat) {
    && p in m && p != [] && 1 <= i <= |p| && i <= |k|
    && p[..i] == k[..i]
    && m[p].parent.Some? && |m[p].parent.value| < i
    && forall r | r in m && Agree(r, k, i) :: p <= r
  }

  lemma StartPath<T>(m: Trie<T>, k: Pos)
    requires Wf(m) && ValidPos(k)
    ensures m[[]].Child(k[0]).Some? ==> OnPath(m, m[[]].Child(k[0]).value, k, 1) == true
    ensures m[[]].Child(k[0]).None? ==> forall r | r in m && r != [] :: r[0] != k[0]
  {
    forall r | r in m && r != [] && r[0] == k[0]
      ensures m[[]].Child(k[0]).Some? && m[[]].Child(k[0]).value <= r
    {
      assert Toward(m, [], r);
    }
    if m[[]].Child(k[0]).Some? {
      var c := m[[]].Child(k[0]).value;
      assert Local(m, []) && LinkDown(m, [], k[0]);
      assert c[..1] == [c[0]] == k[..1];
    }
  }

  lemma StepPath<T>(m: Trie<T>, p: Pos, k: Pos, i: nat)
    requires Wf(m) && OnPath(m, p, k, i) && i == |p| < |k| && ValidPos(k)
    ensures p < k
    ensures m[p].Child(k[i]).Some? ==> OnPath(m, m[p].Child(k[i]).value, k, i + 1) == true
    ensures m[p].Child(k[i]).None? ==> forall r | r in m :: !Agree(r, k, i + 1)
    ensures m[p].Child(k[i]).None? ==> CanAttach(m, p, k)
  {
    assert p == p[..i];
    forall r | r in m && Agree(r, k, i + 1)
      ensures m[p].Child(k[i]).Some? && m[p].Child(k[i]).value <= r
    {
      assert r[i] == r[..i + 1][i] == k[i];
      assert r[..i] == r[..i + 1][..i] == k[..i + 1][..i] == k[..i];
      assert Toward(m, p, r);
    }
    if m[p].Child(k[i]).Some? {
      var c := m[p].Child(k[i]).value;
      assert Local(m, p);
      assert c[..i + 1] == p + [k[i]] == k[..i + 1];
    } else {
      forall r | r in m && r <= k ensures r <= p {
        assert i < |r| ==> Agree(r, k, i + 1);
      }
    }
  }

  /** The same for a child that is known by a name. */
  lemma PathTo<T>(m: Trie<T>, p: Pos, k: Pos, i: nat, turn: bool, c: Pos)
    requires Wf(m) && OnPath(m, p, k, i) && i == |p| < |k| && ValidPos(k) && k[i] == turn && m[p].Child(turn) == Some(c)
    ensures OnPath(m, c, k, i + 1) == true
  {
    StepPath(m, p, k, i);
  }

  lemma StayPath<T>(m: Trie<T>, p: Pos, k: Pos, i: nat)
    requires OnPath(m, p, k, i) && i < |p| && i < |k| && p[i] == k[i]
    ensures OnPath(m, p, k, i + 1) == true
  {
    assert p[..i + 1] == p[..i] + [p[i]] == k[..i + 1];
    forall r | r in m && Agree(r, k, i + 1) ensures p <= r {
      assert r[..i] == r[..i + 1][..i] == k[..i + 1][..i] == k[..i];
      assert Agree(r, k, i);
    }
  }

  // ---------------------------------------------------------------- the four ways a key comes in

  /** make_left / make_right: a new leaf below p. */
  function Attach<T>(m: Trie<T>, p: Pos, k: Pos, v: T): Trie<T>
    requires p in m && p < k
  {
    m[p := m[p].SetChild(k[|p|], Some(k)).(dBits := if p == [] then m[p].dBits else |p| - 1)]
     [k := Cell(None, None, Some(p), true, v, FullBits(k))]
  }

  lemma AttachLocal<T>(m: Trie<T>, p: Pos, k: Pos, v: T, r: Pos)
    requires Wf(m) && CanAttach(m, p, k)
    requires r in m || r == k
    ensures Local(Attach(m, p, k, v), r)
    ensures r != [] ==> LeafUsed(Attach(m, p, k, v), r)
  {
    if r in m {
      assert Local(m, r);
      if r != [] { assert LeafUsed(m, r); }
    }
  }

  lemma AttachToward<T>(m: Trie<T>, p: Pos, k: Pos, v: T, r: Pos, s: Pos)
    requires Wf(m) && CanAttach(m, p, k)
    requires (r in m || r == k) && (s in m || s == k)
    ensures Toward(Attach(m, p, k, v), r, s)
  {
    if s in m { assert Toward(m, p, s); }
    if r < s && r in m {
      if s in m {
        assert Toward(m, r, s);
      } else {
        if r < p { assert Toward(m, r, p); } else { assert r == p; }
      }
    }
  }

  lemma AttachBound<T>(m: Trie<T>, p: Pos, k: Pos, v: T)
    requires CanAttach(m, p, k)
    ensures Bound(Attach(m, p, k, v)) == Bound(m)[k := v]
  {}

  lemma AttachWf<T>(m: Trie<T>, p: Pos, k: Pos, v: T)
    requires Wf(m) && CanAttach(m, p, k)
    ensures Wf(Attach(m, p, k, v))
  {
    var n := Attach(m, p, k, v);
    forall r | r in n ensures Local(n, r) && (r != [] ==> LeafUsed(n, r)) {
      AttachLocal(m, p, k, v, r);
    }
    forall r, s | r in n && s in n ensures Toward(n, r, s) {
      AttachToward(m, p, k, v, r, s);
    }
  }

  /** fork(): a branch node where p and k part, with p and a new leaf for k below it. */
  function Fork<T>(m: Trie<T>, p: Pos, k: Pos, i: nat, v: T): Trie<T>
    requires p in m && m[p].parent.Some? && m[p].parent.value in m
    requires |m[p].parent.value| < i < |p| && i < |k|
  {
    var q := m[p].parent.value;
    var b := k[..i];
    m[q := m[q].SetChild(p[|q|], Some(b))]
     [b := if p[i] then Cell(Some(k), Some(p), Some(q), false, v, i - 1)
           else Cell(Some(p), Some(k), Some(q), false, v, i - 1)]
     [p := m[p].(parent := Some(b))]
     [k := Cell(None, None, Some(b), true, v, FullBits(k))]
  }

  ghost predicate CanFork<T>(m: Trie<T>, p: Pos, k: Pos, i: nat) {
    && OnPath(m, p, k, i) && i < |p| && i < |k| && p[i] != k[i] && ValidPos(k)
    && m[p].parent.value in m && m[p].parent.value < k[..i] < p
    && k !in m && k[..i] !in m
    && (forall r | r in m && r <= k :: r <= m[p].parent.value)
    && (forall r | r in m && k[..i] <= r :: p <= r)
  }

  /** A longer prefix of k than the part it shares with p is not stored. */
  lemma ForkFresh<T>(m: Trie<T>, p: Pos, k: Pos, i: nat)
    requires Wf(m) && OnPath(m, p, k, i) && i < |p| && i < |k| && p[i] != k[i] && ValidPos(k)
    ensures CanFork(m, p, k, i)
  {
    assert Local(m, p);
    var q := m[p].parent.value;
    var b := k[..i];
    assert b == p[..i];
    assert q == p[..|q|] == b[..|q|];
    forall r | r in m && b <= r ensures p <= r {
      assert Toward(m, q, r);
    }
    forall r | r in m && r <= k ensures r <= q {
      assert i <= |r| ==> Agree(r, k, i);
      assert r <= b <= p;
      assert Toward(m, q, r);
      assert r == p[..|r|] && q == p[..|q|];
    }
  }

  lemma ForkLinkUp<T>(m: Trie<T>, p: Pos, k: Pos, i: nat, v: T, r: Pos)
    requires CanFork(m, p, k, i) && Local(m, p)
    requires r in m && r != p && Local(m, r)
    ensures LinkUp(Fork(m, p, k, i, v), r)
  {}

  lemma ForkLinkDown<T>(m: Trie<T>, p: Pos, k: Pos, i: nat, v: T, r: Pos, turn: bool)
    requires CanFork(m, p, k, i) && Local(m, p)
    requires r in m && r != p && Local(m, r)
    ensures LinkDown(Fork(m, p, k, i, v), r, turn)
  {
    assert k[..i] == p[..i];
    assert LinkDown(m, r, turn);
  }

  lemma ForkUses<T>(m: Trie<T>, p: Pos, k: Pos, i: nat, v: T, r: Pos)
    requires CanFork(m, p, k, i) && Local(m, p)
    requires r in m && r != p && Local(m, r) && (r != [] ==> LeafUsed(m, r))
    ensures BitsUsed(Fork(m, p, k, i, v), r)
    ensures r != [] ==> LeafUsed(Fork(m, p, k, i, v), r)
  {}

  lemma ForkNew<T>(m: Trie<T>, p: Pos, k: Pos, i: nat, v: T, r: Pos)
    requires CanFork(m, p, k, i) && Local(m, p) && LeafUsed(m, p)
    requires r == p || r == k || r == k[..i]
    ensures Local(Fork(m, p, k, i, v), r)
    ensures r != [] ==> LeafUsed(Fork(m, p, k, i, v), r)
  {
    assert k[..i] == p[..i];
  }

  lemma ForkLocal<T>(m: Trie<T>, p: Pos, k: Pos, i: nat, v: T, r: Pos)
    requires Wf(m) && CanFork(m, p, k, i)
    requires r in m || r == k || r == k[..i]
    ensures Local(Fork(m, p, k, i, v), r)
    ensures r != [] ==> LeafUsed(Fork(m, p, k, i, v), r)
  {
    assert Local(m, p) && LeafUsed(m, p);
    if r == p || r == k || r == k[..i] {
      ForkNew(m, p, k, i, v, r);
    } else {
      assert Local(m, r);
      assert r != [] ==> LeafUsed(m, r);
      ForkLinkUp(m, p, k, i, v, r);
      ForkLinkDown(m, p, k, i, v, r, false);
      ForkLinkDown(m, p, k, i, v, r, true);
      ForkUses(m, p, k, i, v, r);
    }
  }

  lemma ForkToward<T>(m: Trie<T>, p: Pos, k: Pos, i: nat, v: T, r: Pos, s: Pos)
    requires Wf(m) && CanFork(m, p, k, i)
    requires (r in m || r == k || r == k[..i]) && (s in m || s == k || s == k[..i])
    ensures Toward(Fork(m, p, k, i, v), r, s)
  {
    assert Local(m, p);
    var q, b := m[p].parent.value, k[..i];
    assert b == p[..i] && b[|q|] == p[|q|];
    if r < s {
      if r in m && s in m {
        assert Toward(m, r, s);
        if b <= s { assert p <= s; }
      } else if r in m {
        assert r <= k && r <= q;
        if r < q { assert Toward(m, r, q); } else { assert r == q; }
      } else if s in m {
        assert p <= s;
      }
    }
  }

  lemma ForkBound<T>(m: Trie<T>, p: Pos, k: Pos, i: nat, v: T)
    requires CanFork(m, p, k, i)
    ensures Bound(Fork(m, p, k, i, v)) == Bound(m)[k := v]
  {}

  lemma ForkDomain<T>(m: Trie<T>, p: Pos, k: Pos, i: nat, v: T)
    requires CanFork(m, p, k, i)
    ensures Fork(m, p, k, i, v).Keys == m.Keys + {k, k[..i]}
  {}

  lemma ForkWf<T>(m: Trie<T>, p: Pos, k: Pos, i: nat, v: T)
    requires Wf(m) && CanFork(m, p, k, i)
    ensures Wf(Fork(m, p, k, i, v))
  {
    var n := Fork(m, p, k, i, v);
    assert n.Keys == m.Keys + {k, k[..i]} by { ForkDomain(m, p, k, i, v); }
    forall r | r in n.Keys ensures Local(n, r) && (r != [] ==> LeafUsed(n, r)) {
      ForkLocal(m, p, k, i, v, r);
    }
    forall r, s | r in n.Keys && s in n.Keys ensures Toward(n, r, s) {
      ForkToward(m, p, k, i, v, r, s);
    }
  }

  /** split(): a node for k above p. */
  function Split<T>(m: Trie<T>, p: Pos, k: Pos, v: T): Trie<T>
    requires p in m && m[p].parent.Some? && m[p].parent.value in m
    requires |m[p].parent.value| < |k| < |p|
  {
    var q := m[p].parent.value;
    m[q := m[q].SetChild(p[|q|], Some(k))]
     [k := if p[|k|] then Cell(None, Some(p), Some(q), true, v, |k| - 1)
           else Cell(Some(p), None, Some(q), true, v, |k| - 1)]
     [p := m[p].(parent := Some(k))]
  }

  ghost predicate CanSplit<T>(m: Trie<T>, p: Pos, k: Pos) {
    && OnPath(m, p, k, |k|) && |k| < |p| && ValidPos(k)
    && m[p].parent.value in m && m[p].parent.value < k < p
    && k !in m
    && (forall r | r in m && r <= k :: r <= m[p].parent.value)
    && (forall r | r in m && k <= r :: p <= r)
  }

  lemma SplitFresh<T>(m: Trie<T>, p: Pos, k: Pos)
    requires Wf(m) && OnPath(m, p, k, |k|) && |k| < |p| && ValidPos(k)
    ensures CanSplit(m, p, k)
  {
    assert Local(m, p);
    var q := m[p].parent.value;
    assert k == p[..|k|] && q == p[..|q|] == k[..|q|];
    assert k[..|k|] == k;
    forall r | r in m && k <= r ensures p <= r {
      assert r[..|k|] == k && Agree(r, k, |k|);
    }
    forall r | r in m && r <= k ensures r <= q {
      assert |k| <= |r| ==> Agree(r, k, |k|);
      assert Toward(m, q, r);
      assert r == p[..|r|];
    }
  }

  lemma SplitLinkUp<T>(m: Trie<T>, p: Pos, k: Pos, v: T, r: Pos)
    requires CanSplit(m, p, k) && Local(m, p)
    requires r in m && r != p && Local(m, r)
    ensures LinkUp(Split(m, p, k, v), r)
  {}

  lemma SplitLinkDown<T>(m: Trie<T>, p: Pos, k: Pos, v: T, r: Pos, turn: bool)
    requires CanSplit(m, p, k) && Local(m, p)
    requires r in m && r != p && Local(m, r)
    ensures LinkDown(Split(m, p, k, v), r, turn)
  {
    assert k == p[..|k|];
    assert LinkDown(m, r, turn);
  }

  lemma SplitUses<T>(m: Trie<T>, p: Pos, k: Pos, v: T, r: Pos)
    requires CanSplit(m, p, k) && Local(m, p)
    requires r in m && r != p && Local(m, r) && (r != [] ==> LeafUsed(m, r))
    ensures BitsUsed(Split(m, p, k, v), r)
    ensures r != [] ==> LeafUsed(Split(m, p, k, v), r)
  {}

  lemma SplitNew<T>(m: Trie<T>, p: Pos, k: Pos, v: T, r: Pos)
    requires CanSplit(m, p, k) && Local(m, p) && LeafUsed(m, p)
    requires r == p || r == k
    ensures Local(Split(m, p, k, v), r)
    ensures r != [] ==> LeafUsed(Split(m, p, k, v), r)
  {
    assert k == p[..|k|];
  }

  lemma SplitLocal<T>(m: Trie<T>, p: Pos, k: Pos, v: T, r: Pos)
    requires Wf(m) && CanSplit(m, p, k)
    requires r in m || r == k
    ensures Local(Split(m, p, k, v), r)
    ensures r != [] ==> LeafUsed(Split(m, p, k, v), r)
  {
    assert Local(m, p) && LeafUsed(m, p);
    if r == p || r == k {
      SplitNew(m, p, k, v, r);
    } else {
      assert Local(m, r);
      assert r != [] ==> LeafUsed(m, r);
      SplitLinkUp(m, p, k, v, r);
      SplitLinkDown(m, p, k, v, r, false);
      SplitLinkDown(m, p, k, v, r, true);
      SplitUses(m, p, k, v, r);
    }
  }

  lemma SplitToward<T>(m: Trie<T>, p: Pos, k: Pos, v: T, r: Pos, s: Pos)
    requires Wf(m) && CanSplit(m, p, k)
    requires (r in m || r == k) && (s in m || s == k)
    ensures Toward(Split(m, p, k, v), r, s)
  {
    assert Local(m, p);
    var q := m[p].parent.value;
    if r < s {
      if r in m && s in m {
        assert Toward(m, r, s);
        if k <= s { assert p <= s; }
      } else if r in m {
        if r < q { assert Toward(m, r, q); } else { assert r == q; }
      } else {
        assert p <= s;
      }
    }
  }

  lemma SplitBound<T>(m: Trie<T>, p: Pos, k: Pos, v: T)
    requires CanSplit(m, p, k)
    ensures Bound(Split(m, p, k, v)) == Bound(m)[k := v]
  {}

  lemma SplitDomain<T>(m: Trie<T>, p: Pos, k: Pos, v: T)
    requires CanSplit(m, p, k)
    ensures Split(m, p, k, v).Keys == m.Keys + {k}
  {}

  lemma SplitWf<T>(m: Trie<T>, p: Pos, k: Pos, v: T)
    requires Wf(m) && CanSplit(m, p, k)
    ensures Wf(Split(m, p, k, v))
  {
    var n := Split(m, p, k, v);
    assert n.Keys == m.Keys + {k} by { SplitDomain(m, p, k, v); }
    forall r | r in n.Keys ensures Local(n, r) && (r != [] ==> LeafUsed(n, r)) {
      SplitLocal(m, p, k, v, r);
    }
    forall r, s | r in n.Keys && s in n.Keys ensures Toward(n, r, s) {
      SplitToward(m, p, k, v, r, s);
    }
  }

  /** A node for k is there already, as a branch point. */
  function Assign<T>(m: Trie<T>, k: Pos): Trie<T>
    requires k in m
  {
    m[k := m[k].(isAssigned := true)]
  }

  lemma AssignWf<T>(m: Trie<T>, k: Pos)
    requires Wf(m) && k in m && k != []
    ensures Wf(Assign(m, k))
    ensures Bound(Assign(m, k)) == Bound(m)[k := m[k].value]
  {
    AssignShape(m, k);
    AssignBound(m, k);
  }

  lemma AssignShape<T>(m: Trie<T>, k: Pos)
    requires Wf(m) && k in m && k != []
    ensures Wf(Assign(m, k)) == true
  {
    var n := Assign(m, k);
    forall r | r in n ensures Local(n, r) { assert Local(m, r); }
    forall r | r in n && r != [] ensures LeafUsed(n, r) { assert LeafUsed(m, r); }
    forall r, s | r in n && s in n ensures Toward(n, r, s) { assert Toward(m, r, s); }
  }

  lemma AssignBound<T>(m: Trie<T>, k: Pos)
    requires k in m
    ensures Bound(Assign(m, k)) == Bound(m)[k := m[k].value]
  {}
}
