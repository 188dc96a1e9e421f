/** The link changes of make_left, make_right, split and fork, as the nodes make them before insert
    marks the new node as assigned, and what they amount to once it has. */
module PatriciaLinks {
  import opened Wrappers
  import opened PatriciaTrie

  /** p hangs below q, on one side only. */
  ghost predicate Hangs<T>(m: Trie<T>, q: Pos, p: Pos, side: bool) {
    && p in m && q in m && q != p && m[p].parent == Some(q)
    && m[q].Child(side) == Some(p) && m[q].Child(!side) != Some(p)
  }

  /** The link changes of make_left / make_right. */
  function HangLeaf<T>(m: Trie<T>, p: Pos, k: Pos, turn: bool, bits: nat, full: nat, zero: T): (n: Trie<T>)
    requires p in m
    ensures n.Keys == m.Keys + {k}
  {
    m[p := m[p].SetChild(turn, Some(k)).(dBits := bits)][k := Cell(None, None, Some(p), false, zero, full)]
  }

  /** The link changes of split. */
  function PutAbove<T>(m: Trie<T>, q: Pos, p: Pos, k: Pos, side: bool, turn: bool, bits: nat, zero: T): (n: Trie<T>)
    requires p in m && q in m
    ensures n.Keys == m.Keys + {k}
  {
    m[q := m[q].SetChild(side, Some(k))]
     [k := Cell(None, None, Some(q), false, zero, bits).SetChild(turn, Some(p))]
     [p := m[p].(parent := Some(k))]
  }

  /** The link changes of fork. */
  function PutFork<T>(m: Trie<T>, q: Pos, p: Pos, b: Pos, k: Pos, side: bool, turn: bool, bits: nat, full: nat, zero: T)
    : (n: Trie<T>)
    requires p in m && q in m
    ensures n.Keys == m.Keys + {b, k}
  {
    m[q := m[q].SetChild(side, Some(b))]
     [b := if turn then Cell(Some(k), Some(p), Some(q), false, zero, bits)
           else Cell(Some(p), Some(k), Some(q), false, zero, bits)]
     [p := m[p].(parent := Some(b))]
     [k := Cell(None, None, Some(b), false, zero, full)]
  }

  /** Unassigned nodes hold the default value, and the root has used no bits. */
  ghost predicate Blank<T>(m: Trie<T>, zero: T) {
    && (forall p | p in m && !m[p].isAssigned :: m[p].value == zero)
    && [] in m && m[[]].dBits == 0
  }

  /** n is m with a node for k that only waits to be marked as assigned. */
  ghost predicate Placed<T>(m: Trie<T>, n: Trie<T>, k: Pos, zero: T) {
    && k in n && !n[k].isAssigned && Blank(n, zero)
    && Wf(Assign(n, k)) && Bound(Assign(n, k)) == Bound(m)[k := zero]
  }

  lemma HangLeafPlaces<T>(m: Trie<T>, p: Pos, k: Pos, turn: bool, bits: nat, full: nat, zero: T)
    requires Wf(m) && Blank(m, zero) && CanAttach(m, p, k)
    requires turn == k[|p|] && full == FullBits(k) && bits == (if p == [] then 0 else |p| - 1)
    ensures Placed(m, HangLeaf(m, p, k, turn, bits, full, zero), k, zero) == true
  {
    assert Assign(HangLeaf(m, p, k, turn, bits, full, zero), k) == Attach(m, p, k, zero);
    AttachWf(m, p, k, zero);
    AttachBound(m, p, k, zero);
  }

  lemma PutAbovePlaces<T>(m: Trie<T>, q: Pos, p: Pos, k: Pos, side: bool, turn: bool, bits: nat, zero: T)
    requires Wf(m) && Blank(m, zero) && CanSplit(m, p, k)
    requires m[p].parent == Some(q) && side == p[|q|] && turn == p[|k|] && bits == |k| - 1
    ensures Placed(m, PutAbove(m, q, p, k, side, turn, bits, zero), k, zero) == true
  {
    assert Assign(PutAbove(m, q, p, k, side, turn, bits, zero), k) == Split(m, p, k, zero);
    SplitWf(m, p, k, zero);
    SplitBound(m, p, k, zero);
  }

  lemma PutIsFork<T>(m: Trie<T>, q: Pos, p: Pos, k: Pos, i: nat, side: bool, turn: bool, full: nat, zero: T)
    requires CanFork(m, p, k, i)
    requires m[p].parent == Some(q) && side == p[|q|] && turn == p[i] && full == FullBits(k)
    ensures Assign(PutFork(m, q, p, k[..i], k, side, turn, i - 1, full, zero), k) == Fork(m, p, k, i, zero)
  {}

  lemma PutForkPlaces<T>(m: Trie<T>, q: Pos, p: Pos, k: Pos, i: nat, side: bool, turn: bool, full: nat, zero: T)
    requires Wf(m) && Blank(m, zero) && CanFork(m, p, k, i)
    requires m[p].parent == Some(q) && side == p[|q|] && turn == p[i] && full == FullBits(k)
    ensures Placed(m, PutFork(m, q, p, k[..i], k, side, turn, i - 1, full, zero), k, zero) == true
  {
    PutIsFork(m, q, p, k, i, side, turn, full, zero);
    ForkWf(m, p, k, i, zero);
    ForkBound(m, p, k, i, zero);
  }

  lemma HangsBelowParent<T>(m: Trie<T>, p: Pos)
    requires Wf(m) && p in m && p != []
    ensures m[p].parent.Some? && m[p].parent.value < p
    ensures Hangs(m, m[p].parent.value, p, p[|m[p].parent.value|])
  {
    assert Local(m, p);
    var q := m[p].parent.value;
    assert Local(m, q) && LinkDown(m, q, !p[|q|]);
  }

  // ---------------------------------------------------------------- what the walk hands over

  /** The walk found p's branch towards k free. */
  lemma LeafReady<T>(m: Trie<T>, p: Pos, k: Pos, zero: T)
    requires Wf(m) && Blank(m, zero) && CanAttach(m, p, k)
    ensures k !in m
    ensures Placed(m, HangLeaf(m, p, k, k[|p|], if p == [] then 0 else |p| - 1, FullBits(k), zero), k, zero) == true
  {
    HangLeafPlaces(m, p, k, k[|p|], if p == [] then 0 else |p| - 1, FullBits(k), zero);
  }

  lemma SplitPlaces<T>(m: Trie<T>, q: Pos, p: Pos, k: Pos, side: bool, turn: bool, bits: nat, zero: T)
    requires Wf(m) && Blank(m, zero) && OnPath(m, p, k, |k|) && |k| < |p| && ValidPos(k)
    requires m[p].parent == Some(q) && q in m && |q| < |p| && side == p[|q|] && turn == p[|k|] && bits == |k| - 1
    ensures k !in m && Placed(m, PutAbove(m, q, p, k, side, turn, bits, zero), k, zero) == true
  {
    SplitFresh(m, p, k);
    PutAbovePlaces(m, q, p, k, side, turn, bits, zero);
  }

  /** The walk found p longer than k. */
  lemma SplitReady<T>(m: Trie<T>, p: Pos, k: Pos, zero: T)
    requires Wf(m) && Blank(m, zero) && OnPath(m, p, k, |k|) && |k| < |p| && ValidPos(k)
    ensures k !in m && m[p].parent.Some?
    ensures |m[p].parent.value| < |p| && Hangs(m, m[p].parent.value, p, p[|m[p].parent.value|])
    ensures Placed(m, PutAbove(m, m[p].parent.value, p, k, p[|m[p].parent.value|], p[|k|], |k| - 1, zero), k, zero) == true
  {
    HangsBelowParent(m, p);
    var q := m[p].parent.value;
    SplitPlaces(m, q, p, k, p[|q|], p[|k|], |k| - 1, zero);
  }

  /** The walk found that p and k part after i turns. */
  lemma ForkReady<T>(m: Trie<T>, p: Pos, k: Pos, i: nat, zero: T)
    requires Wf(m) && Blank(m, zero) && OnPath(m, p, k, i) && i < |p| && i < |k| && p[i] != k[i] && ValidPos(k)
    ensures k !in m && k[..i] !in m && k[..i] == p[..i] && m[p].parent.Some?
    ensures |m[p].parent.value| < |p| && Hangs(m, m[p].parent.value, p, p[|m[p].parent.value|])
    ensures Placed(m, PutFork(m, m[p].parent.value, p, k[..i], k, p[|m[p].parent.value|], p[i], i - 1, FullBits(k), zero), k, zero) == true
  {
    ForkFresh(m, p, k, i);
    HangsBelowParent(m, p);
    PutForkPlaces(m, m[p].parent.value, p, k, i, p[|m[p].parent.value|], p[i], FullBits(k), zero);
  }

  /** What the bit counters tell while bit `bits` of k is looked at: the node is used up exactly when
      d_bits is its prefix length, and otherwise it is a leaf or has bits left to compare. */
  lemma BitsTell<T>(m: Trie<T>, p: Pos, k: Pos, bits: nat)
    requires Wf(m) && OnPath(m, p, k, bits + 1) && bits + 1 < |k| && ValidPos(k)
    ensures bits >= m[p].dBits ==> bits + 1 == |p|
    ensures bits < m[p].dBits && bits + 1 == |p| ==> m[p].Leaf()
  {
    assert Local(m, p);
    assert p[0] == p[..bits + 1][0] == k[0];
  }

  /** Marking the node for k, if it is not marked yet, leaves a trie that stores k as well. */
  lemma Settle<T>(m: Trie<T>, n: Trie<T>, k: Pos, zero: T)
    requires Wf(m) && Blank(m, zero) && k != []
    requires if k in m then n == m else Placed(m, n, k, zero)
    ensures k in n && (n[k].isAssigned <==> k in Bound(m))
    ensures n[k].isAssigned ==> n == m
    ensures !n[k].isAssigned ==> Wf(Assign(n, k)) && Blank(Assign(n, k), zero)
                                 && Bound(Assign(n, k)) == Bound(m)[k := zero]
  {
    if k in m && !m[k].isAssigned { AssignWf(m, k); }
  }

  // ---------------------------------------------------------------- longest-prefix match

  /** What lookup promises: the longest stored position that k starts with, if there is one. */
  ghost predicate BestMatch<T>(b: map<Pos, T>, k: Pos, best: Option<Pos>) {
    match best
    case None => forall r | r in b :: !(r <= k)
    case Some(q) => q in b && q <= k && forall r | r in b && r <= k :: r <= q
  }

  /** The best match among the stored positions of fewer than i turns. */
  ghost predicate BestSoFar<T>(m: Trie<T>, k: Pos, i: int, best: Option<Pos>) {
    match best
    case None => forall r | r in Bound(m) && r <= k :: |r| >= i
    case Some(q) => q in Bound(m) && q <= k && |q| < i && forall r | r in Bound(m) && r <= k && |r| < i :: r <= q
  }

  /** The best match with p itself taken into account. */
  function Better<T>(m: Trie<T>, p: Pos, best: Option<Pos>): Option<Pos>
    requires p in m
  {
    if m[p].isAssigned then Some(p) else best
  }

  lemma BestStart<T>(m: Trie<T>, k: Pos)
    requires Wf(m)
    ensures BestSoFar(m, k, 1, None) == true
  {
    assert Local(m, []);
    forall r | r in Bound(m) && r <= k ensures |r| >= 1 {
      assert |r| == 0 ==> r == [];
    }
  }

  /** p agrees with k for one more turn, so it is still not a match. */
  lemma BestStay<T>(m: Trie<T>, p: Pos, k: Pos, i: nat, best: Option<Pos>)
    requires OnPath(m, p, k, i) && i < |p| && BestSoFar(m, k, i, best)
    ensures BestSoFar(m, k, i + 1, best) == true
  {
    forall r | r in Bound(m) && r <= k && |r| == i ensures false {
      assert Agree(r, k, i);
    }
    if best.Some? {
      forall r | r in Bound(m) && r <= k && |r| < i + 1 ensures r <= best.value {
        assert |r| == i ==> Agree(r, k, i);
      }
    }
  }

  /** p is used up: it is the only new candidate. */
  lemma BestStep<T>(m: Trie<T>, p: Pos, k: Pos, i: nat, best: Option<Pos>)
    requires OnPath(m, p, k, i) && i == |p| && BestSoFar(m, k, i, best)
    ensures p <= k && BestSoFar(m, k, i + 1, Better(m, p, best)) == true
  {
    assert p == p[..i];
    forall r | r in Bound(m) && r <= k && |r| == i ensures r == p {
      assert Agree(r, k, i);
    }
    forall r | r in Bound(m) && r <= k && |r| < i ensures r <= p {}
  }

  /** What is left to do when the walk of lookup ends at p with `matched` turns: the node counts if
      its prefix is used up and it is assigned. */
  function Last<T>(m: Trie<T>, p: Pos, matched: nat, best: Option<Pos>): Option<Pos>
    requires p in m
  {
    if m[p].isAssigned && matched == |p| then Some(p) else best
  }

  /** p is used up, and nothing lies beyond it on the way to k. */
  lemma BestEnd<T>(m: Trie<T>, p: Pos, k: Pos, i: nat, best: Option<Pos>)
    requires OnPath(m, p, k, i) && i == |p| && BestSoFar(m, k, i, best)
    requires i < |k| ==> CanAttach(m, p, k)
    ensures BestMatch(Bound(m), k, Last(m, p, i, best)) == true
    ensures BestMatch(Bound(m), k, Last(m, p, i, Better(m, p, best))) == true
  {
    BestStep(m, p, k, i, best);
    forall r | r in m && r <= k ensures |r| < i + 1 {}
  }

  /** p goes another way than k, or is longer. */
  lemma BestAside<T>(m: Trie<T>, p: Pos, k: Pos, i: nat, best: Option<Pos>)
    requires OnPath(m, p, k, i) && BestSoFar(m, k, i, best) && i < |p|
    requires i < |k| ==> p[i] != k[i]
    ensures BestMatch(Bound(m), k, Last(m, p, i, best)) == true
  {
    forall r | r in m && r <= k ensures |r| < i {
      assert |r| >= i ==> Agree(r, k, i);
    }
  }

  lemma BestNone<T>(m: Trie<T>, k: Pos)
    requires Wf(m) && ValidPos(k) && m[[]].Child(k[0]).None?
    ensures BestMatch(Bound(m), k, None) == true
  {
    assert Local(m, []);
    StartPath(m, k);
  }

  /** All of k has been walked. */
  lemma BestFinish<T>(m: Trie<T>, p: Pos, k: Pos, best: Option<Pos>)
    requires OnPath(m, p, k, |k|) && BestSoFar(m, k, |k|, best)
    ensures BestMatch(Bound(m), k, Last(m, p, |k|, best)) == true
  {
    if |k| == |p| { BestEnd(m, p, k, |k|, best); } else { BestAside(m, p, k, |k|, best); }
  }

  function SetValue<T>(m: Trie<T>, k: Pos, v: T): Trie<T>
    requires k in m
  {
    m[k := m[k].(value := v)]
  }

  lemma SetValueWf<T>(m: Trie<T>, k: Pos, v: T)
    requires Wf(m) && k in m
    ensures Wf(SetValue(m, k, v))
  {
    var n := SetValue(m, k, v);
    forall r | r in n ensures Local(n, r) { assert Local(m, r); }
    forall r | r in n && r != [] ensures LeafUsed(n, r) { assert LeafUsed(m, r); }
    forall r, s | r in n && s in n ensures Toward(n, r, s) { assert Toward(m, r, s); }
  }

  lemma SetValueBound<T>(m: Trie<T>, k: Pos, v: T, zero: T)
    requires Blank(m, zero) && k in Bound(m)
    ensures Blank(SetValue(m, k, v), zero)
    ensures Bound(SetValue(m, k, v)) == Bound(m)[k := v]
  {}
}
