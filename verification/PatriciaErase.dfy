/** Removing a key: what the erase walk reaches, and the clean-up of unassigned leaves. */
module PatriciaErase {
  import opened Wrappers
  import opened PatriciaTrie
  import opened PatriciaOrder
  import opened PatriciaLinks

  /** Where the walk of erase ends: at the topmost position at or below k, if there is one. */
  ghost predicate Reached<T>(m: Trie<T>, k: Pos, t: Option<Pos>) {
    match t
    case None => forall r | r in m :: !(k <= r)
    case Some(p) => p in m && k <= p && forall r | r in m && k <= r :: p <= r
  }

  lemma ReachedNothing<T>(m: Trie<T>, p: Pos, k: Pos, i: nat)
    requires Wf(m) && OnPath(m, p, k, i) && i < |k|
    requires if i < |p| then p[i] != k[i] else m[p].Child(k[i]).None?
    ensures Reached(m, k, None) == true
  {
    forall r | r in m ensures !(k <= r) {
      assert k <= r ==> Agree(r, k, i);
      assert Toward(m, p, r);
    }
  }

  lemma ReachedSome<T>(m: Trie<T>, p: Pos, k: Pos)
    requires OnPath(m, p, k, |k|)
    ensures Reached(m, k, Some(p)) == true
  {
    assert k[..|k|] == k;
    forall r | r in m && k <= r ensures p <= r {
      assert Agree(r, k, |k|);
    }
  }

  // ---------------------------------------------------------------- when erase is exact

  /** What erase does to the stored bindings, given where its walk ended. */
  ghost function Erased<T>(m: Trie<T>, t: Option<Pos>): map<Pos, T> {
    if t.Some? then Bound(m) - {t.value} else Bound(m)
  }

  /** By how much erase lowers the size counter. */
  function SizeDrop(t: Option<Pos>): nat {
    if t.Some? then 1 else 0
  }

  /** erase(k) removes exactly k and keeps the counter right if and only if k is stored or no
      stored prefix is longer than k and starts with it.  In the other case it unassigns a longer
      prefix, or counts down for a branch point. */
  lemma EraseExactIff<T>(m: Trie<T>, k: Pos, t: Option<Pos>)
    requires Wf(m) && k != [] && Reached(m, k, t)
    ensures (Erased(m, t) == Bound(m) - {k} && |Erased(m, t)| == |Bound(m)| - SizeDrop(t))
        <==> (k in Bound(m) || forall r | r in Bound(m) :: !(k <= r))
  {
    if k in Bound(m) {
      assert t.Some? && k <= t.value <= k && t.value == k;
      assert Erased(m, t).Keys == Bound(m).Keys - {k};
    } else if t.None? {
      assert Bound(m) - {k} == Bound(m);
    } else {
      var p := t.value;
      var r := AssignedBelow(m, p);
      assert k <= r;
      assert Bound(m) - {k} == Bound(m);
      if p in Bound(m) {
        assert p !in Erased(m, t);
      } else {
        assert Erased(m, t) == Bound(m);
      }
    }
  }

  /** The failing family is not empty: with 10.1.0.0/16 alone in the tree, erasing 10.0.0.0/8
      removes it. */
  lemma EraseTakesLongerPrefix(m: Trie<bool>, k: Pos, p: Pos)
    requires k == [false] + [false, false, false, false, true, false, true, false]
    requires p == k + [false, false, false, false, false, false, false, true]
    requires m == Attach(Empty(false), [], p, true)
    ensures Wf(m) && Bound(m) == map[p := true] && Reached(m, k, Some(p))
    ensures Erased(m, Some(p)) == map[] != Bound(m) - {k}
  {
    EmptyWf(false);
    AttachWf(Empty(false), [], p, true);
    AttachBound(Empty(false), [], p, true);
    assert k < p;
    assert p in Bound(m) - {k};
  }

  // ---------------------------------------------------------------- unassigning and pruning

  function Unassign<T>(m: Trie<T>, p: Pos, zero: T): Trie<T>
    requires p in m
  {
    m[p := m[p].(isAssigned := false, value := zero)]
  }

  lemma UnassignWf<T>(m: Trie<T>, p: Pos, zero: T)
    requires Wf(m) && p in m && p != []
    ensures WfBut(Unassign(m, p, zero), p)
  {
    var n := Unassign(m, p, zero);
    forall r | r in n ensures Local(n, r) { assert Local(m, r); }
    forall r | r in n && r != p ensures r != [] ==> LeafUsed(n, r) { assert r != [] ==> LeafUsed(m, r); }
    forall r, s | r in n && s in n ensures Toward(n, r, s) { assert Toward(m, r, s); }
  }

  lemma UnassignBound<T>(m: Trie<T>, p: Pos, zero: T)
    requires p in m
    ensures Bound(Unassign(m, p, zero)) == Bound(m) - {p}
  {}

  /** cleanup_tree on one node: an unassigned leaf goes, and its parent loses the link. */
  function Prune<T>(m: Trie<T>, p: Pos): Trie<T>
    requires p in m && m[p].parent.Some? && m[p].parent.value in m && m[p].parent.value < p
  {
    var q := m[p].parent.value;
    m[q := m[q].SetChild(p[|q|], None)] - {p}
  }

  ghost predicate CanPrune<T>(m: Trie<T>, p: Pos) {
    && p in m && p != [] && m[p].Leaf() && !m[p].isAssigned
    && Local(m, p)
  }

  lemma PruneLocal<T>(m: Trie<T>, p: Pos, r: Pos)
    requires CanPrune(m, p) && r in m && r != p && Local(m, r)
    ensures Local(Prune(m, p), r)
  {
    assert LinkUp(m, r) && LinkDown(m, r, false) && LinkDown(m, r, true);
  }

  lemma PruneToward<T>(m: Trie<T>, p: Pos, r: Pos, s: Pos)
    requires CanPrune(m, p) && r in m && r != p && s in m && s != p
    requires Toward(m, r, s) && Toward(m, p, s)
    ensures Toward(Prune(m, p), r, s)
  {
    assert p <= s ==> p < s || p == s;
  }

  lemma PruneWf<T>(m: Trie<T>, p: Pos)
    requires WfBut(m, p) && p in m && p != [] && m[p].Leaf() && !m[p].isAssigned
    ensures CanPrune(m, p) && WfBut(Prune(m, p), m[p].parent.value)
    ensures m[p].parent == Some([]) ==> Wf(Prune(m, p))
  {
    assert Local(m, p);
    var q := m[p].parent.value;
    var n := Prune(m, p);
    assert n.Keys == m.Keys - {p};
    forall r | r in n.Keys ensures Local(n, r) {
      assert Local(m, r);
      PruneLocal(m, p, r);
    }
    forall r | r in n.Keys && r != q ensures LeafUsed(n, r) { assert LeafUsed(m, r); }
    forall r, s | r in n.Keys && s in n.Keys ensures Toward(n, r, s) {
      assert Toward(m, r, s) && Toward(m, p, s);
      PruneToward(m, p, r, s);
    }
  }

  lemma PruneBound<T>(m: Trie<T>, p: Pos)
    requires CanPrune(m, p)
    ensures Bound(Prune(m, p)) == Bound(m)
  {}

  lemma PruneDone<T>(m: Trie<T>, p: Pos)
    requires WfBut(m, p) && p in m && (p == [] || !m[p].Leaf() || m[p].isAssigned)
    ensures Wf(m)
  {
    forall r | r in m && r != [] ensures LeafUsed(m, r) {
      if r != p { assert LeafUsed(m, r); }
    }
  }

  /** Dropping the first assigned position makes the next one the first. */
  lemma LeftmostErase<T>(m: Trie<T>, n: Trie<T>, p: Pos, l: Option<Pos>, s: Option<Pos>)
    requires Bound(n) == Bound(m) - {p} && Leftmost(m, l)
    requires l == Some(p) ==> NextAssigned(n, p, s)
    ensures Leftmost(n, if l == Some(p) then s else l)
  {
    if l == Some(p) {
      if s.None? { assert forall r | r in Bound(n) :: false; }
    } else if l.Some? {
      assert l.value in Bound(n);
    }
  }

  /** Nothing but the link from q leads to p. */
  ghost predicate OnlyLink<T>(m: Trie<T>, q: Pos, p: Pos) {
    && p in m && q in m && q < p && m[p].parent == Some(q)
    && (forall r, turn | r in m && m[r].Child(turn) == Some(p) :: r == q && turn == p[|q|])
    && (forall r | r in m :: m[r].parent != Some(p))
  }

  lemma LeafLinks<T>(m: Trie<T>, p: Pos)
    requires Shaped(m) && p in m && p != [] && m[p].Leaf()
    ensures m[p].parent.Some? && OnlyLink(m, m[p].parent.value, p)
    ensures m[p].parent.value < p && m[m[p].parent.value].Child(p[|m[p].parent.value|]) == Some(p)
  {
    assert Local(m, p);
    forall r, turn | r in m && m[r].Child(turn) == Some(p)
      ensures Some(r) == m[p].parent && r < p && turn == p[|r|]
    {
      assert Local(m, r) && LinkDown(m, r, turn);
    }
    forall r | r in m ensures m[r].parent != Some(p) {
      assert Local(m, r) && LinkUp(m, r);
    }
  }

  lemma PruneBlank<T>(m: Trie<T>, p: Pos, zero: T)
    requires CanPrune(m, p) && Blank(m, zero)
    ensures Blank(Prune(m, p), zero)
  {}

  lemma UnassignBlank<T>(m: Trie<T>, p: Pos, zero: T)
    requires p in m && Blank(m, zero)
    ensures Blank(Unassign(m, p, zero), zero)
  {}
}
