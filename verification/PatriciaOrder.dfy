/** What the tree keeps about in-order traversal: the left-most pointer that insert maintains with
    its `is_left` flag, and the node that traverse_lnr reaches. */
module PatriciaOrder {
  import opened Wrappers
  import opened PatriciaTrie

  /** Some assigned position lies at or below every node but the root. */
  lemma {:induction false} AssignedBelow<T>(m: Trie<T>, p: Pos) returns (r: Pos)
    requires Wf(m) && p in m && p != []
    ensures r in Bound(m) && p <= r
    decreases MAX_POS - |p|
  {
    assert Local(m, p) && LeafUsed(m, p);
    if m[p].isAssigned {
      r := p;
    } else {
      var turn := m[p].Child(true).Some?;
      assert LinkDown(m, p, turn);
      var c := m[p].Child(turn).value;
      assert Local(m, c);
      r := AssignedBelow(m, c);
    }
  }

  // ---------------------------------------------------------------- the is_left flag

  /** Everything assigned outside the branch at p comes after p. */
  ghost predicate LeftEdge<T>(m: Trie<T>, p: Pos) {
    forall r | r in Bound(m) && !(p <= r) :: Before(p, r)
  }

  /** k would come before everything assigned. */
  ghost predicate NewLeft<T>(m: Trie<T>, k: Pos) {
    forall r | r in Bound(m) :: r == k || Before(k, r)
  }

  lemma LeftStart<T>(m: Trie<T>, turn: bool)
    requires Wf(m) && m[[]].Child(turn).Some?
    ensures LeftEdge(m, m[[]].Child(turn).value) == !(turn && m[[]].left.Some?)
  {
    assert Local(m, []) && LinkDown(m, [], turn) && LinkDown(m, [], !turn);
    var c := m[[]].Child(turn).value;
    forall r | r in Bound(m) && !(c <= r) ensures Before(c, r) == !turn && r[0] != c[0] {
      assert Toward(m, [], r);
      BeforeFork(c, r, 0);
    }
    if turn && m[[]].left.Some? {
      var r := AssignedBelow(m, m[[]].left.value);
      assert !(c <= r);
    }
    forall r | r in m && r != [] ensures m[[]].Child(r[0]).Some? && m[[]].Child(r[0]).value <= r {
      assert Toward(m, [], r);
    }
  }

  /** Going down from p to its child at `turn`. */
  lemma LeftStep<T>(m: Trie<T>, p: Pos, turn: bool)
    requires Wf(m) && p in m && p != [] && m[p].Child(turn).Some?
    ensures LeftEdge(m, m[p].Child(turn).value)
         == (LeftEdge(m, p) && !(turn && (m[p].left.Some? || m[p].isAssigned)))
  {
    assert Local(m, p) && LinkDown(m, p, turn) && LinkDown(m, p, !turn);
    var c := m[p].Child(turn).value;
    BeforeBelow(p, c);
    forall r | r in Bound(m) && !(p <= r) ensures Before(c, r) == Before(p, r) && !(c <= r) {
      assert c <= r ==> p <= r;
      BeforeSubtree(p, c, r);
    }
    forall r | r in Bound(m) && p <= r && !(c <= r) ensures Before(c, r) == !turn {
      if r != p {
        assert p < r;
        assert Toward(m, p, r);
        assert c[..|p|] == p == r[..|p|];
        BeforeFork(c, r, |p|);
      }
    }
    if turn && m[p].left.Some? {
      var o := m[p].left.value;
      var r := AssignedBelow(m, o);
      assert p <= r && r[|p|] == o[|p|] == false && c[|p|];
    }
    if turn && m[p].isAssigned { assert p in Bound(m); }
    if turn && m[p].left.None? && !m[p].isAssigned {
      forall r | r in Bound(m) && p <= r ensures c <= r {
        assert |r| == |p| ==> r == p;
        assert Toward(m, p, r);
      }
    }
  }

  /** A new leaf k on the free `turn` side of p. */
  lemma LeftAttach<T>(m: Trie<T>, p: Pos, k: Pos)
    requires Wf(m) && p != [] && CanAttach(m, p, k)
    ensures NewLeft(m, k) == (LeftEdge(m, p) && !(k[|p|] && (m[p].left.Some? || m[p].isAssigned)))
  {
    var turn := k[|p|];
    assert Local(m, p) && LinkDown(m, p, !turn);
    BeforeBelow(p, k);
    forall r | r in Bound(m) && !(p <= r) ensures r != k && Before(k, r) == Before(p, r) {
      BeforeSubtree(p, k, r);
    }
    forall r | r in Bound(m) && p <= r ensures r != k && Before(k, r) == !turn {
      if r != p {
        assert p < r;
        assert Toward(m, p, r);
        assert k[..|p|] == p == r[..|p|];
        BeforeFork(k, r, |p|);
      }
    }
    if turn && m[p].left.Some? {
      var r := AssignedBelow(m, m[p].left.value);
      assert p <= r;
    }
    if turn && m[p].isAssigned { assert p in Bound(m); }
    forall r | r in m && p <= r ensures r == p || m[p].Child(r[|p|]).Some? {
      assert |r| == |p| ==> r == p;
      assert Toward(m, p, r);
    }
  }

  lemma LeftAttachRoot<T>(m: Trie<T>, k: Pos)
    requires Wf(m) && CanAttach(m, [], k)
    ensures NewLeft(m, k) == !(k[0] && m[[]].left.Some?)
  {
    assert Local(m, []) && LinkDown(m, [], !k[0]);
    forall r | r in Bound(m) ensures r != k && Before(k, r) == !k[0] {
      assert Toward(m, [], r);
      BeforeFork(k, r, 0);
    }
    if k[0] && m[[]].left.Some? {
      var r := AssignedBelow(m, m[[]].left.value);
    }
    forall r | r in m && r != [] ensures m[[]].Child(r[0]).Some? {
      assert Toward(m, [], r);
    }
  }

  lemma LeftFork<T>(m: Trie<T>, p: Pos, k: Pos, i: nat)
    requires Wf(m) && CanFork(m, p, k, i)
    ensures NewLeft(m, k) == (LeftEdge(m, p) && !k[i])
  {
    var b := k[..i];
    assert b == p[..i] && b <= p && b <= k;
    forall r | r in Bound(m) && !(p <= r) ensures r != k && Before(k, r) == Before(p, r) {
      assert b <= r ==> p <= r;
      BeforeSubtree(b, k, r);
      BeforeSubtree(b, p, r);
    }
    forall r | r in Bound(m) && p <= r ensures r != k && Before(k, r) == !k[i] {
      assert r[..i] == p[..i] == k[..i];
      BeforeFork(k, r, i);
    }
    var r := AssignedBelow(m, p);
  }

  lemma LeftSplit<T>(m: Trie<T>, p: Pos, k: Pos)
    requires Wf(m) && CanSplit(m, p, k)
    ensures NewLeft(m, k) == (LeftEdge(m, p) && p[|k|])
  {
    assert k <= p;
    forall r | r in Bound(m) && !(p <= r) ensures r != k && Before(k, r) == Before(p, r) {
      assert k <= r ==> p <= r;
      BeforeSubtree(k, p, r);
    }
    forall r | r in Bound(m) && p <= r ensures r != k && Before(k, r) == p[|k|] {
      assert k < r;
      BeforeBelow(k, r);
    }
    var r := AssignedBelow(m, p);
  }

  lemma LeftHere<T>(m: Trie<T>, k: Pos)
    requires Wf(m) && k in m && k != []
    ensures NewLeft(m, k) == (LeftEdge(m, k) && m[k].left.None?)
  {
    assert Local(m, k) && LinkDown(m, k, false);
    forall r | r in Bound(m) && k <= r && r != k ensures Before(k, r) == r[|k|] && m[k].Child(r[|k|]).Some? {
      assert k < r;
      assert Toward(m, k, r);
      BeforeBelow(k, r);
    }
    if m[k].left.Some? {
      var r := AssignedBelow(m, m[k].left.value);
      assert k < r && !r[|k|];
    }
  }

  /** After an insertion the flag says whether the left-most pointer has to move. */
  lemma LeftmostInsert<T>(m: Trie<T>, n: Trie<T>, k: Pos, v: T, l: Option<Pos>)
    requires k !in Bound(m) && Bound(n) == Bound(m)[k := v] && Leftmost(m, l)
    ensures Leftmost(n, if NewLeft(m, k) then Some(k) else l)
  {
    if !NewLeft(m, k) {
      var r :| r in Bound(m) && !(r == k || Before(k, r));
      BeforeTotal(k, r);
      assert l.Some?;
      if l.value != r { BeforeTransitive(l.value, r, k); }
    }
  }

  /** The "lost track of left-most node" error needs an assigned k that comes first, yet is not
      the recorded left-most node. */
  lemma LeftmostKnown<T>(m: Trie<T>, k: Pos, l: Option<Pos>)
    requires k in Bound(m) && NewLeft(m, k) && Leftmost(m, l)
    ensures l == Some(k)
  {
    if l.value != k { BeforeTotal(k, l.value); }
  }

  // ---------------------------------------------------------------- traverse_lnr

  /** q comes after `from` and not above it, and nothing outside the branch at q lies between them. */
  ghost predicate Following<T>(m: Trie<T>, from: Option<Pos>, q: Pos) {
    && q in m && Past(from, q) && (from.Some? ==> !(q <= from.value))
    && forall r | r in m && Past(from, r) :: q <= r || Before(q, r)
  }

  lemma FollowRoot<T>(m: Trie<T>)
    requires Shaped(m)
    ensures Following(m, None, [])
  {}

  /** p is the last node of the branch at t. */
  ghost predicate LastOf<T>(m: Trie<T>, p: Pos, t: Pos) {
    p in m && t in m && t <= p && forall r | r in m && t <= r :: !Before(p, r)
  }

  lemma FollowRight<T>(m: Trie<T>, p: Pos)
    requires Shaped(m) && p in m && m[p].right.Some?
    ensures Following(m, Some(p), m[p].right.value)
  {
    assert Local(m, p) && LinkDown(m, p, true);
    var c := m[p].right.value;
    BeforeBelow(p, c);
    forall r | r in m && Before(p, r) ensures c <= r || Before(c, r) {
      if p <= r {
        if r == p { BeforeIrreflexive(p); } else {
          assert p < r;
          BeforeBelow(p, r);
          assert Toward(m, p, r);
        }
      } else {
        BeforeSubtree(p, c, r);
      }
    }
  }

  lemma FollowLeft<T>(m: Trie<T>, from: Option<Pos>, q: Pos)
    requires Shaped(m) && Following(m, from, q) && m[q].left.Some?
    ensures Following(m, from, m[q].left.value)
    ensures q < m[q].left.value
  {
    assert Local(m, q) && LinkDown(m, q, false);
    var c := m[q].left.value;
    BeforeBelow(q, c);
    if from.Some? {
      var f := from.value;
      assert c <= f ==> q <= f;
      BeforeSubtree(q, c, f);
    }
    forall r | r in m && Past(from, r) ensures c <= r || Before(c, r) {
      if q <= r {
        if r == q {} else {
          assert q < r;
          assert Toward(m, q, r);
          if r[|q|] {
            assert c[..|q|] == q == r[..|q|];
            BeforeFork(c, r, |q|);
          }
        }
      } else {
        BeforeSubtree(q, c, r);
      }
    }
  }

  lemma FollowDone<T>(m: Trie<T>, from: Option<Pos>, q: Pos)
    requires Shaped(m) && Following(m, from, q) && m[q].left.None?
    ensures Successor(m, from, Some(q))
  {
    forall r | r in m && Past(from, r) ensures r == q || Before(q, r) {
      if q < r {
        assert Toward(m, q, r);
        BeforeBelow(q, r);
      } else if q <= r {
        assert r == q;
      }
    }
  }

  lemma LastStart<T>(m: Trie<T>, p: Pos)
    requires Shaped(m) && p in m && m[p].right.None?
    ensures LastOf(m, p, p)
  {
    forall r | r in m && p <= r ensures !Before(p, r) {
      if r == p { BeforeIrreflexive(p); } else {
        assert p < r;
        assert Toward(m, p, r);
        BeforeBelow(p, r);
      }
    }
  }

  lemma LastAscend<T>(m: Trie<T>, p: Pos, t: Pos)
    requires Shaped(m) && LastOf(m, p, t) && m[t].parent.Some?
    ensures m[t].parent.value in m && m[t].parent.value < t
    ensures m[m[t].parent.value].left == Some(t) ==> Successor(m, Some(p), m[t].parent)
    ensures m[m[t].parent.value].left != Some(t) ==> LastOf(m, p, m[t].parent.value)
  {
    assert Local(m, t);
    var u := m[t].parent.value;
    assert u < p && p[|u|] == t[|u|];
    BeforeBelow(u, p);
    if m[u].left == Some(t) {
      assert Local(m, u) && LinkDown(m, u, false);
      forall r | r in m && Before(p, r) ensures r == u || Before(u, r) {
        if u < r {
          assert Toward(m, u, r);
          BeforeBelow(u, r);
        } else if u <= r {
          assert u == r;
        } else {
          BeforeSubtree(u, p, r);
        }
      }
    } else {
      forall r | r in m && u <= r ensures !Before(p, r) {
        if r == u {} else if !(t <= r) {
          assert u < r;
          assert Toward(m, u, r);
          assert p[..|u|] == u == r[..|u|];
          BeforeFork(p, r, |u|);
        }
      }
    }
  }

  lemma LastDone<T>(m: Trie<T>, p: Pos, t: Pos)
    requires Shaped(m) && LastOf(m, p, t) && m[t].parent.None?
    ensures Successor(m, Some(p), None)
  {
    assert Local(m, t);
  }

  // ---------------------------------------------------------------- traverse_lnr_assigned

  /** `s` is the position that follows p among those that are assigned. */
  ghost predicate NextAssigned<T>(m: Trie<T>, p: Pos, s: Option<Pos>) {
    match s
    case None => forall r | r in Bound(m) :: !Before(p, r)
    case Some(q) => q in Bound(m) && Before(p, q) && forall r | r in Bound(m) && Before(p, r) :: r == q || Before(q, r)
  }

  /** All that is assigned and comes after p is at `s` or after it. */
  ghost predicate NoneBetween<T>(m: Trie<T>, p: Pos, s: Option<Pos>) {
    && (s.Some? ==> s.value in m && Before(p, s.value))
    && forall r | r in Bound(m) && Before(p, r) :: s.Some? && (r == s.value || Before(s.value, r))
  }

  ghost function After<T>(m: Trie<T>, s: Option<Pos>): set<Pos> {
    if s.None? then {} else set r | r in m && (r == s.value || Before(s.value, r))
  }

  /** An unassigned node may be stepped over; fewer nodes are left to visit then. */
  lemma SkipUnassigned<T>(m: Trie<T>, p: Pos, q: Pos, s: Option<Pos>)
    requires NoneBetween(m, p, Some(q)) && q !in Bound(m) && Successor(m, Some(q), s)
    ensures NoneBetween(m, p, s) && After(m, s) < After(m, Some(q))
  {
    if s.Some? {
      BeforeTransitive(p, q, s.value);
      forall r | r in After(m, s) ensures r in After(m, Some(q)) && r != q {
        if r != s.value { BeforeTransitive(q, s.value, r); }
        BeforeIrreflexive(q);
      }
    }
    assert q in After(m, Some(q));
    forall r | r in Bound(m) && Before(p, r) ensures s.Some? && (r == s.value || Before(s.value, r)) {
      assert r != q && Before(q, r);
    }
  }

  /** Going on to a later position leaves fewer to visit. */
  lemma {:induction false} NextIsFewer<T>(m: Trie<T>, p: Pos, s: Option<Pos>)
    requires p in m && (s.Some? ==> Before(p, s.value))
    ensures After(m, s) < After(m, Some(p))
  {
    assert p in After(m, Some(p));
    BeforeIrreflexive(p);
    if s.Some? {
      forall r | r in After(m, s) ensures r in After(m, Some(p)) && r != p {
        if r != s.value { BeforeTransitive(p, s.value, r); }
      }
    }
  }

  /** An iteration has gone through `ps`, in order and without repetition, and `s` is what comes next. */
  ghost predicate Visited<T>(m: Trie<T>, ps: seq<Pos>, s: Option<Pos>) {
    && (forall r | r in ps :: r in Bound(m))
    && (forall i, j | 0 <= i < j < |ps| :: Before(ps[i], ps[j]))
    && (s.Some? ==> s.value in Bound(m) && forall r | r in ps :: Before(r, s.value))
    && (forall r | r in Bound(m) :: r in ps || (s.Some? && (r == s.value || Before(s.value, r))))
  }

  lemma VisitStart<T>(m: Trie<T>, s: Option<Pos>)
    requires Leftmost(m, s)
    ensures Visited(m, [], s)
  {}

  lemma VisitStep<T>(m: Trie<T>, ps: seq<Pos>, p: Pos, s: Option<Pos>)
    requires Visited(m, ps, Some(p)) && NextAssigned(m, p, s)
    ensures Visited(m, ps + [p], s)
  {
    if s.Some? {
      forall r | r in ps ensures Before(r, s.value) { BeforeTransitive(r, p, s.value); }
    }
  }

  /** A finished iteration has visited every stored position exactly once. */
  lemma VisitAll<T>(m: Trie<T>, ps: seq<Pos>)
    requires Visited(m, ps, None)
    ensures forall r :: r in ps <==> r in Bound(m)
    ensures forall i, j | 0 <= i < j < |ps| :: ps[i] != ps[j]
  {
    forall i, j | 0 <= i < j < |ps| ensures ps[i] != ps[j] { BeforeIrreflexive(ps[i]); }
  }

  // ---------------------------------------------------------------- copyTree

  /** The part of what is stored that comes before `s`. */
  ghost function Copied<T>(m: Trie<T>, s: Option<Pos>): map<Pos, T> {
    map r | r in Bound(m) && (s.Some? ==> Before(r, s.value)) :: m[r].value
  }

  lemma CopyStart<T>(m: Trie<T>, s: Option<Pos>)
    requires s.Some? && Successor(m, None, s)
    ensures Copied(m, s) == map[]
  {
    forall r | r in Bound(m) ensures !Before(r, s.value) {
      if r == s.value { BeforeIrreflexive(r); } else { BeforeTotal(r, s.value); }
    }
  }

  lemma CopyStep<T>(m: Trie<T>, p: Pos, s: Option<Pos>)
    requires p in m && Successor(m, Some(p), s)
    ensures Copied(m, s) == if p in Bound(m) then Copied(m, Some(p))[p := m[p].value] else Copied(m, Some(p))
  {
    forall r | r in Bound(m) && r != p ensures (s.Some? ==> Before(r, s.value)) <==> Before(r, p) {
      BeforeTotal(r, p);
      if s.Some? {
        if Before(r, p) { BeforeTransitive(r, p, s.value); }
        if r == s.value { BeforeIrreflexive(r); } else { BeforeTotal(r, s.value); }
      }
    }
  }

  lemma CopyEnd<T>(m: Trie<T>)
    ensures Copied(m, None) == Bound(m)
  {}
}
