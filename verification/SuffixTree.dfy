/** SuffixMatchTree: a trie over labels, last key first, whose answer is the value of the longest
    suffix that is in it. */
module SuffixTree {
  import opened Wrappers
  import opened DnsName
  import opened CanonicalOrder

  /** A node; `value` is d_value, which a removal leaves behind. */
  datatype Tree<T> = Node(name: Label, endNode: bool, value: Option<T>, children: seq<Tree<T>>)

  // ---------------------------------------------------------------- children

  ghost predicate Rises<T>(children: seq<Tree<T>>, i: int, j: int)
    requires 0 <= i < j < |children|
  {
    Lex(children[i].name, children[j].name) < 0
  }

  /** std::set keeps the children in order of strcasecmp, which for labels without zero octets is the
      order of labels. */
  ghost predicate Ascending<T>(children: seq<Tree<T>>) {
    forall i, j {:trigger Rises(children, i, j)} | 0 <= i < j < |children| :: Rises(children, i, j)
  }

  function LowerChild<T>(children: seq<Tree<T>>, key: Label, i: nat): (r: nat)
    requires i <= |children|
    ensures i <= r <= |children|
    ensures r < |children| ==> Lex(children[r].name, key) >= 0
    decreases |children| - i
  {
    if i == |children| || Lex(children[i].name, key) >= 0 then i else LowerChild(children, key, i + 1)
  }

  lemma {:induction false} BeforeLower<T>(children: seq<Tree<T>>, key: Label, i: nat, k: nat)
    requires i <= k < |children|
    ensures k < LowerChild(children, key, i) ==> Lex(children[k].name, key) < 0
    ensures Lex(children[k].name, key) >= 0 ==> LowerChild(children, key, i) <= k
    decreases |children| - i
  {
    if i < k { BeforeLower(children, key, i + 1, k); }
  }

  /** std::set::find: the position of the child with this name, or the end. */
  function Find<T>(children: seq<Tree<T>>, key: Label): (r: nat)
    ensures r <= |children| && (r < |children| ==> Lex(children[r].name, key) == 0)
  {
    var at := LowerChild(children, key, 0);
    if at < |children| && Lex(children[at].name, key) == 0 then at else |children|
  }

  lemma LexLess(a: Label, b: Label, c: Label)
    requires Lex(a, b) <= 0 && Lex(b, c) <= 0
    ensures Lex(a, c) <= 0
    ensures Lex(a, b) < 0 || Lex(b, c) < 0 ==> Lex(a, c) < 0
  {
    LexTransitive(a, b, c, 0);
  }

  /** The search misses no child. */
  lemma FindFinds<T>(children: seq<Tree<T>>, key: Label, k: nat)
    requires Ascending(children) && k < |children| && Lex(children[k].name, key) == 0
    ensures Find(children, key) == k
  {
    var at := LowerChild(children, key, 0);
    BeforeLower(children, key, 0, k);
    if at < k {
      assert Rises(children, at, k);
      LexLess(children[at].name, children[k].name, key);
    }
  }

  lemma LexSame(a: Label, b: Label, c: Label)
    requires Lex(a, b) == 0
    ensures Lex(a, c) == 0 <==> Lex(b, c) == 0
    ensures Lex(c, a) == 0 <==> Lex(c, b) == 0
    ensures Lex(a, c) < 0 <==> Lex(b, c) < 0
    ensures Lex(c, a) < 0 <==> Lex(c, b) < 0
  {
    LexFlip(a, b, 0);
    LexFlip(a, c, 0);
    LexFlip(b, c, 0);
    if Lex(a, c) <= 0 { LexTransitive(b, a, c, 0); }
    if Lex(b, c) <= 0 { LexTransitive(a, b, c, 0); }
    if Lex(c, a) <= 0 { LexTransitive(c, a, b, 0); }
    if Lex(c, b) <= 0 { LexTransitive(c, b, a, 0); }
  }

  /** The children after `child` took the place of the one at `at`, if `taken`, or went in before it. */
  function Placed<T>(children: seq<Tree<T>>, at: nat, taken: bool, child: Tree<T>): seq<Tree<T>>
    requires at <= |children| && (taken ==> at < |children|)
  {
    if taken then children[at := child] else children[..at] + [child] + children[at..]
  }

  /** Where a name goes: its place, and whether the place is taken. */
  ghost predicate PlaceOf<T>(children: seq<Tree<T>>, key: Label, at: nat, taken: bool) {
    && at <= |children| && (taken ==> at < |children| && Lex(children[at].name, key) == 0)
    && (!taken ==> at == LowerChild(children, key, 0) && (at < |children| ==> Lex(children[at].name, key) != 0))
  }

  lemma Beside<T>(children: seq<Tree<T>>, key: Label, at: nat, taken: bool, child: Tree<T>, k: nat)
    requires Ascending(children) && PlaceOf(children, key, at, taken) && Lex(child.name, key) == 0
    requires k < |children| && (taken ==> k != at)
    ensures if k < at then Lex(children[k].name, child.name) < 0 else Lex(child.name, children[k].name) < 0
  {
    LexSame(child.name, key, children[k].name);
    BeforeLower(children, key, 0, k);
    if taken {
      LexSame(children[at].name, key, children[k].name);
      assert if k < at then Rises(children, k, at) else Rises(children, at, k);
    } else if k >= at {
      LexFlip(children[at].name, key, 0);
      if k > at {
        assert Rises(children, at, k);
        LexLess(key, children[at].name, children[k].name);
      }
    }
  }

  lemma PlacedAscending<T>(children: seq<Tree<T>>, key: Label, at: nat, taken: bool, child: Tree<T>)
    requires Ascending(children) && PlaceOf(children, key, at, taken) && Lex(child.name, key) == 0
    ensures Ascending(Placed(children, at, taken, child))
  {
    var r := Placed(children, at, taken, child);
    forall i, j | 0 <= i < j < |r| ensures Rises(r, i, j) {
      var x, y := if taken || i < at then i else i - 1, if taken || j < at then j else j - 1;
      assert (i != at ==> r[i] == children[x]) && (j != at ==> r[j] == children[y]);
      if i == at {
        Beside(children, key, at, taken, child, y);
      } else if j == at {
        Beside(children, key, at, taken, child, x);
      } else {
        assert Rises(children, x, y);
      }
    }
  }

  /** What stands where after that. */
  lemma PlacedAt<T>(children: seq<Tree<T>>, at: nat, taken: bool, child: Tree<T>, k: nat)
    requires at <= |children| && (taken ==> at < |children|) && k < |children|
    ensures var r := Placed(children, at, taken, child);
            && at < |r| && r[at] == child
            && (k < at ==> r[k] == children[k])
            && (taken && k > at ==> r[k] == children[k])
            && (!taken && k >= at ==> k + 1 < |r| && r[k + 1] == children[k])
  {}

  /** A search for this name finds the child... */
  lemma FindPlacedSame<T>(children: seq<Tree<T>>, key: Label, at: nat, taken: bool, child: Tree<T>, other: Label)
    requires Ascending(children) && PlaceOf(children, key, at, taken) && Lex(child.name, key) == 0 && Lex(key, other) == 0
    ensures var r := Placed(children, at, taken, child);
            Find(r, other) < |r| && r[Find(r, other)] == child
  {
    var r := Placed(children, at, taken, child);
    PlacedAscending(children, key, at, taken, child);
    LexSame(child.name, key, other);
    assert r[at] == child;
    FindFinds(r, other, at);
  }

  /** ...and one for any other finds what it found. */
  lemma FindPlacedOther<T>(children: seq<Tree<T>>, key: Label, at: nat, taken: bool, child: Tree<T>, other: Label)
    requires Ascending(children) && PlaceOf(children, key, at, taken) && Lex(child.name, key) == 0 && Lex(key, other) != 0
    ensures var r := Placed(children, at, taken, child);
            var f, g := Find(r, other), Find(children, other);
            (f == |r| <==> g == |children|) && (g < |children| ==> r[f] == children[g])
  {
    var r := Placed(children, at, taken, child);
    PlacedAscending(children, key, at, taken, child);
    LexSame(child.name, key, other);
    var f, g := Find(r, other), Find(children, other);
    if g < |children| {
      if taken { LexSame(children[at].name, key, other); }
      PlacedAt(children, at, taken, child, g);
      FindFinds(r, other, if taken || g < at then g else g + 1);
    } else if f < |r| {
      var k := if taken || f < at then f else f - 1;
      assert r[f] == children[k];
      FindFinds(children, other, k);
    }
  }

  // ---------------------------------------------------------------- the tree and what it holds

  ghost predicate Wf<T>(t: Tree<T>) {
    && Ascending(t.children) && (t.endNode ==> t.value.Some?)
    && forall i {:trigger Wf(t.children[i])} | 0 <= i < |t.children| :: Wf(t.children[i])
  }

  function Here<T>(t: Tree<T>): Option<T> {
    if t.endNode then t.value else None
  }

  /** The value at the name made of the labels from i up to n. */
  ghost function Get<T>(t: Tree<T>, labels: Labels, i: nat, n: nat): Option<T>
    requires i <= n <= |labels|
    decreases n
  {
    if i == n then Here(t)
    else
      var c := Find(t.children, labels[n - 1]);
      if c == |t.children| then None else Get(t.children[c], labels, i, n - 1)
  }

  /** Two runs of labels are the same name. */
  predicate SameName(a: Labels, n: nat, b: Labels, i: nat, m: nat)
    requires n <= |a| && i <= m <= |b|
    decreases n
  {
    if n == 0 || i == m then n == 0 && i == m
    else Lex(a[n - 1], b[m - 1]) == 0 && SameName(a, n - 1, b, i, m - 1)
  }

  /** Of all names, r and t differ at most in the one made of the first n labels, which has `now` in r. */
  ghost predicate Changed<T>(t: Tree<T>, r: Tree<T>, labels: Labels, n: nat, now: Option<T>, other: Labels, i: nat, m: nat)
    requires n <= |labels| && i <= m <= |other|
  {
    Get(r, other, i, m) == if SameName(labels, n, other, i, m) then now else Get(t, other, i, m)
  }

  ghost predicate Live<T>(t: Tree<T>, labels: Labels, i: nat, n: nat)
    requires i <= n <= |labels|
  {
    Get(t, labels, i, n).Some?
  }

  // ---------------------------------------------------------------- add

  function Leaf<T>(name: Label, endNode: bool): Tree<T> { Node(name, endNode, None, []) }

  /** emplace: whether there is such a child, and its place. */
  function Taken<T>(t: Tree<T>, key: Label): bool { Find(t.children, key) < |t.children| }

  function Slot<T>(t: Tree<T>, key: Label): (r: nat)
    ensures r <= |t.children| && (Taken(t, key) ==> r < |t.children|)
  {
    if Taken(t, key) then Find(t.children, key) else LowerChild(t.children, key, 0)
  }

  /** add, with the first n labels still to go. */
  function Add<T>(t: Tree<T>, labels: Labels, n: nat, value: T): (r: Tree<T>)
    requires n <= |labels|
    ensures r.name == t.name
    decreases n
  {
    if n == 0 then t.(endNode := true, value := Some(value))
    else
      var key := labels[n - 1];
      var child := if Taken(t, key) then t.children[Slot(t, key)] else Leaf(key, n == 1);
      var next := if n == 1 then child.(endNode := true, value := Some(value)) else Add(child, labels, n - 1, value);
      t.(children := Placed(t.children, Slot(t, key), Taken(t, key), next))
  }

  lemma LexSelf(a: Label)
    ensures Lex(a, a) == 0
  {
    LexZero(a, a, 0);
  }

  /** The child an addition goes on to. */
  function Next<T>(t: Tree<T>, key: Label): Tree<T> {
    var f := Find(t.children, key);
    if f < |t.children| then t.children[f] else Leaf(key, false)
  }

  lemma AddUnfold<T>(t: Tree<T>, labels: Labels, n: nat, value: T)
    requires Wf(t) && 0 < n <= |labels|
    ensures var key := labels[n - 1];
            && PlaceOf(t.children, key, Slot(t, key), Taken(t, key)) && Lex(Next(t, key).name, key) == 0 && Wf(Next(t, key))
            && Add(t, labels, n, value)
               == t.(children := Placed(t.children, Slot(t, key), Taken(t, key), Add(Next(t, key), labels, n - 1, value)))
  {
    LexSelf(labels[n - 1]);
  }

  ghost predicate AddsWell<T>(t: Tree<T>, labels: Labels, n: nat, value: T)
    requires n <= |labels|
  {
    Wf(Add(t, labels, n, value))
  }

  lemma {:induction false} AddedHereWf<T>(t: Tree<T>, labels: Labels, value: T)
    requires Wf(t)
    ensures AddsWell(t, labels, 0, value) == true
  {}

  lemma {:induction false} AddedBelowWf<T>(t: Tree<T>, labels: Labels, n: nat, value: T, next: Tree<T>)
    requires Wf(t) && 0 < n <= |labels| && next == Next(t, labels[n - 1]) && AddsWell(next, labels, n - 1, value)
    ensures AddsWell(t, labels, n, value) == true
  {
    var key := labels[n - 1];
    AddUnfold(t, labels, n, value);
    PlacedWf(t, key, Slot(t, key), Taken(t, key), Add(next, labels, n - 1, value));
  }

  lemma {:induction false} AddWf<T>(t: Tree<T>, labels: Labels, n: nat, value: T)
    requires Wf(t) && n <= |labels|
    ensures AddsWell(t, labels, n, value) == true
    decreases n
  {
    if n == 0 {
      AddedHereWf(t, labels, value);
    } else {
      var next := Next(t, labels[n - 1]);
      NextWf(t, labels[n - 1]);
      AddWf(next, labels, n - 1, value);
      AddedBelowWf(t, labels, n, value, next);
    }
  }

  lemma {:induction false} PlacedWf<T>(t: Tree<T>, key: Label, at: nat, taken: bool, child: Tree<T>)
    requires Wf(t) && PlaceOf(t.children, key, at, taken) && Lex(child.name, key) == 0 && Wf(child)
    ensures Wf(t.(children := Placed(t.children, at, taken, child))) == true
  {
    PlacedAscending(t.children, key, at, taken, child);
    var r := Placed(t.children, at, taken, child);
    forall k | 0 <= k < |r| ensures Wf(r[k]) {
      assert r[k] == child || r[k] == t.children[if taken || k < at then k else k - 1];
    }
  }

  /** How a placed child shows in what the tree holds. */
  lemma GetPlaced<T>(t: Tree<T>, key: Label, at: nat, taken: bool, child: Tree<T>, other: Labels, i: nat, m: nat)
    requires Wf(t) && PlaceOf(t.children, key, at, taken) && Lex(child.name, key) == 0 && i < m <= |other|
    ensures Get(t.(children := Placed(t.children, at, taken, child)), other, i, m)
            == if Lex(key, other[m - 1]) == 0 then Get(child, other, i, m - 1) else Get(t, other, i, m)
  {
    if Lex(key, other[m - 1]) == 0 {
      FindPlacedSame(t.children, key, at, taken, child, other[m - 1]);
    } else {
      FindPlacedOther(t.children, key, at, taken, child, other[m - 1]);
    }
  }

  lemma GetNext<T>(t: Tree<T>, key: Label, other: Labels, i: nat, m: nat)
    requires Wf(t) && i < m <= |other| && Lex(key, other[m - 1]) == 0
    ensures Get(t, other, i, m) == Get(Next(t, key), other, i, m - 1)
  {
    var x := other[m - 1];
    var f, g := Find(t.children, key), Find(t.children, x);
    LexFlip(key, x, 0);
    if f < |t.children| {
      LexSame(key, x, t.children[f].name);
      FindFinds(t.children, x, f);
    } else if g < |t.children| {
      LexSame(key, x, t.children[g].name);
      FindFinds(t.children, key, g);
    }
  }

  /** A change to the tree below a child is the change to the tree. */
  lemma {:induction false} ChangedBelow<T>(t: Tree<T>, at: nat, taken: bool, child: Tree<T>, labels: Labels, n: nat, now: Option<T>, other: Labels, i: nat, m: nat)
    requires Wf(t) && 0 < n <= |labels| && i <= m <= |other|
    requires PlaceOf(t.children, labels[n - 1], at, taken) && Lex(child.name, labels[n - 1]) == 0
    requires i < m && Lex(labels[n - 1], other[m - 1]) == 0 ==>
      Changed(Next(t, labels[n - 1]), child, labels, n - 1, now, other, i, m - 1) == true
    ensures Changed(t, t.(children := Placed(t.children, at, taken, child)), labels, n, now, other, i, m) == true
  {
    if i < m {
      GetPlaced(t, labels[n - 1], at, taken, child, other, i, m);
      if Lex(labels[n - 1], other[m - 1]) == 0 { GetNext(t, labels[n - 1], other, i, m); }
    }
  }

  lemma ChangedHere<T>(t: Tree<T>, labels: Labels, now: Option<T>, endNode: bool, value: Option<T>, other: Labels, i: nat, m: nat)
    requires i <= m <= |other| && now == if endNode then value else None
    ensures Changed(t, t.(endNode := endNode, value := value), labels, 0, now, other, i, m) == true
  {}

  ghost predicate AddsOnly<T>(t: Tree<T>, labels: Labels, n: nat, value: T, other: Labels, i: nat, m: nat)
    requires n <= |labels| && i <= m <= |other|
  {
    Changed(t, Add(t, labels, n, value), labels, n, Some(value), other, i, m)
  }

  ghost predicate RemovesOnly<T>(t: Tree<T>, labels: Labels, n: nat, other: Labels, i: nat, m: nat)
    requires n <= |labels| && i <= m <= |other|
  {
    Changed(t, Remove(t, labels, n, false), labels, n, None, other, i, m)
  }

  /** After an addition the name has the value, whatever the case of its letters, and every other name
      has what it had. */
  lemma {:induction false} AddGet<T>(t: Tree<T>, labels: Labels, n: nat, value: T, other: Labels, i: nat, m: nat)
    requires Wf(t) && n <= |labels| && i <= m <= |other|
    ensures AddsOnly(t, labels, n, value, other, i, m) == true
    decreases n
  {
    if n == 0 {
      AddedHere(t, labels, value, other, i, m);
    } else {
      var next := Next(t, labels[n - 1]);
      NextWf(t, labels[n - 1]);
      if i < m { AddGet(next, labels, n - 1, value, other, i, m - 1); }
      AddedBelow(t, labels, n, value, next, other, i, m);
    }
  }

  lemma AddedHere<T>(t: Tree<T>, labels: Labels, value: T, other: Labels, i: nat, m: nat)
    requires i <= m <= |other|
    ensures AddsOnly(t, labels, 0, value, other, i, m) == true
  {
    ChangedHere(t, labels, Some(value), true, Some(value), other, i, m);
  }

  lemma {:induction false} AddedBelow<T>(t: Tree<T>, labels: Labels, n: nat, value: T, next: Tree<T>, other: Labels, i: nat, m: nat)
    requires Wf(t) && 0 < n <= |labels| && i <= m <= |other| && next == Next(t, labels[n - 1])
    requires i < m ==> AddsOnly(next, labels, n - 1, value, other, i, m - 1)
    ensures AddsOnly(t, labels, n, value, other, i, m) == true
  {
    var key := labels[n - 1];
    AddUnfold(t, labels, n, value);
    ChangedBelow(t, Slot(t, key), Taken(t, key), Add(next, labels, n - 1, value), labels, n, Some(value), other, i, m);
  }

  // ---------------------------------------------------------------- remove

  /** remove, with the first n labels still to go.  The request for the whole subtree is not passed on
      to a child that has to look further. */
  function Remove<T>(t: Tree<T>, labels: Labels, n: nat, subtree: bool): (r: Tree<T>)
    requires n <= |labels|
    ensures r.name == t.name
    decreases n
  {
    if n == 0 then t.(endNode := false, children := if subtree then [] else t.children)
    else
      var c := Find(t.children, labels[n - 1]);
      if c == |t.children| then t
      else if n == 1 then
        var child := t.children[c].(endNode := false, children := if subtree then [] else t.children[c].children);
        t.(children := if child.children == [] then t.children[..c] + t.children[c + 1..] else t.children[c := child])
      else
        t.(children := t.children[c := Remove(t.children[c], labels, n - 1, false)])
  }

  lemma CutAscending<T>(children: seq<Tree<T>>, c: nat)
    requires Ascending(children) && c < |children|
    ensures Ascending(children[..c] + children[c + 1..])
  {
    var r := children[..c] + children[c + 1..];
    forall i, j | 0 <= i < j < |r| ensures Rises(r, i, j) {
      var x, y := if i < c then i else i + 1, if j < c then j else j + 1;
      assert r[i] == children[x] && r[j] == children[y] && Rises(children, x, y);
    }
  }

  lemma FindCut<T>(children: seq<Tree<T>>, c: nat, other: Label)
    requires Ascending(children) && c < |children|
    ensures var r := children[..c] + children[c + 1..];
            var f, g := Find(r, other), Find(children, other);
            if Lex(children[c].name, other) == 0 then f == |r|
            else (f == |r| <==> g == |children|) && (g < |children| ==> r[f] == children[g])
  {
    var r := children[..c] + children[c + 1..];
    CutAscending(children, c);
    var f, g := Find(r, other), Find(children, other);
    if f < |r| {
      var k := if f < c then f else f + 1;
      assert r[f] == children[k];
      FindFinds(children, other, k);
      if Lex(children[c].name, other) == 0 { FindFinds(children, other, c); assert false; }
    }
    if g < |children| && Lex(children[c].name, other) != 0 {
      var k := if g < c then g else g - 1;
      assert r[k] == children[g];
      FindFinds(r, other, k);
    }
  }

  lemma CutWf<T>(t: Tree<T>, c: nat)
    requires Wf(t) && c < |t.children|
    ensures Wf(t.(children := t.children[..c] + t.children[c + 1..])) == true
  {
    CutAscending(t.children, c);
  }

  lemma RemoveLastWf<T>(t: Tree<T>, key: Label, c: nat, subtree: bool)
    requires Wf(t) && c < |t.children| && c == Find(t.children, key)
    ensures var child := t.children[c].(endNode := false, children := if subtree then [] else t.children[c].children);
            Wf(t.(children := if child.children == [] then t.children[..c] + t.children[c + 1..] else t.children[c := child])) == true
  {
    var child := t.children[c].(endNode := false, children := if subtree then [] else t.children[c].children);
    assert Wf(t.children[c]);
    if child.children == [] { CutWf(t, c); } else { PlacedWf(t, key, c, true, child); }
  }

  lemma {:induction false} RemoveWf<T>(t: Tree<T>, labels: Labels, n: nat, subtree: bool)
    requires Wf(t) && n <= |labels|
    ensures Wf(Remove(t, labels, n, subtree)) == true
    decreases n
  {
    if n > 0 {
      var key := labels[n - 1];
      var c := Find(t.children, key);
      if c < |t.children| {
        if n == 1 {
          RemoveLastWf(t, key, c, subtree);
        } else {
          RemoveWf(t.children[c], labels, n - 1, false);
          PlacedWf(t, key, c, true, Remove(t.children[c], labels, n - 1, false));
        }
      }
    }
  }

  lemma RemoveUnfold<T>(t: Tree<T>, labels: Labels, n: nat)
    requires Wf(t) && 0 < n <= |labels|
    ensures var key := labels[n - 1];
            var c := Find(t.children, key);
            var r := Remove(t, labels, n, false);
            if c == |t.children| then r == t
            else
              && PlaceOf(t.children, key, c, true) && Next(t, key) == t.children[c] && Wf(t.children[c])
              && r == if n == 1 && t.children[c].children == []
                      then t.(children := t.children[..c] + t.children[c + 1..])
                      else t.(children := Placed(t.children, c, true, Remove(t.children[c], labels, n - 1, false)))
  {}

  lemma {:induction false} ChangedAbsent<T>(t: Tree<T>, labels: Labels, n: nat, other: Labels, i: nat, m: nat)
    requires Wf(t) && 0 < n <= |labels| && i <= m <= |other| && Find(t.children, labels[n - 1]) == |t.children|
    ensures Changed(t, t, labels, n, None, other, i, m) == true
  {
    if i < m && Lex(labels[n - 1], other[m - 1]) == 0 { GetNext(t, labels[n - 1], other, i, m); }
  }

  lemma {:induction false} ChangedCut<T>(t: Tree<T>, labels: Labels, c: nat, other: Labels, i: nat, m: nat)
    requires Wf(t) && 1 <= |labels| && i <= m <= |other|
    requires c < |t.children| && c == Find(t.children, labels[0]) && t.children[c].children == []
    ensures Changed(t, t.(children := t.children[..c] + t.children[c + 1..]), labels, 1, None, other, i, m) == true
  {
    if i < m {
      FindCut(t.children, c, other[m - 1]);
      LexSame(t.children[c].name, labels[0], other[m - 1]);
      if Lex(labels[0], other[m - 1]) == 0 { GetNext(t, labels[0], other, i, m); }
    }
  }

  /** A removal that does not go on to a child. */
  ghost predicate EndsHere<T>(t: Tree<T>, labels: Labels, n: nat)
    requires n <= |labels|
  {
    n == 0 || (var c := Find(t.children, labels[n - 1]); c == |t.children| || (n == 1 && t.children[c].children == []))
  }

  lemma {:induction false} RemovedAbsent<T>(t: Tree<T>, labels: Labels, n: nat, other: Labels, i: nat, m: nat)
    requires Wf(t) && 0 < n <= |labels| && i <= m <= |other| && Find(t.children, labels[n - 1]) == |t.children|
    ensures RemovesOnly(t, labels, n, other, i, m) == true
  {
    ChangedAbsent(t, labels, n, other, i, m);
  }

  lemma {:induction false} RemovedLeaf<T>(t: Tree<T>, labels: Labels, c: nat, other: Labels, i: nat, m: nat)
    requires Wf(t) && 1 <= |labels| && i <= m <= |other|
    requires c < |t.children| && c == Find(t.children, labels[0]) && t.children[c].children == []
    ensures RemovesOnly(t, labels, 1, other, i, m) == true
  {
    RemoveUnfold(t, labels, 1);
    ChangedCut(t, labels, c, other, i, m);
  }

  lemma {:induction false} RemoveGetHere<T>(t: Tree<T>, labels: Labels, n: nat, other: Labels, i: nat, m: nat)
    requires Wf(t) && n <= |labels| && i <= m <= |other| && EndsHere(t, labels, n)
    ensures RemovesOnly(t, labels, n, other, i, m) == true
  {
    if n == 0 {
      ChangedHere(t, labels, None, false, t.value, other, i, m);
    } else {
      var c := Find(t.children, labels[n - 1]);
      if c == |t.children| { RemovedAbsent(t, labels, n, other, i, m); } else { RemovedLeaf(t, labels, c, other, i, m); }
    }
  }

  lemma {:induction false} NextWf<T>(t: Tree<T>, key: Label)
    requires Wf(t)
    ensures Wf(Next(t, key))
  {}

  lemma {:induction false} RemovedBelow<T>(t: Tree<T>, labels: Labels, n: nat, next: Tree<T>, other: Labels, i: nat, m: nat)
    requires Wf(t) && n <= |labels| && i <= m <= |other| && !EndsHere(t, labels, n) && next == Next(t, labels[n - 1])
    requires i < m ==> RemovesOnly(next, labels, n - 1, other, i, m - 1)
    ensures RemovesOnly(t, labels, n, other, i, m) == true
  {
    RemoveUnfold(t, labels, n);
    ChangedBelow(t, Find(t.children, labels[n - 1]), true, Remove(next, labels, n - 1, false), labels, n, None, other, i, m);
  }

  /** After a removal that is not for a subtree the name is not live, and every other name has what it
      had, whatever nodes were left behind. */
  lemma {:induction false} RemoveGet<T>(t: Tree<T>, labels: Labels, n: nat, other: Labels, i: nat, m: nat)
    requires Wf(t) && n <= |labels| && i <= m <= |other|
    ensures RemovesOnly(t, labels, n, other, i, m) == true
    decreases n
  {
    if EndsHere(t, labels, n) {
      RemoveGetHere(t, labels, n, other, i, m);
    } else {
      var next := Next(t, labels[n - 1]);
      NextWf(t, labels[n - 1]);
      if i < m { RemoveGet(next, labels, n - 1, other, i, m - 1); }
      RemovedBelow(t, labels, n, next, other, i, m);
    }
  }

  // ---------------------------------------------------------------- removing a subtree

  /** The name ends with the first n labels. */
  predicate AtOrBelow(labels: Labels, n: nat, other: Labels, i: nat, m: nat)
    requires n <= |labels| && i <= m <= |other|
  {
    m - i >= n && SameName(labels, n, other, m - n, m)
  }

  ghost predicate Below(labels: Labels, n: nat, other: Labels, i: nat, m: nat)
    requires n <= |labels| && i <= m <= |other|
  {
    m - i > n && AtOrBelow(labels, n, other, i, m)
  }

  /** Of all names, the removal of a subtree at the root or at the first label takes those at or below
      the name and no others. */
  lemma {:induction false} RemoveSubtreeGet<T>(t: Tree<T>, labels: Labels, n: nat, other: Labels, i: nat, m: nat)
    requires Wf(t) && n <= 1 && n <= |labels| && i <= m <= |other|
    ensures Get(Remove(t, labels, n, true), other, i, m)
            == if AtOrBelow(labels, n, other, i, m) then None else Get(t, other, i, m)
  {
    if n == 1 && i < m {
      assert AtOrBelow(labels, 1, other, i, m) <==> Lex(labels[0], other[m - 1]) == 0;
      CutGet(t, labels, other, i, m);
    }
  }

  /** A child that goes with all below it. */
  lemma {:induction false} CutGet<T>(t: Tree<T>, labels: Labels, other: Labels, i: nat, m: nat)
    requires Wf(t) && 1 <= |labels| && i < m <= |other|
    ensures Get(Remove(t, labels, 1, true), other, i, m)
            == if Lex(labels[0], other[m - 1]) == 0 then None else Get(t, other, i, m)
  {
    var key, x := labels[0], other[m - 1];
    var c := Find(t.children, key);
    if c == |t.children| {
      if Lex(key, x) == 0 { GetNext(t, key, other, i, m); }
    } else {
      FindCut(t.children, c, x);
      LexSame(t.children[c].name, key, x);
    }
  }

  /** Names below a name are other names. */
  lemma {:induction false} BelowIsOther(labels: Labels, n: nat, other: Labels, i: nat, m: nat)
    requires n <= |labels| && i <= m <= |other| && m - i > n
    ensures !SameName(labels, n, other, i, m)
    decreases n
  {
    if n > 0 { BelowIsOther(labels, n - 1, other, i, m - 1); }
  }

  ghost predicate NoneBelow<T>(t: Tree<T>, labels: Labels, n: nat)
    requires n <= |labels|
  {
    forall other, i: nat, m: nat | i <= m <= |other| && Below(labels, n, other, i, m) :: !Live(t, other, i, m)
  }

  /** The removal of a subtree leaves nothing below the name exactly when the name has at most one label
      or there was nothing below it: a child that has to look further is not told of the subtree. */
  lemma {:induction false} RemoveSubtreeClears<T>(t: Tree<T>, labels: Labels, n: nat)
    requires Wf(t) && n <= |labels|
    ensures NoneBelow(Remove(t, labels, n, true), labels, n) <==> n <= 1 || NoneBelow(t, labels, n)
  {
    var r := Remove(t, labels, n, true);
    if n <= 1 {
      forall other, i: nat, m: nat | i <= m <= |other| && Below(labels, n, other, i, m) ensures !Live(r, other, i, m) {
        RemoveSubtreeGet(t, labels, n, other, i, m);
      }
    } else {
      forall other, i: nat, m: nat | i <= m <= |other| && Below(labels, n, other, i, m)
        ensures Live(r, other, i, m) <==> Live(t, other, i, m)
      {
        RemoveGet(t, labels, n, other, i, m);
        BelowIsOther(labels, n, other, i, m);
      }
      assert NoneBelow(r, labels, n) ==> NoneBelow(t, labels, n);
    }
  }

  /** With 1.2.3 in the tree, removing the subtree 2.3 leaves it there. */
  lemma SubtreeSurvives<T>(value: T)
    ensures var name: Labels, above: Labels := [[1], [2], [3]], [[2], [3]];
            var t := Add(Leaf([], false), name, 3, value);
            && Wf(t) && Below(above, 2, name, 0, 3)
            && Get(Remove(t, above, 2, true), name, 0, 3) == Some(value)
  {
    var name: Labels, above: Labels := [[1], [2], [3]], [[2], [3]];
    var empty: Tree<T> := Leaf([], false);
    var t := Add(empty, name, 3, value);
    AddWf(empty, name, 3, value);
    LexSelf([2]);
    LexSelf([3]);
    SameSelf(name, 3);
    AddGet(empty, name, 3, value, name, 0, 3);
    assert SameName(above, 0, name, 1, 1) && SameName(above, 1, name, 1, 2) && SameName(above, 2, name, 1, 3);
    RemoveGet(t, above, 2, name, 0, 3);
    BelowIsOther(above, 2, name, 0, 3);
  }

  lemma {:induction false} SameSelf(labels: Labels, n: nat)
    requires n <= |labels|
    ensures SameName(labels, n, labels, 0, n)
    decreases n
  {
    if n > 0 {
      LexSelf(labels[n - 1]);
      SameSelf(labels, n - 1);
    }
  }

  // ---------------------------------------------------------------- lookup

  /** getBestNode: the value found, if any. */
  function Lookup<T>(t: Tree<T>, labels: Labels, n: nat): Option<T>
    requires n <= |labels|
    decreases n
  {
    if n == 0 then Here(t)
    else
      var c := Find(t.children, labels[n - 1]);
      if c == |t.children| then Here(t)
      else
        var result := Lookup(t.children[c], labels, n - 1);
        if result.Some? then result else Here(t)
  }

  /** The value of the longest live suffix, the suffixes from the one that starts at label i on. */
  ghost function Longest<T>(t: Tree<T>, labels: Labels, i: nat, n: nat): Option<T>
    requires i <= n <= |labels|
    decreases n - i
  {
    var g := Get(t, labels, i, n);
    if g.Some? || i == n then g else Longest(t, labels, i + 1, n)
  }

  lemma {:induction false} LongestBelow<T>(t: Tree<T>, labels: Labels, i: nat, n: nat)
    requires i < n <= |labels|
    ensures var c := Find(t.children, labels[n - 1]);
            Longest(t, labels, i, n) == if c == |t.children| then Here(t)
                                        else
                                          var g := Longest(t.children[c], labels, i, n - 1);
                                          if g.Some? then g else Here(t)
    decreases n - i
  {
    if i + 1 < n { LongestBelow(t, labels, i + 1, n); }
  }

  /** A lookup answers with the value of the longest live suffix of the name, and with none exactly when
      no suffix is live. */
  lemma {:induction false} LookupIsLongest<T>(t: Tree<T>, labels: Labels, n: nat)
    requires n <= |labels|
    ensures Lookup(t, labels, n) == Longest(t, labels, 0, n)
    decreases n
  {
    if n > 0 {
      LongestBelow(t, labels, 0, n);
      var c := Find(t.children, labels[n - 1]);
      if c < |t.children| { LookupIsLongest(t.children[c], labels, n - 1); }
    }
  }

  /** There is none exactly when no suffix is live. */
  lemma {:induction false} LongestNone<T>(t: Tree<T>, labels: Labels, i: nat, n: nat)
    requires i <= n <= |labels|
    ensures Longest(t, labels, i, n).None? <==> forall k | i <= k <= n :: !Live(t, labels, k, n)
    decreases n - i
  {
    assert Live(t, labels, i, n) == Get(t, labels, i, n).Some?;
    if i < n { LongestNone(t, labels, i + 1, n); }
  }
}
