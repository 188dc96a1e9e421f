/** SuffixMatchTree as an object, what its history of calls means, which names it looks up rightly, and
    the C string comparisons it orders its children by. */
module SuffixRuns {
  import opened Wrappers
  import opened DnsName
  import opened NameIndex
  import opened CanonicalOrder
  import opened PositionArrays
  import opened LabelVisitor
  import opened SuffixTree

  // ---------------------------------------------------------------- strcasecmp

  function At(s: Bytes, i: nat): Byte {
    if i < |s| then Lower(s[i]) else 0
  }

  /** strcasecmp of C strings: the first zero octet ends them. */
  function StrCaseCmp(a: Bytes, b: Bytes, i: nat): int
    requires i <= |a| && i <= |b|
    decreases |a| - i
  {
    if At(a, i) != At(b, i) then At(a, i) as int - At(b, i) as int
    else if At(a, i) == 0 then 0
    else StrCaseCmp(a, b, i + 1)
  }

  /** LightKey::operator<: strncasecmp over the shorter length, then the lengths. */
  function LightLess(a: Bytes, b: Bytes): bool {
    var n := if |a| < |b| then |a| else |b|;
    var c := StrNCaseCmp(a, b, 0, n);
    if c != 0 then c < 0 else |a| < |b|
  }

  function StrNCaseCmp(a: Bytes, b: Bytes, i: nat, n: nat): int
    requires i <= n <= |a| && n <= |b|
    decreases n - i
  {
    if i == n then 0
    else if Lower(a[i]) != Lower(b[i]) then Lower(a[i]) as int - Lower(b[i]) as int
    else if a[i] == 0 then 0
    else StrNCaseCmp(a, b, i + 1, n)
  }

  /** For labels without zero octets the order of the children is that of labels. */
  lemma {:induction false} StrCaseCmpIsLex(a: Bytes, b: Bytes, i: nat)
    requires NoZero(a) && NoZero(b) && i <= |a| && i <= |b|
    ensures StrCaseCmp(a, b, i) < 0 <==> LexFrom(a, b, i) < 0
    ensures StrCaseCmp(a, b, i) == 0 <==> LexFrom(a, b, i) == 0
    decreases |a| - i
  {
    if i < |a| { assert a[i] != 0; }
    if i < |b| { assert b[i] != 0; }
    if i < |a| && i < |b| && Lower(a[i]) == Lower(b[i]) { StrCaseCmpIsLex(a, b, i + 1); }
  }

  lemma {:induction false} StrNCaseCmpIsLex(a: Bytes, b: Bytes, i: nat, n: nat)
    requires (NoZero(a) || NoZero(b)) && i <= n && n == if |a| < |b| then |a| else |b|
    ensures var c := StrNCaseCmp(a, b, i, n);
            LexFrom(a, b, i) < 0 <==> if c != 0 then c < 0 else |a| < |b|
    decreases n - i
  {
    if i < n && Lower(a[i]) == Lower(b[i]) { StrNCaseCmpIsLex(a, b, i + 1, n); }
  }

  /** And so is the order of lookups: the labels in the tree have no zero octets, and then it does not
      matter whether the one that is looked for has. */
  lemma LightLessIsLex(a: Bytes, b: Bytes)
    requires NoZero(a) || NoZero(b)
    ensures LightLess(a, b) <==> Lex(a, b) < 0
  {
    StrNCaseCmpIsLex(a, b, 0, if |a| < |b| then |a| else |b|);
  }

  // ---------------------------------------------------------------- histories

  datatype Op<T> = Added(name: Labels, value: T) | Removed(name: Labels)

  function Root<T>(): Tree<T> { Node([], false, None, []) }

  /** The tree after a history of calls. */
  function Run<T>(ops: seq<Op<T>>): Tree<T> {
    if ops == [] then Root()
    else
      var before, op := Run(ops[..|ops| - 1]), ops[|ops| - 1];
      match op
      case Added(name, value) => Add(before, name, |name|, value)
      case Removed(name) => Remove(before, name, |name|, false)
  }

  /** What a history says about the suffix of a name that starts at label i: the last call about it
      decides. */
  ghost function Meaning<T>(ops: seq<Op<T>>, name: Labels, i: nat): Option<T>
    requires i <= |name|
  {
    if ops == [] then None
    else
      var op := ops[|ops| - 1];
      if SameName(op.name, |op.name|, name, i, |name|) then if op.Added? then Some(op.value) else None
      else Meaning(ops[..|ops| - 1], name, i)
  }

  /** The value of the longest suffix the history keeps, from label i on. */
  ghost function Expected<T>(ops: seq<Op<T>>, name: Labels, i: nat): Option<T>
    requires i <= |name|
    decreases |name| - i
  {
    var m := Meaning(ops, name, i);
    if m.Some? || i == |name| then m else Expected(ops, name, i + 1)
  }

  lemma {:induction false} RunWf<T>(ops: seq<Op<T>>)
    ensures Wf(Run(ops)) == true
  {
    if ops != [] {
      var before, op := ops[..|ops| - 1], ops[|ops| - 1];
      RunWf(before);
      match op {
        case Added(name, value) => AddWf(Run(before), name, |name|, value);
        case Removed(name) => RemoveWf(Run(before), name, |name|, false);
      }
    }
  }

  /** The tree holds what its history says. */
  lemma {:induction false} RunGet<T>(ops: seq<Op<T>>, name: Labels, i: nat)
    requires i <= |name|
    ensures Get(Run(ops), name, i, |name|) == Meaning(ops, name, i)
  {
    if ops != [] {
      var before, op := ops[..|ops| - 1], ops[|ops| - 1];
      RunWf(before);
      RunGet(before, name, i);
      match op {
        case Added(n, value) => AddGet(Run(before), n, |n|, value, name, i, |name|);
        case Removed(n) => RemoveGet(Run(before), n, |n|, name, i, |name|);
      }
    } else if i < |name| {
      assert Find(Root<T>().children, name[|name| - 1]) == 0;
    }
  }

  lemma {:induction false} LongestExpected<T>(ops: seq<Op<T>>, name: Labels, i: nat)
    requires i <= |name|
    ensures Longest(Run(ops), name, i, |name|) == Expected(ops, name, i)
    decreases |name| - i
  {
    RunGet(ops, name, i);
    if i < |name| { LongestExpected(ops, name, i + 1); }
  }

  /** After any history of additions and removals, a lookup answers with the value of the longest live
      suffix of the name. */
  lemma {:induction false} LookupAfterRun<T>(ops: seq<Op<T>>, name: Labels)
    ensures Lookup(Run(ops), name, |name|) == Expected(ops, name, 0)
  {
    LookupIsLongest(Run(ops), name, |name|);
    LongestExpected(ops, name, 0);
  }

  /** Names are told apart up to ASCII case. */
  lemma {:induction false} SameNameIsFold(a: Labels, n: nat, b: Labels, i: nat, m: nat)
    requires n <= |a| && i <= m <= |b|
    ensures SameName(a, n, b, i, m) <==> LabelsFoldEq(a[..n], b[i..m])
    decreases n
  {
    if n > 0 && i < m {
      SameNameIsFold(a, n - 1, b, i, m - 1);
      var x, y := a[..n], b[i..m];
      LexZero(a[n - 1], b[m - 1], 0);
      assert x == a[..n - 1] + [a[n - 1]] && y == b[i..m - 1] + [b[m - 1]];
      if LabelsFoldEq(x, y) {
        assert FoldEq(x[n - 1], y[n - 1]);
        var u, v := a[..n - 1], b[i..m - 1];
        forall k | 0 <= k < |u| ensures FoldEq(u[k], v[k]) { assert FoldEq(x[k], y[k]); }
      }
      if FoldEq(a[n - 1], b[m - 1]) && LabelsFoldEq(a[..n - 1], b[i..m - 1]) {
        forall k | 0 <= k < n ensures FoldEq(x[k], y[k]) {
          if k < n - 1 { assert FoldEq(a[..n - 1][k], b[i..m - 1][k]); }
        }
      }
    }
  }

  // ---------------------------------------------------------------- which names are looked up rightly

  /** What a lookup ends with: the value found, if any, or an exception. */
  datatype Answer<T> = Found(value: Option<T>) | TooManyLabels

  /** What getBestNode finds: a tree without children is not searched, and the labels are those that the
      visitor reads. */
  ghost function AnswerOf<T>(t: Tree<T>, storage: Bytes, labels: Labels): Answer<T>
    requires ValidLabels(labels)
  {
    if t.children == [] then Found(Here(t))
    else if |labels| > MAX_VISITED then TooManyLabels
    else Found(Lookup(t, Seen(storage, labels), |labels|))
  }

  lemma {:induction false} LowerFold<T>(children: seq<Tree<T>>, x: Label, y: Label, i: nat)
    requires Lex(x, y) == 0 && i <= |children|
    ensures LowerChild(children, x, i) == LowerChild(children, y, i)
    decreases |children| - i
  {
    if i < |children| {
      LexSame(x, y, children[i].name);
      LowerFold(children, x, y, i + 1);
    }
  }

  lemma FindFold<T>(children: seq<Tree<T>>, x: Label, y: Label)
    requires Lex(x, y) == 0
    ensures Find(children, x) == Find(children, y)
  {
    LowerFold(children, x, y, 0);
    var at := LowerChild(children, x, 0);
    if at < |children| { LexSame(x, y, children[at].name); }
  }

  /** A lookup does not tell letters of different case. */
  lemma {:induction false} LookupFold<T>(t: Tree<T>, a: Labels, b: Labels, n: nat)
    requires LabelsFoldEq(a, b) && n <= |a|
    ensures Lookup(t, a, n) == Lookup(t, b, n)
    decreases n
  {
    if n > 0 {
      assert FoldEq(a[n - 1], b[n - 1]);
      LexIsZero(a[n - 1], b[n - 1]);
      FindFold(t.children, a[n - 1], b[n - 1]);
      var c := Find(t.children, a[n - 1]);
      if c < |t.children| { LookupFold(t.children[c], a, b, n - 1); }
    }
  }

  /** A name of at most 128 labels that is read right is looked up rightly, whatever the history. */
  lemma {:induction false} LookedUpRightly<T>(ops: seq<Op<T>>, storage: Bytes, labels: Labels)
    requires ValidLabels(labels) && |labels| <= MAX_VISITED && ReadRight(storage, labels)
    ensures AnswerOf(Run(ops), storage, labels) == Found(Expected(ops, labels, 0))
  {
    LookupAfterRun(ops, labels);
    LookupFold(Run(ops), labels, Seen(storage, labels), |labels|);
    if Run(ops).children == [] { assert Lookup(Run(ops), labels, |labels|) == Here(Run(ops)); }
  }

  /** The names of a history have no zero octets. */
  ghost predicate ZeroFree<T>(ops: seq<Op<T>>) { forall op | op in ops :: NoZeros(op.name) }

  lemma {:induction false} SameLength(a: Labels, n: nat, b: Labels, i: nat, m: nat)
    requires n <= |a| && i <= m <= |b| && SameName(a, n, b, i, m)
    ensures n == m - i
    decreases n
  {
    if n > 0 { SameLength(a, n - 1, b, i, m - 1); }
  }

  /** With one name added, just the names at or below it have its value. */
  lemma {:induction false} OneAdded<T>(name: Labels, v: T, other: Labels, i: nat)
    requires i <= |other|
    ensures Expected([Added(name, v)], other, i)
            == if |other| - i >= |name| && SameName(name, |name|, other, |other| - |name|, |other|) then Some(v) else None
    decreases |other| - i
  {
    var ops := [Added(name, v)];
    assert ops[..0] == [] && Meaning(ops[..0], other, i) == None;
    if SameName(name, |name|, other, i, |other|) { SameLength(name, |name|, other, i, |other|); }
    if i < |other| { OneAdded(name, v, other, i + 1); }
  }

  lemma HasChild<T>(name: Labels, v: T)
    requires name != []
    ensures Run([Added(name, v)]).children != []
  {
    var ops := [Added(name, v)];
    assert ops[..0] == [] && Run(ops) == Add(Root(), name, |name|, v);
  }

  lemma {:induction false} SuffixSame(labels: Labels, other: Labels, k: nat)
    requires k <= |labels| == |other|
    ensures SameName(labels[k..], |labels| - k, other, k, |labels|) <==> LabelsFoldEq(labels[k..], other[k..])
  {
    var suffix := labels[k..];
    SameNameIsFold(suffix, |suffix|, other, k, |other|);
    assert suffix[..|suffix|] == suffix && other[k..|other|] == other[k..];
  }

  /** A label that is misread: the suffix that starts with it is not found when it is there. */
  lemma {:induction false} MisreadSuffix<T>(labels: Labels, seen: Labels, k: nat, v: T)
    requires k < |labels| == |seen| && !FoldEq(labels[k], seen[k])
    ensures Expected([Added(labels[k..], v)], labels, 0) == Some(v)
    ensures Expected([Added(labels[k..], v)], seen, 0) == None
  {
    OneAdded(labels[k..], v, labels, 0);
    OneAdded(labels[k..], v, seen, 0);
    SuffixSame(labels, labels, k);
    SuffixSame(labels, seen, k);
    LabelsFoldSelf(labels[k..]);
    assert labels[k..][0] == labels[k] && seen[k..][0] == seen[k];
  }

  lemma LabelsFoldSelf(a: Labels)
    ensures LabelsFoldEq(a, a)
  {}

  lemma NotRead(storage: Bytes, labels: Labels) returns (k: nat)
    requires ValidLabels(labels) && !ReadRight(storage, labels)
    ensures k < |labels| && !FoldEq(labels[k], Seen(storage, labels)[k])
  {
    k :| 0 <= k < |labels| && !FoldEq(labels[k], Seen(storage, labels)[k]);
  }

  /** A history after which a name that is misread, or has more than 128 labels, is not looked up rightly. */
  lemma LookedUpWrongly<T>(storage: Bytes, labels: Labels, v: T) returns (ops: seq<Op<T>>)
    requires ValidLabels(labels) && NoZeros(labels) && !(|labels| <= MAX_VISITED && ReadRight(storage, labels))
    ensures ZeroFree(ops) && AnswerOf(Run(ops), storage, labels) != Found(Expected(ops, labels, 0))
  {
    if |labels| > MAX_VISITED {
      ops := [Added([[98]], v)];
      HasChild([[98]], v);
    } else {
      var k := NotRead(storage, labels);
      ops := [Added(labels[k..], v)];
      MisreadSuffix(labels, Seen(storage, labels), k, v);
      HasChild(labels[k..], v);
      LookupAfterRun(ops, Seen(storage, labels));
    }
  }

  ghost predicate AlwaysRight<T(!new)>(storage: Bytes, labels: Labels, v: T)
    requires ValidLabels(labels)
  {
    forall ops: seq<Op<T>> | ZeroFree(ops) :: AnswerOf(Run(ops), storage, labels) == Found(Expected(ops, labels, 0))
  }

  /** A name is looked up rightly after every history exactly when it has at most 128 labels and each of
      them is the one that its position, cut to eight bits, shows. */
  lemma LookupRightExactly<T(!new)>(storage: Bytes, labels: Labels, v: T)
    requires ValidLabels(labels) && NoZeros(labels)
    ensures AlwaysRight(storage, labels, v) <==> |labels| <= MAX_VISITED && ReadRight(storage, labels)
  {
    if |labels| <= MAX_VISITED && ReadRight(storage, labels) {
      forall ops: seq<Op<T>> | ZeroFree(ops) ensures AnswerOf(Run(ops), storage, labels) == Found(Expected(ops, labels, 0)) {
        LookedUpRightly(ops, storage, labels);
      }
    } else {
      var ops := LookedUpWrongly(storage, labels, v);
    }
  }

  /** With b in the tree, a name of 259 octets that ends in b is not found: its last label is taken for
      the first. */
  lemma LongNameNotFound<T>(v: T)
    ensures var ops := [Added([[98]], v)];
            && Expected(ops, LongName(), 0) == Some(v)
            && AnswerOf(Run(ops), Wire(LongName()), LongName()) == Found(None)
  {
    var labels, storage := LongName(), Wire(LongName());
    var ops := [Added([[98]], v)];
    LongPositions();
    WalkStart(storage, labels);
    PositionsAre(storage, labels, 0, 0);
    assert Seen(storage, labels)[4] == Filler() && !FoldEq(labels[4], Filler());
    assert labels[4..] == [[98]];
    MisreadSuffix(labels, Seen(storage, labels), 4, v);
    HasChild([[98]], v);
    LookupAfterRun(ops, Seen(storage, labels));
  }

  // ---------------------------------------------------------------- the object

  class SuffixMatchTree<T> {
    var root: Tree<T>
    ghost var history: seq<Op<T>>

    ghost predicate Valid()
      reads this
    {
      root == Run(history) && ZeroFree(history)
    }

    constructor ()
      ensures Valid() && history == []
    {
      root, history := Root(), [];
    }

    method AddName(name: Labels, value: T)
      requires Valid() && NoZeros(name)
      modifies this
      ensures Valid() && history == old(history) + [Added(name, value)]
    {
      root := Add(root, name, |name|, value);
      history := history + [Added(name, value)];
    }

    method RemoveName(name: Labels)
      requires Valid() && NoZeros(name)
      modifies this
      ensures Valid() && history == old(history) + [Removed(name)]
    {
      root := Remove(root, name, |name|, false);
      history := history + [Removed(name)];
    }

    /** lookup: the longest live suffix of the labels that the visitor reads, which are those of the name
        when it is read right. */
    method LookupName(storage: Bytes, ghost labels: Labels) returns (r: Answer<T>)
      requires Valid() && Holds(storage, labels)
      ensures r == AnswerOf(root, storage, labels)
      ensures r.Found? ==> root.children == [] || r.value == Expected(history, Seen(storage, labels), 0)
      ensures |labels| <= MAX_VISITED && ReadRight(storage, labels) ==> r == Found(Expected(history, labels, 0))
    {
      if |labels| <= MAX_VISITED && ReadRight(storage, labels) { LookedUpRightly(history, storage, labels); }
      if root.children == [] { return Found(Here(root)); }
      LookupAfterRun(history, Seen(storage, labels));
      var visitor := new RawLabelsVisitor(storage);
      var ok := visitor.Fill(labels);
      if !ok { return TooManyLabels; }
      var value := GetBestNode(root, visitor, Seen(storage, labels));
      r := Found(value);
    }
  }

  /** getBestNode, from a node on. */
  method GetBestNode<T>(t: Tree<T>, visitor: RawLabelsVisitor, ghost labels: Labels) returns (r: Option<T>)
    requires visitor.Valid() && visitor.count <= |labels| && visitor.Rest() == labels[..visitor.count]
    modifies visitor`count
    ensures r == Lookup(t, labels, old(visitor.count))
    decreases visitor.count
  {
    if visitor.count == 0 { return Here(t); }
    var key := visitor.Back();
    assert key == labels[visitor.count - 1];
    var c := Find(t.children, key);
    if c == |t.children| { return Here(t); }
    var popped := visitor.PopBack();
    r := GetBestNode(t.children[c], visitor, labels);
    if r.None? { r := Here(t); }
  }
}
