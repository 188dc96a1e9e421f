/** Canonical order of names (section 6.1 of RFC 4034): the comparison over label vectors, the one
    over arrays of label positions, and DNSName::operator==. */
module CanonicalOrder {
  import opened DnsName
  import opened NameIndex

  /** Room in each position array; names with as many labels are compared the slow way. */
  const MAX_POSITIONS := 64

  // ---------------------------------------------------------------- labels

  /** pdns_ilexicographical_compare_three_way, from octet i on. */
  function LexFrom(a: Bytes, b: Bytes, i: nat): int
    requires i <= |a| && i <= |b|
    decreases |a| - i
  {
    if i == |a| then if i == |b| then 0 else -1
    else if i == |b| then 1
    else
      var rc := Lower(a[i]) as int - Lower(b[i]) as int;
      if rc != 0 then rc else LexFrom(a, b, i + 1)
  }

  function Lex(a: Bytes, b: Bytes): int {
    LexFrom(a, b, 0)
  }

  method CompareLabels(a: Bytes, b: Bytes) returns (r: int)
    ensures r == Lex(a, b)
  {
    var i := 0;
    while i != |a| && i != |b|
      invariant i <= |a| && i <= |b| && Lex(a, b) == LexFrom(a, b, i)
      decreases |a| - i
    {
      if a[i] != b[i] {
        var rc := Lower(a[i]) as int - Lower(b[i]) as int;
        if rc != 0 { return rc; }
      }
      i := i + 1;
    }
    r := if i == |a| then if i != |b| then -1 else 0 else 1;
  }

  lemma {:induction false} LexZero(a: Bytes, b: Bytes, i: nat)
    requires i <= |a| && i <= |b|
    ensures LexFrom(a, b, i) == 0 <==> |a| == |b| && forall k | i <= k < |a| :: Lower(a[k]) == Lower(b[k])
    decreases |a| - i
  {
    if i < |a| && i < |b| { LexZero(a, b, i + 1); }
  }

  lemma {:induction false} LexFlip(a: Bytes, b: Bytes, i: nat)
    requires i <= |a| && i <= |b|
    ensures LexFrom(b, a, i) < 0 <==> LexFrom(a, b, i) > 0
    ensures LexFrom(b, a, i) > 0 <==> LexFrom(a, b, i) < 0
    decreases |a| - i
  {
    if i < |a| && i < |b| { LexFlip(a, b, i + 1); }
  }

  lemma {:induction false} LexTransitive(a: Bytes, b: Bytes, c: Bytes, i: nat)
    requires i <= |a| && i <= |b| && i <= |c|
    requires LexFrom(a, b, i) <= 0 && LexFrom(b, c, i) <= 0
    ensures LexFrom(a, c, i) <= 0
    ensures LexFrom(a, c, i) == 0 ==> LexFrom(a, b, i) == 0 && LexFrom(b, c, i) == 0
    decreases |a| - i
  {
    if i < |a| && i < |b| && i < |c| && Lower(a[i]) == Lower(b[i]) == Lower(c[i]) { LexTransitive(a, b, c, i + 1); }
  }

  // ---------------------------------------------------------------- names, by their labels

  /** Labels are compared from the last one back, n of them having been found equal. */
  function CanonFrom(a: Labels, b: Labels, n: nat): int
    requires n <= |a| && n <= |b|
    decreases |a| - n
  {
    if n == |a| then if n == |b| then 0 else -1
    else if n == |b| then 1
    else
      var res := Lex(a[|a| - 1 - n], b[|b| - 1 - n]);
      if res != 0 then res else CanonFrom(a, b, n + 1)
  }

  function Canon(a: Labels, b: Labels): int {
    CanonFrom(a, b, 0)
  }

  lemma {:induction false} CanonZero(a: Labels, b: Labels, n: nat)
    requires n <= |a| && n <= |b|
    ensures CanonFrom(a, b, n) == 0 <==> |a| == |b| && forall k | n <= k < |a| :: SharedAt(a, b, k)
    decreases |a| - n
  {
    if n < |a| && n < |b| {
      var x, y := a[|a| - 1 - n], b[|b| - 1 - n];
      LexZero(x, y, 0);
      FoldSym(x, y);
      assert SharedAt(a, b, n) <==> Lex(x, y) == 0;
      CanonZero(a, b, n + 1);
    }
  }

  /** The order has no ties but between names that are equal but for case. */
  lemma CanonEqual(a: Labels, b: Labels)
    ensures Canon(a, b) == 0 <==> LabelsFoldEq(a, b)
  {
    CanonZero(a, b, 0);
    if Canon(a, b) == 0 {
      forall i | 0 <= i < |a| ensures FoldEq(a[i], b[i]) {
        assert SharedAt(a, b, |a| - 1 - i);
        FoldSym(a[i], b[i]);
      }
    }
    if LabelsFoldEq(a, b) {
      forall k | 0 <= k < |a| ensures SharedAt(a, b, k) {
        assert FoldEq(a[|a| - 1 - k], b[|a| - 1 - k]);
        FoldSym(a[|a| - 1 - k], b[|a| - 1 - k]);
      }
    }
  }

  lemma {:induction false} CanonFlips(a: Labels, b: Labels, n: nat)
    requires n <= |a| && n <= |b|
    ensures CanonFrom(b, a, n) < 0 <==> CanonFrom(a, b, n) > 0
    ensures CanonFrom(b, a, n) > 0 <==> CanonFrom(a, b, n) < 0
    decreases |a| - n
  {
    if n < |a| && n < |b| {
      LexFlip(a[|a| - 1 - n], b[|b| - 1 - n], 0);
      CanonFlips(a, b, n + 1);
    }
  }

  lemma {:induction false} CanonTransitive(a: Labels, b: Labels, c: Labels, n: nat)
    requires n <= |a| && n <= |b| && n <= |c|
    requires CanonFrom(a, b, n) <= 0 && CanonFrom(b, c, n) <= 0
    ensures CanonFrom(a, c, n) <= 0
    ensures CanonFrom(a, c, n) == 0 ==> CanonFrom(a, b, n) == 0 && CanonFrom(b, c, n) == 0
    decreases |a| - n
  {
    if n < |a| && n < |b| && n < |c| {
      var x, y, z := a[|a| - 1 - n], b[|b| - 1 - n], c[|c| - 1 - n];
      LexTransitive(x, y, z, 0);
      if Lex(x, y) == 0 && Lex(y, z) == 0 { CanonTransitive(a, b, c, n + 1); }
    }
  }

  /** A strict total order on names up to ASCII case. */
  lemma CanonicalOrderIsTotal(a: Labels, b: Labels, c: Labels)
    ensures Canon(a, b) < 0 || Canon(b, a) < 0 || LabelsFoldEq(a, b)
    ensures !(Canon(a, b) < 0 && Canon(b, a) < 0) && !(Canon(a, b) < 0 && LabelsFoldEq(a, b))
    ensures Canon(a, b) < 0 && Canon(b, c) < 0 ==> Canon(a, c) < 0
    ensures Canon(a, b) < 0 && LabelsFoldEq(b, c) ==> Canon(a, c) < 0
    ensures LabelsFoldEq(a, b) && Canon(b, c) < 0 ==> Canon(a, c) < 0
  {
    CanonEqual(a, b);
    CanonEqual(b, c);
    CanonFlips(a, b, 0);
    if Canon(a, b) <= 0 && Canon(b, c) <= 0 { CanonTransitive(a, b, c, 0); }
  }

  // ---------------------------------------------------------------- names, by their storage

  /** The labels of a storage, as getRawLabels walks over it. */
  method GetRawLabels(storage: Bytes, ghost labels: Labels) returns (r: Labels)
    requires Holds(storage, labels)
    ensures r == labels
  {
    r := [];
    var p := 0;
    WalkStart(storage, labels);
    while p < |storage| && storage[p] != 0
      invariant WalkAt(storage, labels, p, |r|)
      invariant r == labels[..|r|]
      decreases |storage| - p
    {
      WalkOn(storage, labels, p, |r|);
      var len := storage[p];
      r := r + [storage[p + 1..p + 1 + len]];
      p := p + len + 1;
    }
    WalkEnd(storage, labels, p, |r|);
  }

  /** slowCanonCompare_three_way. */
  method SlowCanonCompare(ours: Bytes, rhs: Bytes, ghost a: Labels, ghost b: Labels) returns (r: int)
    requires Holds(ours, a) && Holds(rhs, b)
    ensures r == Canon(a, b)
  {
    var x := GetRawLabels(ours, a);
    var y := GetRawLabels(rhs, b);
    var i, j := |x|, |y|;
    while i != 0 && j != 0
      invariant 0 <= i <= |x| && 0 <= j <= |y| && |x| - i == |y| - j
      invariant Canon(x, y) == CanonFrom(x, y, |x| - i)
      decreases i
    {
      var res := CompareLabels(x[i - 1], y[j - 1]);
      if res != 0 { return res; }
      i, j := i - 1, j - 1;
    }
    r := if i == 0 then if j != 0 then -1 else 0 else 1;
  }

  // ---------------------------------------------------------------- the comparison over positions

  /** What the position array holds: offsets, cut to eight bits. */
  function Positions(s: Bytes, p: nat, count: nat): (r: seq<Byte>)
    requires count <= MAX_POSITIONS
    ensures count + |r| <= MAX_POSITIONS
    decreases |s| - p
  {
    if p < |s| && s[p] != 0 && count < MAX_POSITIONS then
      var low: Byte := p % 256;
      [low] + Positions(s, p + s[p] + 1, count + 1)
    else []
  }

  /** The label the source looks at for a position; what lies past the storage is left out. */
  function View(s: Bytes, pos: nat): Bytes {
    if pos < |s| then s[pos + 1..if pos + 1 + s[pos] <= |s| then pos + 1 + s[pos] else |s|] else []
  }

  /** The labels that positions show. */
  function Views(s: Bytes, positions: seq<Byte>): (r: Labels)
    ensures |r| == |positions|
  {
    seq(|positions|, i requires 0 <= i < |positions| => View(s, positions[i]))
  }

  /** canonCompare_three_way; the labels are those of the storages. */
  ghost function FastCanon(s: Bytes, a: Labels, t: Bytes, b: Labels): int {
    var ours, theirs := Positions(s, 0, 0), Positions(t, 0, 0);
    if |ours| == MAX_POSITIONS || |theirs| == MAX_POSITIONS then Canon(a, b)
    else Canon(Views(s, ours), Views(t, theirs))
  }

  method FillPositions(s: Bytes, positions: array<Byte>) returns (count: nat)
    requires positions.Length == MAX_POSITIONS
    modifies positions
    ensures count <= MAX_POSITIONS && positions[..count] == Positions(s, 0, 0)
  {
    var p := 0;
    count := 0;
    while p < |s| && s[p] != 0 && count < MAX_POSITIONS
      invariant count <= MAX_POSITIONS
      invariant positions[..count] + Positions(s, p, count) == Positions(s, 0, 0)
      decreases |s| - p
    {
      positions[count] := p % 256;
      assert positions[..count + 1] == positions[..count] + [positions[count]];
      count := count + 1;
      p := p + s[p] + 1;
    }
  }

  method CanonCompare(s: Bytes, t: Bytes, ghost a: Labels, ghost b: Labels) returns (r: int)
    requires Holds(s, a) && Holds(t, b)
    ensures r == FastCanon(s, a, t, b)
  {
    var ourpos, rhspos := new Byte[MAX_POSITIONS](_ => 0), new Byte[MAX_POSITIONS](_ => 0);
    var ourcount := FillPositions(s, ourpos);
    var rhscount := FillPositions(t, rhspos);
    if ourcount == MAX_POSITIONS || rhscount == MAX_POSITIONS {
      r := SlowCanonCompare(s, t, a, b);
      return;
    }
    r := ComparePositions(s, ourpos, ourcount, t, rhspos, rhscount);
  }

  /** r is the result of a comparison that stands at n, with i and j labels to go. */
  ghost predicate Stands(r: int, x: Labels, y: Labels, n: nat, i: nat, j: nat) {
    i + n == |x| && j + n == |y| && r == CanonFrom(x, y, n)
  }

  lemma StandsOn(r: int, x: Labels, y: Labels, n: nat, i: nat, j: nat, u: Label, v: Label)
    requires Stands(r, x, y, n, i + 1, j + 1) && u == x[i] && v == y[j]
    ensures if Lex(u, v) != 0 then r == Lex(u, v) else Stands(r, x, y, n + 1, i, j) == true
  {}

  lemma StandsAtEnd(r: int, x: Labels, y: Labels, n: nat, i: nat, j: nat)
    requires Stands(r, x, y, n, i, j) && (i == 0 || j == 0)
    ensures r == if i == 0 && j != 0 then -1 else if i == 0 then 0 else 1
  {}

  lemma ViewAt(s: Bytes, positions: seq<Byte>, i: nat, position: Byte)
    requires i < |positions| && positions[i] == position
    ensures Views(s, positions)[i] == View(s, position)
  {}

  method ComparePositions(s: Bytes, ourpos: array<Byte>, ours: nat, t: Bytes, rhspos: array<Byte>, theirs: nat) returns (r: int)
    requires ours <= ourpos.Length && theirs <= rhspos.Length
    ensures r == Canon(Views(s, ourpos[..ours]), Views(t, rhspos[..theirs]))
  {
    var ourcount, rhscount := ours, theirs;
    ghost var a, b, n := ourpos[..ours], rhspos[..theirs], 0;
    ghost var x, y := Views(s, a), Views(t, b);
    ghost var result := Canon(x, y);
    while true
      invariant 0 <= ourcount <= ours && 0 <= rhscount <= theirs && 0 <= n
      invariant Stands(result, x, y, n, ourcount, rhscount) == true
      decreases ourcount
    {
      if ourcount == 0 || rhscount == 0 { StandsAtEnd(result, x, y, n, ourcount, rhscount); }
      if ourcount == 0 && rhscount != 0 { return -1; }
      if rhscount == 0 { return if ourcount == 0 then 0 else 1; }
      ourcount := ourcount - 1;
      rhscount := rhscount - 1;
      var u, v := View(s, ourpos[ourcount]), View(t, rhspos[rhscount]);
      ViewAt(s, a, ourcount, ourpos[ourcount]);
      ViewAt(t, b, rhscount, rhspos[rhscount]);
      StandsOn(result, x, y, n, ourcount, rhscount, u, v);
      var res := CompareLabels(u, v);
      if res != 0 { return res; }
      n := n + 1;
    }
  }

  // ---------------------------------------------------------------- operator==

  method NameEquals(ours: Bytes, rhs: Bytes) returns (r: bool)
    ensures r <==> (ours == [] <==> rhs == []) && FoldEq(ours, rhs)
  {
    if (rhs == []) != (ours == []) || |rhs| != |ours| { return false; }
    var i := 0;
    while i < |ours|
      invariant i <= |ours| && forall k | 0 <= k < i :: Lower(ours[k]) == Lower(rhs[k])
    {
      if Lower(rhs[i]) != Lower(ours[i]) { return false; }
      i := i + 1;
    }
    r := true;
  }

  /** The order calls names the same exactly when operator== does, an unset name and the root apart:
      those it does not tell from each other. */
  lemma CanonZeroIsEqual(s: Bytes, a: Labels, t: Bytes, b: Labels)
    requires Holds(s, a) && Holds(t, b)
    ensures Canon(a, b) == 0 <==> FoldEq(s, t) || (a == [] && b == [])
    ensures (s == [] <==> t == []) ==> (Canon(a, b) == 0 <==> FoldEq(s, t))
  {
    CanonEqual(a, b);
    if LabelsFoldEq(a, b) {
      WireFold(a, b);
    } else if FoldEq(s, t) && s != [] {
      WireFoldBack(a, b);
    }
  }
}
