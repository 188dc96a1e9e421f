/** When the comparison over position arrays is the one over label vectors.  A position array holds the
    offsets of the labels cut to eight bits, so of a label that starts past offset 255 it shows another. */
module PositionArrays {
  import opened DnsName
  import opened PacketName
  import opened NameParser
  import opened CanonicalOrder

  // ---------------------------------------------------------------- what the positions show

  /** The label that the position of label i shows. */
  ghost function Shown(s: Bytes, a: Labels, i: nat): Label
    requires ValidLabels(a) && i < |a|
  {
    View(s, Off(a, i) % 256)
  }

  ghost function Seen(s: Bytes, a: Labels): (v: Labels)
    requires ValidLabels(a)
    ensures |v| == |a|
  {
    seq(|a|, i requires 0 <= i < |a| => Shown(s, a, i))
  }

  /** Every label is the one its position shows, but for case. */
  ghost predicate ReadRight(s: Bytes, a: Labels)
    requires ValidLabels(a)
  {
    LabelsFoldEq(a, Seen(s, a))
  }

  lemma {:induction false} PositionsAre(s: Bytes, labels: Labels, p: nat, k: nat)
    requires Holds(s, labels) && WalkAt(s, labels, p, k) && k <= MAX_POSITIONS
    ensures var r := Positions(s, p, k);
            && |r| == (if |labels| < MAX_POSITIONS then |labels| else MAX_POSITIONS) - k
            && forall i | 0 <= i < |r| :: k + i < |labels| && r[i] == Off(labels, k + i) % 256
    decreases |labels| - k
  {
    if p < |s| && s[p] != 0 {
      WalkOn(s, labels, p, k);
      if k < MAX_POSITIONS { PositionsAre(s, labels, p + 1 + |labels[k]|, k + 1); }
    } else {
      WalkEnd(s, labels, p, k);
    }
  }

  lemma {:induction false} PositionsShow(s: Bytes, a: Labels)
    requires Holds(s, a)
    ensures var r := Positions(s, 0, 0);
            if |a| < MAX_POSITIONS then Views(s, r) == Seen(s, a) else |r| == MAX_POSITIONS
  {
    WalkStart(s, a);
    PositionsAre(s, a, 0, 0);
    assert |a| < MAX_POSITIONS ==> Views(s, Positions(s, 0, 0)) == Seen(s, a);
  }

  /** On any two names the comparison over position arrays is the canonical order of the labels shown,
      or of the labels themselves when one name has 64 or more. */
  lemma FastIsCanonOfSeen(s: Bytes, a: Labels, t: Bytes, b: Labels)
    requires Holds(s, a) && Holds(t, b)
    ensures FastCanon(s, a, t, b)
            == if |a| >= MAX_POSITIONS || |b| >= MAX_POSITIONS then Canon(a, b) else Canon(Seen(s, a), Seen(t, b))
  {
    PositionsShow(s, a);
    PositionsShow(t, b);
  }

  // ---------------------------------------------------------------- the two agree

  lemma {:induction false} LexFold(a: Label, a': Label, b: Label, b': Label, i: nat)
    requires FoldEq(a, a') && FoldEq(b, b') && i <= |a| && i <= |b|
    ensures LexFrom(a, b, i) == LexFrom(a', b', i)
    decreases |a| - i
  {
    if i < |a| && i < |b| {
      assert Lower(a[i]) == Lower(a'[i]) && Lower(b[i]) == Lower(b'[i]);
      LexFold(a, a', b, b', i + 1);
    }
  }

  lemma {:induction false} CanonFold(a: Labels, a': Labels, b: Labels, b': Labels, n: nat)
    requires LabelsFoldEq(a, a') && LabelsFoldEq(b, b') && n <= |a| && n <= |b|
    ensures CanonFrom(a, b, n) == CanonFrom(a', b', n)
    decreases |a| - n
  {
    if n < |a| && n < |b| {
      var x, y := |a| - 1 - n, |b| - 1 - n;
      assert FoldEq(a[x], a'[x]) && FoldEq(b[y], b'[y]);
      LexFold(a[x], a'[x], b[y], b'[y], 0);
      CanonFold(a, a', b, b', n + 1);
    }
  }

  /** The two comparisons give the same result when one name has 64 labels or more, and when both are
      read right. */
  lemma FastIsSlow(s: Bytes, a: Labels, t: Bytes, b: Labels)
    requires Holds(s, a) && Holds(t, b)
    requires |a| >= MAX_POSITIONS || |b| >= MAX_POSITIONS || (ReadRight(s, a) && ReadRight(t, b))
    ensures FastCanon(s, a, t, b) == Canon(a, b)
  {
    FastIsCanonOfSeen(s, a, t, b);
    if |a| < MAX_POSITIONS && |b| < MAX_POSITIONS { CanonFold(a, Seen(s, a), b, Seen(t, b), 0); }
  }

  /** A name is read right when every label starts before offset 256, as in every name of at most 256
      octets. */
  lemma EarlyLabelsReadRight(s: Bytes, a: Labels)
    requires Holds(s, a) && forall i {:trigger Off(a, i)} | 0 <= i < |a| :: Off(a, i) < 256
    ensures ReadRight(s, a)
  {
    forall i | 0 <= i < |a| ensures FoldEq(a[i], Seen(s, a)[i]) {
      LabelInWire(a, i);
      assert Shown(s, a, i) == a[i];
    }
  }

  // ---------------------------------------------------------------- names as stacks of labels

  ghost function Init(a: Labels): Labels
    requires a != []
  {
    a[..|a| - 1]
  }

  ghost function Last(a: Labels): Label
    requires a != []
  {
    a[|a| - 1]
  }

  lemma {:induction false} CanonInit(a: Labels, b: Labels, n: nat)
    requires a != [] && b != [] && n < |a| && n < |b|
    ensures CanonFrom(a, b, n + 1) == CanonFrom(Init(a), Init(b), n)
    decreases |a| - n
  {
    if n + 1 < |a| && n + 1 < |b| { CanonInit(a, b, n + 1); }
  }

  /** The last labels decide, unless they are equal. */
  lemma CanonLast(a: Labels, b: Labels)
    requires a != [] && b != []
    ensures Canon(a, b) == if Lex(Last(a), Last(b)) != 0 then Lex(Last(a), Last(b)) else Canon(Init(a), Init(b))
  {
    CanonInit(a, b, 0);
  }

  /** The octets of the labels with their lengths: one less than those of the name. */
  ghost function Octets(a: Labels): nat {
    if a == [] then 0 else Octets(Init(a)) + 1 + |Last(a)|
  }

  lemma {:induction false} WireOctets(a: Labels)
    requires ValidLabels(a)
    ensures |Wire(a)| == Octets(a) + 1
  {
    if a != [] {
      WireOctets(Init(a));
      assert Init(a) + [Last(a)] == a && ValidLabels([Last(a)]);
      WireAppend(Init(a), [Last(a)]);
      WireLength(Init(a), 0);
      assert [Last(a)][1..] == [];
    }
  }

  lemma ValidInit(a: Labels)
    requires ValidLabels(a) && a != []
    ensures ValidLabels(Init(a)) && ValidLabel(Last(a))
  {}

  ghost predicate SameSign(x: int, y: int) {
    (x < 0 <==> y < 0) && (x > 0 <==> y > 0)
  }

  // ---------------------------------------------------------------- labels that begin alike

  /** How many octets two labels have in common from the front. */
  ghost function Common(x: Label, y: Label, i: nat): (q: nat)
    requires i <= |x| && i <= |y| && forall k | 0 <= k < i :: Lower(x[k]) == Lower(y[k])
    ensures i <= q <= |x| && q <= |y| && forall k | 0 <= k < q :: Lower(x[k]) == Lower(y[k])
    ensures q < |x| && q < |y| ==> Lower(x[q]) != Lower(y[q])
    decreases |x| - i
  {
    if i < |x| && i < |y| && Lower(x[i]) == Lower(y[i]) then Common(x, y, i + 1) else i
  }

  /** A label that is no longer than what two labels have in common does not tell them apart, but for
      being equal to one of them. */
  lemma {:induction false} LexCommon(x: Label, y: Label, z: Label, i: nat)
    requires i <= |z| <= Common(x, y, 0)
    ensures LexFrom(x, z, i) == LexFrom(y, z, i)
            || (LexFrom(x, z, i) == (if |x| == |z| then 0 else 1) && LexFrom(y, z, i) == (if |y| == |z| then 0 else 1))
    decreases |z| - i
  {
    if i < |z| { LexCommon(x, y, z, i + 1); }
  }

  lemma {:induction false} LexPast(x: Label, z: Label, i: nat, j: nat)
    requires i <= j <= |x| && j <= |z| && forall k | i <= k < j :: Lower(x[k]) == Lower(z[k])
    ensures LexFrom(x, z, i) == LexFrom(x, z, j)
    decreases j - i
  {
    if i < j { LexPast(x, z, i + 1, j); }
  }

  /** One octet more than the common ones, from the greater label, lies between the two. */
  lemma {:induction false} Between(x: Label, y: Label)
    requires Lex(x, y) > 0
    ensures var q := Common(x, y, 0);
            q < |x| && Lex(x, x[..q + 1]) >= 0 && Lex(y, x[..q + 1]) < 0
  {
    var q := Common(x, y, 0);
    LexPast(x, y, 0, q);
    var z := x[..q + 1];
    LexPast(x, z, 0, q + 1);
    LexPast(y, z, 0, q);
  }

  // ---------------------------------------------------------------- exactly which names come out wrong

  /** n times the octet 255. */
  ghost function Tops(n: nat): (l: Label)
    ensures |l| == n
  {
    seq(n, i => 255)
  }

  ghost function AtMost63(n: nat): nat { if n <= 63 then n else 63 }

  /** The greatest labels that fit in this room. */
  ghost function Greatest(room: nat): Labels {
    if room < 2 then [] else Greatest(room - 1 - AtMost63(room - 1)) + [Tops(AtMost63(room - 1))]
  }

  lemma {:induction false} LexTops(l: Label, n: nat, i: nat)
    requires i <= |l| <= n
    ensures LexFrom(l, Tops(n), i) <= 0 && (LexFrom(l, Tops(n), i) == 0 ==> |l| == n)
    decreases |l| - i
  {
    if i < |l| { LexTops(l, n, i + 1); }
  }

  lemma {:induction false} GreatestIs(b: Labels, room: nat)
    requires ValidLabels(b) && Octets(b) <= room
    ensures Canon(b, Greatest(room)) <= 0
  {
    if b != [] {
      var n, l := AtMost63(room - 1), Last(b);
      assert ValidLabel(l);
      var g := Greatest(room);
      assert Init(g) == Greatest(room - 1 - n) && Last(g) == Tops(n);
      CanonLast(b, g);
      LexTops(l, n, 0);
      if |l| == n { GreatestIs(Init(b), room - 1 - n); }
    }
  }

  lemma {:induction false} GreatestNone(room: nat)
    requires room < 2
    ensures ValidLabels(Greatest(room)) && Octets(Greatest(room)) == 0
  {}

  lemma {:induction false} GreatestFits(room: nat)
    ensures ValidLabels(Greatest(room)) && Octets(Greatest(room)) <= room
  {
    if room < 2 {
      GreatestNone(room);
    } else {
      var n := AtMost63(room - 1);
      GreatestFits(room - 1 - n);
      Stacked(Greatest(room - 1 - n), Tops(n));
    }
  }

  lemma {:induction false} GreatestFew(a: Labels, room: nat)
    requires ValidLabels(a) && Octets(a) >= room
    ensures |Greatest(room)| <= |a|
  {
    if room >= 2 {
      ValidInit(a);
      GreatestFew(Init(a), room - 1 - AtMost63(room - 1));
    }
  }

  /** No name whose labels fit in the room tells `a` from the labels `v` that it is read as.  From the
      last label back, a label that is read wrong must have so much in common with what it is read as
      that a label that could tell them apart does not fit; or it has 63 octets, is read as a longer
      label that begins with it, and the labels before it are greater than all that fit. */
  ghost predicate Hidden(a: Labels, v: Labels, room: nat)
    requires |a| == |v|
    decreases |a|
  {
    if a == [] then true
    else
      var l, y := Last(a), Last(v);
      if FoldEq(l, y) then room < 1 + |l| || Hidden(Init(a), Init(v), room - 1 - |l|)
      else
        var q := Common(l, y, 0);
        q + 2 > room || (q == 63 && Canon(Init(a), Greatest(room - 64)) > 0)
  }

  lemma LexIsZero(a: Label, b: Label)
    ensures Lex(a, b) == 0 <==> FoldEq(a, b)
  {
    LexZero(a, b, 0);
  }

  lemma {:induction false} NothingFits(b: Labels)
    requires ValidLabels(b)
    ensures Octets(b) == 0 ==> b == []
  {}

  lemma {:induction false} HiddenStep(a: Labels, v: Labels, room: nat, b: Labels)
    requires b != [] && |a| == |v| > 1 && ValidLabels(a) && ValidLabels(b)
    requires room >= Octets(b) && Hidden(a, v, room) && !FoldEq(Last(a), Last(v))
    ensures SameSign(Canon(v, b), Canon(a, b))
  {
    var l, y, z := Last(a), Last(v), Last(b);
    var q := Common(l, y, 0);
    CanonLast(a, b);
    CanonLast(v, b);
    LexIsZero(l, y);
    ValidInit(a);
    ValidInit(b);
    if |z| <= q {
      LexCommon(l, y, z, 0);
      LexIsZero(l, z);
      LexIsZero(y, z);
      if q + 2 > room {
        NothingFits(Init(b));
        assert |z| == q ==> Init(b) == [];
      } else if Lex(l, z) == 0 {
        GreatestIs(Init(b), room - 64);
        CanonFlips(Init(b), Greatest(room - 64), 0);
        if Canon(Init(a), Init(b)) <= 0 { CanonTransitive(Init(a), Init(b), Greatest(room - 64), 0); }
      }
    }
  }

  lemma {:induction false} HiddenAgree(a: Labels, v: Labels, room: nat, b: Labels)
    requires |a| == |v| && ValidLabels(a) && ValidLabels(b) && room >= Octets(b) && Hidden(a, v, room)
    requires a != [] ==> FoldEq(a[0], v[0])
    ensures SameSign(Canon(v, b), Canon(a, b))
    decreases |a|
  {
    if a != [] && b != [] {
      var l, y, z := Last(a), Last(v), Last(b);
      if FoldEq(l, y) {
        CanonLast(a, b);
        CanonLast(v, b);
        LexFold(l, y, z, z, 0);
        LexIsZero(l, z);
        ValidInit(a);
        ValidInit(b);
        if FoldEq(l, z) { HiddenAgree(Init(a), Init(v), room - 1 - |l|, Init(b)); }
      } else {
        HiddenStep(a, v, room, b);
      }
    }
  }

  /** What is read right has nothing to hide. */
  lemma {:induction false} RightIsHidden(a: Labels, v: Labels, room: nat)
    requires LabelsFoldEq(a, v)
    ensures Hidden(a, v, room)
    decreases |a|
  {
    if a != [] {
      assert FoldEq(a[|a| - 1], v[|a| - 1]);
      if room >= 1 + |Last(a)| {
        forall i | 0 <= i < |a| - 1 ensures FoldEq(Init(a)[i], Init(v)[i]) { assert FoldEq(a[i], v[i]); }
        RightIsHidden(Init(a), Init(v), room - 1 - |Last(a)|);
      }
    }
  }

  /** A name of one label that lies between the last labels. */
  lemma TellsApart(a: Labels, v: Labels, room: nat) returns (b: Labels)
    requires a != [] && |a| == |v| && !FoldEq(Last(a), Last(v))
    requires var q := Common(Last(a), Last(v), 0); q + 2 <= room && q < 63
    ensures ValidLabels(b) && |b| == 1 && Octets(b) <= room && !SameSign(Canon(v, b), Canon(a, b))
  {
    var l, y := Last(a), Last(v);
    var q := Common(l, y, 0);
    LexIsZero(l, y);
    LexFlip(l, y, 0);
    var x, o := if Lex(l, y) > 0 then l else y, if Lex(l, y) > 0 then y else l;
    CommonSym(l, y);
    Between(x, o);
    b := [x[..q + 1]];
    assert ValidLabel(b[0]);
    assert Init(b) == [] && Last(b) == x[..q + 1];
    CanonLast(a, b);
    CanonLast(v, b);
  }

  lemma {:induction false} CommonSym(x: Label, y: Label)
    ensures Common(x, y, 0) == Common(y, x, 0)
  {
    if Common(x, y, 0) < Common(y, x, 0) { assert false; }
  }

  lemma {:induction false} Stacked(front: Labels, l: Label)
    requires ValidLabels(front) && ValidLabel(l)
    ensures var b := front + [l];
            ValidLabels(b) && Init(b) == front && Last(b) == l && Octets(b) == Octets(front) + 1 + |l|
  {}

  lemma {:induction false} LongerIsGreater(y: Label, l: Label)
    requires Common(l, y, 0) == |l| < |y|
    ensures Lex(y, l) > 0
  {
    LexPast(y, l, 0, |l|);
  }

  /** When it is not hidden, this name shows that `a` is read wrong. */
  lemma {:induction false} NotHidden(a: Labels, v: Labels, room: nat) returns (b: Labels)
    requires |a| == |v| && ValidLabels(a) && Octets(a) > room && !Hidden(a, v, room)
    ensures ValidLabels(b) && |b| <= |a| && Octets(b) <= room && !SameSign(Canon(v, b), Canon(a, b))
    decreases |a|
  {
    var l, y := Last(a), Last(v);
    var q := Common(l, y, 0);
    ValidInit(a);
    LexIsZero(l, l);
    if FoldEq(l, y) {
      var front := NotHidden(Init(a), Init(v), room - 1 - |l|);
      LexFold(l, y, l, l, 0);
      Stacked(front, l);
      b := front + [l];
    } else if q < 63 {
      b := TellsApart(a, v, room);
      return;
    } else {
      GreatestFits(room - 64);
      GreatestFew(Init(a), room - 64);
      LongerIsGreater(y, l);
      Stacked(Greatest(room - 64), l);
      b := Greatest(room - 64) + [l];
    }
    CanonLast(a, b);
    CanonLast(v, b);
  }

  // ---------------------------------------------------------------- the two results

  /** Against labels of any number and size a name is ordered by what it is read as exactly when it is
      read right. */
  lemma ReadRightExactly(a: Labels, v: Labels)
    requires |a| == |v| && ValidLabels(a)
    ensures LabelsFoldEq(a, v) <==> forall b | ValidLabels(b) :: SameSign(Canon(v, b), Canon(a, b))
  {
    if LabelsFoldEq(a, v) {
      forall b | ValidLabels(b) ensures SameSign(Canon(v, b), Canon(a, b)) {
        CanonEqual(b, b);
        CanonFold(a, v, b, b, 0);
      }
    } else {
      var b := Misread(a, v);
      assert !SameSign(Canon(v, b), Canon(a, b));
    }
  }

  lemma {:induction false} Misread(a: Labels, v: Labels) returns (b: Labels)
    requires |a| == |v| && ValidLabels(a) && !LabelsFoldEq(a, v)
    ensures ValidLabels(b) && !SameSign(Canon(v, b), Canon(a, b))
    decreases |a|
  {
    var l, y := Last(a), Last(v);
    ValidInit(a);
    LexIsZero(l, l);
    if FoldEq(l, y) {
      if LabelsFoldEq(Init(a), Init(v)) {
        forall i | 0 <= i < |a| ensures FoldEq(a[i], v[i]) { assert i < |a| - 1 ==> FoldEq(Init(a)[i], Init(v)[i]); }
      }
      var front := Misread(Init(a), Init(v));
      LexFold(l, y, l, l, 0);
      Stacked(front, l);
      b := front + [l];
      CanonLast(a, b);
      CanonLast(v, b);
    } else if Common(l, y, 0) < 63 {
      b := TellsApart(a, v, 65);
    } else {
      // the last label has 63 octets and is read as a longer one
      LongerIsGreater(y, l);
      b := [[0]] + a;
      assert ValidLabel([0]);
      LongerFollows(a);
      assert Last(b) == l;
      CanonLast(v, b);
    }
  }

  lemma LongerFollows(a: Labels)
    ensures Canon(a, [[0]] + a) < 0
  {
    LongerFrom(a, 0);
  }

  lemma {:induction false} LongerFrom(a: Labels, n: nat)
    requires n <= |a|
    ensures CanonFrom(a, [[0]] + a, n) == -1
    decreases |a| - n
  {
    if n < |a| {
      LexIsZero(a[|a| - 1 - n], a[|a| - 1 - n]);
      LongerFrom(a, n + 1);
    }
  }

  ghost predicate RightAgainstLegal(s: Bytes, a: Labels)
    requires Holds(s, a)
  {
    forall t, b | Holds(t, b) && |t| <= MAX_NAME :: SameSign(FastCanon(s, a, t, b), Canon(a, b))
  }

  /** A name of at most 255 octets is itself read right. */
  lemma AgainstLegal(s: Bytes, a: Labels, t: Bytes, b: Labels)
    requires Holds(s, a) && Holds(t, b) && |t| <= MAX_NAME
    ensures FastCanon(s, a, t, b)
            == if |a| >= MAX_POSITIONS || |b| >= MAX_POSITIONS then Canon(a, b) else Canon(Seen(s, a), b)
  {
    FastIsCanonOfSeen(s, a, t, b);
    LegalReadRight(t, b);
    CanonEqual(Seen(s, a), Seen(s, a));
    CanonFold(Seen(s, a), Seen(s, a), b, Seen(t, b), 0);
  }

  lemma LegalReadRight(t: Bytes, b: Labels)
    requires Holds(t, b) && |t| <= MAX_NAME
    ensures ReadRight(t, b)
  {
    if t == [] { assert b == []; }
    EarlyLabelsReadRight(t, b);
  }

  /** The comparison over position arrays orders a name rightly against every name of at most 255 octets
      exactly when it has 64 labels or more or what is read wrong is hidden from names of that length. */
  lemma {:induction false} RightExactly(s: Bytes, a: Labels)
    requires Holds(s, a)
    ensures RightAgainstLegal(s, a) <==> |a| >= MAX_POSITIONS || Hidden(a, Seen(s, a), MAX_NAME - 1)
  {
    var v := Seen(s, a);
    if |a| >= MAX_POSITIONS || Hidden(a, v, MAX_NAME - 1) {
      forall t, b | Holds(t, b) && |t| <= MAX_NAME ensures SameSign(FastCanon(s, a, t, b), Canon(a, b)) {
        RightWhenHidden(s, a, t, b);
      }
    } else {
      MisreadIsLong(s, a);
      var b := NotHidden(a, v, MAX_NAME - 1);
      WireOctets(b);
      AgainstLegal(s, a, Wire(b), b);
      assert !SameSign(FastCanon(s, a, Wire(b), b), Canon(a, b));
    }
  }

  lemma FirstReadRight(s: Bytes, a: Labels)
    requires Holds(s, a) && a != []
    ensures FoldEq(a[0], Seen(s, a)[0])
  {
    LabelInWire(a, 0);
    assert a[0..] == a;
    assert Shown(s, a, 0) == a[0];
  }

  lemma {:induction false} MisreadIsLong(s: Bytes, a: Labels)
    requires Holds(s, a) && !Hidden(a, Seen(s, a), MAX_NAME - 1)
    ensures Octets(a) > MAX_NAME - 1
  {
    if |s| <= MAX_NAME {
      LegalReadRight(s, a);
      RightIsHidden(a, Seen(s, a), MAX_NAME - 1);
    } else {
      WireOctets(a);
    }
  }

  lemma {:induction false} RightWhenHidden(s: Bytes, a: Labels, t: Bytes, b: Labels)
    requires Holds(s, a) && Holds(t, b) && |t| <= MAX_NAME
    requires |a| >= MAX_POSITIONS || Hidden(a, Seen(s, a), MAX_NAME - 1)
    ensures SameSign(FastCanon(s, a, t, b), Canon(a, b))
  {
    AgainstLegal(s, a, t, b);
    if |a| < MAX_POSITIONS && |b| < MAX_POSITIONS {
      if t == [] { assert Octets(b) == 0; } else { WireOctets(b); }
      if a != [] { FirstReadRight(s, a); }
      HiddenAgree(a, Seen(s, a), MAX_NAME - 1, b);
    }
  }

  // ---------------------------------------------------------------- a name that comes out wrong, and where it comes from

  /** 63 times the letter a. */
  ghost function Filler(): (l: Label)
    ensures ValidLabel(l)
  {
    seq(63, i => 97)
  }

  ghost function LongName(): (ls: Labels)
    ensures ValidLabels(ls)
  {
    [Filler(), Filler(), Filler(), Filler(), [98]]
  }

  lemma LongPositions()
    ensures var s := Wire(LongName()); Positions(s, 0, 0) == [0, 64, 128, 192, 0] && View(s, 0) == Filler()
  {
    var a := LongName();
    var s := Wire(a);
    assert a[0..] == a;
    OffStep(a, 0); OffStep(a, 1); OffStep(a, 2); OffStep(a, 3); OffStep(a, 4);
    LabelInWire(a, 0); LabelInWire(a, 1); LabelInWire(a, 2); LabelInWire(a, 3); LabelInWire(a, 4);
    WireFrom(a, 5);
    assert s[Off(a, 5)] == s[Off(a, 5)..][0] == 0;
    assert Positions(s, 258, 5) == [];
    assert Positions(s, 256, 4) == [0];
    assert Positions(s, 192, 3) == [192, 0];
    assert Positions(s, 128, 2) == [128, 192, 0];
    assert Positions(s, 64, 1) == [64, 128, 192, 0];
  }

  /** A parsed name may be longer than 256 octets.  The position of its fifth label, 256, is cut to 0,
      and the label compared is the first. */
  lemma LongNamesDiffer()
    ensures Canon(LongName(), [[98]]) > 0
    ensures FastCanon(Wire(LongName()), LongName(), Wire([[98]]), [[98]]) < 0
  {
    var a, b := LongName(), [[98]];
    assert Lex(a[4], b[0]) == 0;
    assert CanonFrom(a, b, 1) == 1;
    LongPositions();
    var t := Wire(b);
    assert t == [1, 98, 0];
    assert Positions(t, 2, 1) == [];
    assert Positions(t, 0, 0) == [0];
    assert View(t, 0) == [98];
    assert Lex(Filler(), [98]) == -1;
    var x, y := Views(Wire(a), [0, 64, 128, 192, 0]), Views(t, [0]);
    assert x[4] == Filler() && y[0] == [98];
    assert CanonFrom(x, y, 0) == -1;
  }

  /** A packet with three such labels and a `b`, and then one more that is followed by a pointer to them. */
  ghost function LongPacket(): Bytes {
    Wire(LongName()[1..]) + LabelWire(Filler()) + [192, 0]
  }

  ghost function FirstOffsets(n: nat): (s: set<nat>)
    ensures forall x: nat :: x in s <==> x < n
  {
    if n == 0 then {} else FirstOffsets(n - 1) + {n - 1}
  }

  /** The parser takes that name out of the packet, although it has more than 255 octets. */
  lemma LongNameParses()
    ensures |LongPacket()| == 261 && |Wire(LongName())| == 259
    ensures Parse(LongPacket(), 195, true, 0, 0, []) == Parsed(Wire(LongName()), 261)
  {
    LongOctets();
    TwoFragments(LongPacket(), Filler(), LongName()[1..]);
    assert [Filler()] + LongName()[1..] == LongName();
  }

  lemma {:induction false} TwoFragments(c: Bytes, l: Label, rest: Labels)
    requires ValidLabel(l) && ValidLabels(rest) && |Wire(rest)| == 195
    requires |c| == 261 && c[0..195] == Wire(rest)
    requires c[195] == 63 && c[195..259] == LabelWire(l) && c[259] == 192 && c[260] == 0
    ensures ValidLabels([l] + rest) && Parse(c, 195, true, 0, 0, []) == Parsed(Wire([l] + rest), 261)
  {
    LongJump(c);
    OneLabel(l);
    var s := FirstOffsets(261);
    WholeNameAt(c, s, 0, rest, 0);
    ParseDecodes(c, s, 0, rest, 0, true, 1, 0, Wire([l]), [l]);
  }

  lemma OneLabel(l: Label)
    requires ValidLabel(l)
    ensures ValidLabels([l]) && Extend([], LabelWire(l)) == Wire([l])
  {
    var none: Labels := [];
    var w := LabelWire(l);
    assert [l][1..] == none && Wire(none) == [0];
    assert Wire([l]) == w + [0];
    assert Extend([], w) == [] + w + [0];
  }

  /** Its second fragment: one label and the pointer. */
  lemma LongJump(c: Bytes)
    requires |c| == 261 && c[195] == 63 && c[259] == 192 && c[260] == 0
    ensures ReadFragment(c, 195, true, 0, 0) == Jumps(259, 0)
  {
    assert Scan(c, 259, 64, true) == Stops(259);
    assert Scan(c, 195, 0, true) == Stops(259);
  }

  lemma LongOctets()
    ensures |Wire(LongName())| == 259 && |Wire(LongName()[1..])| == 195
    ensures var c := LongPacket();
            && |c| == 261 && c[0..195] == Wire(LongName()[1..])
            && c[195] == 63 && c[195..259] == LabelWire(Filler()) && c[259] == 192 && c[260] == 0
  {
    var a := LongName();
    assert a[1..] == [Filler(), Filler(), Filler(), [98]];
    assert a[1..][1..] == [Filler(), Filler(), [98]];
    assert [Filler(), Filler(), [98]][1..] == [Filler(), [98]];
    assert [Filler(), [98]][1..] == [[98]];
    assert [[98]][1..] == [];
  }
}
