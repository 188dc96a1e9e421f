/** Unsigned machine words as their bits, the most significant one first, and the operators on them. */
module Words {
  type Word = seq<bool>

  function Zeros(width: nat): (r: Word)
    ensures |r| == width
  {
    seq(width, i => false)
  }

  /** All bits set: 0xFFFFFFFF, 0xFF. */
  function Ones(width: nat): (r: Word)
    ensures |r| == width
  {
    seq(width, i => true)
  }

  /** 1U. */
  function One(width: nat): (r: Word)
    requires width > 0
    ensures |r| == width
  {
    seq(width, i => i == width - 1)
  }

  function And(x: Word, y: Word): (r: Word)
    requires |x| == |y|
    ensures |r| == |x| && forall i | 0 <= i < |x| :: r[i] == (x[i] && y[i])
  {
    seq(|x|, i requires 0 <= i < |x| => x[i] && y[i])
  }

  function Not(x: Word): (r: Word)
    ensures |r| == |x| && forall i | 0 <= i < |x| :: r[i] == !x[i]
  {
    seq(|x|, i requires 0 <= i < |x| => !x[i])
  }

  /** x >> n. */
  function Shr(x: Word, n: nat): (r: Word)
    ensures |r| == |x| && forall i | 0 <= i < |x| :: r[i] == (i >= n && x[i - n])
  {
    seq(|x|, i requires 0 <= i < |x| => i >= n && x[i - n])
  }

  /** x << n. */
  function Shl(x: Word, n: nat): (r: Word)
    ensures |r| == |x| && forall i | 0 <= i < |x| :: r[i] == (i + n < |x| && x[i + n])
  {
    seq(|x|, i requires 0 <= i < |x| => i + n < |x| && x[i + n])
  }

  /** ~(ones >> n): the mask of the n highest bits. */
  function Mask(width: nat, n: nat): (r: Word)
    ensures |r| == width && forall i | 0 <= i < width :: r[i] == (i < n)
  {
    Not(Shr(Ones(width), n))
  }

  /** Equal under the mask is equal in the n highest bits. */
  lemma MaskedEqual(x: Word, y: Word, n: nat)
    requires |x| == |y| && n <= |x|
    ensures And(x, Mask(|x|, n)) == And(y, Mask(|x|, n)) <==> x[..n] == y[..n]
  {
    var a, b := And(x, Mask(|x|, n)), And(y, Mask(|x|, n));
    if a == b {
      forall i | 0 <= i < n ensures x[i] == y[i] { assert a[i] == b[i]; }
    }
    if x[..n] == y[..n] {
      forall i | 0 <= i < |x| ensures a[i] == b[i] {
        if i < n { assert x[..n][i] == y[..n][i]; }
      }
    }
  }

  /** x & (1U << index) picks the bit that is `index` places from the bottom. */
  lemma SingleBit(x: Word, index: nat)
    requires index < |x|
    ensures And(x, Shl(One(|x|), index)) != Zeros(|x|) <==> x[|x| - 1 - index]
  {
    var r := And(x, Shl(One(|x|), index));
    var k := |x| - 1 - index;
    assert r[k] == x[k];
    if !x[k] { assert r == Zeros(|x|); }
  }

  function Or(x: Word, y: Word): (r: Word)
    requires |x| == |y|
    ensures |r| == |x| && forall i | 0 <= i < |x| :: r[i] == (x[i] || y[i])
  {
    seq(|x|, i requires 0 <= i < |x| => x[i] || y[i])
  }

  // ---------------------------------------------------------------- words and numbers

  /** The w lowest bits of a number. */
  function Bits(v: nat, w: nat): (r: Word)
    ensures |r| == w
  {
    if w == 0 then [] else Bits(v / 2, w - 1) + [v % 2 == 1]
  }

  function Value(x: Word): nat {
    if x == [] then 0 else 2 * Value(x[..|x| - 1]) + if x[|x| - 1] then 1 else 0
  }

  function Pow2(k: nat): (r: nat)
    ensures r > 0
  {
    if k == 0 then 1 else 2 * Pow2(k - 1)
  }

  lemma {:induction false} ValueOfBits(v: nat, w: nat)
    requires v < Pow2(w)
    ensures Value(Bits(v, w)) == v
  {
    if w > 0 {
      ValueOfBits(v / 2, w - 1);
      assert Bits(v, w)[..w - 1] == Bits(v / 2, w - 1);
    }
  }

  lemma {:induction false} BitsOfValue(x: Word)
    ensures Bits(Value(x), |x|) == x && Value(x) < Pow2(|x|)
  {
    if x != [] {
      BitsOfValue(x[..|x| - 1]);
      assert Value(x) / 2 == Value(x[..|x| - 1]);
      assert x == x[..|x| - 1] + [x[|x| - 1]];
    }
  }

  /** Leading zeros do not count. */
  lemma {:induction false} ValueOfTail(x: Word, n: nat)
    requires n <= |x| && forall i | 0 <= i < n :: !x[i]
    ensures Value(x) == Value(x[n..])
  {
    if n < |x| {
      var y := x[..|x| - 1];
      ValueOfTail(y, n);
      assert x[n..][..|x[n..]| - 1] == y[n..];
    } else if x != [] {
      ValueOfTail(x[..|x| - 1], n - 1);
      assert x[..|x| - 1][n - 1..] == [] && x[n..] == [];
    }
  }

  lemma {:induction false} OctetBits(b: nat)
    requires b < 256
    ensures Value(Bits(b, 8)) == b
  {
    assert Pow2(4) == 16 && Pow2(8) == 256;
    ValueOfBits(b, 8);
  }

  lemma {:induction false} OctetValue(x: Word)
    requires |x| == 8
    ensures Value(x) < 256 && Bits(Value(x), 8) == x
  {
    assert Pow2(4) == 16 && Pow2(8) == 256;
    BitsOfValue(x);
  }
}
