/** Proportional trimming: how many entries each shard gives up, and why rounding them one shard at
    a time neither over- nor undershoots. */
module Trimming {
  /** std::round of a * b / c, for values that are not negative: half goes up. */
  function Round(a: nat, b: nat, c: nat): nat
    requires c > 0
  {
    (2 * a * b + c) / (2 * c)
  }

  /** std::ceil of a * b / c. */
  function Ceil(a: nat, b: nat, c: nat): nat
    requires c > 0
  {
    (a * b + c - 1) / c
  }

  /** A share is the integer nearest to the quotient, the greater one of two. */
  lemma RoundIsNearest(a: nat, b: nat, c: nat)
    requires c > 0
    ensures var r := Round(a, b, c); 2 * (c * r) <= 2 * (a * b) + c < 2 * (c * r) + 2 * c
  {
    var x := 2 * a * b + c;
    var r := x / (2 * c);
    assert x == 2 * c * r + x % (2 * c) && 0 <= x % (2 * c) < 2 * c;
    assert 2 * a * b == 2 * (a * b) && 2 * c * r == 2 * (c * r);
  }

  /** Ceil is the least integer that is not below the quotient. */
  lemma CeilIsLeast(a: nat, b: nat, c: nat)
    requires c > 0
    ensures var r := Ceil(a, b, c); a * b <= c * r < a * b + c
  {
    var x := a * b + c - 1;
    assert x == c * (x / c) + x % c && 0 <= x % c < c;
  }

  lemma Scale(k: nat, a: nat, b: nat)
    ensures a <= b ==> k * a <= k * b
  {}

  lemma DivAtMost(x: nat, y: nat, q: nat)
    requires y > 0 && x < y * (q + 1)
    ensures x / y <= q
  {
    var d := x / y;
    Scale(y, q + 1, d);
    assert y * d <= x;
  }

  lemma DivAtLeast(x: nat, y: nat, q: nat)
    requires y > 0 && y * q <= x
    ensures q <= x / y
  {
    var d := x / y;
    Scale(y, d + 1, q);
    assert x < y * (d + 1);
  }

  /** With p = a * b and c >= a: rounding p / c gives at most b. */
  lemma RoundAtMost(a: nat, b: nat, c: nat)
    requires 0 < c && a <= c
    ensures Round(a, b, c) <= b
  {
    var p := a * b;
    Scale(b, a, c);
    assert p <= b * c;
    assert 2 * c * (b + 1) == 2 * (b * c) + 2 * c;
    DivAtMost(2 * p + c, 2 * c, b);
    assert 2 * a * b == 2 * p;
  }

  lemma Overlap(a: nat, b: nat, c: nat)
    requires a <= c && b <= c && c <= a + b
    ensures c * (a + b - c) <= a * b
  {
    var x, y := c - a, c - b;
    assert 0 <= x * y;
    assert a * b == (c - x) * (c - y) == c * c - c * x - c * y + x * y;
    assert c * (a + b - c) == c * (c - x - y) == c * c - c * x - c * y;
  }

  lemma RoundAtLeast(a: nat, b: nat, c: nat)
    requires 0 < c && a <= c && b <= c && c <= a + b
    ensures a + b - c <= Round(a, b, c)
  {
    var p, q := a * b, a + b - c;
    Overlap(a, b, c);
    assert 2 * c * q == 2 * (c * q);
    DivAtLeast(2 * p + c, 2 * c, q);
    assert 2 * a * b == 2 * p;
  }

  lemma RoundSwap(a: nat, b: nat, c: nat)
    requires c > 0
    ensures Round(a, b, c) == Round(b, a, c)
  {
    assert 2 * a * b == 2 * b * a;
  }

  /** Of `trim` entries to go among `total`, a shard of `size` is asked for no more than it holds and
      no more than are to go; what remains to go fits in what remains. */
  lemma FairShare(trim: nat, size: nat, total: nat)
    requires 0 < total && size <= total && trim <= total
    ensures Round(trim, size, total) <= size && Round(trim, size, total) <= trim
    ensures trim - Round(trim, size, total) <= total - size
  {
    RoundAtMost(trim, size, total);
    RoundAtMost(size, trim, total);
    RoundSwap(trim, size, total);
    if total <= trim + size { RoundAtLeast(trim, size, total); }
  }

  // ---------------------------------------------------------------- many shards

  ghost function Sum(sizes: seq<nat>, i: nat): (n: nat)
    requires i <= |sizes|
    decreases |sizes| - i
  {
    if i == |sizes| then 0 else sizes[i] + Sum(sizes, i + 1)
  }

  lemma {:induction false} SumSame(a: seq<nat>, b: seq<nat>, i: nat)
    requires i <= |a| == |b| && forall k | i <= k < |a| :: a[k] == b[k]
    ensures Sum(a, i) == Sum(b, i)
    decreases |a| - i
  {
    if i < |a| { SumSame(a, b, i + 1); }
  }

  lemma {:induction false} SumUpdate(sizes: seq<nat>, s: nat, left: nat, i: nat)
    requires i <= s < |sizes|
    ensures Sum(sizes[s := left], i) == Sum(sizes, i) - sizes[s] + left
    decreases s - i
  {
    if i == s { SumSame(sizes[s := left], sizes, s + 1); } else { SumUpdate(sizes, s, left, i + 1); }
  }

  /** What a shard gives up when `toTrim` of `total` entries are to go. */
  ghost function ShareOf(toTrim: nat, size: nat, total: nat): (r: nat)
    requires toTrim <= total && size <= total
    ensures r <= size && r <= toTrim && toTrim - r <= total - size
  {
    if toTrim == 0 then 0 else FairShare(toTrim, size, total); Round(toTrim, size, total)
  }

  /** How many of `trim` entries are still to go when shard s is reached. */
  ghost function ToTrim(sizes: seq<nat>, trim: nat, s: nat): (r: nat)
    requires s <= |sizes| && trim <= Sum(sizes, 0)
    ensures r <= Sum(sizes, s)
    decreases s
  {
    if s == 0 then trim
    else
      var before := ToTrim(sizes, trim, s - 1);
      before - ShareOf(before, sizes[s - 1], Sum(sizes, s - 1))
  }

  ghost function Share(sizes: seq<nat>, trim: nat, s: nat): (r: nat)
    requires s < |sizes| && trim <= Sum(sizes, 0)
    ensures r <= sizes[s] && ToTrim(sizes, trim, s + 1) == ToTrim(sizes, trim, s) - r
  {
    ShareOf(ToTrim(sizes, trim, s), sizes[s], Sum(sizes, s))
  }

  /** When every shard gives up its share, exactly as many go as are to go. */
  lemma {:induction false} SharesExactly(left: seq<nat>, sizes: seq<nat>, trim: nat, s: nat)
    requires s <= |sizes| == |left| && trim <= Sum(sizes, 0)
    requires forall i {:trigger left[i]} | 0 <= i < |sizes| :: left[i] == sizes[i] - Share(sizes, trim, i)
    ensures Sum(left, s) == Sum(sizes, s) - ToTrim(sizes, trim, s)
    decreases |sizes| - s
  {
    if s < |sizes| {
      SharesExactly(left, sizes, trim, s + 1);
      assert left[s] == sizes[s] - Share(sizes, trim, s);
    }
  }

  lemma {:induction false} NothingMore(sizes: seq<nat>, trim: nat, s: nat, i: nat)
    requires s <= i < |sizes| && trim <= Sum(sizes, 0) && ToTrim(sizes, trim, s) == 0
    ensures ToTrim(sizes, trim, i) == 0 && Share(sizes, trim, i) == 0
    decreases i
  {
    if s < i { NothingMore(sizes, trim, s, i - 1); }
  }
}
