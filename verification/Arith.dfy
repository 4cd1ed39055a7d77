/**
 Powers of two and aligned blocks.

 `Base(p, k)` is the first page of the aligned block of 2^k pages around page `p`. It is defined
 by halving, so that every fact below is linear arithmetic; `BaseIsFloor` ties it to `%`.
 */
module Arith {

  function Pow2(k: nat): (r: nat)
    ensures r > 0
  {
    if k == 0 then 1 else 2 * Pow2(k - 1)
  }

  function Base(p: nat, k: nat): (b: nat)
    decreases k
  {
    if k == 0 then p else 2 * Base(p / 2, k - 1)
  }

  lemma {:induction false} Pow2Monotone(j: nat, k: nat)
    requires j <= k
    ensures Pow2(j) <= Pow2(k)
    decreases k - j
  {
    if j < k { Pow2Monotone(j, k - 1); }
  }

  lemma Pow2Double(k: nat)
    ensures Pow2(k + 1) == 2 * Pow2(k)
  {
  }

  lemma {:induction false} Pow2Add(j: nat, k: nat)
    ensures Pow2(j + k) == Pow2(j) * Pow2(k)
  {
    if j > 0 {
      Pow2Add(j - 1, k);
      assert Pow2(j) * Pow2(k) == 2 * (Pow2(j - 1) * Pow2(k));
    }
  }

  /** A page lies inside its own aligned block. */
  lemma {:induction false} BaseBounds(p: nat, k: nat)
    ensures Base(p, k) <= p < Base(p, k) + Pow2(k)
    decreases k
  {
    if k > 0 { BaseBounds(p / 2, k - 1); }
  }

  /** All pages of an aligned block share the block's base, and no other page does. */
  lemma {:induction false} BaseSame(p: nat, q: nat, k: nat)
    ensures Base(q, k) == Base(p, k) <==> Base(p, k) <= q < Base(p, k) + Pow2(k)
    decreases k
  {
    if k > 0 { BaseSame(p / 2, q / 2, k - 1); }
  }

  lemma {:induction false} BaseIdempotent(p: nat, k: nat)
    ensures Base(Base(p, k), k) == Base(p, k)
  {
    BaseBounds(p, k);
    BaseSame(p, Base(p, k), k);
  }

  /** The block of order k + 1 consists of two blocks of order k. */
  lemma {:induction false} BaseHalves(p: nat, k: nat)
    ensures Base(p, k + 1) == Base(p, k) || Base(p, k + 1) + Pow2(k) == Base(p, k)
    ensures Base(Base(p, k + 1), k) == Base(p, k + 1)
    ensures Base(Base(p, k + 1) + Pow2(k), k) == Base(p, k + 1) + Pow2(k)
    decreases k
  {
    if k == 0 {
      assert Base(p, 1) == 2 * Base(p / 2, 0);
    } else {
      BaseHalves(p / 2, k - 1);
      assert (Base(p, k + 1)) / 2 == Base(p / 2, k);
      assert (Base(p, k + 1) + Pow2(k)) / 2 == Base(p / 2, k) + Pow2(k - 1);
    }
  }

  /** A smaller aligned block is nested in the larger one around the same page. */
  lemma {:induction false} BaseNested(p: nat, j: nat, k: nat)
    requires j <= k
    ensures Base(p, k) <= Base(p, j)
    ensures Base(p, j) + Pow2(j) <= Base(p, k) + Pow2(k)
    ensures Base(Base(p, j), k) == Base(p, k)
    ensures Base(Base(p, k), j) == Base(p, k)
    decreases k - j
  {
    BaseIdempotent(p, k);
    if j < k {
      BaseNested(p, j, k - 1);
      BaseHalves(p, k - 1);
      BaseSame(p, Base(p, j), k);
      BaseNested(Base(p, k), j, k - 1);
      BaseIdempotent(p, k);
    }
  }

  lemma BaseFiner(p: nat, j: nat, k: nat)
    requires j <= k && Base(p, k) == p
    ensures Base(p, j) == p
  {
    BaseNested(p, j, k);
  }

  /** The next block of the same order starts where this one ends. */
  lemma {:induction false} BaseNext(i: nat, k: nat)
    requires Base(i, k) == i
    ensures Base(i + Pow2(k), k) == i + Pow2(k)
  {
    if k > 0 {
      BaseNext(i / 2, k - 1);
      assert (i + Pow2(k)) / 2 == i / 2 + Pow2(k - 1);
    }
  }

  lemma {:induction false} BaseZero(k: nat)
    ensures Base(0, k) == 0
  {
    if k > 0 { BaseZero(k - 1); }
  }

  /** `Base` rounds down to a multiple of 2^k. */
  lemma {:induction false} BaseIsFloor(p: nat, k: nat)
    ensures Base(p, k) == p - p % Pow2(k)
    ensures p % Pow2(k) == 0 <==> Base(p, k) == p
    decreases k
  {
    if k > 0 {
      BaseIsFloor(p / 2, k - 1);
      var m := Pow2(k - 1);
      HalveMod(p, m);
    }
  }

  lemma HalveMod(p: nat, m: nat)
    requires m > 0
    ensures p % (2 * m) == 2 * ((p / 2) % m) + p % 2
  {
    var q := (p / 2) / m;
    var r := (p / 2) % m;
    assert p / 2 == q * m + r;
    assert p == (2 * m) * q + (2 * r + p % 2);
    ModUnique(p, 2 * m, q, 2 * r + p % 2);
  }

  lemma ModUnique(x: int, m: int, q: int, r: int)
    requires m > 0 && 0 <= r < m && x == m * q + r
    ensures x / m == q && x % m == r
  {
    var d := x / m - q;
    assert m * d == r - x % m;
    assert d >= 1 ==> m * d >= m * 1;
    assert d <= -1 ==> m * d <= m * -1;
  }

  lemma MulMono(a: nat, b: nat, c: nat)
    requires a <= b
    ensures a * c <= b * c && c * a <= c * b
  {
  }

  lemma DivBounds(n: nat, d: nat)
    requires d > 0
    ensures n / d * d <= n < (n / d + 1) * d
  {
  }

  lemma DivBelow(n: nat, d: nat, k: nat)
    requires d > 0 && n < k * d
    ensures n / d < k
  {
    DivBounds(n, d);
    if n / d >= k { MulMono(k, n / d, d); }
  }

  lemma DivAtLeast(n: nat, d: nat, k: nat)
    requires d > 0 && k * d <= n
    ensures k <= n / d
  {
    DivBounds(n, d);
    if n / d < k { MulMono(n / d + 1, k, d); }
  }

  lemma DivShrinks(n: nat, d: nat)
    requires d > 0
    ensures n / d <= n
  {
    MulMono(1, d, n + 1);
    DivBelow(n, d, n + 1);
  }
}
