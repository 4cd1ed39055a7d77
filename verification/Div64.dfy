/**
 64-bit division on a 32-bit machine: lib/div64.c and include/div64.h. Words are natural numbers with
 their width written out: the invariants say that no word overflows.
 */
module Div64 {
  import opened Arith
  import opened Words

  /** `q` and `r` are quotient and remainder. */
  predicate Divides(n: nat, base: nat, q: nat, r: nat) {
    n == q * base + r && r < base
  }

  /** Quotient and remainder are the only numbers that satisfy `Divides`. */
  lemma DividesUnique(n: nat, base: nat, q: nat, r: nat)
    requires base > 0 && Divides(n, base, q, r)
    ensures q == n / base && r == n % base
  {
    ModUnique(n, base, q, r);
  }

  /** __div64_32: shift and subtract. */
  method Div64By32(n: nat, base: nat) returns (q: nat, r: nat)
    requires n < U64 && 0 < base < U32
    ensures Divides(n, base, q, r) && q < U64
  {
    var rem, b, d, res := n, base, 1, 0;
    var high := n / U32;
    if high >= base {
      var top := high / base;
      res := top * U32;
      TopPart(n, base, high, top);
      rem := n - top * base * U32;
    }
    ghost var k: nat := 0;
    while 0 < b < S63 && b < rem
      invariant d == Pow2(k) && b == base * d && base <= b < U64
      decreases rem - b
    {
      Distribute(base, d, d);
      b := b + b;
      d := d + d;
      k := k + 1;
    }
    rem, res := SubtractDown(n, base, rem, b, d, res, k);
    return res, rem;
  }

  /** The do-while loop of __div64_32. */
  method SubtractDown(n: nat, base: nat, rem0: nat, b0: nat, d0: nat, res0: nat, ghost k0: nat) returns (rem: nat, res: nat)
    requires n < U64 && base > 0 && d0 == Pow2(k0) && b0 == base * d0 && rem0 < 2 * b0 && n == res0 * base + rem0
    ensures Divides(n, base, res, rem) && res < U64
  {
    rem, res := rem0, res0;
    var b, d := b0, d0;
    ghost var k := k0;
    while true
      invariant d == Pow2(k) && b == base * d && rem < 2 * b && n == res * base + rem
      decreases k
    {
      if rem >= b {
        AddStep(n, base, res, rem, b, d);
        rem := rem - b;
        res := res + d;
      }
      if d == 1 {
        break;
      }
      HalfStep(base, b, d, k);
      b := b / 2;
      d := d / 2;
      k := k - 1;
    }
    QuotientFits(n, base, res, rem);
  }

  lemma TopPart(n: nat, base: nat, high: nat, top: nat)
    requires base > 0 && high == n / U32 && top == high / base
    ensures top * base * U32 <= n && n == (top * U32) * base + (n - top * base * U32)
    ensures top <= high
  {
    assert top * base <= high;
    assert (top * base) * U32 <= high * U32;
    assert (top * U32) * base == top * base * U32;
    assert top * 1 <= top * base;
  }

  lemma AddStep(n: nat, base: nat, res: nat, rem: nat, b: nat, d: nat)
    requires base > 0 && b == base * d && n == res * base + rem && rem >= b
    ensures n == (res + d) * base + (rem - b) && res + d <= n
  {
    assert (res + d) * base == res * base + d * base;
    QuotientFits(n, base, res + d, rem - b);
  }

  lemma HalfStep(base: nat, b: nat, d: nat, k: nat)
    requires d == Pow2(k) && d != 1 && b == base * d
    ensures k > 0 && d / 2 == Pow2(k - 1) && b / 2 == base * (d / 2) && b == 2 * (b / 2)
  {
    assert k > 0 && d == 2 * Pow2(k - 1);
    assert base * d == 2 * (base * Pow2(k - 1));
  }

  lemma QuotientFits(n: nat, base: nat, res: nat, rem: nat)
    requires base > 0 && n == res * base + rem
    ensures res <= n
  {
    assert res * 1 <= res * base;
  }

  /** `n / d`, under a name that can be hidden from the solver's nonlinear arithmetic. */
  function Quotient(n: nat, d: nat): nat
    requires d > 0
  {
    n / d
  }

  /** do_div64 with its fast path: the quotient replaces `n`, the remainder is returned. */
  method DoDiv64(n: nat, base: nat) returns (q: nat, r: nat)
    requires n < U64 && 0 < base < U32
    ensures q == n / base && r == n % base
  {
    if n / U32 == 0 {
      return n / base, n % base;
    }
    q, r := Div64By32(n, base);
    DividesUnique(n, base, q, r);
  }

  /** div_u64. */
  method DivU64(n: nat, base: nat) returns (q: nat)
    requires n < U64 && 0 < base < U32
    ensures q == Quotient(n, base)
  {
    var r;
    q, r := DoDiv64(n, base);
  }

  /** fls: the position of the highest set bit, counted from 1; the bsr instruction. */
  function Fls(x: nat): (s: nat)
    ensures x > 0 ==> s > 0
  {
    if x == 0 then 0 else 1 + Fls(x / 2)
  }

  lemma {:induction false} FlsBounds(x: nat)
    ensures x < Pow2(Fls(x)) && (x > 0 ==> Pow2(Fls(x) - 1) <= x)
  {
    if x > 0 { FlsBounds(x / 2); }
  }

  /** The low bits that div64_u64 drops from both operands, as a power of two. */
  function Dropped(divisor: nat): (s: nat)
    ensures s > 0
  {
    Pow2(Fls(divisor / U32))
  }

  /** The divisor as div64_u64 passes it on. */
  function Rounded(divisor: nat): (d: nat)
    requires 0 < divisor < U64
    ensures 0 < d < U32
    ensures d == Quotient(divisor, Dropped(divisor))
    ensures divisor < U32 ==> Dropped(divisor) == 1
    ensures divisor >= U32 ==> Dropped(divisor) >= 2 && U32 / 2 <= d
  {
    ShiftedDivisor(divisor);
    divisor / Dropped(divisor)
  }

  /** The value div64_u64 computes. */
  function Approximation(n: nat, divisor: nat): nat
    requires 0 < divisor < U64
  {
    Quotient(Quotient(n, Dropped(divisor)), Rounded(divisor))
  }

  /**
   div64_u64: exact for 32-bit divisors; for larger ones both operands lose the same low bits first,
   and the quotient is right or one too large.
   */
  method Div64By64(n: nat, divisor: nat) returns (q: nat)
    requires n < U64 && 0 < divisor < U64
    ensures q == Approximation(n, divisor)
    ensures divisor < U32 ==> q == n / divisor
    ensures n / divisor <= q <= n / divisor + 1
  {
    var high := divisor / U32;
    if high == 0 {
      q := DivU64(n, divisor);
      ModUnique(n, 1, n, 0);
    } else {
      q := DivShifted(n, divisor, Fls(high));
      hide Approximation;
      ApproximateQuotient(n, divisor);
    }
  }

  lemma QuotientShrinks(n: nat, d: nat)
    requires d > 0
    ensures Quotient(n, d) <= n
  {
    DivShrinks(n, d);
  }

  /** div64_u64 after both operands were shifted right by fls of the divisor's high word. */
  method DivShifted(n: nat, divisor: nat, shift: nat) returns (q: nat)
    requires n < U64 && U32 <= divisor < U64 && shift == Fls(divisor / U32)
    ensures q == Approximation(n, divisor)
  {
    hide Pow2, Fls, Rounded, Quotient;
    var s := Pow2(shift);
    assert s == Dropped(divisor) && Quotient(divisor, s) == Rounded(divisor);
    QuotientShrinks(n, s);
    q := DivU64(Quotient(n, s), Quotient(divisor, s));
  }

  lemma ShiftedDivisor(divisor: nat)
    requires 0 < divisor < U64
    ensures divisor < U32 ==> Dropped(divisor) == 1
    ensures divisor >= U32 ==> Dropped(divisor) >= 2 && U32 / 2 <= divisor / Dropped(divisor)
    ensures 0 < divisor / Dropped(divisor) < U32
  {
    if divisor >= U32 {
      var shift, s, high := Fls(divisor / U32), Dropped(divisor), divisor / U32;
      FlsBounds(high);
      assert s == 2 * Pow2(shift - 1);
      // 2^(shift-1) <= high < 2^shift, so 2^31 * 2^shift <= divisor < 2^32 * 2^shift.
      DivAtLeast(divisor, s, U32 / 2);
      DivBelow(divisor, s, U32);
    }
  }

  /**
   With e = divisor - d * 2^shift < 2^shift the quotient m / d exceeds n / divisor by less than one,
   because n < 2^64, d >= 2^31 and divisor >= 2^31 * 2^shift.
   */
  lemma ApproximateQuotient(n: nat, divisor: nat)
    requires n < U64 && U32 <= divisor < U64
    ensures n / divisor <= Approximation(n, divisor) <= n / divisor + 1
  {
    var s, d := Dropped(divisor), Rounded(divisor);
    QuotientIs(divisor, s);
    hide Dropped, Rounded, Quotient;
    var m := Quotient(n, s);
    QuotientIs(n, s);
    QuotientIs(m, d);
    QuotientIs(n, divisor);
    NotBelow(n, divisor, s, d, m, Quotient(m, d));
    Distribute(s, d, 1);
    NotTwoAbove(n, divisor, s, d, m, Quotient(m, d), d * s);
  }

  lemma QuotientIs(n: nat, d: nat)
    requires d > 0
    ensures Quotient(n, d) == n / d
    ensures Quotient(n, d) * d <= n < (Quotient(n, d) + 1) * d
  {
    DivBounds(n, d);
  }

  /** div64_u64 is exact for every dividend precisely when the bits it drops from the divisor are zeros. */
  lemma ExactIff(divisor: nat)
    requires 0 < divisor < U64
    ensures (forall n: nat | n < U64 :: Approximation(n, divisor) == n / divisor) <==> divisor % Dropped(divisor) == 0
  {
    var s, d := Dropped(divisor), Rounded(divisor);
    QuotientIs(divisor, s);
    if divisor % s == 0 {
      forall n: nat | n < U64 ensures Approximation(n, divisor) == n / divisor {
        hide Dropped, Rounded;
        DivTwice(n, s, d);
      }
    } else {
      RoundedDivisor(divisor, s, d);
      assert Approximation(d * s, divisor) == 1;
    }
  }

  lemma DivTwice(n: nat, s: nat, d: nat)
    requires s > 0 && d > 0
    ensures n / s / d == n / (d * s)
  {
    var m := n / s;
    var q := m / d;
    var r := (m % d) * s + n % s;
    assert n == q * (d * s) + r by {
      Distribute(s, q * d, m % d);
      Associate(q, d, s);
    }
    assert r < d * s by {
      MulMono(m % d + 1, d, s);
      Distribute(s, m % d, 1);
    }
    ModUnique(n, d * s, q, r);
  }

  /** Dividing the divisor's own rounded value: the exact quotient is 0, the approximate one is 1. */
  lemma RoundedDivisor(divisor: nat, s: nat, d: nat)
    requires s > 0 && d == divisor / s && d > 0 && divisor % s != 0
    ensures d * s < divisor && d * s / divisor == 0 && d * s / s / d == 1
  {
    DivBelow(d * s, divisor, 1);
    ModUnique(d * s, s, d, 0);
    ModUnique(d, d, 1, 0);
  }

  lemma NotBelow(n: nat, divisor: nat, s: nat, d: nat, m: nat, q: nat)
    requires divisor > 0 && d * s <= divisor && n < (m + 1) * s && m < (q + 1) * d
    ensures n / divisor <= q
  {
    MulMono(m + 1, (q + 1) * d, s);
    assert (q + 1) * d * s == (q + 1) * (d * s);
    MulMono(d * s, divisor, q + 1);
    DivBelow(n, divisor, q + 1);
  }

  lemma NotTwoAbove(n: nat, divisor: nat, s: nat, d: nat, m: nat, q: nat, p: nat)
    requires n < U64 && s >= 2 && U32 / 2 <= d && divisor > 0
    requires p == d * s && divisor < p + s && m * s <= n && q * d <= m
    ensures q <= n / divisor + 1
  {
    if q >= 1 {
      assert q * p <= n by {
        MulMono(q * d, m, s);
        Associate(q, d, s);
      }
      assert U32 / 2 * s <= p by { MulMono(U32 / 2, d, s); }
      SmallExcess(q, s, p);
      OneLess(n, divisor, s, p, q);
    }
  }

  lemma Distribute(a: int, b: int, c: int)
    ensures a * (b + c) == a * b + a * c && (b + c) * a == b * a + c * a
  {
  }

  lemma Associate(a: int, b: int, c: int)
    ensures a * b * c == a * (b * c)
  {
  }

  /** (q - 1) * divisor <= (q - 1) * (p + s - 1) <= q * p <= n. */
  lemma OneLess(n: nat, divisor: nat, s: nat, p: nat, q: nat)
    requires q >= 1 && s >= 1 && 0 < divisor < p + s && q * p <= n && (q - 1) * (s - 1) <= p
    ensures q <= n / divisor + 1
  {
    var r: nat := q - 1;
    MulMono(divisor, p + s - 1, r);
    Distribute(r, p, s - 1);
    Distribute(p, r, 1);
    DivAtLeast(n, divisor, r);
  }

  /** The rounding error of the divisor, over all the q - 1 subtractions, stays below one divisor. */
  lemma SmallExcess(q: nat, s: nat, p: nat)
    requires q >= 1 && s >= 2 && U32 / 2 * s <= p && q * p < U64
    ensures (q - 1) * (s - 1) <= p
  {
    MulMono(U32 / 2 * s, p, q);
    assert q * (U32 / 2 * s) == U32 / 2 * (q * s);
    assert q * s < 2 * U32;
    if s >= 4 {
      assert (q - 1) * (s - 1) == q * s - q - s + 1;
    } else if s == 3 {
      assert q * 3 < 2 * U32;
    } else {
      assert q * 2 < 2 * U32;
    }
  }

  /** __iter_div_u64_rem: repeated subtraction; the 32-bit count wraps. */
  method IterDiv(n: nat, divisor: nat) returns (count: nat, rem: nat)
    requires n < U64 && 0 < divisor < U32
    ensures rem == n % divisor && count == n / divisor % U32
  {
    rem, count := n, 0;
    ghost var q: nat := 0;
    while rem >= divisor
      invariant n == q * divisor + rem && count == q % U32
      decreases rem
    {
      assert (q + 1) * divisor == q * divisor + divisor;
      rem := rem - divisor;
      count := (count + 1) % U32;
      q := q + 1;
    }
    DividesUnique(n, divisor, q, rem);
  }
}
