/** Page sizes and orders of include/sins/page.h, on 32-bit sizes. */
module PageMath {
  import opened Arith
  import opened Words

  const PAGE_SIZE: nat := 4096
  const ULONG_MAX: nat := U32 - 1

  /** PAGE_FLOOR. */
  function PageFloor(a: nat): (p: nat)
    ensures p % PAGE_SIZE == 0 && p <= a < p + PAGE_SIZE
  {
    a - a % PAGE_SIZE
  }

  /** PAGE_CEIL, below the last page. */
  function PageCeil(a: nat): (p: nat)
    ensures p % PAGE_SIZE == 0 && a <= p < a + PAGE_SIZE
  {
    PageFloor(a + PAGE_SIZE - 1)
  }

  /** The address between a page's start and end belongs to that page. */
  lemma PageFloorOf(page: nat, a: nat)
    requires page % PAGE_SIZE == 0 && page <= a < page + PAGE_SIZE
    ensures PageFloor(a) == page
  {
  }

  ghost function Shifted(x: nat, k: nat): (r: nat)
    decreases k
  {
    if k == 0 then x else Shifted(x / 2, k - 1)
  }

  lemma {:induction false} ShiftedStep(x: nat, k: nat)
    ensures Shifted(x, k + 1) == Shifted(x, k) / 2
    decreases k
  {
    if k > 0 { ShiftedStep(x / 2, k - 1); }
  }

  lemma {:induction false} ShiftedZero(x: nat, k: nat)
    ensures Shifted(x, k) == 0 <==> x < Pow2(k)
    decreases k
  {
    if k > 0 { ShiftedZero(x / 2, k - 1); }
  }

  /** Repeated halving: the loop both order functions share. */
  method Halvings(start: nat) returns (order: nat)
    ensures start < Pow2(order + 1)
    ensures order > 0 ==> Pow2(order) <= start
  {
    var size := start / 2;
    order := 0;
    while size != 0
      invariant size == Shifted(start, order + 1)
      invariant order > 0 ==> Shifted(start, order) != 0
      decreases size
    {
      ShiftedStep(start, order + 1);
      size := size / 2;
      order := order + 1;
    }
    ShiftedZero(start, order);
    ShiftedZero(start, order + 1);
  }

  /** The largest order whose block of pages fits in `size` bytes; 0 when not even one page does. */
  method GetOrderFloor(size: nat) returns (order: nat)
    requires size < U32
    ensures size < PAGE_SIZE * Pow2(order + 1)
    ensures size >= PAGE_SIZE ==> PAGE_SIZE * Pow2(order) <= size
  {
    order := Halvings(size / PAGE_SIZE);
  }

  lemma HalfPages(n: nat, k: nat)
    ensures n / (PAGE_SIZE / 2) < Pow2(k + 1) <==> n < PAGE_SIZE * Pow2(k)
  {
    assert PAGE_SIZE / 2 == 2048;
  }

  /** The smallest order whose block of pages holds `size` bytes, for every size but 0. */
  method GetOrder(size: nat) returns (order: nat)
    requires size < U32
    ensures size > 0 ==> size <= PAGE_SIZE * Pow2(order)
    ensures size > 0 && order > 0 ==> PAGE_SIZE * Pow2(order - 1) < size
    ensures size == 0 ==> order == 20
  {
    hide Pow2;
    var last: nat := if size == 0 then ULONG_MAX else size - 1;
    var halves := last / (PAGE_SIZE / 2);
    order := Halvings(halves);
    if size == 0 {
      WrappedSize(order);
    } else {
      HalfPages(last, order);
      if order > 0 { HalfPages(last, order - 1); }
    }
  }

  lemma HalfTheSpace()
    ensures Pow2(20) == 1048576 && Pow2(21) == 2097152
  {
    assert Pow2(10) == 1024;
    Pow2Add(10, 10);
    Pow2Double(20);
  }

  /** get_order(0) wraps to the order of the whole address space. */
  lemma WrappedSize(order: nat)
    requires var half := ULONG_MAX / (PAGE_SIZE / 2);
             half < Pow2(order + 1) && (order > 0 ==> Pow2(order) <= half)
    ensures order == 20
  {
    hide Pow2;
    assert ULONG_MAX / (PAGE_SIZE / 2) == 2097151;
    HalfTheSpace();
    if order < 20 { Pow2Monotone(order + 1, 20); }
    if order > 20 { Pow2Monotone(21, order); }
  }
}
