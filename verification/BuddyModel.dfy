/**
 What the buddy allocator of kernel/mm/page_alloc.c leaves implicit.

 The kernel stores two flag bits per page and one free list per order. The ghost state here is a
 `Cell` per page: the order of the block the page belongs to and whether that block is free, used,
 or held (taken off its free list by an operation that has not finished). The predicates say what
 the flags and lists mean in terms of the cells, and the lemmas show which cell updates keep them.
 */
module BuddyModel {
  import opened Arith
  import opened Sequences

  const MAX_ORDER: nat := 8

  datatype Status = Free | Held | Used

  datatype Cell = Cell(order: nat, st: Status)

  datatype Page = Page(priv: bool, used: bool)

  datatype FreeArea = FreeArea(list: seq<nat>, size: nat)

  // ---------------------------------------------------------------------------------------------
  // Blocks
  // ---------------------------------------------------------------------------------------------

  /** The head of the block that page `p` belongs to. */
  ghost function Head(c: seq<Cell>, p: nat): (h: nat)
    requires p < |c|
  {
    Base(p, c[p].order)
  }

  /** The blocks are aligned to their size, lie inside the zone and do not overlap. */
  ghost predicate Partitioned(c: seq<Cell>) {
    && (forall p :: 0 <= p < |c| ==> c[p].order <= MAX_ORDER && Head(c, p) + Pow2(c[p].order) <= |c|)
    && (forall p, q :: 0 <= p < |c| && 0 <= q < |c| && Head(c, p) <= q < Head(c, p) + Pow2(c[p].order) ==> c[q] == c[p])
  }

  ghost predicate IsBlock(c: seq<Cell>, h: nat, cell: Cell) {
    h < |c| && c[h] == cell && Base(h, cell.order) == h
  }

  ghost predicate Settled(c: seq<Cell>) {
    forall p :: 0 <= p < |c| ==> !c[p].st.Held?
  }

  /** The other half of the block of order k + 1 around the block of order k at `h`. */
  ghost function Buddy(h: nat, k: nat): (b: nat) {
    if Base(h, k + 1) == h then h + Pow2(k) else if h >= Pow2(k) then h - Pow2(k) else 0
  }

  ghost predicate IsFreeHead(c: seq<Cell>, p: nat) {
    p < |c| && Head(c, p) == p && c[p].st.Free? && c[p].order < MAX_ORDER
  }

  /** No two free buddies of equal order below the maximum coexist. */
  ghost predicate Coalesced(c: seq<Cell>) {
    forall p, q :: 0 <= p < |c| && 0 <= q < |c| && IsFreeHead(c, p) && q == Buddy(p, c[p].order) ==> c[q] != c[p]
  }

  // ---------------------------------------------------------------------------------------------
  // Flags and free lists
  // ---------------------------------------------------------------------------------------------

  /** "private" marks exactly the heads, "used" exactly the heads of used blocks. */
  ghost predicate FlagsMatch(pages: seq<Page>, c: seq<Cell>) {
    && |pages| == |c|
    && forall p :: 0 <= p < |c| ==>
      && (pages[p].priv <==> Head(c, p) == p)
      && (pages[p].used <==> Head(c, p) == p && c[p].st.Used?)
  }

  /** The list of order k holds exactly the heads of the free blocks of that order. */
  ghost predicate ListMatches(area: FreeArea, k: nat, c: seq<Cell>) {
    && area.size == |area.list|
    && NoDuplicates(area.list)
    && forall p: nat :: p in area.list <==> IsBlock(c, p, Cell(k, Free))
  }

  ghost predicate ListsMatch(area: seq<FreeArea>, c: seq<Cell>) {
    |area| == MAX_ORDER + 1 && forall k :: 0 <= k <= MAX_ORDER ==> ListMatches(area[k], k, c)
  }

  /**
   How an allocation of order `order` changes the free lists when it takes the block `h` of order `from`: there
   was no free block of a smaller sufficient order, `h` was the first of its list, its left end is handed
   out, and of each order in between one right half becomes free.
   */
  ghost predicate TakenFrom(before: seq<FreeArea>, after: seq<FreeArea>, h: nat, order: nat, from: nat) {
    && |before| == |after| == MAX_ORDER + 1 && order <= from <= MAX_ORDER
    && before[from].list != [] && before[from].list[0] == h && after[from].list == before[from].list[1..]
    && (forall j :: order <= j < from ==> before[j].list == [] && after[j].list == [h + Pow2(j)])
    && forall j :: 0 <= j < order || from < j <= MAX_ORDER ==> after[j].list == before[j].list
  }

  /** The first block of the smallest order that is large enough. */
  ghost predicate BestFit(before: seq<FreeArea>, after: seq<FreeArea>, h: nat, order: nat) {
    exists from :: TakenFrom(before, after, h, order, from)
  }

  /**
   How the release of the block `h` of order `order` changes the free lists when it grows to order `to`: of
   each order in between the buddy leaves its list, and the grown block becomes the first of its list.
   */
  ghost predicate GivenTo(before: seq<FreeArea>, after: seq<FreeArea>, h: nat, order: nat, to: nat) {
    && |before| == |after| == MAX_ORDER + 1 && order <= to <= MAX_ORDER
    && after[to].list == [Base(h, to)] + before[to].list
    && (forall j :: order <= j < to ==>
      var b := Buddy(Base(h, j), j); b in before[j].list && after[j].list == Without(before[j].list, b))
    && (forall j :: 0 <= j < order || to < j <= MAX_ORDER ==> after[j].list == before[j].list)
    && (to < MAX_ORDER ==> Buddy(Base(h, to), to) !in before[to].list)
  }

  /** What holds at every point of an operation where no flag or list update is half done. */
  ghost predicate Consistent(pages: seq<Page>, area: seq<FreeArea>, c: seq<Cell>) {
    && |pages| == |c| && |area| == MAX_ORDER + 1
    && Partitioned(c) && Coalesced(c) && FlagsMatch(pages, c) && ListsMatch(area, c)
  }

  // ---------------------------------------------------------------------------------------------
  // Blocks: basic facts
  // ---------------------------------------------------------------------------------------------

  lemma BlockPages(c: seq<Cell>, p: nat, q: nat)
    requires Partitioned(c) && p < |c|
    requires Head(c, p) <= q < Head(c, p) + Pow2(c[p].order)
    ensures q < |c| && c[q] == c[p] && Head(c, q) == Head(c, p)
  {
    hide Base, Pow2;
    BaseSame(p, q, c[p].order);
  }

  lemma HeadIsBlock(c: seq<Cell>, p: nat)
    requires Partitioned(c) && p < |c|
    ensures Head(c, p) <= p < Head(c, p) + Pow2(c[p].order)
    ensures IsBlock(c, Head(c, p), c[p]) && Head(c, Head(c, p)) == Head(c, p)
  {
    hide Base, Pow2;
    BaseBounds(p, c[p].order);
    BlockPages(c, p, Head(c, p));
  }

  lemma BlockFits(c: seq<Cell>, h: nat, cell: Cell)
    requires Partitioned(c) && IsBlock(c, h, cell)
    ensures cell.order <= MAX_ORDER && h + Pow2(cell.order) <= |c|
  {
  }

  lemma OrdersBounded(c: seq<Cell>)
    requires Partitioned(c)
    ensures forall p :: 0 <= p < |c| ==> c[p].order <= MAX_ORDER
  {
  }

  /** Blocks overlapping an aligned region are inside it or contain it. */
  lemma NestedOrDisjoint(c: seq<Cell>, p: nat, h: nat, k: nat)
    requires Partitioned(c) && p < |c|
    requires Base(h, k) == h && h <= p < h + Pow2(k)
    ensures c[p].order <= k ==> h <= Head(c, p) && Head(c, p) + Pow2(c[p].order) <= h + Pow2(k)
    ensures c[p].order >= k ==> Head(c, p) <= h && h + Pow2(k) <= Head(c, p) + Pow2(c[p].order)
  {
    hide Base, Pow2;
    BaseSame(h, p, k);
    if c[p].order <= k {
      BaseNested(p, c[p].order, k);
    } else {
      BaseNested(p, k, c[p].order);
    }
  }

  lemma BuddyFacts(h: nat, k: nat)
    requires Base(h, k) == h
    ensures var b := Buddy(h, k);
      && Base(b, k) == b && Buddy(b, k) == h && b != h
      && (b == h + Pow2(k) || h == b + Pow2(k))
      && Base(h, k + 1) == Base(b, k + 1) == (if h < b then h else b)
  {
    hide Base, Pow2;
    Pow2Double(k);
    BaseHalves(h, k);
    BaseBounds(h, k + 1);
    var b := Buddy(h, k);
    var low := Base(h, k + 1);
    BaseSame(h, b, k + 1);
    BaseSame(h, low, k + 1);
  }

  // ---------------------------------------------------------------------------------------------
  // Maximal coalescing: a free aligned run lies inside one free block
  // ---------------------------------------------------------------------------------------------

  ghost predicate FreeRun(c: seq<Cell>, h: nat, k: nat) {
    && Base(h, k) == h && h + Pow2(k) <= |c|
    && forall p :: h <= p < h + Pow2(k) ==> c[p].st.Free?
  }

  lemma RegionInOneBlock(c: seq<Cell>, p: nat, h: nat, k: nat)
    requires Partitioned(c) && h <= p < h + Pow2(k) <= |c| && Base(h, k) == h
    requires c[p].order >= k
    ensures forall q :: h <= q < h + Pow2(k) ==> c[q] == c[p]
  {
    hide Base, Pow2;
    NestedOrDisjoint(c, p, h, k);
    forall q | h <= q < h + Pow2(k) ensures c[q] == c[p] { BlockPages(c, p, q); }
  }

  /** Two free halves that are blocks of their own would be an uncoalesced pair. */
  lemma HalvesNotBothBlocks(c: seq<Cell>, h: nat, k: nat)
    requires Coalesced(c) && k < MAX_ORDER && Base(h, k + 1) == h && Base(h, k) == h
    requires h + Pow2(k) < |c| && c[h] == Cell(k, Free)
    ensures c[h + Pow2(k)] != Cell(k, Free)
  {
    hide Base, Pow2;
    assert Head(c, h) == h && Buddy(h, k) == h + Pow2(k);
  }

  /** The zone has a size-aligned, all-free run of 2^k pages. */
  ghost predicate HasFreeRun(c: seq<Cell>, k: nat) {
    exists h: nat :: FreeRun(c, h, k)
  }

  lemma FreeRunHalves(c: seq<Cell>, h: nat, k: nat)
    requires FreeRun(c, h, k + 1)
    ensures FreeRun(c, h, k) && FreeRun(c, h + Pow2(k), k)
  {
    hide Base, Pow2;
    Pow2Double(k);
    BaseHalves(h, k);
  }

  lemma {:induction false} FreeRunInOneBlock(c: seq<Cell>, h: nat, k: nat)
    requires Partitioned(c) && Coalesced(c) && k <= MAX_ORDER
    requires FreeRun(c, h, k)
    ensures c[h].order >= k
    decreases k
  {
    hide Base, Pow2;
    if k > 0 { Pow2Double(k - 1); }
    if k > 0 {
      var r := h + Pow2(k - 1);
      FreeRunHalves(c, h, k - 1);
      FreeRunInOneBlock(c, h, k - 1);
      FreeRunInOneBlock(c, r, k - 1);
      if c[h].order == k - 1 {
        HalvesNotBothBlocks(c, h, k - 1);
        RegionInOneBlock(c, r, h, k);
      }
    }
  }

  /** Failure to find a free block of order k or more is failure to find a free run. */
  lemma FreeRunIff(c: seq<Cell>, k: nat)
    requires Partitioned(c) && Coalesced(c) && k <= MAX_ORDER
    ensures HasFreeRun(c, k) <==> (exists p :: 0 <= p < |c| && c[p].st.Free? && c[p].order >= k)
  {
    hide Base, Pow2;
    if h: nat :| FreeRun(c, h, k) {
      FreeRunInOneBlock(c, h, k);
      assert c[h].st.Free? && c[h].order >= k;
    }
    if p :| 0 <= p < |c| && c[p].st.Free? && c[p].order >= k {
      var h := Head(c, p);
      HeadIsBlock(c, p);
      BaseNested(h, k, c[p].order);
      Pow2Monotone(k, c[p].order);
      forall q | h <= q < h + Pow2(k) ensures c[q].st.Free? { BlockPages(c, p, q); }
      assert FreeRun(c, h, k);
    }
  }

  // ---------------------------------------------------------------------------------------------
  // Canonical form: the outstanding allocations determine the whole block structure
  // ---------------------------------------------------------------------------------------------

  /** The outstanding allocations: head page to order. */
  ghost function Live(c: seq<Cell>): (m: map<nat, nat>) {
    map h | 0 <= h < |c| && IsBlock(c, h, Cell(c[h].order, Used)) :: c[h].order
  }

  ghost predicate SameUsed(c: seq<Cell>, d: seq<Cell>) {
    |c| == |d| && forall p :: 0 <= p < |c| && (c[p].st.Used? || d[p].st.Used?) ==> c[p] == d[p]
  }

  lemma SameUsedLive(c: seq<Cell>, d: seq<Cell>)
    requires SameUsed(c, d)
    ensures Live(c) == Live(d)
  {
    hide Base, Pow2;
  }

  lemma UsedAgree(c: seq<Cell>, d: seq<Cell>, p: nat)
    requires Partitioned(c) && Partitioned(d) && |c| == |d| && Live(c) == Live(d) && p < |c|
    requires c[p].st.Used?
    ensures d[p] == c[p]
  {
    hide Base, Pow2;
    var h := Head(c, p);
    HeadIsBlock(c, p);
    assert h in Live(c);
    assert h in Live(d) && Live(d)[h] == c[p].order;
    assert IsBlock(d, h, c[p]);
    BlockPages(d, h, p);
  }

  lemma FreeOrderAtMost(c: seq<Cell>, d: seq<Cell>, p: nat)
    requires Partitioned(c) && Partitioned(d) && Coalesced(d) && Settled(c) && Settled(d)
    requires |c| == |d| && Live(c) == Live(d) && p < |c|
    requires c[p].st.Free? && d[p].st.Free?
    ensures c[p].order <= d[p].order
  {
    hide Base, Pow2;
    var h, k := Head(c, p), c[p].order;
    HeadIsBlock(c, p);
    forall q | h <= q < h + Pow2(k) ensures q < |d| && d[q].st.Free? {
      BlockPages(c, p, q);
      if d[q].st.Used? { UsedAgree(d, c, q); }
    }
    FreeRunInOneBlock(d, h, k);
    RegionInOneBlock(d, h, h, k);
  }

  /** Live blocks stay inside the zone and do not overlap. */
  lemma LiveApart(c: seq<Cell>, h: nat, g: nat)
    requires Partitioned(c) && h in Live(c) && g in Live(c)
    ensures h + Pow2(Live(c)[h]) <= |c|
    ensures h == g || h + Pow2(Live(c)[h]) <= g || g + Pow2(Live(c)[g]) <= h
  {
    hide Base, Pow2;
    if h < g < h + Pow2(Live(c)[h]) { BlockPages(c, h, g); }
    if g < h < g + Pow2(Live(c)[g]) { BlockPages(c, g, h); }
  }

  /** Two settled, coalesced zones with the same outstanding allocations are the same. */
  lemma Canonical(c: seq<Cell>, d: seq<Cell>)
    requires Partitioned(c) && Coalesced(c) && Settled(c)
    requires Partitioned(d) && Coalesced(d) && Settled(d)
    requires |c| == |d| && Live(c) == Live(d)
    ensures c == d
  {
    hide Base, Pow2;
    forall p | 0 <= p < |c| ensures c[p] == d[p] {
      if c[p].st.Used? {
        UsedAgree(c, d, p);
      } else if d[p].st.Used? {
        UsedAgree(d, c, p);
      } else {
        FreeOrderAtMost(c, d, p);
        FreeOrderAtMost(d, c, p);
      }
    }
  }

  /** ... and so do their free lists, as sets of blocks per order. */
  lemma CanonicalFreeLists(a: seq<FreeArea>, c: seq<Cell>, b: seq<FreeArea>, d: seq<Cell>, k: nat)
    requires Partitioned(c) && Coalesced(c) && Settled(c) && ListsMatch(a, c)
    requires Partitioned(d) && Coalesced(d) && Settled(d) && ListsMatch(b, d)
    requires |c| == |d| && Live(c) == Live(d) && k <= MAX_ORDER
    ensures forall h: nat :: h in a[k].list <==> h in b[k].list
  {
    hide Base, Pow2;
    Canonical(c, d);
    assert ListMatches(a[k], k, c) && ListMatches(b[k], k, d);
  }

  // ---------------------------------------------------------------------------------------------
  // Cell updates
  // ---------------------------------------------------------------------------------------------

  ghost function SetBlock(c: seq<Cell>, h: nat, k: nat, cell: Cell): (d: seq<Cell>)
    ensures |d| == |c|
    ensures forall p :: 0 <= p < |c| ==> d[p] == if h <= p < h + Pow2(k) then cell else c[p]
  {
    seq(|c|, p requires 0 <= p < |c| => if h <= p < h + Pow2(k) then cell else c[p])
  }

  /** Two blocks are equal or disjoint. */
  lemma BlocksDisjoint(c: seq<Cell>, p: nat, h: nat)
    requires Partitioned(c) && h < |c| && Head(c, h) == h && p < |c|
    ensures Head(c, p) != h ==> !(h <= p < h + Pow2(c[h].order))
    ensures Head(c, p) == h ==> h <= p < h + Pow2(c[h].order) && c[p] == c[h]
  {
    hide Base, Pow2;
    HeadIsBlock(c, p);
    if h <= p < h + Pow2(c[h].order) { BlockPages(c, h, p); }
  }

  /** Changing only the status of one block. */
  lemma Restatus(c: seq<Cell>, h: nat, k: nat, st: Status)
    requires Partitioned(c) && h < |c| && c[h].order == k && Base(h, k) == h
    ensures var d := SetBlock(c, h, k, Cell(k, st));
      && Partitioned(d)
      && (forall p :: 0 <= p < |c| ==> Head(d, p) == Head(c, p) && d[p] == if Head(c, p) == h then Cell(k, st) else c[p])
  {
    hide Base, Pow2;
    var d := SetBlock(c, h, k, Cell(k, st));
    forall p | 0 <= p < |c|
      ensures Head(d, p) == Head(c, p) && d[p] == if Head(c, p) == h then Cell(k, st) else c[p]
      ensures d[p].order <= MAX_ORDER && Head(d, p) + Pow2(d[p].order) <= |d|
    {
      BlocksDisjoint(c, p, h);
    }
    forall p, q | 0 <= p < |c| && 0 <= q < |c| && Head(d, p) <= q < Head(d, p) + Pow2(d[p].order) ensures d[q] == d[p] {
      BlockPages(c, p, q);
    }
  }

  lemma RestatusCoalesced(c: seq<Cell>, h: nat, k: nat, st: Status)
    requires Partitioned(c) && Coalesced(c) && h < |c| && c[h].order == k && Base(h, k) == h
    requires st.Free? && k < MAX_ORDER && Buddy(h, k) < |c| ==> c[Buddy(h, k)] != Cell(k, Free)
    ensures Coalesced(SetBlock(c, h, k, Cell(k, st)))
  {
    hide Base, Pow2;
    var d := SetBlock(c, h, k, Cell(k, st));
    Restatus(c, h, k, st);
    forall p, q | 0 <= p < |d| && 0 <= q < |d| && IsFreeHead(d, p) && q == Buddy(p, d[p].order) ensures d[q] != d[p] {
      BuddyFacts(p, d[p].order);
      BlocksDisjoint(c, q, h);
      if p != h && Head(c, q) != h {
        assert IsFreeHead(c, p);
      }
    }
  }

  lemma SplitPage(c: seq<Cell>, h: nat, k: nat, p: nat)
    requires Partitioned(c) && h < |c| && c[h].order == k + 1 && Base(h, k + 1) == h && p < |c|
    ensures var d := SetBlock(c, h, k + 1, Cell(k, c[h].st));
      && (Head(c, p) != h ==> d[p] == c[p])
      && (Head(c, p) == h ==> d[p].order == k && (Head(d, p) == h || Head(d, p) == h + Pow2(k)))
      && d[p].order <= MAX_ORDER && Head(d, p) + Pow2(d[p].order) <= |d|
      && (Head(d, p) == p <==> Head(c, p) == p || p == h + Pow2(k))
  {
    hide Base, Pow2;
    Pow2Double(k);
    BaseHalves(h, k);
    BlocksDisjoint(c, p, h);
    if Head(c, p) == h {
      BaseHalves(p, k);
      BaseBounds(p, k);
      BaseSame(p, h, k + 1);
    }
  }

  lemma SplitPair(c: seq<Cell>, h: nat, k: nat, p: nat, q: nat)
    requires Partitioned(c) && h < |c| && c[h].order == k + 1 && Base(h, k + 1) == h && p < |c| && q < |c|
    ensures var d := SetBlock(c, h, k + 1, Cell(k, c[h].st));
      Head(d, p) <= q < Head(d, p) + Pow2(d[p].order) ==> d[q] == d[p]
  {
    hide Base, Pow2, Partitioned;
    Pow2Double(k);
    var d := SetBlock(c, h, k + 1, Cell(k, c[h].st));
    SplitPage(c, h, k, p);
    BlocksDisjoint(c, p, h);
    if Head(c, p) != h && Head(d, p) <= q < Head(d, p) + Pow2(d[p].order) {
      BlockPages(c, p, q);
      BlocksDisjoint(c, q, h);
    }
  }

  lemma SplitPartitioned(c: seq<Cell>, h: nat, k: nat)
    requires Partitioned(c) && h < |c| && c[h].order == k + 1 && Base(h, k + 1) == h
    ensures Partitioned(SetBlock(c, h, k + 1, Cell(k, c[h].st)))
  {
    hide Base, Pow2;
    var d := SetBlock(c, h, k + 1, Cell(k, c[h].st));
    forall p | 0 <= p < |d| ensures d[p].order <= MAX_ORDER && Head(d, p) + Pow2(d[p].order) <= |d| {
      SplitPage(c, h, k, p);
    }
    forall p, q | 0 <= p < |d| && 0 <= q < |d| && Head(d, p) <= q < Head(d, p) + Pow2(d[p].order) ensures d[q] == d[p] {
      SplitPair(c, h, k, p, q);
    }
  }

  /** Cutting one block into two halves of the same status. */
  lemma Split(c: seq<Cell>, h: nat, k: nat)
    requires Partitioned(c) && h < |c| && c[h].order == k + 1 && Base(h, k + 1) == h
    ensures var d := SetBlock(c, h, k + 1, Cell(k, c[h].st));
      && Partitioned(d) && IsBlock(d, h, d[h]) && h + Pow2(k) < |c| && IsBlock(d, h + Pow2(k), d[h])
      && (forall p :: 0 <= p < |c| ==> (Head(d, p) == p <==> Head(c, p) == p || p == h + Pow2(k)))
      && (forall p :: 0 <= p < |c| && Head(c, p) != h ==> d[p] == c[p])
  {
    hide Base, Pow2, Partitioned;
    Pow2Double(k);
    BaseHalves(h, k);
    BlockFits(c, h, c[h]);
    SplitPartitioned(c, h, k);
    var d := SetBlock(c, h, k + 1, Cell(k, c[h].st));
    forall p | 0 <= p < |c|
      ensures Head(c, p) != h ==> d[p] == c[p]
      ensures Head(d, p) == p <==> Head(c, p) == p || p == h + Pow2(k)
    {
      SplitPage(c, h, k, p);
    }
  }

  /** Joining two held buddies. */
  lemma Merge(c: seq<Cell>, h: nat, k: nat)
    requires Partitioned(c) && k < MAX_ORDER && Base(h, k + 1) == h && Base(h, k) == h
    requires IsBlock(c, h, Cell(k, Held)) && IsBlock(c, h + Pow2(k), Cell(k, Held))
    ensures var d := SetBlock(c, h, k + 1, Cell(k + 1, Held));
      && Partitioned(d) && IsBlock(d, h, d[h])
      && (forall p :: 0 <= p < |c| ==> (Head(d, p) == p <==> Head(c, p) == p && p != h + Pow2(k)))
      && (forall p :: 0 <= p < |c| && Head(c, p) != h && Head(c, p) != h + Pow2(k) ==> d[p] == c[p])
  {
    hide Base, Pow2;
    Pow2Double(k);
    var d, r := SetBlock(c, h, k + 1, Cell(k + 1, Held)), h + Pow2(k);
    forall p | 0 <= p < |c|
      ensures Head(c, p) != h && Head(c, p) != r ==> d[p] == c[p] && Head(d, p) == Head(c, p)
      ensures Head(c, p) == h || Head(c, p) == r ==> d[p] == d[h] && Head(d, p) == h
      ensures d[p].order <= MAX_ORDER && Head(d, p) + Pow2(d[p].order) <= |d|
      ensures Head(d, p) == p <==> Head(c, p) == p && p != r
    {
      BlocksDisjoint(c, p, h);
      BlocksDisjoint(c, p, r);
      BlockPages(c, r, r);
      if h <= p < r + Pow2(k) { BaseSame(h, p, k + 1); }
    }
    forall p, q | 0 <= p < |c| && 0 <= q < |c| && Head(d, p) <= q < Head(d, p) + Pow2(d[p].order) ensures d[q] == d[p] {
      if Head(d, p) != h { BlockPages(c, p, q); BlocksDisjoint(c, q, h); BlocksDisjoint(c, q, r); }
    }
  }

  /** Regions that become held, or stay used, cannot break coalescing. */
  lemma RegionCoalesced(c: seq<Cell>, h: nat, k: nat, cell: Cell)
    requires Partitioned(c) && Coalesced(c) && !cell.st.Free?
    requires Partitioned(SetBlock(c, h, k, cell))
    ensures Coalesced(SetBlock(c, h, k, cell))
  {
    hide Base, Pow2;
    var d := SetBlock(c, h, k, cell);
    forall p, q | 0 <= p < |d| && 0 <= q < |d| && IsFreeHead(d, p) && q == Buddy(p, d[p].order) ensures d[q] != d[p] {
      assert d[p] == c[p] && IsFreeHead(c, p);
    }
  }

  // ---------------------------------------------------------------------------------------------
  // Flag and list updates that go with the cell updates
  // ---------------------------------------------------------------------------------------------

  lemma RestatusFlags(pages: seq<Page>, c: seq<Cell>, h: nat, k: nat, st: Status)
    requires Partitioned(c) && FlagsMatch(pages, c) && h < |c| && c[h].order == k && Base(h, k) == h
    ensures FlagsMatch(pages[h := pages[h].(used := st.Used?)], SetBlock(c, h, k, Cell(k, st)))
  {
    hide Base, Pow2;
    Restatus(c, h, k, st);
  }

  /** Blocks of other orders, and blocks whose status stays away from free, keep their lists. */
  lemma RestatusList(area: FreeArea, j: nat, c: seq<Cell>, h: nat, k: nat, st: Status)
    requires Partitioned(c) && ListMatches(area, j, c) && h < |c| && c[h].order == k && Base(h, k) == h
    requires j != k || !(st.Free? || c[h].st.Free?)
    ensures ListMatches(area, j, SetBlock(c, h, k, Cell(k, st)))
  {
    hide Base, Pow2;
    Restatus(c, h, k, st);
    var d := SetBlock(c, h, k, Cell(k, st));
    forall p: nat ensures IsBlock(c, p, Cell(j, Free)) <==> IsBlock(d, p, Cell(j, Free)) {
      if p < |c| { BlocksDisjoint(c, p, h); }
    }
  }

  /** list_add of a held block to its free list. */
  lemma GiveKeeps(pages: seq<Page>, area: seq<FreeArea>, c: seq<Cell>, h: nat, k: nat)
    requires Consistent(pages, area, c) && IsBlock(c, h, Cell(k, Held)) && k <= MAX_ORDER
    requires k < MAX_ORDER && Buddy(h, k) < |c| ==> c[Buddy(h, k)] != Cell(k, Free)
    ensures Consistent(pages, area[k := FreeArea([h] + area[k].list, area[k].size + 1)], SetBlock(c, h, k, Cell(k, Free)))
  {
    hide Base, Pow2;
    var d := SetBlock(c, h, k, Cell(k, Free));
    Restatus(c, h, k, Free);
    RestatusCoalesced(c, h, k, Free);
    assert FlagsMatch(pages, d) by {
      RestatusFlags(pages, c, h, k, Free);
      assert pages[h := pages[h].(used := false)] == pages;
    }
    var area' := area[k := FreeArea([h] + area[k].list, area[k].size + 1)];
    forall j | 0 <= j <= MAX_ORDER ensures ListMatches(area'[j], j, d) {
      if j != k {
        RestatusList(area[j], j, c, h, k, Free);
      } else {
        assert ListMatches(area[k], k, c);
        PushMembers(area[k].list, h);
        forall p: nat ensures p in area'[k].list <==> IsBlock(d, p, Cell(k, Free)) {
          if p < |c| { BlocksDisjoint(c, p, h); }
        }
      }
    }
  }

  /** list_del of a free block from its free list. */
  lemma TakeKeeps(pages: seq<Page>, area: seq<FreeArea>, c: seq<Cell>, h: nat, k: nat)
    requires Consistent(pages, area, c) && IsBlock(c, h, Cell(k, Free)) && k <= MAX_ORDER
    ensures h in area[k].list && area[k].size > 0
    ensures Consistent(pages, area[k := FreeArea(Without(area[k].list, h), area[k].size - 1)], SetBlock(c, h, k, Cell(k, Held)))
  {
    hide Base, Pow2;
    var d := SetBlock(c, h, k, Cell(k, Held));
    assert ListMatches(area[k], k, c);
    Restatus(c, h, k, Held);
    RestatusCoalesced(c, h, k, Held);
    assert FlagsMatch(pages, d) by {
      RestatusFlags(pages, c, h, k, Held);
      assert pages[h := pages[h].(used := false)] == pages;
    }
    var area' := area[k := FreeArea(Without(area[k].list, h), area[k].size - 1)];
    forall j | 0 <= j <= MAX_ORDER ensures ListMatches(area'[j], j, d) {
      if j != k {
        RestatusList(area[j], j, c, h, k, Held);
      } else {
        WithoutMembers(area[k].list, h);
        forall p: nat ensures p in area'[k].list <==> IsBlock(d, p, Cell(k, Free)) {
          if p < |c| { BlocksDisjoint(c, p, h); }
        }
      }
    }
  }

  /** Setting or clearing "used" on the head of a block that is not free. */
  lemma MarkKeeps(pages: seq<Page>, area: seq<FreeArea>, c: seq<Cell>, h: nat, k: nat, st: Status)
    requires Consistent(pages, area, c) && h < |c| && c[h].order == k && Base(h, k) == h && !c[h].st.Free? && !st.Free?
    ensures Consistent(pages[h := pages[h].(used := st.Used?)], area, SetBlock(c, h, k, Cell(k, st)))
  {
    hide Base, Pow2;
    Restatus(c, h, k, st);
    RestatusCoalesced(c, h, k, st);
    RestatusFlags(pages, c, h, k, st);
    forall j | 0 <= j <= MAX_ORDER ensures ListMatches(area[j], j, SetBlock(c, h, k, Cell(k, st))) {
      RestatusList(area[j], j, c, h, k, st);
    }
  }

  /** Updates of a region that holds no free block, before or after, keep the lists. */
  lemma RegionLists(area: seq<FreeArea>, c: seq<Cell>, h: nat, k: nat, cell: Cell)
    requires ListsMatch(area, c) && !cell.st.Free?
    requires forall p :: h <= p < h + Pow2(k) && p < |c| ==> !c[p].st.Free?
    ensures ListsMatch(area, SetBlock(c, h, k, cell))
  {
    hide Base, Pow2;
    var d := SetBlock(c, h, k, cell);
    forall j | 0 <= j <= MAX_ORDER ensures ListMatches(area[j], j, d) {
      assert ListMatches(area[j], j, c);
      assert forall p: nat :: IsBlock(c, p, Cell(j, Free)) <==> IsBlock(d, p, Cell(j, Free));
    }
  }

  /** Setting "private" on the middle of a held block cuts it in two. */
  lemma SplitKeeps(pages: seq<Page>, area: seq<FreeArea>, c: seq<Cell>, h: nat, k: nat)
    requires Consistent(pages, area, c) && IsBlock(c, h, Cell(k + 1, Held))
    ensures h + Pow2(k) < |pages|
    ensures Consistent(pages[h + Pow2(k) := pages[h + Pow2(k)].(priv := true)], area, SetBlock(c, h, k + 1, Cell(k, Held)))
  {
    hide Base, Pow2;
    Split(c, h, k);
    RegionCoalesced(c, h, k + 1, Cell(k, Held));
    forall p | h <= p < h + Pow2(k + 1) && p < |c| ensures !c[p].st.Free? { BlockPages(c, h, p); }
    RegionLists(area, c, h, k + 1, Cell(k, Held));
  }

  /** Clearing "private" on the right one of two held buddies joins them. */
  lemma MergeKeeps(pages: seq<Page>, area: seq<FreeArea>, c: seq<Cell>, h: nat, k: nat)
    requires Consistent(pages, area, c) && k < MAX_ORDER && Base(h, k + 1) == h && Base(h, k) == h
    requires IsBlock(c, h, Cell(k, Held)) && IsBlock(c, h + Pow2(k), Cell(k, Held))
    ensures Consistent(pages[h + Pow2(k) := pages[h + Pow2(k)].(priv := false)], area, SetBlock(c, h, k + 1, Cell(k + 1, Held)))
  {
    hide Base, Pow2;
    Pow2Double(k);
    Merge(c, h, k);
    RegionCoalesced(c, h, k + 1, Cell(k + 1, Held));
    forall p | h <= p < h + Pow2(k + 1) && p < |c| ensures !c[p].st.Free? {
      if p < h + Pow2(k) { BlockPages(c, h, p); } else { BlockPages(c, h + Pow2(k), p); }
    }
    RegionLists(area, c, h, k + 1, Cell(k + 1, Held));
  }

  // ---------------------------------------------------------------------------------------------
  // What an operation does to the outstanding allocations
  // ---------------------------------------------------------------------------------------------

  lemma LiveUse(c: seq<Cell>, h: nat, k: nat)
    requires Partitioned(c) && IsBlock(c, h, Cell(k, Held))
    ensures h !in Live(c)
    ensures Live(SetBlock(c, h, k, Cell(k, Used))) == Live(c)[h := k]
  {
    hide Base, Pow2, Partitioned;
    var d := SetBlock(c, h, k, Cell(k, Used));
    forall p | 0 <= p < |c|
      ensures p in Live(d) <==> p in Live(c) || p == h
      ensures p in Live(c) ==> d[p] == c[p]
    {
      BlocksDisjoint(c, p, h);
    }
  }

  /** Page `p` lies in one of these blocks. */
  ghost predicate Covered(live: map<nat, nat>, p: nat) {
    exists h: nat :: h in live && h <= p < h + Pow2(live[h])
  }

  /** A page is used exactly if it lies in an outstanding block. */
  lemma UsedOutstanding(c: seq<Cell>, p: nat)
    requires Partitioned(c) && p < |c|
    ensures c[p].st.Used? <==> Covered(Live(c), p)
  {
    hide Base, Pow2;
    if c[p].st.Used? {
      HeadIsBlock(c, p);
      assert Head(c, p) in Live(c);
    }
    forall h: nat | h in Live(c) && h <= p < h + Pow2(Live(c)[h]) ensures c[p].st.Used? {
      BlockPages(c, h, p);
    }
  }

  lemma OneMoreCovered(live: map<nat, nat>, x: nat, p: nat)
    requires !Covered(live, x)
    ensures Covered(live[x := 0], p) <==> Covered(live, p) || p == x
  {
    assert Pow2(0) == 1;
    hide Pow2;
    var more := live[x := 0];
    if h: nat :| h in live && h <= p < h + Pow2(live[h]) {
      assert h != x;
      assert h in more && more[h] == live[h];
    }
    assert x in more && more[x] == 0;
  }

  /** The page `x` was free and is not, and of the other pages the same are free. */
  ghost predicate LosesPage(c: seq<Cell>, d: seq<Cell>, x: nat) {
    |c| == |d| && x < |c| && c[x].st.Free? && forall p :: 0 <= p < |c| ==> (d[p].st.Free? <==> c[p].st.Free? && p != x)
  }

  /** With one more single page outstanding exactly that page is no longer free. */
  lemma OnePageLess(c: seq<Cell>, d: seq<Cell>, x: nat)
    requires Partitioned(c) && Settled(c) && Partitioned(d) && Settled(d) && |c| == |d|
    requires FreeRun(c, x, 0) && Live(d) == Live(c)[x := 0]
    ensures LosesPage(c, d, x)
  {
    hide Base, Live, Partitioned, Covered;
    assert c[x].st.Free?;
    forall p | 0 <= p < |c| ensures d[p].st.Free? <==> c[p].st.Free? && p != x {
      UsedOutstanding(c, p);
      UsedOutstanding(d, p);
      UsedOutstanding(c, x);
      OneMoreCovered(Live(c), x, p);
    }
  }

  lemma LiveRelease(c: seq<Cell>, h: nat, k: nat)
    requires Partitioned(c) && IsBlock(c, h, Cell(k, Used))
    ensures h in Live(c)
    ensures Live(SetBlock(c, h, k, Cell(k, Held))) == Live(c) - {h}
  {
    hide Base, Pow2, Partitioned;
    var d := SetBlock(c, h, k, Cell(k, Held));
    forall p | 0 <= p < |c|
      ensures p in Live(d) <==> p in Live(c) && p != h
      ensures p in Live(d) ==> d[p] == c[p]
    {
      BlocksDisjoint(c, p, h);
    }
  }

  /** No block other than the one of order k at `h` is in hand. */
  ghost predicate OnlyHeld(c: seq<Cell>, h: nat, k: nat) {
    IsBlock(c, h, Cell(k, Held)) && forall p :: 0 <= p < |c| && c[p].st.Held? ==> h <= p < h + Pow2(k)
  }

  lemma MiddleNotLarger(c: seq<Cell>, h: nat, k: nat)
    requires Partitioned(c) && Base(h, k + 1) == h && h + Pow2(k + 1) <= |c| && c[h].order <= k
    ensures c[h + Pow2(k)].order <= k
  {
    hide Base, Pow2;
    Pow2Double(k);
    if c[h + Pow2(k)].order > k { RegionInOneBlock(c, h + Pow2(k), h, k + 1); }
  }

  /** A region cut into smaller blocks has a block starting in its middle. */
  lemma MiddleIsHead(c: seq<Cell>, h: nat, k: nat)
    requires Partitioned(c) && Base(h, k + 1) == h && h + Pow2(k + 1) <= |c| && c[h].order <= k
    ensures Head(c, h + Pow2(k)) == h + Pow2(k)
  {
    hide Base, Pow2;
    Pow2Double(k);
    var m := h + Pow2(k);
    BaseHalves(h, k);
    MiddleNotLarger(c, h, k);
    BaseFiner(m, c[m].order, k);
  }

  /** The buddy of a block of order k does not belong to a larger block. */
  lemma BuddyNotLarger(c: seq<Cell>, me: nat, k: nat)
    requires Partitioned(c) && me < |c| && c[me].order == k && Base(me, k) == me
    requires Buddy(me, k) < |c|
    ensures c[Buddy(me, k)].order <= k
  {
    hide Base, Pow2;
    Pow2Double(k);
    var b := Buddy(me, k);
    BuddyFacts(me, k);
    if c[b].order > k {
      var low := Base(me, k + 1);
      BaseIdempotent(me, k + 1);
      NestedOrDisjoint(c, b, low, k + 1);
      BlockPages(c, b, me);
    }
  }

  /** Three flag probes recover "the buddy is a free block of exactly this order". */
  lemma ProbesFindBuddy(pages: seq<Page>, c: seq<Cell>, me: nat, k: nat)
    requires Partitioned(c) && FlagsMatch(pages, c) && OnlyHeld(c, me, k)
    requires Buddy(me, k) + Pow2(k) <= |c|
    ensures var b := Buddy(me, k);
      (pages[b].priv && !pages[b].used && (k == 0 || !pages[b + Pow2(k - 1)].priv)) <==> c[b] == Cell(k, Free)
  {
    hide Base, Pow2;
    if k > 0 { Pow2Double(k - 1); }
    var b := Buddy(me, k);
    BuddyFacts(me, k);
    BuddyNotLarger(c, me, k);
    assert !c[b].st.Held?;
    if c[b].order < k {
      MiddleIsHead(c, b, k - 1);
    } else if k > 0 {
      BlockPages(c, b, b + Pow2(k - 1));
    }
  }

  // ---------------------------------------------------------------------------------------------
  // split_to: a used block becomes many
  // ---------------------------------------------------------------------------------------------

  lemma ShatterPage(c: seq<Cell>, h: nat, k: nat, j: nat, p: nat)
    requires Partitioned(c) && j <= k && IsBlock(c, h, Cell(k, Used)) && p < |c|
    ensures var d := SetBlock(c, h, k, Cell(j, Used));
      && d[p].order <= MAX_ORDER && Head(d, p) + Pow2(d[p].order) <= |d|
      && (Head(c, p) != h ==> d[p] == c[p] && Head(d, p) == Head(c, p))
      && (Head(c, p) == h ==> d[p] == Cell(j, Used) && h <= Head(d, p) && Head(d, p) + Pow2(j) <= h + Pow2(k))
  {
    hide Base, Pow2;
    BlocksDisjoint(c, p, h);
    if Head(c, p) == h { BaseNested(p, j, k); }
  }

  lemma ShatterPair(c: seq<Cell>, h: nat, k: nat, j: nat, p: nat, q: nat)
    requires Partitioned(c) && j <= k && IsBlock(c, h, Cell(k, Used)) && p < |c| && q < |c|
    ensures var d := SetBlock(c, h, k, Cell(j, Used));
      Head(d, p) <= q < Head(d, p) + Pow2(d[p].order) ==> d[q] == d[p]
  {
    hide Base, Pow2, Partitioned;
    var d := SetBlock(c, h, k, Cell(j, Used));
    ShatterPage(c, h, k, j, p);
    ShatterPage(c, h, k, j, q);
    if Head(d, p) <= q < Head(d, p) + Pow2(d[p].order) && Head(c, p) != h {
      BlockPages(c, p, q);
    }
  }

  /** The flags split_to leaves behind: the block's own marks on every multiple of 2^j. */
  ghost predicate Shattered(before: seq<Page>, after: seq<Page>, h: nat, end: nat, j: nat) {
    && |after| == |before|
    && forall p :: 0 <= p < |before| ==>
      after[p] == if h <= p < end && Base(p, j) == p then Page(true, true) else before[p]
  }

  lemma ShatterPartitioned(c: seq<Cell>, h: nat, k: nat, j: nat)
    requires Partitioned(c) && j <= k && IsBlock(c, h, Cell(k, Used))
    ensures Partitioned(SetBlock(c, h, k, Cell(j, Used)))
  {
    hide Base, Pow2;
    var d := SetBlock(c, h, k, Cell(j, Used));
    forall p | 0 <= p < |d| ensures d[p].order <= MAX_ORDER && Head(d, p) + Pow2(d[p].order) <= |d| {
      ShatterPage(c, h, k, j, p);
    }
    forall p, q | 0 <= p < |d| && 0 <= q < |d| && Head(d, p) <= q < Head(d, p) + Pow2(d[p].order) ensures d[q] == d[p] {
      ShatterPair(c, h, k, j, p, q);
    }
  }

  lemma ShatterFlags(pages: seq<Page>, c: seq<Cell>, h: nat, k: nat, j: nat, after: seq<Page>)
    requires Partitioned(c) && FlagsMatch(pages, c) && j <= k && IsBlock(c, h, Cell(k, Used))
    requires Shattered(pages, after, h, h + Pow2(k), j)
    ensures FlagsMatch(after, SetBlock(c, h, k, Cell(j, Used)))
  {
    hide Base, Pow2, Partitioned;
    BaseFiner(h, j, k);
    var d := SetBlock(c, h, k, Cell(j, Used));
    forall p | 0 <= p < |c|
      ensures (after[p].priv <==> Head(d, p) == p) && (after[p].used <==> Head(d, p) == p && d[p].st.Used?)
    {
      ShatterPage(c, h, k, j, p);
      BlocksDisjoint(c, p, h);
    }
  }

  lemma ShatterKeeps(pages: seq<Page>, area: seq<FreeArea>, c: seq<Cell>, h: nat, k: nat, j: nat, after: seq<Page>)
    requires Consistent(pages, area, c) && j <= k && IsBlock(c, h, Cell(k, Used))
    requires Shattered(pages, after, h, h + Pow2(k), j)
    ensures Consistent(after, area, SetBlock(c, h, k, Cell(j, Used)))
  {
    hide Base, Pow2, FlagsMatch;
    ShatterPartitioned(c, h, k, j);
    ShatterFlags(pages, c, h, k, j, after);
    RegionCoalesced(c, h, k, Cell(j, Used));
    forall p | h <= p < h + Pow2(k) && p < |c| ensures !c[p].st.Free? { BlockPages(c, h, p); }
    RegionLists(area, c, h, k, Cell(j, Used));
  }

  // ---------------------------------------------------------------------------------------------
  // build_zone_buddy_system: appending the next free block
  // ---------------------------------------------------------------------------------------------

  ghost function Extend(c: seq<Cell>, k: nat): (d: seq<Cell>)
    ensures |d| == |c| + Pow2(k)
    ensures forall p :: 0 <= p < |d| ==> d[p] == if p < |c| then c[p] else Cell(k, Free)
  {
    c + seq(Pow2(k), _ => Cell(k, Free))
  }

  /** Every block already built is of the largest order or larger than what is left. */
  ghost predicate Descending(c: seq<Cell>, left: nat) {
    forall p :: 0 <= p < |c| ==> c[p].st.Free? && (c[p].order == MAX_ORDER || left < Pow2(c[p].order))
  }

  lemma ExtendPartitioned(c: seq<Cell>, k: nat)
    requires Partitioned(c) && k <= MAX_ORDER && Base(|c|, k) == |c|
    ensures var d := Extend(c, k);
      && Partitioned(d) && IsBlock(d, |c|, Cell(k, Free))
      && forall p :: 0 <= p < |d| ==> Head(d, p) == if p < |c| then Head(c, p) else |c|
  {
    hide Base, Pow2;
    var d := Extend(c, k);
    forall p | 0 <= p < |d| ensures Head(d, p) == if p < |c| then Head(c, p) else |c| {
      if p >= |c| { BaseSame(|c|, p, k); }
    }
    forall p, q | 0 <= p < |d| && 0 <= q < |d| && Head(d, p) <= q < Head(d, p) + Pow2(d[p].order) ensures d[q] == d[p] {
      if p < |c| { BlockPages(c, p, q); }
    }
  }

  lemma ExtendCoalesced(c: seq<Cell>, k: nat, left: nat)
    requires Partitioned(c) && Coalesced(c) && k <= MAX_ORDER && Base(|c|, k) == |c|
    requires Descending(c, left) && Pow2(k) <= left
    ensures Coalesced(Extend(c, k))
  {
    hide Base, Pow2;
    var d := Extend(c, k);
    ExtendPartitioned(c, k);
    forall p, q | 0 <= p < |d| && 0 <= q < |d| && IsFreeHead(d, p) && q == Buddy(p, d[p].order) ensures d[q] != d[p] {
      BuddyFacts(p, d[p].order);
      if p < |c| && q < |c| { assert IsFreeHead(c, p); }
    }
  }

  lemma ExtendKeeps(pages: seq<Page>, area: seq<FreeArea>, c: seq<Cell>, k: nat, left: nat, after: seq<Page>)
    requires Consistent(pages, area, c) && k <= MAX_ORDER && Base(|c|, k) == |c|
    requires Descending(c, left) && Pow2(k) <= left
    requires |after| == |c| + Pow2(k) && after[..|c|] == pages && after[|c|] == Page(true, false)
    requires forall p :: |c| < p < |after| ==> after[p] == Page(false, false)
    ensures |c| !in area[k].list
    ensures Consistent(after, area[k := FreeArea([|c|] + area[k].list, area[k].size + 1)], Extend(c, k))
  {
    hide Base, Pow2;
    var d := Extend(c, k);
    ExtendPartitioned(c, k);
    ExtendCoalesced(c, k, left);
    assert FlagsMatch(after, d) by {
      forall p | 0 <= p < |d| ensures (after[p].priv <==> Head(d, p) == p) && !after[p].used {
        if p < |c| { assert after[p] == pages[p]; }
      }
    }
    var area' := area[k := FreeArea([|c|] + area[k].list, area[k].size + 1)];
    forall j | 0 <= j <= MAX_ORDER ensures ListMatches(area'[j], j, d) {
      assert ListMatches(area[j], j, c);
      if j == k { PushMembers(area[k].list, |c|); }
      forall p: nat ensures p in area'[j].list <==> IsBlock(d, p, Cell(j, Free)) {
        if |c| < p < |d| { assert Head(d, p) == |c|; }
      }
    }
  }
}
