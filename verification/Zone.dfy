/**
 One memory zone of kernel/mm/page_alloc.c: the page flags, the free areas, and the operations on
 them. Pages are numbered from the zone's `mmap_base`.
 */
module Zone {
  import opened Arith
  import opened Sequences
  import opened BuddyModel
  import opened PageMath
  import opened Words

  class MemZone {
    const pages: array<Page>
    const area: array<FreeArea>
    ghost var cells: seq<Cell>

    ghost predicate Steady()
      reads this, pages, area
    {
      Consistent(pages[..], area[..], cells)
    }

    /** The state between calls: consistent, and no block in hand. */
    ghost predicate Valid()
      reads this, pages, area
    {
      Steady() && Settled(cells)
    }

    // -------------------------------------------------------------------------------------------
    // Free areas
    // -------------------------------------------------------------------------------------------

    method AddToFreeArea(h: nat, order: nat)
      requires Steady() && IsBlock(cells, h, Cell(order, Held)) && order <= MAX_ORDER
      requires order < MAX_ORDER && Buddy(h, order) < |cells| ==> cells[Buddy(h, order)] != Cell(order, Free)
      modifies this, area
      ensures Steady() && cells == SetBlock(old(cells), h, order, Cell(order, Free))
      ensures area[..] == old(area[..])[order := FreeArea([h] + old(area[order]).list, old(area[order]).size + 1)]
    {
      hide Base, Pow2, Partitioned, Coalesced, FlagsMatch, ListsMatch;
      GiveKeeps(pages[..], area[..], cells, h, order);
      area[order] := FreeArea([h] + area[order].list, area[order].size + 1);
      cells := SetBlock(cells, h, order, Cell(order, Free));
      assert area[..] == old(area[..])[order := area[order]];
    }

    method RemoveFromFreeArea(h: nat, order: nat)
      requires Steady() && IsBlock(cells, h, Cell(order, Free)) && order <= MAX_ORDER
      modifies this, area
      ensures Steady() && cells == SetBlock(old(cells), h, order, Cell(order, Held))
      ensures area[..] == old(area[..])[order := FreeArea(Without(old(area[order]).list, h), old(area[order]).size - 1)]
    {
      hide Base, Pow2, Partitioned, Coalesced, FlagsMatch, ListsMatch;
      TakeKeeps(pages[..], area[..], cells, h, order);
      area[order] := FreeArea(Without(area[order].list, h), area[order].size - 1);
      cells := SetBlock(cells, h, order, Cell(order, Held));
      assert area[..] == old(area[..])[order := area[order]];
    }

    method PopFromFreeArea(order: nat) returns (r: Option<nat>)
      requires Steady() && order <= MAX_ORDER
      modifies this, area
      ensures Steady()
      ensures r.None? ==> cells == old(cells) && forall p :: 0 <= p < |cells| ==> cells[p] != Cell(order, Free)
      ensures r.Some? ==> IsBlock(old(cells), r.value, Cell(order, Free))
      ensures r.Some? ==> cells == SetBlock(old(cells), r.value, order, Cell(order, Held))
      ensures r.None? ==> old(area[order]).list == [] && area[..] == old(area[..])
      ensures r.Some? ==> old(area[order]).list != [] && r.value == old(area[order]).list[0]
      ensures r.Some? ==> area[..] == old(area[..])[order := area[order]] && area[order].list == old(area[order]).list[1..]
    {
      hide Base, Pow2, Partitioned, Coalesced, FlagsMatch, ListsMatch;
      FreeListMatches(area[..], cells, order);
      var list := area[order].list;
      if list == [] {
        forall p | 0 <= p < |cells| ensures cells[p] != Cell(order, Free) {
          HeadIsBlock(cells, p);
          assert Head(cells, p) !in list;
        }
        return None;
      }
      var h := list[0];
      assert h in list;
      RemoveFromFreeArea(h, order);
      return Some(h);
    }

    // -------------------------------------------------------------------------------------------
    // Splitting and joining
    // -------------------------------------------------------------------------------------------

    /** Non-`None` exactly when the buddy is a free block of exactly this order. */
    method GetBuddy(me: nat, order: nat) returns (r: Option<nat>)
      requires Steady() && OnlyHeld(cells, me, order)
      ensures r.Some? <==> Buddy(me, order) < |cells| && cells[Buddy(me, order)] == Cell(order, Free)
      ensures r.Some? ==> r.value == Buddy(me, order)
    {
      hide Base, Pow2, Partitioned, Coalesced, FlagsMatch, ListsMatch;
      var combineSize, buddySize := Pow2(order + 1), Pow2(order);
      BaseIsFloor(me, order + 1);
      BuddyFacts(me, order);
      Pow2Double(order);
      BuddyInZone(cells, me, order);
      var buddy;
      if me % combineSize == 0 {
        buddy := me + buddySize;
        if buddy + buddySize > pages.Length {
          return None;
        }
      } else {
        buddy := me - buddySize;
      }
      ProbesFindBuddy(pages[..], cells, me, order);
      if !pages[buddy].priv {
        return None;
      }
      if pages[buddy].used {
        return None;
      }
      if order > 0 { Pow2Double(order - 1); }
      if order == 0 || !pages[buddy + Pow2(order - 1)].priv {
        return Some(buddy);
      }
      return None;
    }

    /** Halves the block in hand; the right half goes to its free area. */
    method Reduce(h: nat, order: nat) returns (r: nat)
      requires Steady() && 0 < order <= MAX_ORDER && OnlyHeld(cells, h, order)
      modifies this, pages, area
      ensures Steady() && r == h && OnlyHeld(cells, h, order - 1)
      ensures |cells| == |old(cells)|
      ensures area[..] == old(area[..])[order - 1 := area[order - 1]]
      ensures area[order - 1].list == [h + Pow2(order - 1)] + old(area[order - 1]).list
      ensures forall p :: 0 <= p < |cells| && !(h <= p < h + Pow2(order)) ==> cells[p] == old(cells)[p]
      ensures forall p :: h <= p < h + Pow2(order) && p < |cells| ==> !cells[p].st.Used?
    {
      hide Base, Pow2, Partitioned, Coalesced, FlagsMatch, ListsMatch;
      var buddy := h + Pow2(order - 1);
      SplitKeeps(pages[..], area[..], cells, h, order - 1);
      Split(cells, h, order - 1);
      BaseHalves(h, order - 1);
      BuddyFacts(h, order - 1);
      Pow2Double(order - 1);
      pages[buddy] := pages[buddy].(priv := true);
      assert pages[..] == old(pages[..])[buddy := pages[buddy]];
      cells := SetBlock(cells, h, order, Cell(order - 1, Held));
      AddToFreeArea(buddy, order - 1);
      r := h;
    }

    /** Joins two buddies that are both in hand. */
    method Expand(buddy1: nat, buddy2: nat, order: nat) returns (r: nat)
      requires Steady() && order < MAX_ORDER
      requires IsBlock(cells, buddy1, Cell(order, Held)) && IsBlock(cells, buddy2, Cell(order, Held))
      requires buddy2 == Buddy(buddy1, order)
      modifies this, pages
      ensures Steady() && r == Base(buddy1, order + 1)
      ensures cells == SetBlock(old(cells), r, order + 1, Cell(order + 1, Held))
      ensures IsBlock(cells, r, Cell(order + 1, Held))
    {
      hide Base, Pow2, Partitioned, Coalesced, FlagsMatch, ListsMatch;
      BuddyFacts(buddy1, order);
      var left, right;
      if buddy1 < buddy2 {
        left, right := buddy1, buddy2;
      } else {
        left, right := buddy2, buddy1;
      }
      BaseIdempotent(buddy1, order + 1);
      MergeKeeps(pages[..], area[..], cells, left, order);
      Merge(cells, left, order);
      pages[right] := pages[right].(priv := false);
      assert pages[..] == old(pages[..])[right := pages[right]];
      cells := SetBlock(cells, left, order + 1, Cell(order + 1, Held));
      r := left;
    }

    method MarkUsed(h: nat, ghost order: nat)
      requires Steady() && IsBlock(cells, h, Cell(order, Held))
      modifies this, pages
      ensures Steady() && cells == SetBlock(old(cells), h, order, Cell(order, Used))
    {
      hide Base, Pow2, Partitioned, Coalesced, FlagsMatch, ListsMatch;
      MarkKeeps(pages[..], area[..], cells, h, order, Used);
      pages[h] := pages[h].(used := true);
      assert pages[..] == old(pages[..])[h := pages[h]];
      cells := SetBlock(cells, h, order, Cell(order, Used));
    }

    method ClearUsed(h: nat, ghost order: nat)
      requires Steady() && IsBlock(cells, h, Cell(order, Used))
      modifies this, pages
      ensures Steady() && cells == SetBlock(old(cells), h, order, Cell(order, Held))
    {
      hide Base, Pow2, Partitioned, Coalesced, FlagsMatch, ListsMatch;
      MarkKeeps(pages[..], area[..], cells, h, order, Held);
      pages[h] := pages[h].(used := false);
      assert pages[..] == old(pages[..])[h := pages[h]];
      cells := SetBlock(cells, h, order, Cell(order, Held));
    }

    // -------------------------------------------------------------------------------------------
    // Allocation and release
    // -------------------------------------------------------------------------------------------

    /** The part of alloc_pages that runs on one zone. */
    method AllocPages(order: nat) returns (r: Option<nat>)
      requires Valid() && order <= MAX_ORDER
      modifies this, pages, area
      ensures Valid() && |cells| == |old(cells)|
      ensures r.None? <==> !HasFreeRun(old(cells), order)
      ensures r.None? ==> cells == old(cells)
      ensures r.Some? ==> FreeRun(old(cells), r.value, order) && r.value !in Live(old(cells))
      ensures r.Some? ==> Live(cells) == Live(old(cells))[r.value := order]
      ensures r.None? ==> area[..] == old(area[..]) && forall j :: order <= j <= MAX_ORDER ==> area[j].list == []
      ensures r.Some? ==> BestFit(old(area[..]), area[..], r.value, order)
      ensures r.Some? && order == 0 ==> LosesPage(old(cells), cells, r.value)
    {
      hide Base, Pow2, Partitioned, Coalesced, FlagsMatch, ListsMatch, TakenFrom, LosesPage;
      FreeRunIff(cells, order);
      OrdersBounded(cells);
      var searchOrder := order;
      while searchOrder != MAX_ORDER + 1
        invariant order <= searchOrder <= MAX_ORDER + 1
        invariant Valid() && cells == old(cells) && area[..] == old(area[..])
        invariant forall p :: 0 <= p < |cells| && cells[p].st.Free? ==> !(order <= cells[p].order < searchOrder)
        invariant forall j :: order <= j < searchOrder ==> old(area[j]).list == []
      {
        var fetch := PopFromFreeArea(searchOrder);
        if fetch.Some? {
          var h := fetch.value;
          TakenBlock(old(cells), h, searchOrder);
          ghost var popped := area[..];
          r := Cut(h, searchOrder, order, old(cells));
          TakenIs(old(area[..]), popped, area[..], h, order, searchOrder);
          if order == 0 { OnePageLess(old(cells), cells, h); }
          return;
        }
        searchOrder := searchOrder + 1;
      }
      return None;
    }

    /** The `while (search_order != order)` loop of alloc_pages and the final marking. */
    method Cut(h: nat, from: nat, order: nat, ghost before: seq<Cell>) returns (r: Option<nat>)
      requires Steady() && order <= from <= MAX_ORDER && OnlyHeld(cells, h, from)
      requires SameUsed(before, cells) && FreeRun(before, h, from)
      modifies this, pages, area
      ensures Valid() && |cells| == |before|
      ensures r == Some(h) && FreeRun(before, h, order) && h !in Live(before)
      ensures Live(cells) == Live(before)[h := order]
      ensures HalvesListed(old(area[..]), area[..], h, order, from)
    {
      hide Base, Pow2, Partitioned, Coalesced, FlagsMatch, ListsMatch;
      var fetch, searchOrder := h, from;
      while searchOrder != order
        invariant order <= searchOrder <= from
        invariant fetch == h && Steady() && OnlyHeld(cells, fetch, searchOrder)
        invariant SameUsed(before, cells) && FreeRun(before, fetch, searchOrder)
        invariant HalvesListed(old(area[..]), area[..], h, searchOrder, from)
      {
        FreeRunHalves(before, fetch, searchOrder - 1);
        fetch := Reduce(fetch, searchOrder);
        searchOrder := searchOrder - 1;
      }
      SameUsedLive(before, cells);
      LiveUse(cells, fetch, order);
      MarkUsed(fetch, order);
      return Some(fetch);
    }

    /** dealloc_pages; the order must be the one the block was allocated with. */
    method DeallocPages(page: nat, order: nat)
      requires Valid() && page in Live(cells) && Live(cells)[page] == order
      modifies this, pages, area
      ensures Valid() && |cells| == |old(cells)|
      ensures Live(cells) == Live(old(cells)) - {page}
      ensures exists to :: GivenTo(old(area[..]), area[..], page, order, to)
    {
      hide Base, Pow2, Partitioned, Coalesced, FlagsMatch, ListsMatch, GivenTo;
      LiveRelease(cells, page, order);
      BlockFits(cells, page, Cell(order, Used));
      ReleasedBlock(cells, page, order);
      ClearUsed(page, order);
      ghost var released, lists := cells, area[..];
      var buddy1, k := Join(page, order);
      GivenBlock(cells, buddy1, k);
      BuddyListed(area[..], cells, buddy1, k);
      ghost var grown := area[..];
      AddToFreeArea(buddy1, k);
      GivenIs(lists, grown, area[..], page, order, k);
      SameUsedLive(released, cells);
    }

    /** The `while (order != MAX_ORDER)` loop of dealloc_pages: the block in hand grows by its free buddies. */
    method Join(page: nat, order: nat) returns (buddy1: nat, k: nat)
      requires Steady() && order <= MAX_ORDER && OnlyHeld(cells, page, order)
      modifies this, pages, area
      ensures order <= k <= MAX_ORDER && buddy1 == Base(page, k)
      ensures Steady() && OnlyHeld(cells, buddy1, k) && SameUsed(old(cells), cells) && |cells| == |old(cells)|
      ensures BuddiesGone(old(area[..]), area[..], page, order, k)
      ensures k < MAX_ORDER && Buddy(buddy1, k) < |cells| ==> cells[Buddy(buddy1, k)] != Cell(k, Free)
    {
      hide Base, Pow2, Partitioned, Coalesced, FlagsMatch, ListsMatch, Buddy, BuddiesGone;
      ghost var released, lists := cells, area[..];
      NothingGone(lists, page, order);
      buddy1, k := page, order;
      var done := false;
      while k != MAX_ORDER && !done
        invariant order <= k <= MAX_ORDER
        invariant Steady() && OnlyHeld(cells, buddy1, k) && SameUsed(released, cells)
        invariant buddy1 == Base(page, k) && BuddiesGone(lists, area[..], page, order, k)
        invariant done ==> Buddy(buddy1, k) < |cells| ==> cells[Buddy(buddy1, k)] != Cell(k, Free)
        decreases MAX_ORDER - k, !done
      {
        var buddy2 := GetBuddy(buddy1, k);
        if buddy2.None? {
          done := true;
        } else {
          JoinedBlock(cells, buddy1, k);
          BuddyListed(area[..], cells, buddy1, k);
          BaseNested(page, k, k + 1);
          ghost var grown := area[..];
          RemoveFromFreeArea(buddy2.value, k);
          OneMoreGone(lists, grown, area[..], page, order, k);
          buddy1 := Expand(buddy1, buddy2.value, k);
          k := k + 1;
        }
      }
    }

    /** An allocation followed by the matching release restores every block and every free list in its order. */
    method AllocThenFree(order: nat)
      requires Valid() && order <= MAX_ORDER
      modifies this, pages, area
      ensures Valid() && cells == old(cells)
      ensures forall k :: 0 <= k <= MAX_ORDER ==> area[k].list == old(area[k]).list
    {
      hide Base, Pow2, Partitioned, Coalesced, FlagsMatch, ListsMatch, Live, TakenFrom, GivenTo;
      ghost var before := area[..];
      var r := AllocPages(order);
      if r.Some? {
        ghost var taken := area[..];
        ghost var from: nat :| TakenFrom(before, taken, r.value, order, from);
        TakenListed(before, taken, r.value, order, from);
        FreeListMatches(before, old(cells), from);
        DeallocPages(r.value, order);
        ghost var to: nat :| GivenTo(taken, area[..], r.value, order, to);
        assert Live(cells) == Live(old(cells));
        Canonical(cells, old(cells));
        forall k | 0 <= k <= MAX_ORDER
          ensures NoDuplicates(before[k].list) && forall h: nat :: h in area[..][k].list <==> h in before[k].list
        {
          CanonicalFreeLists(area[..], cells, before, old(cells), k);
          FreeListMatches(before, cells, k);
        }
        assert r.value in before[from].list && IsBlock(old(cells), r.value, Cell(from, Free));
        GivenBack(before, taken, area[..], r.value, order, from, to);
      }
    }

    /** A block that finds no free buddy when it is released is the next one of its order to be handed out. */
    method FreeThenAlloc(page: nat, order: nat) returns (r: Option<nat>)
      requires Valid() && page in Live(cells) && Live(cells)[page] == order
      modifies this, pages, area
      ensures Valid()
      ensures order == MAX_ORDER || Buddy(page, order) !in old(area[order]).list ==>
        r == Some(page) && cells == old(cells) && forall k :: 0 <= k <= MAX_ORDER ==> area[k].list == old(area[k]).list
    {
      hide Base, Pow2, Partitioned, Coalesced, FlagsMatch, ListsMatch, TakenFrom, GivenTo;
      ghost var before, was := area[..], cells;
      BlockFits(cells, page, Cell(order, Used));
      DeallocPages(page, order);
      ghost var given := area[..];
      ghost var to: nat :| GivenTo(before, given, page, order, to);
      r := AllocPages(order);
      if order == MAX_ORDER || Buddy(page, order) !in before[order].list {
        GivenFirst(before, given, page, order, to);
        ghost var from: nat :| TakenFrom(given, area[..], r.value, order, from);
        TakenFirst(before, given, area[..], page, r.value, order, from);
        assert Live(cells) == Live(was);
        Canonical(cells, was);
      }
    }

    // -------------------------------------------------------------------------------------------
    // Building the zone
    // -------------------------------------------------------------------------------------------

    /** build_zone_buddy_system over a zone of `n` pages whose flags are clear. */
    constructor (n: nat)
      requires n * PAGE_SIZE < U32
      ensures Valid() && |cells| == n && Live(cells) == map[]
      ensures forall k :: 0 <= k <= MAX_ORDER ==> Falling(area[k].list)
      ensures fresh(pages) && fresh(area)
    {
      pages := new Page[n](_ => Page(false, false));
      area := new FreeArea[MAX_ORDER + 1](_ => FreeArea([], 0));
      cells := [];
      new;
      Build();
    }

    /** _build_zone_buddy_system: largest orders first, then the remainder by falling orders. */
    method Build()
      requires cells == [] && area.Length == MAX_ORDER + 1 && pages.Length * PAGE_SIZE < U32
      requires forall k :: 0 <= k <= MAX_ORDER ==> area[k] == FreeArea([], 0)
      requires forall p :: 0 <= p < pages.Length ==> pages[p] == Page(false, false)
      modifies this, pages, area
      ensures Valid() && |cells| == pages.Length && Live(cells) == map[]
      ensures forall k :: 0 <= k <= MAX_ORDER ==> Falling(area[k].list)
    {
      hide Base, Pow2, Partitioned, Coalesced, FlagsMatch, ListsMatch, Descending, Falling;
      EmptyFalls();
      var n := pages.Length;
      EmptyConsistent(area[..]);
      assert pages[..0] == [];
      var size, index := n * PAGE_SIZE, 0;
      ghost var last: nat := MAX_ORDER;
      BaseZero(last);
      while size >= PAGE_SIZE
        invariant index <= n && size == (n - index) * PAGE_SIZE && |cells| == index
        invariant last <= MAX_ORDER && Base(index, last) == index && (last == MAX_ORDER || n - index < Pow2(last))
        invariant Consistent(pages[..index], area[..], cells) && Descending(cells, n - index)
        invariant forall p :: index <= p < n ==> pages[p] == Page(false, false)
        invariant forall k :: 0 <= k <= MAX_ORDER ==> Falling(area[k].list)
      {
        var order;
        if size > PAGE_SIZE * Pow2(MAX_ORDER) {
          order := MAX_ORDER;
        } else {
          order := GetOrderFloor(size);
        }
        NextOrderFits(n - index, order, last);
        BaseFiner(index, order, last);
        BaseNext(index, order);
        InitAddToFreeArea(index, order, n - index);
        index := index + Pow2(order);
        size := size - PAGE_SIZE * Pow2(order);
        last := order;
      }
      assert size == 0;
      assert pages[..n] == pages[..];
      NothingUsed(cells);
    }

    /** __init_add_to_free_area: the built part of the zone grows by one free block. */
    method InitAddToFreeArea(index: nat, order: nat, ghost left: nat)
      requires index == |cells| && order <= MAX_ORDER && index + Pow2(order) <= pages.Length
      requires Consistent(pages[..index], area[..], cells) && Base(index, order) == index
      requires Descending(cells, left) && Pow2(order) <= left && (order == MAX_ORDER || left - Pow2(order) < Pow2(order))
      requires forall p :: index <= p < pages.Length ==> pages[p] == Page(false, false)
      modifies this, pages, area
      ensures |cells| == index + Pow2(order)
      ensures Consistent(pages[..|cells|], area[..], cells) && Descending(cells, left - Pow2(order))
      ensures forall p :: |cells| <= p < pages.Length ==> pages[p] == Page(false, false)
      ensures forall k :: 0 <= k <= MAX_ORDER ==> Falling(old(area[k]).list) ==> Falling(area[k].list)
    {
      hide Base, Pow2, Partitioned, Coalesced, FlagsMatch, ListsMatch, Falling;
      ghost var built := pages[..index];
      FreeListMatches(area[..], cells, order);
      if Falling(area[order].list) { FallsOn(area[order].list, index); }
      pages[index] := pages[index].(priv := true);
      assert pages[..index + Pow2(order)][..index] == built;
      ExtendKeeps(built, area[..], cells, order, left, pages[..index + Pow2(order)]);
      DescendingExtend(cells, order, left);
      area[order] := FreeArea([index] + area[order].list, area[order].size + 1);
      assert area[..] == old(area[..])[order := area[order]];
      cells := Extend(cells, order);
    }

    // -------------------------------------------------------------------------------------------
    // Region carving
    // -------------------------------------------------------------------------------------------

    /** split_to on a used block: every 2^to-th page becomes a used block of its own. */
    method SplitTo(h: nat, from: nat, to: nat)
      requires Steady() && to <= from && IsBlock(cells, h, Cell(from, Used))
      modifies this, pages
      ensures Steady() && cells == SetBlock(old(cells), h, from, Cell(to, Used))
    {
      hide Base, Pow2, Partitioned, Coalesced, FlagsMatch, ListsMatch;
      BlockFits(cells, h, Cell(from, Used));
      HeadMarks(pages[..], cells, h);
      BaseFiner(h, to, from);
      ghost var before := pages[..];
      var i := 0;
      while i != Pow2(from)
        invariant 0 <= i <= Pow2(from) && Base(h + i, to) == h + i
        invariant Shattered(before, pages[..], h, h + i, to) && cells == old(cells)
        decreases Pow2(from) - i
      {
        NextPiece(h, from, to, i);
        if pages[h].priv {
          pages[h + i] := pages[h + i].(priv := true);
        }
        if pages[h].used {
          pages[h + i] := pages[h + i].(used := true);
        }
        forall p | 0 <= p < |before|
          ensures pages[p] == if h <= p < h + i + Pow2(to) && Base(p, to) == p then Page(true, true) else before[p]
        {
          BaseSame(h + i, p, to);
        }
        i := i + Pow2(to);
      }
      ShatterKeeps(before, area[..], cells, h, from, to, pages[..]);
      cells := SetBlock(cells, h, from, Cell(to, Used));
    }

    /** dealloc_region on pages [from, end) of this zone, all of them used blocks of order 0. */
    method DeallocRegion(from: nat, end: nat)
      requires Valid() && from <= end < |cells|
      requires forall p :: from <= p < end ==> p in Live(cells) && Live(cells)[p] == 0
      modifies this, pages, area
      ensures Valid() && |cells| == |old(cells)|
      ensures Live(cells) == Live(old(cells)) - Range(from, end)
    {
      hide Base, Pow2, Partitioned, Coalesced, FlagsMatch, ListsMatch;
      var i := from;
      while i != end
        invariant from <= i <= end
        invariant Valid() && |cells| == |old(cells)|
        invariant Live(cells) == Live(old(cells)) - Range(from, i)
        decreases end - i
      {
        DeallocPages(i, 0);
        i := i + 1;
      }
    }

    /** One touched free block becomes used single pages. */
    method CarveBlock(page: nat, order: nat)
      requires Valid() && order <= MAX_ORDER && IsBlock(cells, page, Cell(order, Free))
      modifies this, pages, area
      ensures Valid() && cells == SetBlock(old(cells), page, order, Cell(0, Used))
    {
      hide Base, Pow2, Partitioned, Coalesced, FlagsMatch, ListsMatch;
      RemoveFromFreeArea(page, order);
      MarkUsed(page, order);
      SplitTo(page, order, 0);
      assert cells == SetBlock(old(cells), page, order, Cell(0, Used));
    }

    /** alloc_region's walk over one free list. */
    method CarveOrder(i: nat, base: nat, end: nat, low: nat, high: nat, ghost was: seq<Cell>, ghost carved: set<nat>)
      returns (low': nat, high': nat, ghost carved': set<nat>)
      requires Valid() && i <= MAX_ORDER && Partitioned(was) && |was| < ULONG_MAX
      requires Carved(was, cells, carved) && Bounds(was, carved, low, high)
      requires forall h: nat :: h in carved <==> TouchedBelow(was, h, base, end, i)
      modifies this, pages, area
      ensures Valid() && Carved(was, cells, carved') && Bounds(was, carved', low', high')
      ensures forall h: nat :: h in carved' <==> TouchedBelow(was, h, base, end, i + 1)
    {
      hide Base, Pow2, Partitioned, Coalesced, FlagsMatch, ListsMatch, Carved, Bounds;
      low', high', carved' := low, high, carved;
      var list := area[i].list;
      FreeListMatches(area[..], cells, i);
      CarvedList(was, cells, carved, i);
      assert forall h: nat :: h in list <==> IsBlock(was, h, Cell(i, Free));
      for j := 0 to |list|
        invariant Valid() && Carved(was, cells, carved') && Bounds(was, carved', low', high')
        invariant forall h: nat :: h in carved' <==> h in carved || (Touched(was, h, base, end) && h in list[..j])
      {
        var page := list[j];
        var stop := page + Pow2(i);
        assert page in list && IsBlock(was, page, Cell(i, Free)) && page !in carved';
        if (base >= page && base < stop) || (page > base && end > page) {
          CarvedOther(was, cells, carved', page, i);
          CarvedOne(was, cells, carved', page, i);
          BoundsAdd(was, carved', low', high', page);
          CarveBlock(page, i);
          carved' := carved' + {page};
          if page < low' {
            low' := page;
          }
          if stop > high' {
            high' := stop;
          }
        }
      }
      assert list[..|list|] == list;
    }

    /**
     alloc_region on pages [base, end) of this zone. The pages are free, the page after them is in
     the zone, and so is the page after the last free block they touch.
     */
    method AllocRegion(base: nat, end: nat)
      requires Valid() && base <= end < |cells| < ULONG_MAX
      requires forall p :: base <= p < end || p == base ==> cells[p].st.Free?
      requires var last := LastPage(base, end); Head(cells, last) + Pow2(cells[last].order) < |cells|
      modifies this, pages, area
      ensures Valid() && |cells| == |old(cells)|
      ensures Live(cells) == Live(old(cells)) + Singles(base, end)
    {
      hide Base, Pow2, Partitioned, Coalesced, FlagsMatch, ListsMatch, Carved, Bounds, Touched, TouchedBelow, Live;
      ghost var was := cells;
      ghost var carved: set<nat> := {};
      var low: nat, high: nat := ULONG_MAX, 0;
      OrdersBounded(was);
      NothingCarved(was, base, end);
      for i := 0 to MAX_ORDER + 1
        invariant Valid() && Carved(was, cells, carved) && Bounds(was, carved, low, high)
        invariant forall h: nat :: h in carved <==> TouchedBelow(was, h, base, end, i)
      {
        low, high, carved := CarveOrder(i, base, end, low, high, was, carved);
      }
      AllOrdersSeen(was, base, end);
      CarvedRegion(was, carved, base, end, low, high);
      CarvedLive(was, cells, carved, low, high);
      Singles3(Live(was), low, base, end, high);
      DeallocRegion(low, base);
      DeallocRegion(end, high);
    }
  }

  // ---------------------------------------------------------------------------------------------
  // What is in hand after each step
  // ---------------------------------------------------------------------------------------------

  ghost function Range(from: nat, end: nat): (r: set<nat>)
    ensures forall p :: p in r <==> from <= p < end
  {
    if end <= from then {} else Range(from, end - 1) + {end - 1}
  }

  /** Used blocks of order 0 on every page of a range. */
  ghost function Singles(from: nat, end: nat): (r: map<nat, nat>) {
    map p | p in Range(from, end) :: 0
  }

  ghost function LastPage(base: nat, end: nat): (p: nat) {
    if base < end then end - 1 else base
  }

  lemma EmptyConsistent(area: seq<FreeArea>)
    requires |area| == MAX_ORDER + 1 && forall k :: 0 <= k <= MAX_ORDER ==> area[k] == FreeArea([], 0)
    ensures Consistent([], area, []) && forall left :: Descending([], left)
  {
  }

  lemma NothingUsed(c: seq<Cell>)
    requires Descending(c, 0)
    ensures Settled(c) && Live(c) == map[]
  {
  }

  lemma NextOrderFits(left: nat, order: nat, last: nat)
    requires last <= MAX_ORDER && (last == MAX_ORDER || left < Pow2(last))
    requires if left > Pow2(MAX_ORDER) then order == MAX_ORDER else Pow2(order) <= left < Pow2(order + 1)
    ensures order <= last && Pow2(order) <= left
    ensures order == MAX_ORDER || left - Pow2(order) < Pow2(order)
  {
    hide Pow2;
    Pow2Double(order);
    if order > last { Pow2Monotone(last, order - 1); Pow2Double(order - 1); }
  }

  lemma DescendingExtend(c: seq<Cell>, k: nat, left: nat)
    requires Descending(c, left) && Pow2(k) <= left && (k == MAX_ORDER || left - Pow2(k) < Pow2(k))
    ensures Descending(Extend(c, k), left - Pow2(k))
  {
  }

  lemma HeadMarks(pages: seq<Page>, c: seq<Cell>, h: nat)
    requires FlagsMatch(pages, c) && h < |c| && IsBlock(c, h, c[h]) && c[h].st.Used?
    ensures pages[h] == Page(true, true)
  {
  }

  /** The next piece still lies inside the block being split. */
  lemma NextPiece(h: nat, from: nat, to: nat, i: nat)
    requires to <= from && Base(h, from) == h && i < Pow2(from) && Base(h + i, to) == h + i
    ensures i + Pow2(to) <= Pow2(from)
    ensures Base(h + i + Pow2(to), to) == h + i + Pow2(to)
  {
    BaseNested(h + i, to, from);
    BaseSame(h, h + i, from);
    BaseNext(h + i, to);
  }

  // ---------------------------------------------------------------------------------------------
  // alloc_region: which blocks are carved, and what is left
  // ---------------------------------------------------------------------------------------------

  /** alloc_region's test on a free block: it contains `base`, or starts inside the region. */
  ghost predicate Touched(c: seq<Cell>, h: nat, base: nat, end: nat) {
    && h < |c| && IsBlock(c, h, Cell(c[h].order, Free))
    && ((base >= h && base < h + Pow2(c[h].order)) || (h > base && end > h))
  }

  ghost predicate TouchedBelow(c: seq<Cell>, h: nat, base: nat, end: nat, k: nat) {
    Touched(c, h, base, end) && c[h].order < k
  }

  /** `now` is `was` with the blocks of `carved` turned into used single pages. */
  ghost predicate Carved(was: seq<Cell>, now: seq<Cell>, carved: set<nat>) {
    && |now| == |was|
    && (forall h: nat :: h in carved ==> h < |was| && IsBlock(was, h, Cell(was[h].order, Free)))
    && forall p :: 0 <= p < |was| ==> now[p] == if was[p].st.Free? && Head(was, p) in carved then Cell(0, Used) else was[p]
  }

  ghost predicate Bounds(c: seq<Cell>, carved: set<nat>, low: nat, high: nat) {
    && (carved == {} ==> low == ULONG_MAX && high == 0)
    && (carved != {} ==> low in carved && exists h: nat :: h in carved && h < |c| && high == h + Pow2(c[h].order))
    && forall h: nat :: h in carved && h < |c| ==> low <= h && h + Pow2(c[h].order) <= high
  }

  lemma NothingCarved(c: seq<Cell>, base: nat, end: nat)
    ensures Carved(c, c, {}) && Bounds(c, {}, ULONG_MAX, 0)
    ensures forall h: nat :: !TouchedBelow(c, h, base, end, 0)
  {
  }

  lemma AllOrdersSeen(c: seq<Cell>, base: nat, end: nat)
    requires Partitioned(c)
    ensures forall h: nat :: TouchedBelow(c, h, base, end, MAX_ORDER + 1) <==> Touched(c, h, base, end)
  {
  }

  /** Dropping both ends of a range of single pages leaves the middle. */
  lemma Singles3(m: map<nat, nat>, low: nat, base: nat, end: nat, high: nat)
    requires low <= base <= end <= high
    requires forall p :: low <= p < high ==> p !in m
    ensures var all := m + Singles(low, high);
      && (forall p :: low <= p < base ==> p in all && all[p] == 0)
      && (forall p :: end <= p < high ==> p in all - Range(low, base) && (all - Range(low, base))[p] == 0)
      && all - Range(low, base) - Range(end, high) == m + Singles(base, end)
  {
  }

  lemma BoundsAdd(c: seq<Cell>, carved: set<nat>, low: nat, high: nat, page: nat)
    requires Bounds(c, carved, low, high) && page < |c| < ULONG_MAX
    ensures var stop := page + Pow2(c[page].order);
      Bounds(c, carved + {page}, if page < low then page else low, if stop > high then stop else high)
  {
    hide Pow2;
    assert page in carved + {page};
  }

  lemma CarvedList(was: seq<Cell>, now: seq<Cell>, carved: set<nat>, i: nat)
    requires Carved(was, now, carved) && forall h: nat :: h in carved ==> was[h].order < i
    requires Partitioned(was)
    ensures forall h: nat :: IsBlock(now, h, Cell(i, Free)) <==> IsBlock(was, h, Cell(i, Free))
  {
    hide Base, Pow2;
    forall h: nat | h < |was| && was[h].st.Free? && Head(was, h) in carved ensures was[h].order < i { HeadIsBlock(was, h); }
  }

  lemma CarvedOther(was: seq<Cell>, now: seq<Cell>, carved: set<nat>, page: nat, i: nat)
    requires Carved(was, now, carved) && IsBlock(was, page, Cell(i, Free)) && page !in carved
    ensures IsBlock(now, page, Cell(i, Free))
  {
  }

  lemma CarvedOne(was: seq<Cell>, now: seq<Cell>, carved: set<nat>, page: nat, i: nat)
    requires Partitioned(was) && Carved(was, now, carved) && IsBlock(was, page, Cell(i, Free)) && page !in carved
    ensures Carved(was, SetBlock(now, page, i, Cell(0, Used)), carved + {page})
  {
    hide Base, Pow2, Partitioned;
    forall p | 0 <= p < |was|
      ensures page <= p < page + Pow2(i) <==> Head(was, p) == page
      ensures Head(was, p) == page ==> was[p].st.Free?
    {
      BlocksDisjoint(was, p, page);
    }
  }

  /** The carved blocks are exactly the pages from `low` to `high`, which span the region. */
  lemma CarvedRegion(c: seq<Cell>, carved: set<nat>, base: nat, end: nat, low: nat, high: nat)
    requires Partitioned(c) && base <= end < |c|
    requires forall p :: base <= p < end || p == base ==> c[p].st.Free?
    requires var last := LastPage(base, end); Head(c, last) + Pow2(c[last].order) < |c|
    requires forall h: nat :: h in carved <==> Touched(c, h, base, end)
    requires Bounds(c, carved, low, high)
    ensures low <= base && end <= high < |c|
    ensures forall p :: 0 <= p < |c| ==> (c[p].st.Free? && Head(c, p) in carved <==> low <= p < high)
  {
    hide Base, Pow2, Partitioned;
    var last := LastPage(base, end);
    RegionEnds(c, carved, base, end, low, high);
    HeadIsBlock(c, base);
    HeadIsBlock(c, last);
    forall p | 0 <= p < |c| ensures c[p].st.Free? && Head(c, p) in carved <==> low <= p < high {
      HeadIsBlock(c, p);
      if low <= p < high {
        if p < base {
          BlockPages(c, base, p);
        } else if p >= last {
          BlockPages(c, last, p);
        }
        assert Touched(c, Head(c, p), base, end);
      }
    }
  }

  lemma RegionEnds(c: seq<Cell>, carved: set<nat>, base: nat, end: nat, low: nat, high: nat)
    requires Partitioned(c) && base <= end < |c|
    requires forall p :: base <= p < end || p == base ==> c[p].st.Free?
    requires forall h: nat :: h in carved <==> Touched(c, h, base, end)
    requires Bounds(c, carved, low, high)
    ensures low == Head(c, base)
    ensures var last := LastPage(base, end); high == Head(c, last) + Pow2(c[last].order)
  {
    hide Base, Pow2, Partitioned;
    var last := LastPage(base, end);
    HeadIsBlock(c, base);
    HeadIsBlock(c, last);
    assert Touched(c, Head(c, base), base, end);
    if Head(c, last) <= base { BlockPages(c, last, base); }
    assert Touched(c, Head(c, last), base, end);
    if low <= base < low + Pow2(c[low].order) { BlockPages(c, low, base); }
    var h: nat :| h in carved && h < |c| && high == h + Pow2(c[h].order);
    if h <= last < high { BlockPages(c, h, last); }
  }

  lemma CarvedLive(was: seq<Cell>, now: seq<Cell>, carved: set<nat>, low: nat, high: nat)
    requires Carved(was, now, carved) && high <= |was| && |now| == |was|
    requires forall p :: 0 <= p < |was| ==> (was[p].st.Free? && Head(was, p) in carved <==> low <= p < high)
    ensures Live(now) == Live(was) + Singles(low, high)
    ensures forall p :: low <= p < high ==> p !in Live(was)
  {
  }

  /** Later blocks stand in front of earlier ones. */
  ghost predicate Falling(list: seq<nat>) {
    forall i, j :: 0 <= i < j < |list| ==> list[i] > list[j]
  }

  lemma EmptyFalls()
    ensures Falling([])
  {
  }

  lemma FallsOn(list: seq<nat>, x: nat)
    requires Falling(list) && forall p :: p in list ==> p < x
    ensures Falling([x] + list)
  {
    forall i, j | 0 <= i < j < |list| + 1 ensures ([x] + list)[i] > ([x] + list)[j] {
      assert list[j - 1] in list;
    }
  }

  /** The buddies of the growing block have left their lists. */
  ghost predicate BuddiesGone(before: seq<FreeArea>, after: seq<FreeArea>, h: nat, order: nat, to: nat) {
    && |before| == |after| == MAX_ORDER + 1 && order <= to <= MAX_ORDER
    && (forall j :: order <= j < to ==>
      var b := Buddy(Base(h, j), j); b in before[j].list && after[j].list == Without(before[j].list, b))
    && forall j :: 0 <= j < order || to <= j <= MAX_ORDER ==> after[j].list == before[j].list
  }

  lemma NothingGone(lists: seq<FreeArea>, h: nat, order: nat)
    requires |lists| == MAX_ORDER + 1 && order <= MAX_ORDER
    ensures BuddiesGone(lists, lists, h, order, order)
  {
  }

  lemma OneMoreGone(before: seq<FreeArea>, grown: seq<FreeArea>, after: seq<FreeArea>, h: nat, order: nat, to: nat)
    requires BuddiesGone(before, grown, h, order, to) && to < MAX_ORDER && |after| == |grown|
    requires var b := Buddy(Base(h, to), to);
             b in grown[to].list && after == grown[to := after[to]] && after[to].list == Without(grown[to].list, b)
    ensures BuddiesGone(before, after, h, order, to + 1)
  {
    hide Base, Buddy;
  }

  lemma GivenIs(before: seq<FreeArea>, grown: seq<FreeArea>, after: seq<FreeArea>, h: nat, order: nat, to: nat)
    requires BuddiesGone(before, grown, h, order, to) && |after| == |grown|
    requires after == grown[to := after[to]] && after[to].list == [Base(h, to)] + grown[to].list
    requires to < MAX_ORDER ==> Buddy(Base(h, to), to) !in grown[to].list
    ensures GivenTo(before, after, h, order, to)
  {
    hide Base, Buddy;
  }

  /** An allocation and its release together leave every list as it was, once they hold the same blocks. */
  lemma GivenBack(before: seq<FreeArea>, taken: seq<FreeArea>, after: seq<FreeArea>, h: nat, order: nat, from: nat, to: nat)
    requires TakenFrom(before, taken, h, order, from) && GivenTo(taken, after, h, order, to)
    requires forall k :: 0 <= k <= MAX_ORDER ==>
      NoDuplicates(before[k].list) && forall x: nat :: x in after[k].list <==> x in before[k].list
    requires Base(h, from) == h
    ensures forall k :: 0 <= k <= MAX_ORDER ==> after[k].list == before[k].list
  {
    hide Base, Buddy, Pow2;
    var first := before[from].list;
    assert first == [h] + first[1..];
    assert h !in first[1..];
    assert from <= to by {
      assert Base(h, to) in after[to].list;
    }
    if to > from {
      assert h in after[from].list;
      WithoutInside(taken[from].list, Buddy(Base(h, from), from), h);
    }
  }

  lemma TakenListed(before: seq<FreeArea>, after: seq<FreeArea>, h: nat, order: nat, from: nat)
    requires TakenFrom(before, after, h, order, from)
    ensures from <= MAX_ORDER && from < |before| && h in before[from].list
  {
  }

  lemma {:induction false} WithoutInside<T>(s: seq<T>, x: T, y: T)
    requires y in Without(s, x)
    ensures y in s
  {
    if s != [] && s[0] != x && y != s[0] {
      assert y in Without(s[1..], x);
      WithoutInside(s[1..], x, y);
    }
  }

  lemma GivenFirst(before: seq<FreeArea>, given: seq<FreeArea>, h: nat, order: nat, to: nat)
    requires GivenTo(before, given, h, order, to) && Base(h, order) == h
    requires order == MAX_ORDER || Buddy(h, order) !in before[order].list
    ensures |given| == |before| == MAX_ORDER + 1 && given[order].list == [h] + before[order].list
    ensures forall j :: 0 <= j <= MAX_ORDER && j != order ==> given[j].list == before[j].list
  {
    hide Base, Buddy;
    assert to == order;
  }

  lemma TakenFirst(before: seq<FreeArea>, given: seq<FreeArea>, after: seq<FreeArea>, h: nat, x: nat, order: nat, from: nat)
    requires |given| == |before| == MAX_ORDER + 1 && order <= MAX_ORDER && given[order].list == [h] + before[order].list
    requires forall j :: 0 <= j <= MAX_ORDER && j != order ==> given[j].list == before[j].list
    requires TakenFrom(given, after, x, order, from)
    ensures x == h && |after| == MAX_ORDER + 1 && forall j :: 0 <= j <= MAX_ORDER ==> after[j].list == before[j].list
  {
    hide Pow2;
    assert from == order;
    assert given[order].list[1..] == before[order].list;
  }

  /** The buddy is on its free list exactly if it is a free block of this order. */
  lemma BuddyListed(area: seq<FreeArea>, c: seq<Cell>, me: nat, k: nat)
    requires ListsMatch(area, c) && Partitioned(c) && OnlyHeld(c, me, k) && k <= MAX_ORDER
    ensures k < |area|
    ensures var b := Buddy(me, k); b in area[k].list <==> b < |c| && c[b] == Cell(k, Free)
  {
    BuddyFacts(me, k);
    hide Base, Buddy, Partitioned;
  }

  /** The right halves of `h` below order `from` are in front of their lists. */
  ghost predicate HalvesListed(before: seq<FreeArea>, after: seq<FreeArea>, h: nat, order: nat, from: nat) {
    && |before| == |after| == MAX_ORDER + 1 && order <= from <= MAX_ORDER
    && (forall j :: order <= j < from ==> after[j].list == [h + Pow2(j)] + before[j].list)
    && forall j :: 0 <= j < order || from <= j <= MAX_ORDER ==> after[j].list == before[j].list
  }

  lemma TakenIs(before: seq<FreeArea>, popped: seq<FreeArea>, after: seq<FreeArea>, h: nat, order: nat, from: nat)
    requires |before| == MAX_ORDER + 1 && order <= from <= MAX_ORDER
    requires before[from].list != [] && before[from].list[0] == h && forall j :: order <= j < from ==> before[j].list == []
    requires |popped| == |before| && popped == before[from := popped[from]] && popped[from].list == before[from].list[1..]
    requires HalvesListed(popped, after, h, order, from)
    ensures TakenFrom(before, after, h, order, from)
  {
    hide Pow2;
    forall j | order <= j < from ensures after[j].list == [h + Pow2(j)] {
      assert popped[j] == before[j];
    }
  }

  lemma FreeListMatches(area: seq<FreeArea>, c: seq<Cell>, k: nat)
    requires ListsMatch(area, c) && k <= MAX_ORDER && k < |area|
    ensures ListMatches(area[k], k, c)
  {
  }

  /** A free block at the buddy's place ends inside the zone, and a left buddy always does. */
  lemma BuddyInZone(c: seq<Cell>, me: nat, k: nat)
    requires Partitioned(c) && IsBlock(c, me, Cell(k, Held))
    ensures Buddy(me, k) < |c| && c[Buddy(me, k)] == Cell(k, Free) ==> Buddy(me, k) + Pow2(k) <= |c|
    ensures Buddy(me, k) < me ==> Buddy(me, k) + Pow2(k) <= |c|
  {
    BuddyFacts(me, k);
  }

  lemma TakenBlock(c: seq<Cell>, h: nat, k: nat)
    requires Partitioned(c) && Settled(c) && IsBlock(c, h, Cell(k, Free))
    ensures var d := SetBlock(c, h, k, Cell(k, Held));
      OnlyHeld(d, h, k) && SameUsed(c, d) && FreeRun(c, h, k)
  {
    hide Base, Pow2, Partitioned;
    BlockFits(c, h, Cell(k, Free));
    forall p | 0 <= p < |c| ensures h <= p < h + Pow2(k) ==> c[p] == Cell(k, Free) {
      if h <= p < h + Pow2(k) { BlockPages(c, h, p); }
    }
  }

  lemma ReleasedBlock(c: seq<Cell>, h: nat, k: nat)
    requires Partitioned(c) && Settled(c) && IsBlock(c, h, Cell(k, Used))
    ensures OnlyHeld(SetBlock(c, h, k, Cell(k, Held)), h, k)
  {
    hide Base, Pow2, Partitioned;
  }

  /** Taking a free buddy and joining it leaves exactly the joined block in hand. */
  lemma JoinedBlock(c: seq<Cell>, me: nat, k: nat)
    requires Partitioned(c) && OnlyHeld(c, me, k) && Buddy(me, k) < |c| && c[Buddy(me, k)] == Cell(k, Free)
    ensures var b := Buddy(me, k);
      var d := SetBlock(c, b, k, Cell(k, Held));
      var e := SetBlock(d, Base(me, k + 1), k + 1, Cell(k + 1, Held));
      && IsBlock(c, b, Cell(k, Free)) && IsBlock(d, me, Cell(k, Held)) && IsBlock(d, b, Cell(k, Held))
      && (IsBlock(e, Base(me, k + 1), Cell(k + 1, Held)) ==> OnlyHeld(e, Base(me, k + 1), k + 1))
      && SameUsed(c, e)
  {
    hide Base, Pow2, Partitioned;
    var b := Buddy(me, k);
    BuddyFacts(me, k);
    Pow2Double(k);
    forall p | 0 <= p < |c| && Base(me, k + 1) <= p < Base(me, k + 1) + Pow2(k + 1) ensures !c[p].st.Used? {
      if me <= p < me + Pow2(k) { BlockPages(c, me, p); } else { BlockPages(c, b, p); }
    }
  }

  lemma GivenBlock(c: seq<Cell>, h: nat, k: nat)
    requires Partitioned(c) && OnlyHeld(c, h, k)
    ensures var d := SetBlock(c, h, k, Cell(k, Free)); Settled(d) && SameUsed(c, d)
  {
    hide Base, Pow2, Partitioned;
    forall p | 0 <= p < |c| && h <= p < h + Pow2(k) ensures c[p].st.Held? { BlockPages(c, h, p); }
  }
}
