/**
 The page allocator of kernel/mm/page_alloc.c over all zones: the zone searches, the translation
 between `struct page` and physical addresses, alloc_pages and dealloc_pages.

 A `struct page *` is its index in the global page map, which every zone owns a range of.
 */
module PageAlloc {
  import opened Arith
  import opened Sequences
  import opened BuddyModel
  import opened PageMath
  import opened Zone
  import opened Words

  const ZONE_DMA: nat := 0
  const ZONE_NORMAL: nat := 1
  const ZONE_HIGHMEM: nat := 2
  const NR_ZONE_TYPES: nat := 3

  const ZONE_DMA_LIMIT: nat := 0x1000000
  const ZONE_NORMAL_LIMIT: nat := 0x38000000

  /** One entry of zones_list: its type, base_addr, mmap_base, and the buddy system. */
  datatype ZoneEntry = ZoneEntry(kind: nat, base: nat, first: nat, zone: MemZone)
  {
    function Count(): (n: nat) { zone.pages.Length }

    predicate HasPage(p: nat) { first <= p < first + Count() }

    predicate HasAddress(a: nat) { base <= a < base + Count() * PAGE_SIZE }
  }

  function ZoneType(addr: nat): (kind: nat)
    ensures kind < NR_ZONE_TYPES
  {
    if addr < ZONE_DMA_LIMIT then ZONE_DMA else if addr < ZONE_NORMAL_LIMIT then ZONE_NORMAL else ZONE_HIGHMEM
  }

  /** Zones are page aligned, stay inside the limits of their type and do not overlap. */
  ghost predicate WellFormed(zones: seq<ZoneEntry>) {
    && (forall i :: 0 <= i < |zones| ==>
      && zones[i].base % PAGE_SIZE == 0
      && (forall a: nat :: zones[i].HasAddress(a) ==> ZoneType(a) == zones[i].kind && a < U32))
    && (forall i, j :: 0 <= i < |zones| && 0 <= j < |zones| && i != j ==>
      && zones[i].zone != zones[j].zone
      && zones[i].zone.pages != zones[j].zone.pages
      && zones[i].zone.area != zones[j].zone.area
      && (zones[i].first + zones[i].Count() <= zones[j].first || zones[j].first + zones[j].Count() <= zones[i].first)
      && (forall a: nat :: !(zones[i].HasAddress(a) && zones[j].HasAddress(a))))
  }

  // ---------------------------------------------------------------------------------------------
  // Pages and physical addresses
  // ---------------------------------------------------------------------------------------------

  ghost predicate IsPage(zones: seq<ZoneEntry>, p: nat) {
    exists i :: 0 <= i < |zones| && zones[i].HasPage(p)
  }

  /** The physical address of a page of the map. */
  ghost function PhysOf(zones: seq<ZoneEntry>, p: nat): (a: nat)
    requires IsPage(zones, p)
  {
    var i :| 0 <= i < |zones| && zones[i].HasPage(p);
    zones[i].base + (p - zones[i].first) * PAGE_SIZE
  }

  lemma OnlyZone(zones: seq<ZoneEntry>, p: nat, i: nat)
    requires WellFormed(zones) && i < |zones| && zones[i].HasPage(p)
    ensures forall j :: 0 <= j < |zones| && zones[j].HasPage(p) ==> j == i
    ensures IsPage(zones, p) && PhysOf(zones, p) == zones[i].base + (p - zones[i].first) * PAGE_SIZE
    ensures zones[i].HasAddress(PhysOf(zones, p)) && PhysOf(zones, p) % PAGE_SIZE == 0
  {
  }

  /** Different pages have different physical addresses. */
  lemma PhysInjective(zones: seq<ZoneEntry>, p: nat, q: nat)
    requires WellFormed(zones) && IsPage(zones, p) && IsPage(zones, q)
    requires PhysOf(zones, p) == PhysOf(zones, q)
    ensures p == q
  {
    var i :| 0 <= i < |zones| && zones[i].HasPage(p);
    var j :| 0 <= j < |zones| && zones[j].HasPage(q);
    OnlyZone(zones, p, i);
    OnlyZone(zones, q, j);
  }

  /** The global record of allocations agrees with the record of one zone. */
  ghost predicate Synced(all: map<nat, nat>, e: ZoneEntry, local: map<nat, nat>) {
    && (forall x: nat :: x in local ==> x < e.Count())
    && (forall p: nat :: e.HasPage(p) ==> (p in all <==> p - e.first in local))
    && (forall p: nat :: e.HasPage(p) && p in all ==> all[p] == local[p - e.first])
  }

  lemma SyncedHere(all: map<nat, nat>, e: ZoneEntry, local: map<nat, nat>, x: nat, order: nat)
    requires Synced(all, e, local) && e.HasPage(e.first + x)
    ensures x in local <==> e.first + x in all
    ensures Synced(all[e.first + x := order], e, local[x := order])
    ensures Synced(all - {e.first + x}, e, local - {x})
  {
  }

  lemma SyncedElsewhere(all: map<nat, nat>, zones: seq<ZoneEntry>, local: map<nat, nat>, i: nat, j: nat, p: nat, order: nat)
    requires WellFormed(zones) && i < |zones| && j < |zones| && i != j && zones[i].HasPage(p)
    requires Synced(all, zones[j], local)
    ensures Synced(all[p := order], zones[j], local) && Synced(all - {p}, zones[j], local)
  {
    OnlyZone(zones, p, i);
  }

  lemma DistinctObjects(zones: seq<ZoneEntry>, i: nat, j: nat)
    requires WellFormed(zones) && i < |zones| && j < |zones| && i != j
    ensures zones[i].zone != zones[j].zone && zones[i].zone.pages != zones[j].zone.pages
    ensures zones[i].zone.area != zones[j].zone.area
  {
  }

  class PageAllocator {
    const zones: seq<ZoneEntry>
    /** The outstanding allocations over all zones: page to order. */
    ghost var live: map<nat, nat>

    ghost function Objects(): (r: set<object>) {
      {this} + (set e | e in zones :: e.zone as object) + (set e | e in zones :: e.zone.pages as object)
      + (set e | e in zones :: e.zone.area as object)
    }

    ghost predicate ZoneInSync(i: nat)
      requires i < |zones|
      reads this, zones[i].zone, zones[i].zone.pages, zones[i].zone.area
    {
      zones[i].zone.Valid() && Synced(live, zones[i], Live(zones[i].zone.cells))
    }

    ghost predicate Valid()
      reads Objects()
    {
      && WellFormed(zones)
      && (forall i :: 0 <= i < |zones| ==> ZoneInSync(i))
      && (forall p :: p in live ==> IsPage(zones, p))
    }

    /** The first part of page_alloc_init: all zones have just been built. */
    constructor (zones: seq<ZoneEntry>)
      requires WellFormed(zones)
      requires forall i :: 0 <= i < |zones| ==> zones[i].zone.Valid() && Live(zones[i].zone.cells) == map[]
      ensures Valid() && this.zones == zones && live == map[]
    {
      this.zones := zones;
      live := map[];
    }

    // -------------------------------------------------------------------------------------------
    // Searches
    // -------------------------------------------------------------------------------------------

    method PageToZone(page: nat) returns (r: Option<nat>)
      ensures r.None? <==> !IsPage(zones, page)
      ensures r.Some? ==> r.value < |zones| && zones[r.value].HasPage(page)
    {
      for i := 0 to |zones|
        invariant forall j :: 0 <= j < i ==> !zones[j].HasPage(page)
      {
        if page >= zones[i].first && page < zones[i].first + zones[i].Count() {
          return Some(i);
        }
      }
      return None;
    }

    /** phys_to_zone. */
    method PhysToZone(addr: nat) returns (r: Option<nat>)
      requires WellFormed(zones)
      ensures r.Some? <==> exists i :: 0 <= i < |zones| && zones[i].HasAddress(addr)
      ensures r.Some? ==> r.value < |zones| && zones[r.value].HasAddress(addr)
    {
      var floor := addr - addr % PAGE_SIZE;
      FloorInZone(zones, addr);
      var kind := ZoneType(floor);
      for i := 0 to |zones|
        invariant forall j :: 0 <= j < i ==> !zones[j].HasAddress(floor)
      {
        if zones[i].kind == kind && zones[i].base <= floor && floor < zones[i].base + zones[i].Count() * PAGE_SIZE {
          return Some(i);
        }
      }
      return None;
    }

    method PageToPhys(page: nat) returns (addr: nat)
      requires WellFormed(zones) && IsPage(zones, page)
      ensures addr == PhysOf(zones, page) && addr % PAGE_SIZE == 0 && addr < U32
    {
      var i := PageToZone(page);
      OnlyZone(zones, page, i.value);
      addr := zones[i.value].base + (page - zones[i.value].first) * PAGE_SIZE;
    }

    /** The page whose frame holds the address, if any zone has it. */
    method PhysToPage(addr: nat) returns (r: Option<nat>)
      requires WellFormed(zones)
      ensures r.Some? <==> exists i :: 0 <= i < |zones| && zones[i].HasAddress(addr)
      ensures r.Some? ==> IsPage(zones, r.value) && PhysOf(zones, r.value) == addr - addr % PAGE_SIZE
    {
      var floor := addr - addr % PAGE_SIZE;
      FloorInZone(zones, addr);
      var kind := ZoneType(floor);
      for i := 0 to |zones|
        invariant forall j :: 0 <= j < i ==> !zones[j].HasAddress(floor)
      {
        if zones[i].kind == kind && zones[i].base <= floor && floor < zones[i].base + zones[i].Count() * PAGE_SIZE {
          var page := zones[i].first + (floor - zones[i].base) / PAGE_SIZE;
          OnlyZone(zones, page, i);
          return Some(page);
        }
      }
      return None;
    }

    // -------------------------------------------------------------------------------------------
    // Allocation and release
    // -------------------------------------------------------------------------------------------

    /** Some zone of the type has a size-aligned all-free run of 2^order pages. */
    ghost predicate HasRun(kind: nat, order: nat)
      reads Objects()
    {
      exists i :: 0 <= i < |zones| && zones[i].kind == kind && HasFreeRun(zones[i].zone.cells, order)
    }

    ghost function Cells(): (c: seq<seq<Cell>>)
      reads Objects()
      ensures |c| == |zones| && forall i :: 0 <= i < |zones| ==> c[i] == zones[i].zone.cells
    {
      seq(|zones|, i requires 0 <= i < |zones| reads Objects() => zones[i].zone.cells)
    }

    /** The zones of the type have two free pages or more. */
    ghost predicate TwoFree(kind: nat)
      reads Objects()
    {
      TwoFreeIn(zones, Cells(), kind)
    }

    lemma TwoNeedOne(kind: nat)
      ensures TwoFree(kind) ==> HasRun(kind, 0)
    {
      hide HasRun, FreeAt;
      RunIsPage(kind);
    }

    lemma RunIsPage(kind: nat)
      ensures HasRun(kind, 0) <==> exists i, x :: FreeAt(zones, Cells(), kind, i, x)
    {
      hide HasFreeRun;
      var c := Cells();
      if i: nat, x: nat :| FreeAt(zones, c, kind, i, x) {
        SomeFree(c[i]);
      }
      if i: nat :| i < |zones| && zones[i].kind == kind && HasFreeRun(zones[i].zone.cells, 0) {
        SomeFree(c[i]);
        var x: nat :| x < |c[i]| && c[i][x].st.Free?;
        assert FreeAt(zones, c, kind, i, x);
      }
    }

    /** The block comes from the first zone of the type that has one, and is the best fit there. */
    twostate predicate FirstFit(page: nat, kind: nat, order: nat)
      reads Objects()
    {
      exists i :: 0 <= i < |zones| && zones[i].kind == kind && zones[i].HasPage(page)
        && (forall j :: 0 <= j < i && zones[j].kind == kind ==> !HasFreeRun(old(zones[j].zone.cells), order))
        && BestFit(old(zones[i].zone.area[..]), zones[i].zone.area[..], page - zones[i].first, order)
    }

    method AllocPages(kind: nat, order: nat) returns (r: Option<nat>)
      requires Valid() && kind < NR_ZONE_TYPES
      modifies Objects()
      ensures Valid()
      ensures r.None? <==> order > MAX_ORDER || !old(HasRun(kind, order))
      ensures r.None? ==> live == old(live) && forall i :: 0 <= i < |zones| ==> zones[i].zone.cells == old(zones[i].zone.cells)
      ensures r.Some? ==> r.value !in old(live) && live == old(live)[r.value := order]
      ensures r.Some? ==> exists i :: 0 <= i < |zones| && zones[i].kind == kind && zones[i].HasPage(r.value)
      ensures r.Some? ==> FirstFit(r.value, kind, order)
      ensures r.None? ==> Cells() == old(Cells())
      ensures r.Some? && order == 0 ==> (HasRun(kind, 0) <==> old(TwoFree(kind)))
      ensures forall i :: 0 <= i < |zones| && zones[i].kind != kind ==> zones[i].zone.cells == old(zones[i].zone.cells)
      ensures forall k, o :: k != kind || r.None? ==> HasRun(k, o) == old(HasRun(k, o))
    {
      hide ZoneInSync, WellFormed, HasFreeRun, IsPage, Objects, Valid, BestFit, LosesPage, TwoFreeIn, FreeAt;
      if order > MAX_ORDER {
        return None;
      }
      ghost var before := Cells();
      for i := 0 to |zones|
        invariant Valid() && live == old(live)
        invariant forall j :: 0 <= j < |zones| ==>
          zones[j].zone.cells == old(zones[j].zone.cells) && zones[j].zone.area[..] == old(zones[j].zone.area[..])
        invariant forall j :: 0 <= j < i && zones[j].kind == kind ==> !HasFreeRun(old(zones[j].zone.cells), order)
      {
        if zones[i].kind == kind {
          r := AllocFrom(i, order);
          if r.Some? {
            if order == 0 {
              SecondFree(zones, before, Cells(), kind, i, r.value - zones[i].first);
              RunIsPage(kind);
            }
            return;
          }
        }
      }
      return None;
    }

    /** The zone-local part of alloc_pages, seen from all zones. */
    method AllocFrom(i: nat, order: nat) returns (r: Option<nat>)
      requires Valid() && i < |zones| && order <= MAX_ORDER
      modifies Objects()
      ensures Valid()
      ensures r.None? <==> !HasFreeRun(old(zones[i].zone.cells), order)
      ensures r.None? ==> live == old(live) && forall j :: 0 <= j < |zones| ==>
        zones[j].zone.cells == old(zones[j].zone.cells) && zones[j].zone.area[..] == old(zones[j].zone.area[..])
      ensures r.Some? ==> r.value !in old(live) && live == old(live)[r.value := order]
      ensures r.Some? ==> zones[i].HasPage(r.value) && IsPage(zones, r.value)
      ensures r.Some? ==> BestFit(old(zones[i].zone.area[..]), zones[i].zone.area[..], r.value - zones[i].first, order)
      ensures r.Some? && order == 0 ==> LosesPage(old(zones[i].zone.cells), zones[i].zone.cells, r.value - zones[i].first)
      ensures forall j :: 0 <= j < |zones| && j != i ==>
        zones[j].zone.cells == old(zones[j].zone.cells) && zones[j].zone.area[..] == old(zones[j].zone.area[..])
    {
      hide Consistent, Settled, FreeRun, Live, Synced, WellFormed, BestFit, LosesPage;
      assert ZoneInSync(i);
      var x := zones[i].zone.AllocPages(order);
      forall j | 0 <= j < |zones| && j != i
        ensures zones[j].zone.Valid()
        ensures zones[j].zone.cells == old(zones[j].zone.cells) && zones[j].zone.area[..] == old(zones[j].zone.area[..])
      {
        assert old(ZoneInSync(j));
        DistinctObjects(zones, i, j);
      }
      if x.None? {
        forall j | 0 <= j < |zones| ensures ZoneInSync(j) {
          assert old(ZoneInSync(j));
        }
        return None;
      }
      r := Some(zones[i].first + x.value);
      FreeRunInZone(old(zones[i].zone.cells), x.value, order);
      CellsAreThePages(zones[i].zone.pages[..], zones[i].zone.area[..], zones[i].zone.cells);
      assert zones[i].HasPage(r.value);
      SyncedHere(live, zones[i], old(Live(zones[i].zone.cells)), x.value, order);
      live := live[r.value := order];
      forall j | 0 <= j < |zones| ensures ZoneInSync(j) {
        if j != i {
          assert old(ZoneInSync(j));
          SyncedElsewhere(old(live), zones, Live(zones[j].zone.cells), i, j, r.value, order);
        }
      }
    }

    method DeallocPages(page: nat, order: nat)
      requires Valid() && page in live && live[page] == order
      modifies Objects()
      ensures Valid() && live == old(live) - {page}
    {
      hide Consistent, Settled, FreeRun, Live, Synced, WellFormed;
      var found := PageToZone(page);
      ghost var i := found.value;
      var e, x := zones[found.value], page - zones[found.value].first;
      assert ZoneInSync(i);
      SyncedHere(live, e, Live(e.zone.cells), x, order);
      LiveOrder(live, e, Live(e.zone.cells), x);
      e.zone.DeallocPages(x, order);
      live := live - {page};
      forall j | 0 <= j < |zones| ensures ZoneInSync(j) {
        if j != i {
          assert old(ZoneInSync(j));
          DistinctObjects(zones, i, j);
          SyncedElsewhere(old(live), zones, Live(zones[j].zone.cells), i, j, page, order);
        }
      }
    }

    /** Zones with the same outstanding allocations have the same blocks and the same free blocks. */
    twostate lemma SameLiveSameZones()
      requires old(Valid()) && Valid() && live == old(live)
      ensures forall i :: 0 <= i < |zones| ==> zones[i].zone.cells == old(zones[i].zone.cells)
    {
      forall i | 0 <= i < |zones| ensures zones[i].zone.cells == old(zones[i].zone.cells) {
        assert ZoneInSync(i) && old(ZoneInSync(i));
        SameLocal(live, zones[i], Live(zones[i].zone.cells), old(Live(zones[i].zone.cells)));
        Canonical(zones[i].zone.cells, old(zones[i].zone.cells));
      }
    }

    // -------------------------------------------------------------------------------------------
    // Regions of physical memory
    // -------------------------------------------------------------------------------------------

    /** alloc_region: the pages of a region that is free, in zone `i`, become used single pages. */
    method AllocRegion(base: nat, end: nat, ghost i: nat)
      requires Valid() && i < |zones| && InZone(zones[i], base, end) && FreeFor(zones[i], base, end) && EndsInside(zones[i], base, end)
      modifies Objects()
      ensures Valid()
      ensures forall p: nat :: p in live <==> p in old(live) || InRegion(zones, p, base, end)
      ensures forall p :: p in live ==> live[p] == if p in old(live) then old(live)[p] else 0
    {
      hide Consistent, Settled, Live, Synced, WellFormed, InRegion, HasFreeRun, Valid, Singles;
      ValidZones();
      var found := PhysToZone(base);
      SameZone(zones, i, found.value, base);
      var e := zones[found.value];
      var from, to := (base - e.base) / PAGE_SIZE, (end - e.base) / PAGE_SIZE;
      RegionInside(zones, i, base, end);
      TakePages(found.value, from, to);
      RegionIsSingles(zones, i, base, end);
    }

    /** The zone-local part of alloc_region, seen from all zones. */
    method TakePages(i: nat, from: nat, to: nat)
      requires Valid() && i < |zones| && from <= to < zones[i].Count() < ULONG_MAX
      requires forall p :: (from <= p < to || p == from) && p < |zones[i].zone.cells| ==> zones[i].zone.cells[p].st.Free?
      requires var c, last := zones[i].zone.cells, LastPage(from, to); last < |c| && Head(c, last) + Pow2(c[last].order) < |c|
      modifies Objects()
      ensures Valid() && live == old(live) + Singles(zones[i].first + from, zones[i].first + to)
      ensures forall p :: p in Singles(zones[i].first + from, zones[i].first + to) ==> p !in old(live)
    {
      hide Consistent, Settled, Live, Synced, WellFormed, HasFreeRun, Singles, IsPage;
      assert ZoneInSync(i);
      var e := zones[i];
      CellsAreThePages(e.zone.pages[..], e.zone.area[..], e.zone.cells);
      ghost var was := Live(e.zone.cells);
      FreeNotLive(e.zone.cells, from, to);
      e.zone.AllocRegion(from, to);
      live := live + Singles(e.first + from, e.first + to);
      SyncedRegion(old(live), e, was, from, to);
      forall j | 0 <= j < |zones| ensures ZoneInSync(j) {
        if j != i {
          assert old(ZoneInSync(j));
          DistinctObjects(zones, i, j);
          SyncedRegionElsewhere(old(live), zones, Live(zones[j].zone.cells), i, j, from, to);
        }
      }
      SinglesPages(zones, old(live), i, from, to);
    }

    /**
     The second part of page_alloc_init: exactly the pages of the kernel image [load, imageEnd) are taken,
     singly. The image, and the last block it touches, end before the zone does.
     */
    method ReserveImage(load: nat, imageEnd: nat, ghost i: nat)
      requires Valid() && live == map[] && load <= imageEnd && i < |zones|
      requires InZone(zones[i], PageFloor(load), PageCeil(imageEnd)) && EndsInside(zones[i], PageFloor(load), PageCeil(imageEnd))
      modifies Objects()
      ensures Valid()
      ensures forall p: nat :: p in live <==> InRegion(zones, p, PageFloor(load), PageCeil(imageEnd))
      ensures forall p :: p in live ==> live[p] == 0
    {
      hide Consistent, Settled, Live, WellFormed, InRegion, EndsInside;
      ghost var e := zones[i];
      assert ZoneInSync(i);
      NothingHere(live, e, Live(e.zone.cells));
      NothingLive(e.zone.pages[..], e.zone.area[..], e.zone.cells);
      AllocRegion(PageFloor(load), PageCeil(imageEnd), i);
    }

    lemma ValidZones()
      requires Valid()
      ensures WellFormed(zones)
    {
    }

    // -------------------------------------------------------------------------------------------
    // Blocks by address
    // -------------------------------------------------------------------------------------------

    /** get_free_pages: ZONE_DMA is tried only when the mask has no GFP_NORMAL. */
    method GetFreePages(gfpNormal: bool, gfpDma: bool, order: nat) returns (r: Option<nat>)
      requires Valid()
      modifies Objects()
      ensures Valid()
      ensures r.Some? <==>
        order <= MAX_ORDER && if gfpNormal then old(HasRun(ZONE_NORMAL, order)) else gfpDma && old(HasRun(ZONE_DMA, order))
      ensures r.None? ==> live == old(live)
      ensures r.Some? ==> InKind(if gfpNormal then ZONE_NORMAL else ZONE_DMA, r.value) && r.value % PAGE_SIZE == 0 && r.value < U32
      ensures r.Some? ==> r.value < 0x38000000 && (r.value < 0x1000000 <==> !gfpNormal)
      ensures r.Some? ==> exists p: nat :: p !in old(live) && live == old(live)[p := order] && IsPage(zones, p) && PhysOf(zones, p) == r.value
    {
      hide Valid, HasRun, InKind, Objects, IsPage, PhysOf;
      ghost var p: nat;
      if gfpNormal {
        r, p := AllocAt(ZONE_NORMAL, order);
      } else if gfpDma {
        r, p := AllocAt(ZONE_DMA, order);
      } else {
        r := None;
      }
      if r.Some? {
        ValidZones();
        KindRange(if gfpNormal then ZONE_NORMAL else ZONE_DMA, r.value);
      }
    }

    /** alloc_pages with the address of the block; `page` is its first page. */
    method AllocAt(kind: nat, order: nat) returns (r: Option<nat>, ghost page: nat)
      requires Valid() && kind < NR_ZONE_TYPES
      modifies Objects()
      ensures Valid()
      ensures r.None? <==> order > MAX_ORDER || !old(HasRun(kind, order))
      ensures r.None? ==> live == old(live)
      ensures r.Some? ==> page !in old(live) && live == old(live)[page := order] && IsPage(zones, page) && PhysOf(zones, page) == r.value
      ensures r.Some? ==> InKind(kind, r.value) && r.value % PAGE_SIZE == 0 && r.value < U32
      ensures forall k, o :: k != kind || r.None? ==> HasRun(k, o) == old(HasRun(k, o))
      ensures r.None? ==> Cells() == old(Cells())
      ensures r.Some? && order == 0 ==> (HasRun(kind, 0) <==> old(TwoFree(kind)))
    {
      hide TwoFreeIn, Valid, HasRun, IsPage, PhysOf, WellFormed, InKind, FirstFit, ZoneInSync, Cells, Objects;
      var found := AllocPages(kind, order);
      page := 0;
      if found.None? {
        return None, page;
      }
      page := found.value;
      var addr := PageAddress(found.value, kind);
      r := Some(addr);
    }

    /** page_to_phys for a page of a zone of this type; nothing changes. */
    method PageAddress(page: nat, ghost kind: nat) returns (addr: nat)
      requires Valid() && exists i :: 0 <= i < |zones| && zones[i].kind == kind && zones[i].HasPage(page)
      ensures Valid() && live == old(live) && Cells() == old(Cells())
      ensures forall k, o :: HasRun(k, o) == old(HasRun(k, o))
      ensures IsPage(zones, page) && addr == PhysOf(zones, page)
      ensures InKind(kind, addr) && addr % PAGE_SIZE == 0 && addr < U32
    {
      hide HasFreeRun, IsPage, PhysOf, WellFormed, InKind, ZoneInSync;
      ValidZones();
      KindOfPage(kind, page);
      addr := PageToPhys(page);
    }

    /** The outstanding block of this order at the address. */
    ghost predicate BlockAt(addr: nat, order: nat)
      reads this
    {
      exists p: nat :: p in live && live[p] == order && IsPage(zones, p) && PhysOf(zones, p) == addr
    }

    /** phys_to_page finds the page the block at an address belongs to, and no other page has it. */
    method PageAt(addr: nat, ghost order: nat) returns (page: nat)
      requires Valid() && BlockAt(addr, order)
      ensures page in live && live[page] == order && IsPage(zones, page) && PhysOf(zones, page) == addr
      ensures forall q: nat :: IsPage(zones, q) && PhysOf(zones, q) == addr ==> q == page
    {
      hide ZoneInSync;
      OwnedInZone(zones, live, addr);
      var found := PhysToPage(addr);
      page := found.value;
      hide IsPage, PhysOf, WellFormed;
      forall q: nat | IsPage(zones, q) && PhysOf(zones, q) == addr ensures q == page {
        PhysInjective(zones, q, page);
      }
    }

    /** free_pages: exactly the block at the address goes. */
    method FreePages(addr: nat, order: nat)
      requires Valid() && BlockAt(addr, order)
      modifies Objects()
      ensures Valid()
      ensures forall p: nat :: IsPage(zones, p) && PhysOf(zones, p) == addr ==> live == old(live) - {p}
    {
      hide ZoneInSync, IsPage, PhysOf, WellFormed;
      var page := PageAt(addr, order);
      DeallocPages(page, order);
    }

    /** dealloc_region: all its pages are single pages handed out. */
    method DeallocRegion(base: nat, end: nat, ghost i: nat)
      requires Valid() && i < |zones| && InZone(zones[i], base, end)
      requires forall p: nat :: InRegion(zones, p, base, end) ==> p in live && live[p] == 0
      modifies Objects()
      ensures Valid()
      ensures forall p: nat :: p in live <==> p in old(live) && !InRegion(zones, p, base, end)
      ensures forall p :: p in live ==> live[p] == old(live)[p]
    {
      hide ZoneInSync, WellFormed, IsPage, PhysOf, InRegion, Objects, Valid, BlockAt;
      RegionEmpty(zones, base);
      var a := base;
      while a != end
        invariant base <= a <= end && a % PAGE_SIZE == 0 && Valid()
        invariant forall p: nat :: p in live <==> p in old(live) && !InRegion(zones, p, base, a)
        invariant forall p :: p in live ==> live[p] == old(live)[p]
        decreases end - a
      {
        ValidZones();
        ghost var page := PageFor(zones, i, base, end, a);
        RegionNext(zones, page, base, end, a);
        assert page in old(live) && page in live;
        IsBlockAt(page);
        FreePages(a, 0);
        a := a + PAGE_SIZE;
      }
    }

    lemma IsBlockAt(page: nat)
      requires page in live && IsPage(zones, page)
      ensures BlockAt(PhysOf(zones, page), live[page])
    {
    }

    // -------------------------------------------------------------------------------------------
    // Single pages by address
    // -------------------------------------------------------------------------------------------

    /** The physical addresses of the single pages handed out. */
    ghost function Owned(): (r: set<nat>)
      requires Valid()
      reads Objects()
    {
      SingleFrames(zones, live)
    }

    /** The address lies in a zone of this type. */
    predicate InKind(kind: nat, addr: nat) {
      exists i :: 0 <= i < |zones| && zones[i].kind == kind && zones[i].HasAddress(addr)
    }

    /** Addresses of the three zone types: below 16 MiB, from there to 896 MiB, and above. */
    lemma KindRange(kind: nat, addr: nat)
      requires WellFormed(zones) && InKind(kind, addr)
      ensures addr < U32
      ensures kind == ZONE_DMA <==> addr < 0x1000000
      ensures kind == ZONE_NORMAL <==> 0x1000000 <= addr < 0x38000000
      ensures kind == ZONE_HIGHMEM <==> 0x38000000 <= addr
    {
    }

    /** alloc_pages for one page, as an address; zones of other types stay as they were. */
    method AllocPageAt(kind: nat) returns (r: Option<nat>)
      requires Valid() && kind < NR_ZONE_TYPES
      modifies Objects()
      ensures Valid()
      ensures r.None? <==> !old(HasRun(kind, 0))
      ensures r.None? ==> live == old(live) && Owned() == old(Owned())
      ensures forall k :: k != kind || r.None? ==> HasRun(k, 0) == old(HasRun(k, 0))
      ensures r.None? ==> Cells() == old(Cells())
      ensures r.Some? ==> (HasRun(kind, 0) <==> old(TwoFree(kind)))
      ensures r.Some? ==> InKind(kind, r.value)
      ensures r.Some? ==> r.value !in old(Owned()) && Owned() == old(Owned()) + {r.value}
      ensures r.Some? ==> r.value % PAGE_SIZE == 0 && r.value < U32
      ensures r.Some? ==> exists p: nat :: live == old(live)[p := 0] && p !in old(live) && IsPage(zones, p) && PhysOf(zones, p) == r.value
    {
      hide TwoFreeIn, WellFormed, IsPage, PhysOf, HasRun, SingleFrames, InKind;
      ghost var p: nat;
      r, p := AllocAt(kind, 0);
      if r.Some? { SinglesGrow(zones, old(live), p); }
    }

    lemma KindOfPage(kind: nat, p: nat)
      requires WellFormed(zones) && exists i :: 0 <= i < |zones| && zones[i].kind == kind && zones[i].HasPage(p)
      ensures IsPage(zones, p) && InKind(kind, PhysOf(zones, p))
    {
      var i :| 0 <= i < |zones| && zones[i].kind == kind && zones[i].HasPage(p);
      OnlyZone(zones, p, i);
    }

    /** get_free_page: ZONE_DMA is tried only when the mask has no GFP_NORMAL. */
    method GetFreePage(gfpNormal: bool, gfpDma: bool) returns (r: Option<nat>)
      requires Valid()
      modifies Objects()
      ensures Valid()
      ensures r.Some? <==> if gfpNormal then old(HasRun(ZONE_NORMAL, 0)) else gfpDma && old(HasRun(ZONE_DMA, 0))
      ensures r.None? ==> live == old(live) && Owned() == old(Owned())
      ensures r.Some? ==> InKind(if gfpNormal then ZONE_NORMAL else ZONE_DMA, r.value)
      ensures r.Some? ==> r.value !in old(Owned()) && Owned() == old(Owned()) + {r.value}
      ensures r.Some? ==> r.value % PAGE_SIZE == 0 && r.value < U32
    {
      hide Owned, Valid, HasRun, InKind;
      if gfpNormal {
        r := AllocPageAt(ZONE_NORMAL);
      } else if gfpDma {
        r := AllocPageAt(ZONE_DMA);
      } else {
        r := None;
      }
    }

    /** dealloc_pages(phys_to_page(addr), 0), which is also free_page. */
    method FreePageAt(addr: nat)
      requires Valid() && addr in Owned()
      modifies Objects()
      ensures Valid() && Owned() == old(Owned()) - {addr}
      ensures forall p: nat :: IsPage(zones, p) && PhysOf(zones, p) == addr ==> live == old(live) - {p}
    {
      hide ZoneInSync, IsPage, PhysOf, WellFormed;
      ghost var p: nat :| p in live && live[p] == 0 && PhysOf(zones, p) == addr;
      assert IsPage(zones, p) && BlockAt(addr, 0);
      var page := PageAt(addr, 0);
      SinglesShrink(zones, live, page);
      DeallocPages(page, 0);
    }
  }

  /** The addresses of the single pages among some blocks. */
  ghost function SingleFrames(zones: seq<ZoneEntry>, live: map<nat, nat>): (r: set<nat>)
    requires forall p :: p in live ==> IsPage(zones, p)
  {
    set p | p in live && live[p] == 0 :: PhysOf(zones, p)
  }

  lemma SinglesGrow(zones: seq<ZoneEntry>, live: map<nat, nat>, p: nat)
    requires WellFormed(zones) && (forall q :: q in live ==> IsPage(zones, q)) && IsPage(zones, p) && p !in live
    ensures forall q :: q in live[p := 0] ==> IsPage(zones, q)
    ensures PhysOf(zones, p) !in SingleFrames(zones, live)
    ensures SingleFrames(zones, live[p := 0]) == SingleFrames(zones, live) + {PhysOf(zones, p)}
  {
    hide WellFormed, IsPage, PhysOf;
    forall q | q in live ensures PhysOf(zones, q) != PhysOf(zones, p) {
      if PhysOf(zones, q) == PhysOf(zones, p) { PhysInjective(zones, p, q); }
    }
  }

  lemma SinglesShrink(zones: seq<ZoneEntry>, live: map<nat, nat>, p: nat)
    requires WellFormed(zones) && (forall q :: q in live ==> IsPage(zones, q)) && p in live && live[p] == 0
    ensures SingleFrames(zones, live - {p}) == SingleFrames(zones, live) - {PhysOf(zones, p)}
  {
    hide WellFormed, IsPage, PhysOf;
    forall q | q in live && q != p ensures PhysOf(zones, q) != PhysOf(zones, p) {
      if PhysOf(zones, q) == PhysOf(zones, p) { PhysInjective(zones, p, q); }
    }
  }

  lemma OwnedInZone(zones: seq<ZoneEntry>, live: map<nat, nat>, addr: nat)
    requires WellFormed(zones) && forall p :: p in live ==> IsPage(zones, p)
    requires exists p: nat :: p in live && IsPage(zones, p) && PhysOf(zones, p) == addr
    ensures addr % PAGE_SIZE == 0 && exists i :: 0 <= i < |zones| && zones[i].HasAddress(addr)
  {
    var p: nat :| p in live && PhysOf(zones, p) == addr;
    var i :| 0 <= i < |zones| && zones[i].HasPage(p);
    OnlyZone(zones, p, i);
  }

  /** A page-aligned region inside one zone, its end included. */
  predicate InZone(e: ZoneEntry, base: nat, end: nat) {
    base % PAGE_SIZE == 0 && end % PAGE_SIZE == 0 && base <= end && e.HasAddress(base) && e.HasAddress(end)
  }

  /** The pages of the region, and the one it begins with, are free. */
  ghost predicate FreeFor(e: ZoneEntry, base: nat, end: nat)
    requires InZone(e, base, end)
    reads e.zone
  {
    var from, to := (base - e.base) / PAGE_SIZE, (end - e.base) / PAGE_SIZE;
    forall p :: (from <= p < to || p == from) && p < |e.zone.cells| ==> e.zone.cells[p].st.Free?
  }

  /** The last block that the region touches ends before the zone. */
  ghost predicate EndsInside(e: ZoneEntry, base: nat, end: nat)
    requires InZone(e, base, end)
    reads e.zone
  {
    var c, last := e.zone.cells, LastPage((base - e.base) / PAGE_SIZE, (end - e.base) / PAGE_SIZE);
    last < |c| && Head(c, last) + Pow2(c[last].order) < |c|
  }

  ghost predicate InRegion(zones: seq<ZoneEntry>, p: nat, base: nat, end: nat) {
    IsPage(zones, p) && base <= PhysOf(zones, p) < end
  }

  /** Page `x` of zone `i`, which is of this type, is free. */
  ghost predicate FreeAt(zones: seq<ZoneEntry>, c: seq<seq<Cell>>, kind: nat, i: nat, x: nat) {
    i < |zones| && i < |c| && zones[i].kind == kind && x < |c[i]| && c[i][x].st.Free?
  }

  ghost predicate TwoFreeIn(zones: seq<ZoneEntry>, c: seq<seq<Cell>>, kind: nat) {
    exists i, x, j, y :: FreeAt(zones, c, kind, i, x) && FreeAt(zones, c, kind, j, y) && (i != j || x != y)
  }

  /** After one page has been taken there is another one exactly if there were two. */
  lemma SecondFree(zones: seq<ZoneEntry>, c: seq<seq<Cell>>, d: seq<seq<Cell>>, kind: nat, i: nat, x: nat)
    requires i < |zones| == |c| == |d| && zones[i].kind == kind && LosesPage(c[i], d[i], x)
    requires forall j :: 0 <= j < |zones| && j != i ==> d[j] == c[j]
    ensures (exists j, y :: FreeAt(zones, d, kind, j, y)) <==> TwoFreeIn(zones, c, kind)
  {
    assert FreeAt(zones, c, kind, i, x);
    if j, y :| FreeAt(zones, d, kind, j, y) {
      assert FreeAt(zones, c, kind, j, y) && (i != j || x != y);
    }
    if TwoFreeIn(zones, c, kind) {
      var j, y :| FreeAt(zones, c, kind, j, y) && (i != j || x != y);
      assert FreeAt(zones, d, kind, j, y);
    }
  }

  lemma SomeFree(c: seq<Cell>)
    ensures HasFreeRun(c, 0) <==> exists y :: 0 <= y < |c| && c[y].st.Free?
  {
    forall y: nat | y < |c| && c[y].st.Free? ensures FreeRun(c, y, 0) {}
    if h: nat :| FreeRun(c, h, 0) { assert c[h].st.Free?; }
  }

  lemma NothingLive(pages: seq<Page>, area: seq<FreeArea>, c: seq<Cell>)
    requires Consistent(pages, area, c) && Settled(c) && Live(c) == map[]
    ensures |c| == |pages| && forall p :: 0 <= p < |c| ==> c[p].st.Free?
  {
    hide Base, Pow2, Coalesced, FlagsMatch, ListsMatch;
    forall p | 0 <= p < |c| ensures c[p].st.Free? {
      HeadIsBlock(c, p);
      assert Head(c, p) !in Live(c);
    }
  }

  lemma FreeNotLive(c: seq<Cell>, from: nat, to: nat)
    requires forall p :: from <= p < to && p < |c| ==> c[p].st.Free?
    ensures forall p :: from <= p < to ==> p !in Live(c)
  {
  }

  lemma SameZone(zones: seq<ZoneEntry>, i: nat, j: nat, a: nat)
    requires WellFormed(zones) && i < |zones| && j < |zones| && zones[i].HasAddress(a) && zones[j].HasAddress(a)
    ensures i == j
  {
  }

  lemma RegionInside(zones: seq<ZoneEntry>, i: nat, base: nat, end: nat)
    requires WellFormed(zones) && i < |zones| && InZone(zones[i], base, end)
    ensures var e := zones[i]; (base - e.base) / PAGE_SIZE <= (end - e.base) / PAGE_SIZE < e.Count() < ULONG_MAX
    ensures zones[i].base % PAGE_SIZE == 0
  {
    var e := zones[i];
    assert e.Count() > 0 ==> e.HasAddress(e.base + (e.Count() - 1) * PAGE_SIZE);
  }

  lemma RegionPages(zones: seq<ZoneEntry>, i: nat, base: nat, end: nat, p: nat)
    requires WellFormed(zones) && i < |zones| && InZone(zones[i], base, end)
    ensures var e := zones[i];
            InRegion(zones, p, base, end) <==> e.first + (base - e.base) / PAGE_SIZE <= p < e.first + (end - e.base) / PAGE_SIZE
  {
    RegionInside(zones, i, base, end);
    var e := zones[i];
    if IsPage(zones, p) {
      var j :| 0 <= j < |zones| && zones[j].HasPage(p);
      OnlyZone(zones, p, j);
      if base <= PhysOf(zones, p) < end {
        assert e.HasAddress(PhysOf(zones, p));
        SameZone(zones, i, j, PhysOf(zones, p));
      }
    }
    if e.HasPage(p) { OnlyZone(zones, p, i); }
    hide WellFormed, PhysOf;
  }

  lemma NothingHere(all: map<nat, nat>, e: ZoneEntry, local: map<nat, nat>)
    requires Synced(all, e, local) && all == map[]
    ensures local == map[]
  {
    forall x: nat ensures x !in local {
      assert x in local ==> e.HasPage(e.first + x);
    }
  }

  lemma RegionEmpty(zones: seq<ZoneEntry>, base: nat)
    ensures forall p: nat :: !InRegion(zones, p, base, base)
  {
  }

  lemma SinglesAre(from: nat, to: nat, p: nat)
    ensures p in Singles(from, to) <==> from <= p < to
    ensures p in Singles(from, to) ==> Singles(from, to)[p] == 0
  {
  }

  lemma RegionIsSingles(zones: seq<ZoneEntry>, i: nat, base: nat, end: nat)
    requires WellFormed(zones) && i < |zones| && InZone(zones[i], base, end)
    ensures var e := zones[i];
            var s := Singles(e.first + (base - e.base) / PAGE_SIZE, e.first + (end - e.base) / PAGE_SIZE);
            (forall p: nat :: p in s <==> InRegion(zones, p, base, end)) && forall p :: p in s ==> s[p] == 0
  {
    hide WellFormed, InRegion;
    forall p: nat ensures InRegion(zones, p, base, end) <==>
        zones[i].first + (base - zones[i].base) / PAGE_SIZE <= p < zones[i].first + (end - zones[i].base) / PAGE_SIZE {
      RegionPages(zones, i, base, end, p);
    }
  }

  lemma SinglesPages(zones: seq<ZoneEntry>, live: map<nat, nat>, i: nat, from: nat, to: nat)
    requires i < |zones| && to <= zones[i].Count() && forall p :: p in live ==> IsPage(zones, p)
    ensures forall p :: p in live + Singles(zones[i].first + from, zones[i].first + to) ==> IsPage(zones, p)
  {
    forall p | p in Singles(zones[i].first + from, zones[i].first + to) ensures IsPage(zones, p) {
      assert zones[i].HasPage(p);
    }
  }

  lemma SyncedRegion(all: map<nat, nat>, e: ZoneEntry, local: map<nat, nat>, from: nat, to: nat)
    requires Synced(all, e, local) && from <= to <= e.Count() && forall p :: from <= p < to ==> p !in local
    ensures Synced(all + Singles(e.first + from, e.first + to), e, local + Singles(from, to))
    ensures forall p :: p in Singles(e.first + from, e.first + to) ==> p !in all
  {
    hide Singles;
    forall p | p in Singles(e.first + from, e.first + to) ensures p !in all {
      SinglesAre(e.first + from, e.first + to, p);
      assert e.HasPage(p) && p - e.first !in local;
    }
    var all1, local1 := all + Singles(e.first + from, e.first + to), local + Singles(from, to);
    forall x: nat | x in local1 ensures x < e.Count() { SinglesAre(from, to, x); }
    forall p: nat | e.HasPage(p)
      ensures p in all1 <==> p - e.first in local1
      ensures p in all1 ==> all1[p] == local1[p - e.first]
    {
      SinglesAre(e.first + from, e.first + to, p);
      SinglesAre(from, to, p - e.first);
    }
  }

  lemma SyncedRegionElsewhere(all: map<nat, nat>, zones: seq<ZoneEntry>, local: map<nat, nat>, i: nat, j: nat, from: nat, to: nat)
    requires WellFormed(zones) && i < |zones| && j < |zones| && i != j && from <= to <= zones[i].Count()
    requires Synced(all, zones[j], local)
    ensures Synced(all + Singles(zones[i].first + from, zones[i].first + to), zones[j], local)
  {
    assert zones[i].first + zones[i].Count() <= zones[j].first || zones[j].first + zones[j].Count() <= zones[i].first;
    hide WellFormed;
  }

  /** The page at an address of a region. */
  lemma PageFor(zones: seq<ZoneEntry>, i: nat, base: nat, end: nat, a: nat) returns (p: nat)
    requires WellFormed(zones) && i < |zones| && InZone(zones[i], base, end) && base <= a < end && a % PAGE_SIZE == 0
    ensures IsPage(zones, p) && PhysOf(zones, p) == a
  {
    p := zones[i].first + (a - zones[i].base) / PAGE_SIZE;
    RegionInside(zones, i, base, end);
    assert zones[i].HasPage(p);
    OnlyZone(zones, p, i);
    hide WellFormed, IsPage, PhysOf;
  }

  lemma RegionNext(zones: seq<ZoneEntry>, page: nat, base: nat, end: nat, a: nat)
    requires WellFormed(zones) && IsPage(zones, page) && PhysOf(zones, page) == a
    requires base <= a < end && a % PAGE_SIZE == 0 && end % PAGE_SIZE == 0
    ensures InRegion(zones, page, base, end) && !InRegion(zones, page, base, a) && a + PAGE_SIZE <= end
    ensures forall p: nat :: InRegion(zones, p, base, a + PAGE_SIZE) <==> InRegion(zones, p, base, a) || p == page
  {
    forall p: nat ensures InRegion(zones, p, base, a + PAGE_SIZE) <==> InRegion(zones, p, base, a) || p == page {
      if IsPage(zones, p) {
        var j :| 0 <= j < |zones| && zones[j].HasPage(p);
        OnlyZone(zones, p, j);
        AlignedStep(PhysOf(zones, p), a);
        if PhysOf(zones, p) == a { PhysInjective(zones, p, page); }
      }
    }
    hide WellFormed, IsPage, PhysOf;
    AlignedStep(end, a);
  }

  lemma AlignedStep(x: nat, a: nat)
    requires x % PAGE_SIZE == 0 && a % PAGE_SIZE == 0
    ensures x < a + PAGE_SIZE <==> x <= a
  {
  }

  lemma SameLocal(all: map<nat, nat>, e: ZoneEntry, l: map<nat, nat>, m: map<nat, nat>)
    requires Synced(all, e, l) && Synced(all, e, m)
    ensures l == m
  {
    forall x: nat ensures x in l <==> x in m { assert x in l || x in m ==> e.HasPage(e.first + x); }
    forall x: nat | x in l ensures l[x] == m[x] { assert e.HasPage(e.first + x); }
  }

  lemma LiveOrder(all: map<nat, nat>, e: ZoneEntry, local: map<nat, nat>, x: nat)
    requires Synced(all, e, local) && x in local
    ensures e.first + x in all && all[e.first + x] == local[x]
  {
  }

  lemma CellsAreThePages(pages: seq<Page>, area: seq<FreeArea>, c: seq<Cell>)
    requires Consistent(pages, area, c)
    ensures |c| == |pages|
  {
  }

  lemma FreeRunInZone(c: seq<Cell>, h: nat, k: nat)
    requires FreeRun(c, h, k)
    ensures h < |c|
  {
  }

  lemma FloorInZone(zones: seq<ZoneEntry>, addr: nat)
    requires WellFormed(zones)
    ensures var floor := addr - addr % PAGE_SIZE;
      forall i :: 0 <= i < |zones| ==> (zones[i].HasAddress(addr) <==> zones[i].HasAddress(floor))
  {
  }
}
