/**
 High-memory windows of kernel/mm/highmem.c: a buddy system over page-table entries instead of
 page frames. The map's buddy operations are those of a zone.
 */
module HighMem {
  import opened Arith
  import opened Sequences
  import opened BuddyModel
  import opened PageMath
  import opened Zone
  import opened Words

  const PAGE_OFFSET: nat := 0xC0000000
  const ZONE_NORMAL_LIMIT: nat := 0x38000000
  const HIGH_BASE: nat := PAGE_OFFSET + ZONE_NORMAL_LIMIT
  const MAP_FLAGS: nat := 3

  /** mk_pgt for the page `i` pages behind `phys`, present and writable. */
  function EntryFor(phys: nat, i: nat): nat {
    (phys + i * PAGE_SIZE) % U32 + MAP_FLAGS
  }

  /** The virtual address of the window entry `h`. */
  function HmapToVirt(h: nat): (v: nat)
    ensures v >= HIGH_BASE
  {
    HIGH_BASE + h * PAGE_SIZE
  }

  function VirtToHmap(virt: nat): (h: nat)
    requires virt >= HIGH_BASE
  {
    (virt - HIGH_BASE) / PAGE_SIZE
  }

  /** Every address inside a window entry's page leads back to that entry. */
  lemma VirtRoundTrip(h: nat, offset: nat)
    requires offset < PAGE_SIZE
    ensures VirtToHmap(HmapToVirt(h) + offset) == h
  {
  }

  /** An entry is present and writable and leads to its page of the run from `phys` on. */
  lemma EntryLeadsTo(phys: nat, i: nat)
    requires phys % PAGE_SIZE == 0
    ensures var e := EntryFor(phys, i);
            e % 2 == 1 && e / 2 % 2 == 1 && e / 4 % 1024 == 0 && PageFloor(e) == (phys + i * PAGE_SIZE) % U32
  {
    var a := (phys + i * PAGE_SIZE) % U32;
    AlignedSum(phys, i);
    PageFloorOf(a, a + MAP_FLAGS);
    hide PageFloor;
  }

  lemma AlignedSum(phys: nat, i: nat)
    requires phys % PAGE_SIZE == 0
    ensures (phys + i * PAGE_SIZE) % U32 % PAGE_SIZE == 0
  {
    var x := phys + i * PAGE_SIZE;
    assert x == (phys / PAGE_SIZE + i) * PAGE_SIZE;
    assert x % U32 == (phys / PAGE_SIZE + i - x / U32 * (U32 / PAGE_SIZE)) * PAGE_SIZE;
  }

  class HighMap {
    const hmap: MemZone
    /** The kernel page-table entries of the windows. */
    const entry: array<nat>
    /** Live windows: first entry to the physical address mapped there. */
    ghost var mapped: map<nat, nat>

    /** The window at `h` shows the 2^order pages from `phys` on. */
    ghost predicate Shows(h: nat, order: nat, phys: nat)
      reads entry
    {
      && h + Pow2(order) <= entry.Length
      && forall p :: h <= p < h + Pow2(order) ==> entry[p] == EntryFor(phys, p - h)
    }

    ghost predicate Valid()
      reads this, hmap, hmap.pages, hmap.area, entry
    {
      && hmap.Valid() && |hmap.cells| == entry.Length
      && mapped.Keys == Live(hmap.cells).Keys
      && forall h :: h in mapped ==> Shows(h, Live(hmap.cells)[h], mapped[h])
    }

    /**
     Through its entries a window shows the run from `phys` on, byte for byte: entry `e` is the page-table
     entry of the linear page 0xF8000 + e, the first one behind the kernel's view of normal memory.
     */
    lemma WindowShows(h: nat, order: nat, phys: nat, offset: nat)
      requires Shows(h, order, phys) && phys % PAGE_SIZE == 0 && offset < Pow2(order) * PAGE_SIZE
      ensures var e := (HmapToVirt(h) + offset) / PAGE_SIZE - 0xF8000;
              && 0 <= e < entry.Length && entry[e] % 2 == 1 && entry[e] / 2 % 2 == 1
              && (PageFloor(entry[e]) + (HmapToVirt(h) + offset) % PAGE_SIZE) % U32 == (phys + offset) % U32
    {
      hide EntryFor, Pow2;
      var i := offset / PAGE_SIZE;
      EntryLeadsTo(phys, i);
      WindowOffset(h, offset);
      FrameOffset(phys, i, offset % PAGE_SIZE);
    }

    constructor (n: nat)
      requires n * PAGE_SIZE < U32
      ensures Valid() && mapped == map[] && fresh(hmap) && fresh(hmap.pages) && fresh(hmap.area) && fresh(entry)
    {
      hmap := new MemZone(n);
      entry := new nat[n](_ => 0);
      mapped := map[];
    }

    /** The loop of kmap and ioremap over the page-table entries. */
    method FillEntries(h: nat, order: nat, phys: nat)
      requires h + Pow2(order) <= entry.Length
      modifies entry
      ensures Shows(h, order, phys)
      ensures forall g: nat, o: nat, q: nat :: old(Shows(g, o, q)) && (g + Pow2(o) <= h || h + Pow2(order) <= g) ==> Shows(g, o, q)
    {
      hide EntryFor;
      for i: nat := 0 to Pow2(order)
        invariant forall p :: 0 <= p < entry.Length ==>
          entry[p] == if h <= p < h + i then EntryFor(phys, p - h) else old(entry[p])
      {
        entry[h + i] := EntryFor(phys, i);
      }
    }

    /** kmap and ioremap of the pages from `phys` on: the new window shows them, the others stay. */
    method MapPages(phys: nat, order: nat) returns (r: Option<nat>)
      requires Valid() && phys % PAGE_SIZE == 0
      modifies this, hmap, hmap.pages, hmap.area, entry
      ensures Valid()
      ensures r.None? <==> order > MAX_ORDER || !HasFreeRun(old(hmap.cells), order)
      ensures r.None? ==> mapped == old(mapped)
      ensures r.Some? ==> r.value >= HIGH_BASE && mapped == old(mapped)[VirtToHmap(r.value) := phys]
      ensures r.Some? ==> VirtToHmap(r.value) !in old(mapped) && Live(hmap.cells) == Live(old(hmap.cells))[VirtToHmap(r.value) := order]
    {
      hide Consistent, Settled, Live, Pow2, HasFreeRun, FreeRun, EntryFor, HmapToVirt, VirtToHmap, HighMap.Shows;
      if order > MAX_ORDER {
        return None;
      }
      var window := hmap.AllocPages(order);
      if window.None? {
        return None;
      }
      var h := window.value;
      LiveRanges(hmap.pages[..], hmap.area[..], hmap.cells);
      assert h in Live(hmap.cells) && Live(hmap.cells)[h] == order;
      FillEntries(h, order, phys);
      mapped := mapped[h := phys];
      VirtRoundTrip(h, 0);
      return Some(HmapToVirt(h));
    }

    /** kunmap of a live window, with the order it was mapped with. */
    method Kunmap(virt: nat, order: nat)
      requires Valid() && virt >= HIGH_BASE
      requires VirtToHmap(virt) in mapped && Live(hmap.cells)[VirtToHmap(virt)] == order
      modifies this, hmap, hmap.pages, hmap.area
      ensures Valid() && mapped == old(mapped) - {VirtToHmap(virt)}
    {
      hide Consistent, Settled, Live, Pow2;
      var h := VirtToHmap(virt);
      hmap.DeallocPages(h, order);
      mapped := mapped - {h};
    }

    /** ioremap: a window of the smallest order that holds `size` bytes; there is none for no bytes. */
    method Ioremap(addr: nat, size: nat) returns (r: Option<nat>)
      requires Valid() && addr % PAGE_SIZE == 0 && size < U32
      modifies this, hmap, hmap.pages, hmap.area, entry
      ensures Valid()
      ensures size == 0 ==> r.None?
      ensures forall o: nat :: size > 0 && HoldsSize(o, size) ==> (r.None? <==> o > MAX_ORDER || !HasFreeRun(old(hmap.cells), o))
      ensures r.None? ==> mapped == old(mapped)
      ensures r.Some? ==> r.value >= HIGH_BASE && mapped == old(mapped)[VirtToHmap(r.value) := addr]
      ensures r.Some? ==> VirtToHmap(r.value) in Live(hmap.cells) && HoldsSize(Live(hmap.cells)[VirtToHmap(r.value)], size)
    {
      hide Consistent, Settled, Live, HasFreeRun, Pow2;
      var order := GetOrder(size);
      forall o: nat | size > 0 && HoldsSize(o, size) ensures o == order {
        HoldsOnce(o, order, size);
      }
      r := MapPages(addr, order);
    }
  }

  /** The smallest order whose block holds `size` bytes. */
  ghost predicate HoldsSize(order: nat, size: nat) {
    size <= PAGE_SIZE * Pow2(order) && (order > 0 ==> PAGE_SIZE * Pow2(order - 1) < size)
  }

  lemma HoldsOnce(o: nat, p: nat, size: nat)
    requires HoldsSize(o, size) && HoldsSize(p, size)
    ensures o == p
  {
    hide Pow2;
    if o < p { Pow2Monotone(o, p - 1); }
    if p < o { Pow2Monotone(p, o - 1); }
  }

  lemma WindowOffset(h: nat, offset: nat)
    ensures (HmapToVirt(h) + offset) / PAGE_SIZE - 0xF8000 == h + offset / PAGE_SIZE
    ensures (HmapToVirt(h) + offset) % PAGE_SIZE == offset % PAGE_SIZE
  {
  }

  lemma FrameOffset(phys: nat, i: nat, o: nat)
    requires phys % PAGE_SIZE == 0 && o < PAGE_SIZE
    ensures ((phys + i * PAGE_SIZE) % U32 + o) % U32 == (phys + (i * PAGE_SIZE + o)) % U32
  {
  }

  lemma LiveRanges(pages: seq<Page>, area: seq<FreeArea>, c: seq<Cell>)
    requires Consistent(pages, area, c)
    ensures forall h :: h in Live(c) ==> h + Pow2(Live(c)[h]) <= |c|
    ensures forall h, g :: h in Live(c) && g in Live(c) ==>
      h == g || h + Pow2(Live(c)[h]) <= g || g + Pow2(Live(c)[g]) <= h
  {
    hide Partitioned, Pow2;
    forall h, g | h in Live(c) && g in Live(c)
      ensures h + Pow2(Live(c)[h]) <= |c|
      ensures h == g || h + Pow2(Live(c)[h]) <= g || g + Pow2(Live(c)[g]) <= h
    {
      LiveApart(c, h, g);
    }
  }
}
