/**
 User page tables of kernel/mm/page_table.c, a client of the page allocator.

 Directories and tables are kept by the physical address of the page that holds them; an entry is
 the 32-bit word the hardware reads. `tableOwner` and `frameOwner` record which entry points to a
 page, so that a page can be pointed to only once.
 */
module PageTable {
  import opened Arith
  import opened Sequences
  import opened PageMath
  import opened PageAlloc
  import opened Words

  const PAGE_OFFSET: nat := 0xC0000000
  const PGD_SIZE: nat := 0x400000
  const PTRS_PER_PGT: nat := 1024
  const PTRS_PER_PGD: nat := 1024
  const USER_ENTRIES: nat := 768
  const USER_PAGE_MASK: nat := 7

  // ---------------------------------------------------------------------------------------------
  // Entries
  // ---------------------------------------------------------------------------------------------

  /** mk_pgt and mk_pgd, with the sum for `|`. */
  function MakeEntry(addr: nat, prot: nat): (e: nat) {
    addr + prot
  }

  function Present(e: nat): (b: bool) {
    e % 2 == 1
  }

  /** pgt_page and pgd_page. */
  function Target(e: nat): (a: nat) {
    PageFloor(e)
  }

  /** The operator `|` of C, bit by bit. */
  function BitOr(a: nat, b: nat): (r: nat)
    decreases a + b
  {
    if a == 0 && b == 0 then 0 else 2 * BitOr(a / 2, b / 2) + if a % 2 == 1 || b % 2 == 1 then 1 else 0
  }

  lemma {:induction false} OrAdds(a: nat, b: nat, k: nat)
    requires a % Pow2(k) == 0 && b < Pow2(k)
    ensures BitOr(a, b) == a + b
    decreases k
  {
    if k == 0 {
      OrZero(a);
    } else {
      HalfAligned(a, Pow2(k - 1));
      OrAdds(a / 2, b / 2, k - 1);
    }
  }

  lemma {:induction false} OrZero(a: nat)
    ensures BitOr(a, 0) == a
  {
    if a > 0 { OrZero(a / 2); }
  }

  lemma HalfAligned(a: nat, m: nat)
    requires m > 0 && a % (2 * m) == 0
    ensures a % 2 == 0 && a / 2 % m == 0
  {
    var q := a / (2 * m);
    assert a == 2 * (m * q);
    ModUnique(a / 2, m, q, 0);
  }

  /** mk_pgt and mk_pgd: the bits of a page address and of the protection do not overlap. */
  lemma EntryIsOr(addr: nat, prot: nat)
    requires addr % PAGE_SIZE == 0 && prot < PAGE_SIZE
    ensures MakeEntry(addr, prot) == BitOr(addr, prot)
  {
    assert Pow2(8) == 256;
    assert Pow2(12) == PAGE_SIZE;
    OrAdds(addr, prot, 12);
  }

  lemma EntryRoundTrip(addr: nat)
    requires addr % PAGE_SIZE == 0
    ensures Present(MakeEntry(addr, USER_PAGE_MASK)) && Target(MakeEntry(addr, USER_PAGE_MASK)) == addr
    ensures Bits(MakeEntry(addr, USER_PAGE_MASK), 1, 1) == 1 && Bits(MakeEntry(addr, USER_PAGE_MASK), 2, 1) == 1
  {
    PageFloorOf(addr, addr + USER_PAGE_MASK);
    assert Pow2(1) == 2 && Pow2(2) == 4;
  }

  function PgdIndex(addr: nat): (i: nat)
    requires addr < U32
    ensures i < PTRS_PER_PGD
  {
    addr / PGD_SIZE
  }

  function PgtIndex(addr: nat): (i: nat)
    ensures i < PTRS_PER_PGT
  {
    addr / PAGE_SIZE % PTRS_PER_PGT
  }

  /** The bits `low` to `low + count - 1` of a word. */
  function Bits(a: nat, low: nat, count: nat): (b: nat) {
    a / Pow2(low) % Pow2(count)
  }

  lemma Powers()
    ensures Pow2(10) == 1024 && Pow2(12) == 4096 && Pow2(22) == 0x400000 && Pow2(0) == 1
  {
    assert Pow2(8) == 256;
    Pow2Add(10, 12);
  }

  /** The two indices are the fields of a linear address that the processor uses; they and the offset make up the address. */
  lemma IndicesAreFields(addr: nat)
    requires addr < U32
    ensures PgdIndex(addr) == Bits(addr, 22, 10) && PgtIndex(addr) == Bits(addr, 12, 10)
    ensures addr == PgdIndex(addr) * PGD_SIZE + PgtIndex(addr) * PAGE_SIZE + Bits(addr, 0, 12)
  {
    Powers();
    hide Pow2;
  }

  /** Two addresses have the same fields above the offset exactly if they lie in the same page. */
  lemma SamePage(start: nat, v: nat)
    requires start < U32 && v < U32 && start % PAGE_SIZE == 0
    ensures Bits(v, 22, 10) == Bits(start, 22, 10) && Bits(v, 12, 10) == Bits(start, 12, 10) <==> start <= v < start + PAGE_SIZE
    ensures start <= v < start + PAGE_SIZE ==> Bits(v, 0, 12) == v - start
  {
    Powers();
    hide Pow2;
  }

  /** load_page's range test, on 32-bit addresses. */
  predicate RejectsAddress(start: nat) {
    (start + PAGE_SIZE) % U32 > PAGE_OFFSET
  }

  /** The test admits exactly the user pages and, because the sum wraps, the last page of all. */
  lemma RangeTest(start: nat)
    requires start < U32 && start % PAGE_SIZE == 0
    ensures !RejectsAddress(start) <==> start < PAGE_OFFSET || start == U32 - PAGE_SIZE
  {
  }

  // ---------------------------------------------------------------------------------------------
  // References from pages to pages
  // ---------------------------------------------------------------------------------------------

  datatype Slot = Slot(page: nat, index: nat)

  /** Among the first `width` entries of page `p`, entry `i` is present and points to `x`. */
  ghost predicate Points(pages: map<nat, seq<nat>>, width: nat, p: nat, i: nat, x: nat) {
    p in pages && i < width <= |pages[p]| && Present(pages[p][i]) && Target(pages[p][i]) == x
  }

  /** Every page pointed to is pointed to by exactly one entry, which `owner` names. */
  ghost predicate Referenced(pages: map<nat, seq<nat>>, width: nat, owner: map<nat, Slot>) {
    && (forall p :: p in pages ==> |pages[p]| == 1024)
    && forall p: nat, i: nat, x: nat :: Points(pages, width, p, i, x) <==> x in owner && owner[x] == Slot(p, i)
  }

  lemma OwnerIsPage(pages: map<nat, seq<nat>>, width: nat, owner: map<nat, Slot>, x: nat)
    requires Referenced(pages, width, owner) && x in owner
    ensures Points(pages, width, owner[x].page, owner[x].index, x)
  {
    assert owner[x] == Slot(owner[x].page, owner[x].index);
  }

  lemma NewPage(pages: map<nat, seq<nat>>, width: nat, owner: map<nat, Slot>, p: nat, c: seq<nat>)
    requires Referenced(pages, width, owner) && p !in pages
    requires |c| == 1024 && width <= 1024 && forall i :: 0 <= i < width ==> !Present(c[i])
    ensures Referenced(pages[p := c], width, owner)
  {
    hide Present, Target;
    forall q: nat, i: nat, x: nat ensures Points(pages[p := c], width, q, i, x) <==> Points(pages, width, q, i, x) {
    }
  }

  function SetEntry(pages: map<nat, seq<nat>>, p: nat, i: nat, x: nat): (r: map<nat, seq<nat>>)
    requires p in pages && i < |pages[p]|
  {
    var c: seq<nat> := pages[p][i := MakeEntry(x, USER_PAGE_MASK)];
    pages[p := c]
  }

  lemma NewEntry(pages: map<nat, seq<nat>>, width: nat, owner: map<nat, Slot>, p: nat, i: nat, x: nat)
    requires Referenced(pages, width, owner) && p in pages && i < width <= |pages[p]| && !Present(pages[p][i])
    requires x !in owner && x % PAGE_SIZE == 0
    ensures Referenced(SetEntry(pages, p, i, x), width, owner[x := Slot(p, i)])
  {
    hide Present, Target, MakeEntry;
    EntryRoundTrip(x);
    var after, o := SetEntry(pages, p, i, x), owner[x := Slot(p, i)];
    forall q: nat, j: nat, y: nat ensures Points(after, width, q, j, y) <==> y in o && o[y] == Slot(q, j) {
      assert Points(pages, width, q, j, y) <==> y in owner && owner[y] == Slot(q, j);
    }
  }

  lemma PagesGone(pages: map<nat, seq<nat>>, width: nat, owner: map<nat, Slot>, gone: set<nat>)
    requires Referenced(pages, width, owner)
    ensures Referenced(pages - gone, width, map x | x in owner && owner[x].page !in gone :: owner[x])
  {
    hide Present, Target;
    var o := map x | x in owner && owner[x].page !in gone :: owner[x];
    forall q: nat, j: nat, y: nat ensures Points(pages - gone, width, q, j, y) <==> y in o && o[y] == Slot(q, j) {
      assert Points(pages, width, q, j, y) <==> y in owner && owner[y] == Slot(q, j);
    }
  }

  // ---------------------------------------------------------------------------------------------
  // Address spaces
  // ---------------------------------------------------------------------------------------------

  /** The memory of all page directories and tables, with the owner of every page pointed to. */
  datatype Maps = Maps(
    dirs: map<nat, seq<nat>>,
    tables: map<nat, seq<nat>>,
    tableOwner: map<nat, Slot>,
    frameOwner: map<nat, Slot>)
  {
    ghost predicate Ok() {
      && tableOwner.Keys == tables.Keys && dirs.Keys !! tables.Keys !! frameOwner.Keys
      && Referenced(dirs, USER_ENTRIES, tableOwner) && Referenced(tables, PTRS_PER_PGT, frameOwner)
    }

    ghost function AllPages(): (r: set<nat>) {
      dirs.Keys + tables.Keys + frameOwner.Keys
    }

    function TablesOf(d: nat): (r: set<nat>) {
      set t | t in tableOwner && tableOwner[t].page == d
    }

    ghost function FramesOf(d: nat): (r: set<nat>) {
      set f | f in frameOwner && frameOwner[f].page in TablesOf(d)
    }

    /** The directory, table and data pages of one address space. */
    ghost function Taken(d: nat): (r: set<nat>) {
      {d} + TablesOf(d) + FramesOf(d)
    }

    /** User page `(i, j)` of address space `d` is mapped to frame `f`. */
    ghost predicate MapsTo(d: nat, i: nat, j: nat, f: nat) {
      exists t: nat :: Points(dirs, USER_ENTRIES, d, i, t) && Points(tables, PTRS_PER_PGT, t, j, f)
    }
  }

  /**
   The processor's translation of linear address `v` with directory `d`: bits 22 to 31 select the entry of
   the directory, bits 12 to 21 the entry of the table, and the rest is the offset in the frame.
   */
  ghost predicate Translates(m: Maps, d: nat, v: nat, a: nat) {
    exists f: nat :: m.MapsTo(d, Bits(v, 22, 10), Bits(v, 12, 10), f) && a == f + Bits(v, 0, 12)
  }

  /** One new mapping means: the addresses of one page are translated to the frame, all others as before. */
  lemma TranslationsAfter(m: Maps, n: Maps, d: nat, start: nat, f: nat)
    requires start < U32 && start % PAGE_SIZE == 0
    requires forall e: nat, k: nat, l: nat, x: nat ::
      n.MapsTo(e, k, l, x) <==> if e == d && k == PgdIndex(start) && l == PgtIndex(start) then x == f else m.MapsTo(e, k, l, x)
    ensures forall e: nat, v: nat, a: nat | v < U32 ::
      Translates(n, e, v, a) <==> if e == d && start <= v < start + PAGE_SIZE then a == f + (v - start) else Translates(m, e, v, a)
  {
    hide Maps.MapsTo, Bits, PgdIndex, PgtIndex;
    IndicesAreFields(start);
    forall e: nat, v: nat, a: nat | v < U32
      ensures Translates(n, e, v, a) <==>
        if e == d && start <= v < start + PAGE_SIZE then a == f + (v - start) else Translates(m, e, v, a)
    {
      SamePage(start, v);
      assert n.MapsTo(d, PgdIndex(start), PgtIndex(start), f);
    }
  }

  /** No user frame is mapped twice, neither inside one address space nor across two. */
  lemma NoFrameMappedTwice(m: Maps, d: nat, i: nat, j: nat, e: nat, k: nat, l: nat, f: nat)
    requires m.Ok() && m.MapsTo(d, i, j, f) && m.MapsTo(e, k, l, f)
    ensures d == e && i == k && j == l
  {
    hide Points;
    var t: nat :| Points(m.dirs, USER_ENTRIES, d, i, t) && Points(m.tables, PTRS_PER_PGT, t, j, f);
    var u: nat :| Points(m.dirs, USER_ENTRIES, e, k, u) && Points(m.tables, PTRS_PER_PGT, u, l, f);
    assert Slot(t, j) == Slot(u, l);
    assert Slot(d, i) == Slot(e, k);
  }

  /** Address spaces share no page. */
  lemma TakenDisjoint(m: Maps, d: nat, e: nat)
    requires m.Ok() && d in m.dirs && e in m.dirs && d != e
    ensures m.Taken(d) !! m.Taken(e) && m.Taken(d) <= m.AllPages()
  {
    hide Referenced;
  }

  // ---------------------------------------------------------------------------------------------
  // Updates
  // ---------------------------------------------------------------------------------------------

  ghost predicate NoUserEntries(dir: seq<nat>) {
    |dir| == PTRS_PER_PGD && forall i :: 0 <= i < USER_ENTRIES ==> !Present(dir[i])
  }

  lemma AddDir(m: Maps, d: nat, dir: seq<nat>)
    requires m.Ok() && d !in m.AllPages() && NoUserEntries(dir)
    ensures var n := m.(dirs := m.dirs[d := dir]);
      && n.Ok() && n.AllPages() == m.AllPages() + {d} && n.Taken(d) == {d}
      && forall e :: e in m.dirs ==> n.Taken(e) == m.Taken(e)
  {
    NewPage(m.dirs, USER_ENTRIES, m.tableOwner, d, dir);
    forall t | t in m.tableOwner ensures m.tableOwner[t].page in m.dirs {
      OwnerIsPage(m.dirs, USER_ENTRIES, m.tableOwner, t);
    }
  }

  /** A new, zeroed table behind a user entry that was not present. */
  function WithTable(m: Maps, d: nat, i: nat, t: nat): (n: Maps)
    requires d in m.dirs && i < |m.dirs[d]|
  {
    var zeroed: seq<nat> := seq(PTRS_PER_PGT, _ => 0);
    m.(dirs := SetEntry(m.dirs, d, i, t), tables := m.tables[t := zeroed], tableOwner := m.tableOwner[t := Slot(d, i)])
  }

  lemma AddTable(m: Maps, d: nat, i: nat, t: nat)
    requires m.Ok() && d in m.dirs && i < USER_ENTRIES <= |m.dirs[d]| && !Present(m.dirs[d][i])
    requires t !in m.AllPages() && t % PAGE_SIZE == 0
    ensures var n := WithTable(m, d, i, t);
      && n.Ok() && n.AllPages() == m.AllPages() + {t}
      && n.Taken(d) == m.Taken(d) + {t} && forall e :: e in m.dirs && e != d ==> n.Taken(e) == m.Taken(e)
  {
    NewEntry(m.dirs, USER_ENTRIES, m.tableOwner, d, i, t);
    var zeroed: seq<nat> := seq(PTRS_PER_PGT, _ => 0);
    NewPage(m.tables, PTRS_PER_PGT, m.frameOwner, t, zeroed);
    forall f | f in m.frameOwner ensures m.frameOwner[f].page in m.tables {
      OwnerIsPage(m.tables, PTRS_PER_PGT, m.frameOwner, f);
    }
    TableTaken(m, d, i, t);
  }

  lemma TableTaken(m: Maps, d: nat, i: nat, t: nat)
    requires d in m.dirs && i < |m.dirs[d]| && t !in m.AllPages() && m.tableOwner.Keys == m.tables.Keys
    requires forall f :: f in m.frameOwner ==> m.frameOwner[f].page in m.tables
    ensures var n := WithTable(m, d, i, t);
      && n.AllPages() == m.AllPages() + {t}
      && n.Taken(d) == m.Taken(d) + {t} && forall e :: e in m.dirs && e != d ==> n.Taken(e) == m.Taken(e)
  {
    hide SetEntry, MakeEntry, Maps.FramesOf, Maps.TablesOf;
    SetEntryKeys(m.dirs, d, i, t);
    var n := WithTable(m, d, i, t);
    forall e | e in m.dirs
      ensures n.FramesOf(e) == m.FramesOf(e)
      ensures n.TablesOf(e) == if e == d then m.TablesOf(e) + {t} else m.TablesOf(e)
    {
      TableTakenBy(m, d, i, t, e);
    }
  }

  lemma TableTakenBy(m: Maps, d: nat, i: nat, t: nat, e: nat)
    requires d in m.dirs && i < |m.dirs[d]| && t !in m.AllPages() && m.tableOwner.Keys == m.tables.Keys && e in m.dirs
    requires forall f :: f in m.frameOwner ==> m.frameOwner[f].page in m.tables
    ensures WithTable(m, d, i, t).FramesOf(e) == m.FramesOf(e)
    ensures WithTable(m, d, i, t).TablesOf(e) == if e == d then m.TablesOf(e) + {t} else m.TablesOf(e)
  {
    hide SetEntry, MakeEntry;
    assert forall f :: f in m.frameOwner ==> m.frameOwner[f].page != t;
  }

  /** A user frame behind a table entry that was not present. */
  function WithFrame(m: Maps, t: nat, j: nat, f: nat): (n: Maps)
    requires t in m.tables && j < |m.tables[t]|
  {
    m.(tables := SetEntry(m.tables, t, j, f), frameOwner := m.frameOwner[f := Slot(t, j)])
  }

  lemma AddFrame(m: Maps, d: nat, t: nat, j: nat, f: nat)
    requires m.Ok() && t in m.tables && m.tableOwner[t].page == d && j < PTRS_PER_PGT <= |m.tables[t]| && !Present(m.tables[t][j])
    requires f !in m.AllPages() && f % PAGE_SIZE == 0
    ensures var n := WithFrame(m, t, j, f);
      && n.Ok() && n.AllPages() == m.AllPages() + {f}
      && n.Taken(d) == m.Taken(d) + {f} && forall e :: e in m.dirs && e != d ==> n.Taken(e) == m.Taken(e)
  {
    NewEntry(m.tables, PTRS_PER_PGT, m.frameOwner, t, j, f);
    hide Referenced, Present, Target, MakeEntry;
    var n := WithFrame(m, t, j, f);
    assert forall e :: n.TablesOf(e) == m.TablesOf(e);
  }

  /** What is left when an address space is gone. */
  function WithoutDir(m: Maps, d: nat): (n: Maps) {
    Maps(m.dirs - {d},
         m.tables - m.TablesOf(d),
         map t | t in m.tableOwner && m.tableOwner[t].page !in {d} :: m.tableOwner[t],
         map f | f in m.frameOwner && m.frameOwner[f].page !in m.TablesOf(d) :: m.frameOwner[f])
  }

  lemma DropDir(m: Maps, d: nat)
    requires m.Ok() && d in m.dirs
    ensures var n := WithoutDir(m, d);
      && n.Ok() && n.AllPages() == m.AllPages() - m.Taken(d)
      && forall e :: e in m.dirs && e != d ==> n.Taken(e) == m.Taken(e)
  {
    PagesGone(m.dirs, USER_ENTRIES, m.tableOwner, {d});
    PagesGone(m.tables, PTRS_PER_PGT, m.frameOwner, m.TablesOf(d));
    DropTaken(m, d);
  }

  lemma DropTaken(m: Maps, d: nat)
    requires d in m.dirs && m.tableOwner.Keys == m.tables.Keys && m.dirs.Keys !! m.tables.Keys !! m.frameOwner.Keys
    ensures var n := WithoutDir(m, d);
      && n.AllPages() == m.AllPages() - m.Taken(d)
      && forall e :: e in m.dirs && e != d ==> n.Taken(e) == m.Taken(e)
  {
    var n := WithoutDir(m, d);
    assert n.frameOwner.Keys == m.frameOwner.Keys - m.FramesOf(d);
    forall e | e in m.dirs && e != d ensures n.Taken(e) == m.Taken(e) {
      assert n.TablesOf(e) == m.TablesOf(e);
      assert n.FramesOf(e) == m.FramesOf(e);
    }
  }

  // ---------------------------------------------------------------------------------------------
  // The operations
  // ---------------------------------------------------------------------------------------------

  class PageTables {
    const pages: PageAllocator
    /** kernel_page_dir, whose user half is empty. */
    const kernelDir: seq<nat>
    var m: Maps

    ghost predicate Valid()
      reads this, pages.Objects()
    {
      && pages.Valid() && this !in pages.Objects() && NoUserEntries(kernelDir)
      && m.Ok() && m.AllPages() <= pages.Owned()
    }

    constructor (pages: PageAllocator, kernelDir: seq<nat>)
      requires pages.Valid() && NoUserEntries(kernelDir)
      ensures Valid() && this.pages == pages && this.kernelDir == kernelDir && m.AllPages() == {}
    {
      this.pages := pages;
      this.kernelDir := kernelDir;
      m := Maps(map[], map[], map[], map[]);
    }

    method CopyEmptyPageDir() returns (r: Option<nat>)
      requires Valid()
      modifies this, pages.Objects()
      ensures Valid()
      ensures r.None? <==> !old(pages.HasRun(ZONE_NORMAL, 0))
      ensures r.None? ==> m == old(m) && pages.Owned() == old(pages.Owned())
      ensures r.Some? ==> r.value !in old(m).dirs && m.dirs == old(m).dirs[r.value := kernelDir] && m.Taken(r.value) == {r.value}
      ensures r.Some? ==> pages.Owned() == old(pages.Owned()) + {r.value}
      ensures forall e :: e in old(m).dirs ==> m.Taken(e) == old(m).Taken(e)
    {
      hide PageAllocator.Valid, PageAllocator.Owned, PageAllocator.HasRun, PageAllocator.InKind, NoUserEntries, Referenced;
      r := pages.GetFreePage(true, true);
      if r.Some? {
        AddDir(m, r.value, kernelDir);
        m := m.(dirs := m.dirs[r.value := kernelDir]);
      }
    }

    ghost predicate AnyRun()
      reads pages.Objects()
    {
      pages.HasRun(ZONE_HIGHMEM, 0) || pages.HasRun(ZONE_NORMAL, 0) || pages.HasRun(ZONE_DMA, 0)
    }

    /** get_avail_pages(0): high memory first, DMA memory last. */
    method GetAvailPage() returns (r: Option<nat>)
      requires pages.Valid()
      modifies pages.Objects()
      ensures pages.Valid()
      ensures r.None? <==> !old(AnyRun())
      ensures r.None? ==> pages.live == old(pages.live) && pages.Owned() == old(pages.Owned())
      ensures r.Some? ==>
        pages.InKind(if old(pages.HasRun(ZONE_HIGHMEM, 0)) then ZONE_HIGHMEM
                     else if old(pages.HasRun(ZONE_NORMAL, 0)) then ZONE_NORMAL else ZONE_DMA, r.value)
      ensures old(pages.HasRun(ZONE_HIGHMEM, 0)) ==> pages.HasRun(ZONE_NORMAL, 0) == old(pages.HasRun(ZONE_NORMAL, 0))
      ensures r.Some? && !old(pages.HasRun(ZONE_HIGHMEM, 0)) ==> (pages.HasRun(ZONE_NORMAL, 0) <==> old(pages.TwoFree(ZONE_NORMAL)))
      ensures r.Some? ==> r.value !in old(pages.Owned()) && pages.Owned() == old(pages.Owned()) + {r.value}
      ensures r.Some? ==> r.value % PAGE_SIZE == 0 && r.value < U32
      ensures r.Some? ==> exists p: nat ::
        pages.live == old(pages.live)[p := 0] && p !in old(pages.live) && IsPage(pages.zones, p) && PhysOf(pages.zones, p) == r.value
    {
      hide TwoFreeIn, PageAllocator.Valid, PageAllocator.Owned, PageAllocator.HasRun, PageAllocator.InKind;
      pages.TwoNeedOne(ZONE_NORMAL);
      r := pages.AllocPageAt(ZONE_HIGHMEM);
      if r.None? {
        r := pages.AllocPageAt(ZONE_NORMAL);
      }
      if r.None? {
        r := pages.AllocPageAt(ZONE_DMA);
      }
    }

    /** The page handed out by get_avail_pages goes straight back. */
    method GiveBack(frame: nat, ghost before: map<nat, nat>)
      requires pages.Valid() && frame in pages.Owned()
      requires exists p: nat :: pages.live == before[p := 0] && p !in before && IsPage(pages.zones, p) && PhysOf(pages.zones, p) == frame
      modifies pages.Objects()
      ensures pages.Valid() && pages.live == before && pages.Owned() == old(pages.Owned()) - {frame}
    {
      hide PageAllocator.Valid, PageAllocator.Owned;
      pages.FreePageAt(frame);
    }

    /**
     load_page for a user address whose page is not mapped; `got` are the pages it took. On failure
     nothing has changed: not the tables, not the outstanding allocations, and not one block of any
     zone.
     */
    method LoadPage(d: nat, start: nat) returns (r: Option<nat>, ghost got: set<nat>)
      requires Valid() && d in m.dirs
      requires start < U32 && start % PAGE_SIZE == 0 && start != U32 - PAGE_SIZE
      requires forall f: nat :: !m.MapsTo(d, PgdIndex(start), PgtIndex(start), f)
      modifies this, pages.Objects()
      ensures Valid()
      ensures start >= PAGE_OFFSET || !old(AnyRun()) ==> r.None?
      ensures start < PAGE_OFFSET ==> PgdIndex(start) < |old(m).dirs[d]|
      ensures start < PAGE_OFFSET && Present(old(m).dirs[d][PgdIndex(start)]) ==> (r.Some? <==> old(AnyRun()))
      ensures start < PAGE_OFFSET && old(pages.HasRun(ZONE_HIGHMEM, 0)) && !Present(old(m).dirs[d][PgdIndex(start)]) ==>
        (r.Some? <==> old(pages.HasRun(ZONE_NORMAL, 0)))
      ensures start < PAGE_OFFSET && !old(pages.HasRun(ZONE_HIGHMEM, 0)) && !Present(old(m).dirs[d][PgdIndex(start)]) ==>
        (r.Some? <==> old(pages.TwoFree(ZONE_NORMAL)))
      ensures r.None? ==> m == old(m) && got == {} && pages.live == old(pages.live)
      ensures r.None? ==> forall i :: 0 <= i < |pages.zones| ==> pages.zones[i].zone.cells == old(pages.zones[i].zone.cells)
      ensures r.Some? ==> r.value in got && forall e: nat, k: nat, l: nat, x: nat ::
        m.MapsTo(e, k, l, x) <==>
          if e == d && k == PgdIndex(start) && l == PgtIndex(start) then x == r.value else old(m).MapsTo(e, k, l, x)
      ensures r.Some? ==> forall e: nat, v: nat, a: nat | v < U32 ::
        Translates(m, e, v, a) <==>
          if e == d && start <= v < start + PAGE_SIZE then a == r.value + (v - start) else Translates(old(m), e, v, a)
      ensures m.dirs.Keys == old(m).dirs.Keys && got !! old(pages.Owned())
      ensures pages.Owned() == old(pages.Owned()) + got && m.Taken(d) == old(m).Taken(d) + got
      ensures forall e :: e in old(m).dirs && e != d ==> m.Taken(e) == old(m).Taken(e)
    {
      hide TwoFreeIn, PageAllocator.Valid, PageAllocator.Owned, PageAllocator.HasRun, NoUserEntries, Referenced, Points, Translates, Maps.MapsTo;
      got := {};
      if RejectsAddress(start) {
        pages.SameLiveSameZones();
        return None, got;
      }
      RangeTest(start);
      r, got := LoadUserPage(d, PgdIndex(start), PgtIndex(start));
      if r.None? {
        pages.SameLiveSameZones();
      } else {
        TranslationsAfter(old(m), m, d, start, r.value);
      }
    }

    /** The allocating part of load_page, for entry `j` of the table behind entry `i`. */
    method LoadUserPage(d: nat, i: nat, j: nat) returns (r: Option<nat>, ghost got: set<nat>)
      requires Valid() && d in m.dirs && i < USER_ENTRIES && j < PTRS_PER_PGT
      requires forall f: nat :: !m.MapsTo(d, i, j, f)
      modifies this, pages.Objects()
      ensures Valid()
      ensures !old(AnyRun()) ==> r.None?
      ensures i < |old(m).dirs[d]|
      ensures Present(old(m).dirs[d][i]) ==> (r.Some? <==> old(AnyRun()))
      ensures old(pages.HasRun(ZONE_HIGHMEM, 0)) && !Present(old(m).dirs[d][i]) ==> (r.Some? <==> old(pages.HasRun(ZONE_NORMAL, 0)))
      ensures !old(pages.HasRun(ZONE_HIGHMEM, 0)) && !Present(old(m).dirs[d][i]) ==> (r.Some? <==> old(pages.TwoFree(ZONE_NORMAL)))
      ensures r.None? ==> m == old(m) && got == {} && pages.live == old(pages.live)
      ensures r.Some? ==> r.value in got && forall e: nat, k: nat, l: nat, x: nat ::
        m.MapsTo(e, k, l, x) <==> if e == d && k == i && l == j then x == r.value else old(m).MapsTo(e, k, l, x)
      ensures m.dirs.Keys == old(m).dirs.Keys && got !! old(pages.Owned())
      ensures pages.Owned() == old(pages.Owned()) + got && m.Taken(d) == old(m).Taken(d) + got
      ensures forall e :: e in old(m).dirs && e != d ==> m.Taken(e) == old(m).Taken(e)
    {
      hide TwoFreeIn, PageAllocator.Valid, PageAllocator.Owned, NoUserEntries, Referenced, Points, Present, Target, Loaded,
        WithTable, WithFrame, MakeEntry, SetEntry,
        IsPage, PhysOf, PageAllocator.HasRun, PageAllocator.InKind, Maps.TablesOf, Maps.FramesOf, Maps.Ok, Maps.AllPages, Maps.Taken, Maps.MapsTo;
      got := {};
      DirWidth(m, d);
      pages.TwoNeedOne(ZONE_NORMAL);
      var frame := GetAvailPage();
      if frame.None? {
        return None, got;
      }
      var f := frame.value;
      var table: Option<nat> := None;
      if !Present(m.dirs[d][i]) {
        table := pages.GetFreePage(true, true);
        if table.None? {
          GiveBack(f, old(pages.live));
          return None, got;
        }
        got := {table.value};
      }
      got := got + {f};
      LoadedKeeps(m, d, i, j, table, f);
      LoadedMaps(m, d, i, j, table, f);
      m := Loaded(m, d, i, j, table, f);
      return Some(f), got;
    }

    /** free_page_dir gives back exactly the pages of this address space. */
    method FreePageDir(d: nat)
      requires Valid() && d in m.dirs
      modifies this, pages.Objects()
      ensures Valid() && m == WithoutDir(old(m), d)
      ensures pages.Owned() == old(pages.Owned()) - old(m).Taken(d)
    {
      hide PageAllocator.Valid, PageAllocator.Owned, NoUserEntries, Referenced, Points, Present, Target,
        Maps.AllPages, Maps.Taken, FramesBelow, TablesBelow;
      DirWidth(m, d);
      NothingBelow(m, d);
      var dir := m.dirs[d];
      for di := 0 to USER_ENTRIES
        invariant pages.Valid() && m == old(m)
        invariant pages.Owned() == old(pages.Owned()) - TablesBelow(m, d, di)
      {
        NextEntry(m, d, di);
        if Present(dir[di]) {
          FreeTable(d, di, Target(dir[di]), old(pages.Owned()) - TablesBelow(m, d, di));
        }
      }
      AllBelow(m, d);
      pages.FreePageAt(d);
      DropDir(m, d);
      m := WithoutDir(m, d);
    }

    /** The inner loop of free_page_dir: the pages behind one table, then the table. */
    method FreeTable(d: nat, di: nat, t: nat, ghost owned: set<nat>)
      requires pages.Valid() && this !in pages.Objects() && m.Ok() && Points(m.dirs, USER_ENTRIES, d, di, t)
      requires pages.Owned() == owned && {t} + FramesBelow(m, t, PTRS_PER_PGT) <= owned
      modifies pages.Objects()
      ensures pages.Valid() && pages.Owned() == owned - {t} - FramesBelow(m, t, PTRS_PER_PGT)
    {
      hide PageAllocator.Valid, PageAllocator.Owned, Points, Present, Target;
      assert t in m.tables;
      var table := m.tables[t];
      for ti := 0 to PTRS_PER_PGT
        invariant pages.Valid() && m == old(m)
        invariant pages.Owned() == owned - FramesBelow(m, t, ti)
      {
        NextFrame(m, t, ti);
        if Present(table[ti]) {
          pages.FreePageAt(Target(table[ti]));
        }
      }
      pages.FreePageAt(t);
    }
  }

  /** The frames behind the first `j` entries of table `t`. */
  ghost function FramesBelow(m: Maps, t: nat, j: nat): (r: set<nat>) {
    set f | f in m.frameOwner && m.frameOwner[f].page == t && m.frameOwner[f].index < j
  }

  /** The tables behind the first `i` entries of directory `d`, with their frames. */
  ghost function TablesBelow(m: Maps, d: nat, i: nat): (r: set<nat>) {
    (set t | t in m.tableOwner && m.tableOwner[t].page == d && m.tableOwner[t].index < i)
    + (set f | f in m.frameOwner && var t := m.frameOwner[f].page;
               t in m.tableOwner && m.tableOwner[t].page == d && m.tableOwner[t].index < i)
  }

  lemma NextFrame(m: Maps, t: nat, j: nat)
    requires m.Ok() && t in m.tables && j < PTRS_PER_PGT
    ensures |m.tables[t]| == PTRS_PER_PGT
    ensures var x := Target(m.tables[t][j]);
      if Present(m.tables[t][j])
      then x in m.frameOwner && x !in FramesBelow(m, t, j) && x in FramesBelow(m, t, PTRS_PER_PGT) && x != t
        && FramesBelow(m, t, j + 1) == FramesBelow(m, t, j) + {x}
      else FramesBelow(m, t, j + 1) == FramesBelow(m, t, j)
  {
    hide Present, Target;
    if Present(m.tables[t][j]) {
      assert Points(m.tables, PTRS_PER_PGT, t, j, Target(m.tables[t][j]));
    }
    forall f | f in m.frameOwner && m.frameOwner[f] == Slot(t, j) ensures Points(m.tables, PTRS_PER_PGT, t, j, f) {
    }
  }

  lemma NothingBelow(m: Maps, d: nat)
    ensures TablesBelow(m, d, 0) == {}
  {
  }

  lemma NextEntry(m: Maps, d: nat, i: nat)
    requires m.Ok() && d in m.dirs && i < USER_ENTRIES <= |m.dirs[d]|
    ensures var t := Target(m.dirs[d][i]);
      if Present(m.dirs[d][i])
      then Points(m.dirs, USER_ENTRIES, d, i, t)
        && ({t} + FramesBelow(m, t, PTRS_PER_PGT)) !! TablesBelow(m, d, i) && {t} + FramesBelow(m, t, PTRS_PER_PGT) <= m.AllPages()
        && TablesBelow(m, d, i + 1) == TablesBelow(m, d, i) + {t} + FramesBelow(m, t, PTRS_PER_PGT)
      else TablesBelow(m, d, i + 1) == TablesBelow(m, d, i)
  {
    hide Present, Target;
    if Present(m.dirs[d][i]) {
      assert Points(m.dirs, USER_ENTRIES, d, i, Target(m.dirs[d][i]));
    }
    forall t | t in m.tableOwner && m.tableOwner[t] == Slot(d, i) ensures Points(m.dirs, USER_ENTRIES, d, i, t) {
    }
    forall f | f in m.frameOwner ensures m.frameOwner[f].index < PTRS_PER_PGT {
      OwnerIsPage(m.tables, PTRS_PER_PGT, m.frameOwner, f);
    }
  }

  lemma AllBelow(m: Maps, d: nat)
    requires m.Ok() && d in m.dirs
    ensures m.Taken(d) == TablesBelow(m, d, USER_ENTRIES) + {d} && d !in TablesBelow(m, d, USER_ENTRIES) && d in m.AllPages()
  {
    forall t | t in m.tableOwner ensures m.tableOwner[t].index < USER_ENTRIES {
      OwnerIsPage(m.dirs, USER_ENTRIES, m.tableOwner, t);
    }
  }

  /** The tables after load_page, with or without a new table page. */
  function Loaded(m: Maps, d: nat, i: nat, j: nat, table: Option<nat>, f: nat): (n: Maps)
    requires m.Ok() && d in m.dirs && i < USER_ENTRIES && j < PTRS_PER_PGT
    requires table.None? ==> Present(m.dirs[d][i])
  {
    if table.Some? then
      WithFrame(WithTable(m, d, i, table.value), table.value, j, f)
    else
      assert Points(m.dirs, USER_ENTRIES, d, i, Target(m.dirs[d][i]));
      WithFrame(m, Target(m.dirs[d][i]), j, f)
  }

  lemma LoadedKeeps(m: Maps, d: nat, i: nat, j: nat, table: Option<nat>, f: nat)
    requires m.Ok() && d in m.dirs && i < USER_ENTRIES <= |m.dirs[d]| && j < PTRS_PER_PGT
    requires forall x: nat :: !m.MapsTo(d, i, j, x)
    requires table.None? <==> Present(m.dirs[d][i])
    requires table.Some? ==> table.value !in m.AllPages() && table.value % PAGE_SIZE == 0 && table.value != f
    requires f !in m.AllPages() && f % PAGE_SIZE == 0
    ensures var n, got := Loaded(m, d, i, j, table, f), (if table.Some? then {table.value} else {}) + {f};
      && n.Ok() && n.AllPages() == m.AllPages() + got && n.dirs.Keys == m.dirs.Keys && n.MapsTo(d, i, j, f)
      && n.Taken(d) == m.Taken(d) + got && forall e :: e in m.dirs && e != d ==> n.Taken(e) == m.Taken(e)
  {
    hide Referenced, Points, SetEntry, Present, Target, MakeEntry;
    if table.Some? {
      var t := table.value;
      AddTable(m, d, i, t);
      FreshEntry(m, d, i, t, j);
      SetEntryKeys(m.dirs, d, i, t);
      AddFrame(WithTable(m, d, i, t), d, t, j, f);
      FrameMapped(WithTable(m, d, i, t), d, i, t, j, f);
    } else {
      var t := Target(m.dirs[d][i]);
      MappedEntry(m, d, i, j);
      AddFrame(m, d, t, j, f);
      FrameMapped(m, d, i, t, j, f);
    }
  }

  /** A mapping, read off the owners. */
  lemma MapsByOwner(m: Maps, d: nat, i: nat, j: nat, f: nat)
    requires m.Ok()
    ensures m.MapsTo(d, i, j, f) <==>
      f in m.frameOwner && m.frameOwner[f].index == j
      && m.frameOwner[f].page in m.tableOwner && m.tableOwner[m.frameOwner[f].page] == Slot(d, i)
  {
    if t: nat :| Points(m.dirs, USER_ENTRIES, d, i, t) && Points(m.tables, PTRS_PER_PGT, t, j, f) {
    }
    if f in m.frameOwner && m.frameOwner[f].page in m.tableOwner {
      OwnerIsPage(m.tables, PTRS_PER_PGT, m.frameOwner, f);
      OwnerIsPage(m.dirs, USER_ENTRIES, m.tableOwner, m.frameOwner[f].page);
    }
    hide Points;
  }

  /** load_page adds one mapping and leaves all others, in this address space and in the others. */
  lemma LoadedMaps(m: Maps, d: nat, i: nat, j: nat, table: Option<nat>, f: nat)
    requires m.Ok() && d in m.dirs && i < USER_ENTRIES <= |m.dirs[d]| && j < PTRS_PER_PGT
    requires forall x: nat :: !m.MapsTo(d, i, j, x)
    requires table.None? <==> Present(m.dirs[d][i])
    requires table.Some? ==> table.value !in m.AllPages()
    requires f !in m.AllPages() && Loaded(m, d, i, j, table, f).Ok()
    ensures forall e: nat, k: nat, l: nat, x: nat ::
      Loaded(m, d, i, j, table, f).MapsTo(e, k, l, x) <==> if e == d && k == i && l == j then x == f else m.MapsTo(e, k, l, x)
  {
    var n, t := Loaded(m, d, i, j, table, f), if table.Some? then table.value else Target(m.dirs[d][i]);
    if table.None? { assert Points(m.dirs, USER_ENTRIES, d, i, t); }
    LoadedOwners(m, d, i, j, table, f);
    forall e: nat, k: nat, l: nat, x: nat
      ensures n.MapsTo(e, k, l, x) <==> if e == d && k == i && l == j then x == f else m.MapsTo(e, k, l, x)
    {
      MapsByOwner(m, e, k, l, x);
      MapsByOwner(n, e, k, l, x);
      if x in m.frameOwner { OwnerIsPage(m.tables, PTRS_PER_PGT, m.frameOwner, x); }
    }
  }

  lemma LoadedOwners(m: Maps, d: nat, i: nat, j: nat, table: Option<nat>, f: nat)
    requires m.Ok() && d in m.dirs && i < USER_ENTRIES <= |m.dirs[d]| && j < PTRS_PER_PGT
    requires table.None? <==> Present(m.dirs[d][i])
    ensures var n := Loaded(m, d, i, j, table, f);
            if table.Some? then
              n.tableOwner == m.tableOwner[table.value := Slot(d, i)] && n.frameOwner == m.frameOwner[f := Slot(table.value, j)]
            else n.tableOwner == m.tableOwner && n.frameOwner == m.frameOwner[f := Slot(Target(m.dirs[d][i]), j)]
  {
  }

  lemma SetEntryKeys(pages: map<nat, seq<nat>>, p: nat, i: nat, x: nat)
    requires p in pages && i < |pages[p]|
    ensures SetEntry(pages, p, i, x).Keys == pages.Keys
  {
  }

  lemma DirWidth(m: Maps, d: nat)
    requires m.Ok() && d in m.dirs
    ensures |m.dirs[d]| == PTRS_PER_PGD
  {
  }

  /** After the table was added its entries are free to use. */
  lemma FreshEntry(m: Maps, d: nat, i: nat, t: nat, j: nat)
    requires d in m.dirs && i < USER_ENTRIES <= |m.dirs[d]| && j < PTRS_PER_PGT && t % PAGE_SIZE == 0
    ensures var n := WithTable(m, d, i, t);
      && t in n.tables && t in n.tableOwner && n.tableOwner[t].page == d && |n.tables[t]| == PTRS_PER_PGT && !Present(n.tables[t][j])
      && Points(n.dirs, USER_ENTRIES, d, i, t)
  {
    EntryRoundTrip(t);
  }

  /** The entry of a page that is not mapped yet, behind a table that exists. */
  lemma MappedEntry(m: Maps, d: nat, i: nat, j: nat)
    requires m.Ok() && d in m.dirs && i < USER_ENTRIES <= |m.dirs[d]| && j < PTRS_PER_PGT && Present(m.dirs[d][i])
    requires forall f: nat :: !m.MapsTo(d, i, j, f)
    ensures var t := Target(m.dirs[d][i]);
      && t in m.tables && t in m.tableOwner && m.tableOwner[t].page == d && |m.tables[t]| == PTRS_PER_PGT && !Present(m.tables[t][j])
      && Points(m.dirs, USER_ENTRIES, d, i, t)
  {
    var t := Target(m.dirs[d][i]);
    assert Points(m.dirs, USER_ENTRIES, d, i, t);
    if Present(m.tables[t][j]) {
      assert Points(m.tables, PTRS_PER_PGT, t, j, Target(m.tables[t][j]));
      assert m.MapsTo(d, i, j, Target(m.tables[t][j]));
    }
  }

  lemma FrameMapped(m: Maps, d: nat, i: nat, t: nat, j: nat, f: nat)
    requires Points(m.dirs, USER_ENTRIES, d, i, t) && t in m.tables && j < PTRS_PER_PGT <= |m.tables[t]| && f % PAGE_SIZE == 0
    ensures WithFrame(m, t, j, f).MapsTo(d, i, j, f)
  {
    EntryRoundTrip(f);
    assert Points(WithFrame(m, t, j, f).tables, PTRS_PER_PGT, t, j, f);
  }
}
