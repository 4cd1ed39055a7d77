/**
 The object allocator of kernel/mm/kmalloc.c on top of the page allocator.

 Addresses are physical; the kernel's pointers are the same numbers shifted by PAGE_OFFSET, which
 is page aligned. A page held by the slab starts with a page_head_t; each object is preceded by an
 obj_head_t, and `used` and `free` hold the addresses of those object headers.
 */
module Slab {
  import opened Arith
  import opened Sequences
  import opened PageMath
  import opened PageAlloc

  const KMALLOC_MAX_ORDER: nat := 5
  const KMALLOC_SHIFT: nat := 4
  const PAGE_HEAD_SIZE: nat := 28
  const OBJ_HEAD_SIZE: nat := 8

  datatype PageHead = PageHead(index: nat, used: seq<nat>, free: seq<nat>)

  /** The bytes of an object of a class. */
  function ClassSize(index: nat): (n: nat)
    ensures n > 0
  {
    16 * Pow2(index)
  }

  // ---------------------------------------------------------------------------------------------
  // The slots of a page
  // ---------------------------------------------------------------------------------------------

  ghost function SlotsFrom(page: nat, offset: nat, step: nat): (s: seq<nat>)
    requires step > 0
    decreases PAGE_SIZE - offset
  {
    if offset + step <= PAGE_SIZE then [page + offset] + SlotsFrom(page, offset + step, step) else []
  }

  ghost function Slots(page: nat, index: nat): (s: seq<nat>) {
    SlotsFrom(page, PAGE_HEAD_SIZE, OBJ_HEAD_SIZE + ClassSize(index))
  }

  /** The slots lie between `low` and the end of the page, at least `step` apart. */
  ghost predicate Apart(s: seq<nat>, low: nat, step: nat, end: nat) {
    && (forall i :: 0 <= i < |s| ==> low <= s[i] && s[i] + step <= end)
    && (forall i, j :: 0 <= i < j < |s| ==> s[i] + step <= s[j])
  }

  lemma {:induction false} SlotsApart(page: nat, offset: nat, step: nat)
    requires step > 0
    ensures Apart(SlotsFrom(page, offset, step), page + offset, step, page + PAGE_SIZE)
    decreases PAGE_SIZE - offset
  {
    if offset + step <= PAGE_SIZE {
      SlotsApart(page, offset + step, step);
      ApartPush(SlotsFrom(page, offset + step, step), page + offset, step, page + PAGE_SIZE);
    }
  }

  lemma ApartPush(s: seq<nat>, low: nat, step: nat, end: nat)
    requires Apart(s, low + step, step, end) && low + step <= end
    ensures Apart([low] + s, low, step, end)
  {
  }

  /** Slots of one page: inside the page after its header, and as far apart as their size. */
  lemma SlotBounds(page: nat, index: nat, x: nat, y: nat)
    requires x in Slots(page, index) && y in Slots(page, index)
    ensures page + PAGE_HEAD_SIZE <= x && x + OBJ_HEAD_SIZE + ClassSize(index) <= page + PAGE_SIZE
    ensures x == y || x + OBJ_HEAD_SIZE + ClassSize(index) <= y || y + OBJ_HEAD_SIZE + ClassSize(index) <= x
  {
    SlotsApart(page, PAGE_HEAD_SIZE, OBJ_HEAD_SIZE + ClassSize(index));
  }

  /** Every class has room for at least one object. */
  lemma SlotsExist(page: nat, index: nat)
    requires index <= KMALLOC_MAX_ORDER
    ensures page + PAGE_HEAD_SIZE in Slots(page, index)
  {
    Pow2Monotone(index, 5);
    assert Pow2(5) == 32;
  }

  /** From `offset` on there are as many slots as fit, each right behind the one before. */
  lemma {:induction false} SlotsFill(page: nat, offset: nat, step: nat, k: nat)
    requires step > 0 && offset <= PAGE_SIZE
    ensures var s := SlotsFrom(page, offset, step);
            && offset + |s| * step <= PAGE_SIZE < offset + (|s| + 1) * step
            && (k < |s| ==> s[k] == page + offset + k * step)
    decreases PAGE_SIZE - offset
  {
    if offset + step <= PAGE_SIZE {
      SlotsFill(page, offset + step, step, if k > 0 then k - 1 else 0);
      var n := |SlotsFrom(page, offset + step, step)|;
      assert (n + 1) * step == n * step + step && (n + 2) * step == n * step + 2 * step;
      assert k > 0 ==> k * step == (k - 1) * step + step;
    }
  }

  /** A page has every slot that fits behind its header, without gaps. */
  lemma SlotsCount(page: nat, index: nat)
    ensures var s, step := Slots(page, index), OBJ_HEAD_SIZE + ClassSize(index);
            && |s| == (PAGE_SIZE - PAGE_HEAD_SIZE) / step
            && forall k :: 0 <= k < |s| ==> s[k] == page + PAGE_HEAD_SIZE + k * step
  {
    var s, step := Slots(page, index), OBJ_HEAD_SIZE + ClassSize(index);
    SlotsFill(page, PAGE_HEAD_SIZE, step, 0);
    DivAtLeast(PAGE_SIZE - PAGE_HEAD_SIZE, step, |s|);
    DivBelow(PAGE_SIZE - PAGE_HEAD_SIZE, step, |s| + 1);
    forall k | 0 <= k < |s| ensures s[k] == page + PAGE_HEAD_SIZE + k * step {
      SlotsFill(page, PAGE_HEAD_SIZE, step, k);
    }
  }

  // ---------------------------------------------------------------------------------------------
  // Size classes
  // ---------------------------------------------------------------------------------------------

  /** Bits needed to write `t`. */
  ghost function BitLength(t: nat): (n: nat) {
    if t == 0 then 0 else 1 + BitLength(t / 2)
  }

  lemma {:induction false} BitLengthBounds(t: nat)
    ensures t < Pow2(BitLength(t))
    ensures t > 0 ==> BitLength(t) > 0 && Pow2(BitLength(t) - 1) <= t
  {
    if t > 0 {
      BitLengthBounds(t / 2);
    }
  }

  /** The class kmalloc_index picks, -1 when there is none. */
  ghost function ClassIndex(size: nat): (index: int)
    ensures -1 <= index <= KMALLOC_MAX_ORDER
  {
    var index := (if size % 16 != 0 then 0 else -1) + BitLength(size / 16);
    if index > KMALLOC_MAX_ORDER then -1 else index
  }

  method KmallocIndex(size: nat) returns (index: int)
    ensures index == ClassIndex(size)
  {
    if size % 16 != 0 {
      index := 0;
    } else {
      index := -1;
    }
    var s: nat := size / 16;
    while s != 0
      invariant index + BitLength(s) == (if size % 16 != 0 then 0 else -1) + BitLength(size / 16)
    {
      index := index + 1;
      s := s / 2;
    }
    if index > KMALLOC_MAX_ORDER {
      index := -1;
    }
  }

  ghost predicate IsPowerOfTwo(t: nat) {
    exists k: nat :: t == Pow2(k)
  }

  /**
   An object holds the requested bytes exactly when the request is not a multiple of 16, or is 16
   times a power of two; for the other multiples of 16 the class below is picked.
   */
  lemma ClassHoldsRequest(size: nat)
    requires ClassIndex(size) >= 0
    ensures ClassSize(ClassIndex(size)) >= size <==> size % 16 != 0 || IsPowerOfTwo(size / 16)
  {
    var t := size / 16;
    BitLengthBounds(t);
    if size % 16 == 0 {
      var k := ClassIndex(size);
      assert k == BitLength(t) - 1;
      if ClassSize(k) >= size {
        assert t == Pow2(k);
      } else if j: nat :| t == Pow2(j) {
        if j < k { Pow2Monotone(j, k - 1); } else if j > k { Pow2Monotone(k + 1, j); }
      }
    }
  }

  /** Which sizes have a class at all: multiples of 16 up to one kilobyte, other sizes up to half of that. */
  lemma ClassExists(size: nat)
    ensures ClassIndex(size) >= 0 <==> 0 < size < if size % 16 != 0 then 512 else 1024
  {
    var t := size / 16;
    BitLengthBounds(t);
    var n := BitLength(t);
    assert Pow2(5) == 32 && Pow2(6) == 64;
    if n <= 5 { Pow2Monotone(n, 5); } else { Pow2Monotone(5, n - 1); }
    if n <= 6 { Pow2Monotone(n, 6); } else { Pow2Monotone(6, n - 1); }
  }

  /** No smaller class would hold the request, and the class picked is never less than half of it. */
  lemma ClassIsSmallest(size: nat)
    requires ClassIndex(size) >= 0
    ensures var k := ClassIndex(size); size < 2 * ClassSize(k) && (k > 0 ==> ClassSize(k - 1) < size)
  {
    BitLengthBounds(size / 16);
    var k := ClassIndex(size);
    Pow2Double(k);
    if k > 0 { Pow2Double(k - 1); }
  }

  /** kmalloc(48) hands out 32 bytes. */
  lemma ClassBelowExample()
    ensures ClassIndex(48) == 1 && ClassSize(1) == 32
  {
    assert BitLength(3) == 2;
  }

  // ---------------------------------------------------------------------------------------------
  // The allocator
  // ---------------------------------------------------------------------------------------------

  /** The used and the free list of a page partition its slots, and some slot is in use. */
  ghost predicate PageOk(page: nat, h: PageHead) {
    && page % PAGE_SIZE == 0 && h.index <= KMALLOC_MAX_ORDER
    && NoDuplicates(h.used) && NoDuplicates(h.free)
    && (forall x: nat :: x in h.used || x in h.free <==> x in Slots(page, h.index))
    && (forall x: nat :: !(x in h.used && x in h.free))
  }

  ghost predicate HeadsOk(heads: map<nat, PageHead>) {
    forall p :: p in heads ==> PageOk(p, heads[p])
  }

  /** Every page is held for the sake of some object. */
  ghost predicate NoIdlePage(heads: map<nat, PageHead>) {
    forall p :: p in heads ==> heads[p].used != []
  }

  /** The list of a class holds exactly the pages of that class. */
  ghost predicate ListsOk(heads: map<nat, PageHead>, lists: seq<seq<nat>>) {
    && |lists| == KMALLOC_MAX_ORDER + 1
    && (forall k :: 0 <= k <= KMALLOC_MAX_ORDER ==> NoDuplicates(lists[k]))
    && (forall k, p: nat :: 0 <= k <= KMALLOC_MAX_ORDER ==> (p in lists[k] <==> p in heads && heads[p].index == k))
  }

  /** `a` is the address of a live object of class `k`. */
  ghost predicate LiveObject(heads: map<nat, PageHead>, a: nat, k: nat) {
    a >= OBJ_HEAD_SIZE && var p := PageFloor(a); p in heads && heads[p].index == k && a - OBJ_HEAD_SIZE in heads[p].used
  }

  /** The object at `a` is the only one on its page. */
  ghost predicate OnlyObject(heads: map<nat, PageHead>, a: nat) {
    a >= OBJ_HEAD_SIZE && var p := PageFloor(a); p in heads && heads[p].used == [a - OBJ_HEAD_SIZE]
  }

  /** The page of an object is the floor of the object's address. */
  lemma SlotPage(page: nat, index: nat, x: nat)
    requires x in Slots(page, index) && page % PAGE_SIZE == 0
    ensures PageFloor(x + OBJ_HEAD_SIZE) == page
  {
    hide Slots, ClassSize;
    SlotBounds(page, index, x, x);
    PageFloorOf(page, x + OBJ_HEAD_SIZE);
  }

  lemma PagesApart(p: nat, q: nat)
    requires p % PAGE_SIZE == 0 && q % PAGE_SIZE == 0 && p != q
    ensures p + PAGE_SIZE <= q || q + PAGE_SIZE <= p
  {
  }

  /** Live objects do not overlap and stay inside one page of their class. */
  lemma ObjectsDisjoint(heads: map<nat, PageHead>, a: nat, j: nat, b: nat, k: nat)
    requires HeadsOk(heads) && LiveObject(heads, a, j) && LiveObject(heads, b, k)
    ensures PageFloor(a) in heads && a + ClassSize(j) <= PageFloor(a) + PAGE_SIZE
    ensures a == b || a + ClassSize(j) <= b || b + ClassSize(k) <= a
  {
    hide Slots, ClassSize, PageFloor;
    var p, q := PageFloor(a), PageFloor(b);
    SlotBounds(p, j, a - OBJ_HEAD_SIZE, a - OBJ_HEAD_SIZE);
    SlotBounds(q, k, b - OBJ_HEAD_SIZE, b - OBJ_HEAD_SIZE);
    if p == q {
      SlotBounds(p, j, a - OBJ_HEAD_SIZE, b - OBJ_HEAD_SIZE);
    } else {
      PagesApart(p, q);
    }
  }

  /** A page just set up: its slots are free, the last one first. */
  ghost function NewPage(page: nat, k: nat): (h: PageHead) {
    PageHead(k, [], Reverse(Slots(page, k)))
  }

  lemma NextSlot(page: nat, offset: nat, step: nat, done: seq<nat>)
    requires step > 0
    ensures var s := SlotsFrom(page, offset, step);
      if offset + step <= PAGE_SIZE then done + s == done + [page + offset] + SlotsFrom(page, offset + step, step)
      else done + s == done
    ensures Reverse<nat>([]) == []
    ensures [] + SlotsFrom(page, offset, step) == SlotsFrom(page, offset, step)
  {
  }

  lemma NewPageOk(page: nat, k: nat)
    requires k <= KMALLOC_MAX_ORDER && page % PAGE_SIZE == 0
    ensures PageOk(page, NewPage(page, k)) && NewPage(page, k).free != []
  {
    hide SlotsFrom, ClassSize;
    SlotsExist(page, k);
    SlotsApart(page, PAGE_HEAD_SIZE, OBJ_HEAD_SIZE + ClassSize(k));
    assert NoDuplicates(Slots(page, k));
    hide Slots;
    ReverseMembers(Slots(page, k));
  }

  /** The first free object of the page goes to the front of its used list. */
  ghost predicate FirstTaken(before: map<nat, PageHead>, after: map<nat, PageHead>, page: nat, a: nat) {
    && page in before && before[page].free != [] && a == before[page].free[0] + OBJ_HEAD_SIZE
    && var h := before[page];
       after == before[page := PageHead(h.index, [h.free[0]] + h.used, h.free[1..])]
  }

  /** The object goes to the front of its page's free list and the page to the front of its class, or the page leaves. */
  ghost predicate FirstGiven(before: map<nat, PageHead>, after: map<nat, PageHead>, l: seq<seq<nat>>, m: seq<seq<nat>>,
                             page: nat, a: nat)
  {
    && a >= OBJ_HEAD_SIZE && page in before && before[page].index < |l|
    && var h, x: nat := before[page], a - OBJ_HEAD_SIZE;
       var rest := Without(l[h.index], page);
       if h.used == [x] then after == before - {page} && m == l[h.index := rest]
       else
         && after == before[page := PageHead(h.index, Without(h.used, x), [x] + h.free)]
         && m == l[h.index := [page] + rest]
  }

  /** A fresh page with all slots free has no object on it. */
  lemma AddPage(heads: map<nat, PageHead>, lists: seq<seq<nat>>, page: nat, h: PageHead)
    requires HeadsOk(heads) && ListsOk(heads, lists) && page !in heads && PageOk(page, h) && h.used == []
    ensures HeadsOk(heads[page := h])
    ensures ListsOk(heads[page := h], lists[h.index := [page] + lists[h.index]])
    ensures forall a: nat, k: nat :: LiveObject(heads[page := h], a, k) <==> LiveObject(heads, a, k)
  {
    PushMembers(lists[h.index], page);
  }

  /** list_move of a slot from the free to the used list of its page. */
  lemma TakeSlot(heads: map<nat, PageHead>, lists: seq<seq<nat>>, page: nat, x: nat, h: PageHead)
    requires HeadsOk(heads) && ListsOk(heads, lists) && page in heads && x in heads[page].free
    requires h == PageHead(heads[page].index, [x] + heads[page].used, Without(heads[page].free, x))
    ensures HeadsOk(heads[page := h]) && ListsOk(heads[page := h], lists)
    ensures LiveObject(heads[page := h], x + OBJ_HEAD_SIZE, h.index) && !LiveObject(heads, x + OBJ_HEAD_SIZE, h.index)
    ensures forall a: nat, k: nat ::
      LiveObject(heads[page := h], a, k) <==> LiveObject(heads, a, k) || (a == x + OBJ_HEAD_SIZE && k == h.index)
  {
    hide Slots, PageFloor;
    assert PageOk(page, heads[page]);
    SlotPage(page, h.index, x);
    WithoutMembers(heads[page].free, x);
    PushMembers(heads[page].used, x);
    assert PageOk(page, h);
  }

  /** list_move of a slot back to the free list of its page. */
  lemma GiveSlot(heads: map<nat, PageHead>, lists: seq<seq<nat>>, page: nat, x: nat, h: PageHead)
    requires HeadsOk(heads) && ListsOk(heads, lists) && page in heads && x in heads[page].used
    requires h == PageHead(heads[page].index, Without(heads[page].used, x), [x] + heads[page].free)
    ensures HeadsOk(heads[page := h]) && ListsOk(heads[page := h], lists)
    ensures forall a: nat, k: nat :: LiveObject(heads[page := h], a, k) <==> LiveObject(heads, a, k) && a != x + OBJ_HEAD_SIZE
  {
    hide Slots, PageFloor;
    assert PageOk(page, heads[page]);
    SlotPage(page, h.index, x);
    WithoutMembers(heads[page].used, x);
    PushMembers(heads[page].free, x);
    assert PageOk(page, h);
  }

  /** list_move of a page to the front of the list of its class. */
  lemma MovePage(heads: map<nat, PageHead>, lists: seq<seq<nat>>, page: nat)
    requires ListsOk(heads, lists) && page in heads && heads[page].index <= KMALLOC_MAX_ORDER
    ensures var k := heads[page].index; ListsOk(heads, lists[k := [page] + Without(lists[k], page)])
  {
    var list := lists[heads[page].index];
    WithoutMembers(list, page);
    PushMembers(Without(list, page), page);
  }

  /** A page whose slots are all free leaves without taking an object along. */
  lemma DropPage(heads: map<nat, PageHead>, lists: seq<seq<nat>>, page: nat)
    requires HeadsOk(heads) && ListsOk(heads, lists) && page in heads && heads[page].used == []
    ensures var k := heads[page].index;
      && HeadsOk(heads - {page}) && ListsOk(heads - {page}, lists[k := Without(lists[k], page)])
      && forall a: nat, j: nat :: LiveObject(heads - {page}, a, j) <==> LiveObject(heads, a, j)
  {
    WithoutMembers(lists[heads[page].index], page);
  }

  class SlabAllocator {
    const pages: PageAllocator
    /** The page headers, by page address. */
    var heads: map<nat, PageHead>
    /** page_list: for each class the pages held for it. */
    var pageList: seq<seq<nat>>

    ghost predicate Valid()
      reads this, pages.Objects()
    {
      && pages.Valid() && this !in pages.Objects()
      && heads.Keys <= pages.Owned()
      && HeadsOk(heads) && NoIdlePage(heads) && ListsOk(heads, pageList)
    }

    /** kmalloc_init. */
    constructor (pages: PageAllocator)
      requires pages.Valid()
      ensures Valid() && this.pages == pages && heads == map[]
    {
      this.pages := pages;
      heads := map[];
      pageList := seq(KMALLOC_MAX_ORDER + 1, _ => []);
    }

    /** init_page: the free list of a new page holds all its slots, the last one first. */
    static method InitPage(page: nat, order: nat) returns (h: PageHead)
      requires order <= KMALLOC_MAX_ORDER && page % PAGE_SIZE == 0
      ensures h == NewPage(page, order) && PageOk(page, h) && h.free != []
    {
      hide PageOk, SlotsFrom, ClassSize;
      var offset, step := PAGE_HEAD_SIZE, OBJ_HEAD_SIZE + ClassSize(order);
      NextSlot(page, offset, step, []);
      var free: seq<nat> := [];
      ghost var done: seq<nat> := [];
      while offset + step <= PAGE_SIZE
        invariant free == Reverse(done)
        invariant done + SlotsFrom(page, offset, step) == Slots(page, order)
        decreases PAGE_SIZE - offset
      {
        NextSlot(page, offset, step, done);
        ReverseAppend(done, page + offset);
        free := [page + offset] + free;
        done := done + [page + offset];
        offset := offset + step;
      }
      NextSlot(page, offset, step, done);
      h := PageHead(order, [], free);
      NewPageOk(page, order);
    }

    /** The test of kmalloc: the class has a page, and the front one has a free object. */
    predicate FrontHasRoom(k: nat)
      requires k < |pageList| && forall p :: p in pageList[k] ==> p in heads
      reads this
    {
      pageList[k] != [] && heads[pageList[k][0]].free != []
    }

    /** The first half of kmalloc: the front page of the class, or a new page put in front. */
    method PageWithRoom(k: nat) returns (r: Option<nat>)
      requires Valid() && k <= KMALLOC_MAX_ORDER
      modifies this, pages.Objects()
      ensures pages.Valid() && heads.Keys <= pages.Owned() && HeadsOk(heads) && ListsOk(heads, pageList)
      ensures r.None? <==> !old(FrontHasRoom(k)) && !old(pages.HasRun(ZONE_NORMAL, 0))
      ensures r.None? ==> heads == old(heads) && pageList == old(pageList) && pages.Owned() == old(pages.Owned())
      ensures r.Some? ==> r.value in heads && heads[r.value].index == k && heads[r.value].free != []
      ensures r.Some? ==> forall p :: p in heads && p != r.value ==> heads[p].used != []
      ensures r.Some? && old(FrontHasRoom(k)) ==>
        r.value == old(pageList)[k][0] && heads == old(heads) && pageList == old(pageList)
      ensures r.Some? && !old(FrontHasRoom(k)) ==>
        && r.value !in old(heads) && heads == old(heads)[r.value := NewPage(r.value, k)]
        && pageList == old(pageList)[k := [r.value] + old(pageList)[k]]
      ensures forall a: nat, j: nat :: LiveObject(heads, a, j) <==> LiveObject(old(heads), a, j)
      ensures pages.Owned() - heads.Keys == old(pages.Owned() - heads.Keys)
    {
      hide PageOk, LiveObject, Slots, Pow2, PageAllocator.Valid, PageAllocator.Owned, PageAllocator.HasRun, PageAllocator.InKind;
      var list := pageList[k];
      if list == [] || heads[list[0]].free == [] {
        var got := pages.GetFreePage(true, true);
        if got.None? {
          return None;
        }
        var page := got.value;
        var h := InitPage(page, k);
        AddPage(heads, pageList, page, h);
        heads := heads[page := h];
        pageList := pageList[k := [page] + list];
        return Some(page);
      }
      assert list[0] in list;
      return Some(list[0]);
    }

    method Kmalloc(size: nat) returns (r: Option<nat>)
      requires Valid() && ClassIndex(size) >= 0
      modifies this, pages.Objects()
      ensures Valid()
      ensures r.None? <==> !old(FrontHasRoom(ClassIndex(size))) && !old(pages.HasRun(ZONE_NORMAL, 0))
      ensures r.None? ==> heads == old(heads) && pages.Owned() == old(pages.Owned())
      ensures r.Some? ==> LiveObject(heads, r.value, ClassIndex(size)) && !LiveObject(old(heads), r.value, ClassIndex(size))
      ensures forall a: nat, k: nat ::
        LiveObject(heads, a, k) <==> LiveObject(old(heads), a, k) || (r == Some(a) && k == ClassIndex(size))
      ensures pages.Owned() - heads.Keys == old(pages.Owned() - heads.Keys)
      ensures r.Some? && old(FrontHasRoom(ClassIndex(size))) ==>
        FirstTaken(old(heads), heads, old(pageList)[ClassIndex(size)][0], r.value) && pageList == old(pageList)
      ensures r.Some? && !old(FrontHasRoom(ClassIndex(size))) ==> exists page :: var k := ClassIndex(size);
        && page !in old(heads) && FirstTaken(old(heads)[page := NewPage(page, k)], heads, page, r.value)
        && pageList == old(pageList)[k := [page] + old(pageList)[k]]
    {
      hide LiveObject, ClassIndex, HeadsOk, Pow2, FirstTaken, NewPage, PageAllocator.Valid, PageAllocator.Owned, PageAllocator.HasRun;
      var k := KmallocIndex(size);
      var room := PageWithRoom(k);
      if room.None? {
        return None;
      }
      var a := TakeFirst(room.value, k);
      r := Some(a);
    }

    /** The second half of kmalloc: the first free object of the front page. */
    method TakeFirst(page: nat, k: nat) returns (a: nat)
      requires pages.Valid() && this !in pages.Objects() && heads.Keys <= pages.Owned()
      requires HeadsOk(heads) && ListsOk(heads, pageList)
      requires page in heads && heads[page].index == k <= KMALLOC_MAX_ORDER && heads[page].free != []
      requires forall p :: p in heads && p != page ==> heads[p].used != []
      requires pageList[k] != [] && pageList[k][0] == page
      modifies this
      ensures Valid() && heads.Keys == old(heads.Keys)
      ensures FirstTaken(old(heads), heads, page, a) && pageList == old(pageList)
      ensures LiveObject(heads, a, k) && !LiveObject(old(heads), a, k)
      ensures forall x: nat, j: nat :: LiveObject(heads, x, j) <==> LiveObject(old(heads), x, j) || (x == a && j == k)
    {
      hide LiveObject, HeadsOk, PageAllocator.Valid, PageAllocator.Owned;
      var h := heads[page];
      var fetch := h.free[0];
      var taken := PageHead(h.index, [fetch] + h.used, Without(h.free, fetch));
      TakeSlot(heads, pageList, page, fetch, taken);
      heads := heads[page := taken];
      if heads[page].free == [] {
        ghost var lists := pageList;
        pageList := pageList[k := [page] + Without(pageList[k], page)];
        assert pageList[k] == lists[k];
      }
      a := fetch + OBJ_HEAD_SIZE;
    }

    /** kfree of a live object or of NULL; a page goes back exactly when this was its last object. */
    method Kfree(addr: nat, ghost k: nat)
      requires Valid() && (addr == 0 || LiveObject(heads, addr, k))
      modifies this, pages.Objects()
      ensures Valid()
      ensures forall a: nat, j: nat :: LiveObject(heads, a, j) <==> LiveObject(old(heads), a, j) && a != addr
      ensures OnlyObject(old(heads), addr) ==>
        heads.Keys == old(heads).Keys - {PageFloor(addr)} && pages.Owned() == old(pages.Owned()) - {PageFloor(addr)}
      ensures !OnlyObject(old(heads), addr) ==> heads.Keys == old(heads).Keys && pages.Owned() == old(pages.Owned())
      ensures addr == 0 ==> heads == old(heads) && pageList == old(pageList)
      ensures addr != 0 ==> FirstGiven(old(heads), heads, old(pageList), pageList, PageFloor(addr), addr)
    {
      hide LiveObject, HeadsOk, NoIdlePage, ListsOk, Pow2, PageAllocator.Valid, PageAllocator.Owned;
      NullIsNoObject(heads);
      if addr == 0 {
        return;
      }
      ObjectHeader(heads, addr, k);
      FreeHeader(PageFloor(addr), addr - OBJ_HEAD_SIZE);
    }

    /** kfree once the page and the object header are known. */
    method FreeHeader(page: nat, x: nat)
      requires Valid() && page in heads && x in heads[page].used
      modifies this, pages.Objects()
      ensures Valid()
      ensures forall a: nat, j: nat :: LiveObject(heads, a, j) <==> LiveObject(old(heads), a, j) && a != x + OBJ_HEAD_SIZE
      ensures old(heads)[page].used == [x] ==> heads.Keys == old(heads).Keys - {page} && pages.Owned() == old(pages.Owned()) - {page}
      ensures old(heads)[page].used != [x] ==> heads.Keys == old(heads).Keys && pages.Owned() == old(pages.Owned())
      ensures FirstGiven(old(heads), heads, old(pageList), pageList, page, x + OBJ_HEAD_SIZE)
    {
      hide LiveObject, HeadsOk, NoIdlePage, ListsOk, Pow2, PageAllocator.Valid, PageAllocator.Owned;
      var h := heads[page];
      var given := PageHead(h.index, Without(h.used, x), [x] + h.free);
      assert heads[page := given] - {page} == heads - {page};
      FreeSlot(heads, pageList, page, x, given);
      heads := heads[page := given];
      if given.used == [] {
        pageList := pageList[h.index := Without(pageList[h.index], page)];
        heads := heads - {page};
        pages.FreePageAt(page);
      } else {
        pageList := pageList[h.index := [page] + Without(pageList[h.index], page)];
      }
    }

    /** An object given back while its page has others is the next one of its class to be handed out. */
    method FreeThenKmalloc(addr: nat, size: nat) returns (r: Option<nat>)
      requires Valid() && ClassIndex(size) >= 0
      requires LiveObject(heads, addr, ClassIndex(size)) && !OnlyObject(heads, addr)
      modifies this, pages.Objects()
      ensures Valid() && r == Some(addr)
      ensures forall a: nat, k: nat :: LiveObject(heads, a, k) <==> LiveObject(old(heads), a, k)
    {
      hide HeadsOk, PageAllocator.Valid, PageAllocator.Owned, PageAllocator.HasRun;
      ghost var k := ClassIndex(size);
      ghost var page, x: nat := PageFloor(addr), addr - OBJ_HEAD_SIZE;
      Kfree(addr, k);
      assert pageList[k][0] == page && heads[page].free[0] == x;
      r := Kmalloc(size);
    }
  }

  /** The two endings of kfree. */
  lemma FreeSlot(heads: map<nat, PageHead>, lists: seq<seq<nat>>, page: nat, x: nat, h: PageHead)
    requires HeadsOk(heads) && NoIdlePage(heads) && ListsOk(heads, lists) && page in heads && x in heads[page].used
    requires h == PageHead(heads[page].index, Without(heads[page].used, x), [x] + heads[page].free)
    ensures h.index < |lists|
    ensures h.used == [] <==> heads[page].used == [x]
    ensures h.used == [] ==> var kept := heads[page := h] - {page};
      && HeadsOk(kept) && NoIdlePage(kept) && ListsOk(kept, lists[h.index := Without(lists[h.index], page)])
      && forall a: nat, k: nat :: LiveObject(kept, a, k) <==> LiveObject(heads, a, k) && a != x + OBJ_HEAD_SIZE
    ensures h.used != [] ==> var kept := heads[page := h];
      && HeadsOk(kept) && NoIdlePage(kept) && ListsOk(kept, lists[h.index := [page] + Without(lists[h.index], page)])
      && forall a: nat, k: nat :: LiveObject(kept, a, k) <==> LiveObject(heads, a, k) && a != x + OBJ_HEAD_SIZE
  {
    hide LiveObject, Slots;
    GiveSlot(heads, lists, page, x, h);
    LastOne(heads[page].used, x);
    if h.used == [] {
      DropPage(heads[page := h], lists, page);
    } else {
      MovePage(heads[page := h], lists, page);
    }
  }

  lemma NullIsNoObject(heads: map<nat, PageHead>)
    ensures forall k: nat :: !LiveObject(heads, 0, k)
    ensures !OnlyObject(heads, 0)
  {
  }

  lemma ObjectHeader(heads: map<nat, PageHead>, a: nat, k: nat)
    requires HeadsOk(heads) && LiveObject(heads, a, k)
    ensures a >= OBJ_HEAD_SIZE && PageFloor(a) in heads
    ensures var h := heads[PageFloor(a)]; h.index == k <= KMALLOC_MAX_ORDER && a - OBJ_HEAD_SIZE in h.used
  {
  }

  lemma LastOne(s: seq<nat>, x: nat)
    requires x in s
    ensures Without(s, x) == [] <==> s == [x]
  {
  }
}
