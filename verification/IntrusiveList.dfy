/**
 include/list.h: circular doubly linked lists threaded through their entries. A list is its head and
 the sequence of its entries; every operation is proved against the sequence, and its frame says
 that it touches only the neighbours.
 */
module IntrusiveList {
  import opened Sequences

  class ListHead {
    var next: ListHead
    var prev: ListHead

    /** INIT_LIST_HEAD. */
    constructor ()
      ensures Linked(this, [])
    {
      next, prev := this, this;
      new;
      assert JoinedAt([this], 0);
    }

    method Init()
      modifies this
      ensures Linked(this, [])
    {
      next, prev := this, this;
      assert JoinedAt([this], 0);
    }
  }

  function After(n: nat, i: nat): nat {
    if i + 1 == n then 0 else i + 1
  }

  ghost predicate Joined(a: ListHead, b: ListHead)
    reads a, b
  {
    a.next == b && b.prev == a
  }

  /** Node `i` of the ring and the one after it point to each other. */
  ghost predicate JoinedAt(r: seq<ListHead>, i: nat)
    reads r
  {
    i < |r| ==> Joined(r[i], r[After(|r|, i)])
  }

  ghost predicate Ring(r: seq<ListHead>)
    reads r
  {
    r != [] && NoDuplicates(r) && forall i: nat :: JoinedAt(r, i)
  }

  /** The list at `head` has the entries `s`. */
  ghost predicate Linked(head: ListHead, s: seq<ListHead>)
    reads head, s
  {
    Ring([head] + s)
  }

  /** __list_add: between two neighbours. */
  method Insert(entry: ListHead, prev: ListHead, next: ListHead)
    modifies entry, prev, next
    ensures prev != entry && next != entry ==>
      && prev.next == entry && entry.prev == prev && entry.next == next && next.prev == entry
      && (prev != next ==> prev.prev == old(prev.prev) && next.next == old(next.next))
  {
    next.prev := entry;
    entry.next := next;
    entry.prev := prev;
    prev.next := entry;
  }

  /** list_add. */
  method ListAdd(entry: ListHead, head: ListHead, ghost s: seq<ListHead>)
    requires Linked(head, s) && entry !in [head] + s
    modifies entry, head, head.next
    ensures Linked(head, [entry] + s)
  {
    ghost var r := [head] + s;
    ghost var t := [head] + ([entry] + s);
    assert JoinedAt(r, 0) && JoinedAt(r, |r| - 1);
    Insert(entry, head, head.next);
    assert forall i :: 2 <= i < |t| ==> t[i] == r[i - 1];
    forall i: nat ensures JoinedAt(t, i) {
      if 0 < i { assert old(JoinedAt(r, i - 1)); }
    }
  }

  /** list_add_tail. */
  method ListAddTail(entry: ListHead, head: ListHead, ghost s: seq<ListHead>)
    requires Linked(head, s) && entry !in [head] + s
    modifies entry, head, head.prev
    ensures Linked(head, s + [entry])
  {
    ghost var r := [head] + s;
    ghost var t := [head] + (s + [entry]);
    assert JoinedAt(r, 0) && JoinedAt(r, |r| - 1);
    Insert(entry, head.prev, head);
    assert forall i :: 0 <= i < |r| ==> t[i] == r[i];
    forall i: nat ensures JoinedAt(t, i) {
      assert old(JoinedAt(r, i));
    }
  }

  /** list_empty. */
  method ListEmpty(head: ListHead, ghost s: seq<ListHead>) returns (empty: bool)
    requires Linked(head, s)
    ensures empty == (s == [])
  {
    assert JoinedAt([head] + s, 0);
    empty := head.next == head;
  }

  /** list_is_singular. */
  method ListIsSingular(head: ListHead, ghost s: seq<ListHead>) returns (single: bool)
    requires Linked(head, s)
    ensures single == (|s| == 1)
  {
    var empty := ListEmpty(head, s);
    assert JoinedAt([head] + s, 0) && JoinedAt([head] + s, |s|);
    single := !empty && head.next == head.prev;
  }

  /** list_for_each: visits the entries in order, each once. */
  method ForEach(head: ListHead, ghost s: seq<ListHead>) returns (visited: seq<ListHead>)
    requires Linked(head, s)
    ensures visited == s
  {
    ghost var r := [head] + s;
    visited := [];
    var pos := head.next;
    assert JoinedAt(r, 0);
    while pos != head
      invariant |visited| <= |s| && visited == s[..|visited|]
      invariant pos == if |visited| == |s| then head else r[|visited| + 1]
      decreases |s| - |visited|
    {
      assert JoinedAt(r, |visited| + 1);
      visited := visited + [pos];
      pos := pos.next;
    }
  }

  /** __list_del. */
  method Unlink(prev: ListHead, next: ListHead)
    modifies prev, next
    ensures Joined(prev, next)
    ensures prev != next ==> prev.prev == old(prev.prev) && next.next == old(next.next)
  {
    next.prev := prev;
    prev.next := next;
  }

  lemma {:induction false} WithoutAt<T>(s: seq<T>, k: nat)
    requires NoDuplicates(s) && k < |s|
    ensures Without(s, s[k]) == s[..k] + s[k + 1..]
  {
    if k > 0 {
      WithoutAt(s[1..], k - 1);
      assert s[1..][..k - 1] == s[1..k] && s[1..][k..] == s[k + 1..];
      assert [s[0]] + s[1..k] == s[..k];
    }
  }

  /** The place of an entry in the ring, its neighbours, and the ring without it. */
  lemma Neighbours(head: ListHead, s: seq<ListHead>, entry: ListHead) returns (k: nat)
    requires Linked(head, s) && entry in s
    ensures var r := [head] + s;
            && 0 < k < |r| && r[k] == entry && Joined(r[k - 1], entry) && Joined(entry, r[After(|r|, k)])
            && [head] + Without(s, entry) == r[..k] + r[k + 1..]
  {
    var r := [head] + s;
    var j :| 0 <= j < |s| && s[j] == entry;
    k := j + 1;
    assert JoinedAt(r, j) && JoinedAt(r, k);
    SameTail(head, s);
    WithoutAt(s, j);
    assert r[..k] == [head] + s[..j] && r[k + 1..] == s[j + 1..];
  }

  lemma SameTail(head: ListHead, s: seq<ListHead>)
    requires NoDuplicates([head] + s)
    ensures NoDuplicates(s) && head !in s
  {
    var r := [head] + s;
    assert forall i :: 0 <= i < |s| ==> s[i] == r[i + 1];
    forall i | 0 <= i < |s| ensures s[i] != head {
      assert r[0] != r[i + 1];
    }
  }

  lemma RemovedAt<T>(r: seq<T>, k: nat) returns (t: seq<T>)
    requires NoDuplicates(r) && k < |r|
    ensures t == r[..k] + r[k + 1..] && NoDuplicates(t) && r[k] !in t && |t| == |r| - 1
    ensures forall i :: 0 <= i < |t| ==> t[i] == if i < k then r[i] else r[i + 1]
  {
    t := r[..k] + r[k + 1..];
  }

  /** list_del: the entry itself keeps its stale pointers. */
  method ListDel(entry: ListHead, ghost head: ListHead, ghost s: seq<ListHead>) returns (ghost t: seq<ListHead>)
    requires Linked(head, s) && entry in s
    modifies entry.prev, entry.next
    ensures t == [head] + Without(s, entry) && Ring(t) && entry !in t
    ensures forall x :: x in t ==> x in [head] + s
    ensures head.next == old(head.next) || head.next == old(entry.next)
  {
    hide Without, NoDuplicates;
    ghost var k := Neighbours(head, s, entry);
    ghost var r := [head] + s;
    t := RemovedAt(r, k);
    Unlink(entry.prev, entry.next);
    forall i: nat ensures JoinedAt(t, i) {
      assert old(JoinedAt(r, i)) && old(JoinedAt(r, i + 1));
      Distinct(r, k);
    }
    assert Ring(t);
  }

  /** list_del_init. */
  method ListDelInit(entry: ListHead, ghost head: ListHead, ghost s: seq<ListHead>)
    requires Linked(head, s) && entry in s
    modifies entry, entry.prev, entry.next
    ensures Linked(head, Without(s, entry)) && Linked(entry, [])
  {
    hide Without;
    ghost var t := ListDel(entry, head, s);
    label L:
    entry.Init();
    RingStays@L(t);
  }

  ghost predicate Apart(a: seq<ListHead>, b: seq<ListHead>) {
    forall x :: !(x in a && x in b)
  }

  lemma ApartAt(a: seq<ListHead>, b: seq<ListHead>)
    requires Apart(a, b)
    ensures forall i, j :: 0 <= i < |a| && 0 <= j < |b| ==> a[i] != b[j]
  {
    forall i, j | 0 <= i < |a| && 0 <= j < |b| ensures a[i] != b[j] {
      assert a[i] in a && b[j] in b;
    }
  }

  /** A ring that shares no node with what was modified is still there. */
  twostate lemma RingStays(r: seq<ListHead>)
    requires old(Ring(r)) && forall x :: x in r ==> unchanged(x)
    ensures Ring(r)
  {
    forall i: nat ensures JoinedAt(r, i) {
      assert old(JoinedAt(r, i));
      assert i < |r| ==> r[i] in r && r[After(|r|, i)] in r;
    }
  }

  /** list_move to the front of the same list. */
  method ListMoveToFront(entry: ListHead, head: ListHead, ghost s: seq<ListHead>)
    requires Linked(head, s) && entry in s
    modifies entry, entry.prev, entry.next, head, head.next
    ensures Linked(head, [entry] + Without(s, entry))
  {
    hide Without, Ring;
    ghost var t := ListDel(entry, head, s);
    ListAdd(entry, head, Without(s, entry));
  }

  /** list_move to the front of another list. */
  method ListMove(entry: ListHead, head: ListHead, ghost from: ListHead, ghost s: seq<ListHead>, ghost t: seq<ListHead>)
    requires Linked(from, s) && entry in s && Linked(head, t) && Apart([from] + s, [head] + t)
    modifies entry, entry.prev, entry.next, head, head.next
    ensures Linked(from, Without(s, entry)) && Linked(head, [entry] + t)
  {
    hide Without;
    ghost var q, r := [from] + s, [head] + t;
    ghost var k := Neighbours(from, s, entry);
    assert entry == q[k] && entry.prev == q[k - 1] && entry.next == q[After(|q|, k)];
    assert JoinedAt(r, 0) && head == r[0] && head.next == r[After(|r|, 0)];
    ApartAt(q, r);
    ghost var rest := ListDel(entry, from, s);
    RingStays(r);
    assert head.next == old(head.next);
    assert forall x :: x in rest ==> x != head && x != head.next;
    label L:
    ListAdd(entry, head, t);
    RingStays@L(rest);
  }

  /** list_splice_init: the entries of `list` move in front of those of `head`. */
  method ListSpliceInit(list: ListHead, head: ListHead, ghost s: seq<ListHead>, ghost t: seq<ListHead>)
    requires Linked(list, s) && Linked(head, t) && Apart([list] + s, [head] + t)
    modifies list, list.next, list.prev, head, head.next
    ensures Linked(list, []) && Linked(head, s + t)
  {
    ghost var q, r, j := [list] + s, [head] + t, [head] + (s + t);
    var empty := ListEmpty(list, s);
    if empty {
      assert s + t == t;
      return;
    }
    assert JoinedAt(q, 0) && JoinedAt(q, |s|) && JoinedAt(r, 0);
    assert list == q[0] && list.next == q[1] && list.prev == q[|s|] && head == r[0] && head.next == r[After(|r|, 0)];
    ApartAt(q, r);
    Distinct(q, 0);
    Splice(list, head, head.next);
    list.Init();
    JoinedRings(list, head, s, t);
    assert forall i :: 0 <= i < |j| ==> j[i] == if 0 < i <= |s| then q[i] else if i == 0 then r[0] else r[i - |s|];
    forall i: nat ensures JoinedAt(j, i) {
      assert old(JoinedAt(q, i));
      if i >= |s| { assert old(JoinedAt(r, i - |s|)); }
    }
  }

  /** __list_splice. */
  method Splice(list: ListHead, prev: ListHead, next: ListHead)
    requires list != prev && list != next && list.next !in {list, prev, next} && list.prev !in {list, prev, next}
    modifies list.next, list.prev, prev, next
    ensures Joined(prev, old(list.next)) && Joined(old(list.prev), next)
    ensures old(list.next) != old(list.prev) ==>
      old(list.next).next == old(list.next.next) && old(list.prev).prev == old(list.prev.prev)
    ensures prev != next ==> prev.prev == old(prev.prev) && next.next == old(next.next)
  {
    var first, last := list.next, list.prev;
    first.prev := prev;
    prev.next := first;
    last.next := next;
    next.prev := last;
  }

  lemma JoinedRings(list: ListHead, head: ListHead, s: seq<ListHead>, t: seq<ListHead>)
    requires NoDuplicates([list] + s) && NoDuplicates([head] + t) && Apart([list] + s, [head] + t)
    ensures NoDuplicates([head] + (s + t)) && list !in [head] + (s + t)
  {
    SameTail(list, s);
    SameTail(head, t);
    assert forall x :: x in s ==> x in [list] + s;
    assert forall x :: x in t ==> x in [head] + t;
    assert list in [list] + s && head in [head] + t;
    AppendMembers(s, t);
    PushMembers(s + t, head);
  }

  lemma Distinct<T>(r: seq<T>, k: nat)
    requires NoDuplicates(r) && k < |r|
    ensures forall i :: 0 <= i < |r| && r[i] == r[k] ==> i == k
  {
  }

  /**
   list_cut_position: the entries up to and including `entry` move to `list`; cutting at the head
   moves none. An empty list is not touched, and neither is `list` then.
   */
  method ListCutPosition(list: ListHead, head: ListHead, entry: ListHead, ghost s: seq<ListHead>) returns (ghost k: nat)
    requires Linked(head, s) && list !in [head] + s && entry in [head] + s
    modifies list, head, head.next, entry, entry.next
    ensures k <= |s| && entry == ([head] + s)[k] && Linked(head, s[k..])
    ensures s != [] ==> Linked(list, s[..k])
    ensures s == [] ==> list.next == old(list.next) && list.prev == old(list.prev)
  {
    ghost var r := [head] + s;
    k :| k < |r| && r[k] == entry;
    assert s[0..] == s && s[..0] == [];
    Distinct(r, 0);
    var empty := ListEmpty(head, s);
    if empty {
      return;
    }
    var single := ListIsSingular(head, s);
    assert JoinedAt(r, 0);
    if single && head.next != entry && head != entry {
      assert false;
    }
    if entry == head {
      label L:
      list.Init();
      RingStays@L(r);
    } else {
      CutRing(list, head, entry, s, k);
    }
  }

  /** __list_cut_position. */
  method Cut(list: ListHead, head: ListHead, entry: ListHead)
    requires list !in {head, entry, head.next, entry.next} && entry != head && entry != entry.next
    requires head.next != head && head.next != entry.next
    modifies list, head, head.next, entry, entry.next
    ensures Joined(list, old(head.next)) && Joined(entry, list) && Joined(head, old(entry.next))
    ensures old(head.next) != entry ==> old(head.next).next == old(head.next.next) && entry.prev == old(entry.prev)
    ensures old(entry.next) != head ==> old(entry.next).next == old(entry.next.next) && head.prev == old(head.prev)
  {
    var newFirst := entry.next;
    list.next := head.next;
    list.next.prev := list;
    list.prev := entry;
    entry.next := list;
    head.next := newFirst;
    newFirst.prev := head;
  }

  method CutRing(list: ListHead, head: ListHead, entry: ListHead, ghost s: seq<ListHead>, ghost k: nat)
    requires Linked(head, s) && list !in [head] + s && 0 < k <= |s| && s[k - 1] == entry
    modifies list, head, head.next, entry, entry.next
    ensures Linked(list, s[..k]) && Linked(head, s[k..])
  {
    ghost var r, a, b := [head] + s, [list] + s[..k], [head] + s[k..];
    ghost var l := After(|r|, k);
    assert JoinedAt(r, 0) && JoinedAt(r, k);
    CutRings(list, head, s, k);
    Distinct(r, 0);
    Distinct(r, 1);
    Distinct(r, k);
    Distinct(r, l);
    assert forall i :: 0 <= i < |r| ==> r[i] in r;
    Cut(list, head, entry);
    assert forall i :: 0 < i < |a| ==> a[i] == r[i];
    assert forall i :: 0 < i < |b| ==> b[i] == r[k + i];
    forall i: nat ensures JoinedAt(a, i) {
      assert old(JoinedAt(r, i));
    }
    forall i: nat ensures JoinedAt(b, i) {
      assert old(JoinedAt(r, k + i));
    }
  }

  lemma CutRings(list: ListHead, head: ListHead, s: seq<ListHead>, k: nat)
    requires NoDuplicates([head] + s) && list !in [head] + s && k <= |s|
    ensures NoDuplicates([list] + s[..k]) && NoDuplicates([head] + s[k..]) && Apart([list] + s[..k], [head] + s[k..])
  {
    var r := [head] + s;
    SameTail(head, s);
    assert forall x :: x in s ==> x in r;
    assert forall x :: x in s[..k] || x in s[k..] ==> x in s;
  }
}
