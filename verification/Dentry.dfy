/**
 fs/dentry.c: the dentry cache, with its reference counts and the recursive dput. The bookkeeping
 fields say who holds references; every BUG_ON of the source is an assertion.
 */
module Dentry {
  import opened Sequences
  import opened DentryModel
  import opened Words

  class DentryCache {
    const droot: Addr
    var tab: map<Addr, Node>
    var hash: seq<seq<Addr>>
    ghost var holds: multiset<Addr>
    ghost var born: map<Addr, nat>
    ghost var clock: nat
    ghost var dying: set<Addr>

    ghost function View(): (c: Cache)
      reads this
    {
      Cache(tab, hash, droot, holds, born, clock, dying)
    }

    ghost predicate Valid()
      reads this
    {
      Consistent(View()) && dying == {}
    }

    /** dcache_setup and init_droot. */
    constructor (d: Addr, iroot: Addr)
      requires 0 < d < U32
      ensures Valid() && View() == Initial(d, iroot)
      ensures droot == d && tab == map[d := Node("", iroot, d, [], NULL, NULL, 3)] && holds == multiset{d, d, d}
    {
      droot := d;
      tab := map[d := Node("", iroot, d, [], NULL, NULL, 3)];
      hash := seq(NR_HASH_LISTS, _ => []);
      holds, born, clock, dying := multiset{d, d, d}, map[d := 0], 1, {};
      new;
      InitialConsistent(d, iroot);
      hide Consistent;
      assert View().hash == Initial(d, iroot).hash;
    }

    predicate KeyMatches(e: Addr, inode: Addr, parent: Addr)
      requires e in tab
      reads this
    {
      tab[e].inode == inode && tab[e].parent == parent
    }

    /** dcache: find the entry with this key in its bucket; if there is none and one is given, add it. */
    method Dcache(inode: Addr, parent: Addr, cached: Addr) returns (d: Addr)
      requires |hash| == NR_HASH_LISTS
      requires forall e :: e in hash[HashIndex(inode, parent)] ==> e in tab && e != NULL
      requires cached != NULL ==> cached in tab && KeyMatches(cached, inode, parent)
      requires forall e :: e in hash[HashIndex(inode, parent)] && KeyMatches(e, inode, parent) ==> cached == NULL || cached == e
      modifies `hash
      ensures d in old(hash)[HashIndex(inode, parent)] ==> hash == old(hash) && KeyMatches(d, inode, parent)
      ensures d !in old(hash)[HashIndex(inode, parent)] ==>
        && d == cached && (forall e :: e in old(hash)[HashIndex(inode, parent)] ==> !KeyMatches(e, inode, parent))
        && hash == if cached == NULL then old(hash)
                   else old(hash)[HashIndex(inode, parent) := [cached] + old(hash)[HashIndex(inode, parent)]]
    {
      var index := HashIndex(inode, parent);
      var i := 0;
      while i < |hash[index]|
        invariant hash == old(hash) && i <= |hash[index]|
        invariant forall j :: 0 <= j < i ==> !KeyMatches(hash[index][j], inode, parent)
      {
        var pos := hash[index][i];
        if tab[pos].inode == inode && tab[pos].parent == parent {
          assert pos in hash[index] && (cached == NULL || cached == pos);
          return pos;
        }
        i := i + 1;
      }
      assert forall e :: e in hash[index] ==> !KeyMatches(e, inode, parent);
      if cached != NULL {
        hash := hash[index := [cached] + hash[index]];
        return cached;
      }
      d := NULL;
    }

    /** ddecache: any entry with the same key makes it unlink `d`. */
    method Ddecache(d: Addr)
      requires d in tab && |hash| == NR_HASH_LISTS
      requires d in hash[HashIndex(tab[d].inode, tab[d].parent)]
      requires forall e :: e in hash[HashIndex(tab[d].inode, tab[d].parent)] ==> e in tab
      modifies `hash
      ensures hash == old(hash)[HashIndex(tab[d].inode, tab[d].parent) :=
                                Without(old(hash)[HashIndex(tab[d].inode, tab[d].parent)], d)]
    {
      var index := HashIndex(tab[d].inode, tab[d].parent);
      var i := 0;
      while i < |hash[index]|
        invariant hash == old(hash) && i <= |hash[index]| && d in hash[index][i..]
      {
        var pos := hash[index][i];
        if tab[pos].inode == tab[d].inode && tab[pos].parent == tab[d].parent {
          hash := hash[index := Without(hash[index], d)];
          return;
        }
        i := i + 1;
      }
    }

    /** The bucket of a key holds the cached dentry with that key, if there is one. */
    lemma BucketOfKey(inode: Addr, parent: Addr, e: Addr)
      requires Consistent(View())
      ensures e in hash[HashIndex(inode, parent)] ==> e in tab && e != NULL
      ensures e in hash[HashIndex(inode, parent)] && KeyMatches(e, inode, parent) <==> HasKey(View(), e, inode, parent)
    {
      assert RightlyHashed(View(), HashIndex(inode, parent), e) && LinkedUp(View(), e);
      hide HashIndex;
    }

    /** dref. */
    method Dref(d: Addr)
      requires Valid() && d in tab
      modifies this
      ensures Valid() && View() == Referenced(old(View()), d)
    {
      assert tab[d].refs != 0 by { assert Counted(View(), d); }
      ReferencedKeeps(View(), d);
      tab := WithRefs(tab, d, tab[d].refs + 1);
      holds := holds + multiset{d};
    }

    /**
     dget: the cached dentry for this key with one more reference, or a new one at the address
     `memory` that kmalloc returned, NULL if it failed.
     */
    method Dget(inode: Addr, parent: Addr, memory: Addr) returns (d: Addr)
      requires Valid() && inode != NULL && parent in tab && parent != droot && memory !in tab && memory < U32
      modifies this
      ensures Valid()
      ensures (exists e :: HasKey(old(View()), e, inode, parent)) ==>
                HasKey(old(View()), d, inode, parent) && View() == Referenced(old(View()), d)
      ensures (forall e :: !HasKey(old(View()), e, inode, parent)) ==>
                d == memory && View() == if d == NULL then old(View()) else Inserted(old(View()), d, inode, parent)
    {
      ghost var c := View();
      forall e ensures e in hash[HashIndex(inode, parent)] ==> e in tab && e != NULL
               ensures e in hash[HashIndex(inode, parent)] && KeyMatches(e, inode, parent) <==> HasKey(c, e, inode, parent) {
        BucketOfKey(inode, parent, e);
      }
      d := Dcache(inode, parent, NULL);
      if d != NULL {
        Dref(d);
        return;
      }
      assert forall e :: !HasKey(c, e, inode, parent);
      d := memory;
      if d != NULL {
        InsertedKeeps(c, d, inode, parent);
        tab := InsertedTab(tab, d, inode, parent);
        holds, born, clock := holds + multiset{d}, born[d := clock], clock + 1;
        var e := Dcache(inode, parent, d);
      }
    }

    /**
     do_mount on `d` up to a root dentry at `memory`: alloc_super_block references the mounted-on
     dentry, and the file system gets its root from dget(root_inode, NULL).
     */
    method Mount(d: Addr, inode: Addr, memory: Addr)
      requires Valid() && d in tab && tab[d].mount == NULL && inode != NULL
      requires memory !in tab && 0 < memory < U32 && forall e :: !HasKey(View(), e, inode, NULL)
      modifies this
      ensures Valid() && View() == Mounted(old(View()), d, memory, inode)
    {
      ghost var c := View();
      forall e ensures e in hash[HashIndex(inode, NULL)] ==> e in tab && e != NULL
               ensures e in hash[HashIndex(inode, NULL)] && KeyMatches(e, inode, NULL) <==> HasKey(c, e, inode, NULL) {
        BucketOfKey(inode, NULL, e);
      }
      MountedKeeps(c, d, memory, inode);
      tab := tab[d := tab[d].(refs := tab[d].refs + 1, mount := memory)][memory := Node("", inode, NULL, [], NULL, d, 1)];
      holds, born, clock := holds + multiset{d, memory}, born[memory := clock], clock + 1;
      var e := Dcache(inode, NULL, memory);
    }

    /** The name that the file system's lookup copies into a dentry. */
    method SetName(d: Addr, name: string)
      requires Valid() && d in tab
      modifies `tab
      ensures Valid() && View() == Named(old(View()), d, name)
    {
      NamedKeeps(View(), d, name);
      tab := tab[d := tab[d].(name := name)];
    }

    /** dput: gives one reference back and frees exactly the dentries that nothing refers to any more. */
    method Dput(d: Addr)
      requires Consistent(View()) && d in holds && (Pinned(View(), d) ==> holds[d] > 1)
      modifies this
      ensures View() == Put(old(View()), d) && PutResult(old(View()), View(), d)
      decreases if d in born then born[d] else 0
    {
      ghost var c := View();
      assert tab[d].refs != 0 by { assert Counted(c, d); }
      PutGives(c, d);
      hide PutResult, HashIndex, Counted;
      if tab[d].refs - 1 != 0 {
        hide Consistent;
        tab := WithRefs(tab, d, tab[d].refs - 1);
        holds := holds - multiset{d};
      } else {
        LastPut(c, d);
        hide Consistent, Unlinked, UnlinkedTab, WithRefs, Chain, Put, Freed, Pinned;
        if tab[d].parent != NULL {
          var parent := tab[d].parent;
          Unlink(d);
          Dput(parent);
        }
        PutParent(c, d);
        Free(d);
      }
    }

    /** The last reference goes: list_del from the parent, whose reference for the child is left over. */
    method Unlink(d: Addr)
      requires d in tab && tab[d].parent in tab
      modifies this
      ensures View() == Unlinked(old(View()), d)
    {
      tab, holds, dying := UnlinkedTab(tab, d), holds - multiset{d} + multiset{tab[d].parent}, dying + {d};
    }

    /** The end of dput, after the parent's turn. */
    method Free(d: Addr)
      requires Consistent(View()) && d in dying
      modifies this
      ensures d in old(tab) && View() == Freed(old(View()), d)
    {
      hide HashIndex, RightlyListed, RightlyHashed, DistinctKeys, LinkedUp, MountedWell, Counted, Without;
      DyingHashed(View(), d);
      assert tab[d].children == [];
      Ddecache(d);
      tab := tab - {d};
      dying := dying - {d};
    }
  }
}
