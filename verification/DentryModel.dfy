/**
 The dentry tree of fs/dentry.c as a value: nodes named by their addresses, the hash buckets, and
 as bookkeeping of the model the references held outside the tree and the order of creation.
 */
module DentryModel {
  import opened Sequences
  import opened Words

  type Addr = nat

  const NULL: Addr := 0
  const NR_HASH_LISTS: nat := 20

  /** get_hash_index: 32-bit arithmetic on two addresses. */
  function HashIndex(inode: Addr, parent: Addr): (k: nat)
    ensures k < NR_HASH_LISTS
  {
    (inode + parent * 301) % U32 % NR_HASH_LISTS
  }

  /**
   A struct dentry. `mount` is the root dentry of the file system mounted here (mount->root); a root
   dentry has no parent, and `covered` is the dentry its file system is mounted on (sb->parent).
   */
  datatype Node = Node(
    name: string,
    inode: Addr,
    parent: Addr,
    children: seq<Addr>,
    mount: Addr,
    covered: Addr,
    refs: nat)

  /**
   `holds` counts the references held outside the tree, `born` numbers the dentries in the order of
   their creation, and `dying` are those whose count is zero but which dput has not yet freed.
   */
  datatype Cache = Cache(
    tab: map<Addr, Node>,
    hash: seq<seq<Addr>>,
    droot: Addr,
    holds: multiset<Addr>,
    born: map<Addr, nat>,
    clock: nat,
    dying: set<Addr>)

  // ---------------------------------------------------------------------------------------------
  // The invariant
  // ---------------------------------------------------------------------------------------------

  ghost predicate IsChild(c: Cache, d: Addr, p: Addr) {
    d in c.tab && d != c.droot && d !in c.dying && c.tab[d].parent == p
  }

  ghost predicate RightlyListed(c: Cache, p: Addr, d: Addr) {
    p in c.tab ==> (d in c.tab[p].children <==> IsChild(c, d, p))
  }

  ghost predicate RightlyHashed(c: Cache, k: nat, d: Addr) {
    k < |c.hash| ==>
      (d in c.hash[k] <==> d in c.tab && d != c.droot && HashIndex(c.tab[d].inode, c.tab[d].parent) == k)
  }

  ghost predicate HasKey(c: Cache, d: Addr, inode: Addr, parent: Addr) {
    d in c.tab && d != c.droot && c.tab[d].inode == inode && c.tab[d].parent == parent
  }

  ghost predicate DistinctKeys(c: Cache, d: Addr, e: Addr) {
    d in c.tab && HasKey(c, e, c.tab[d].inode, c.tab[d].parent) && d != c.droot ==> d == e
  }

  /** The count is the children plus the outside holders; it is zero only while dput frees the node. */
  ghost predicate Counted(c: Cache, d: Addr) {
    d in c.tab ==>
      && c.tab[d].refs == |c.tab[d].children| + c.holds[d]
      && (d in c.dying <==> c.tab[d].refs == 0)
      && NoDuplicates(c.tab[d].children)
  }

  /** The dentry above `d`: its parent, or for a root dentry the dentry its file system covers. */
  function Up(c: Cache, d: Addr): Addr
    requires d in c.tab
  {
    if c.tab[d].parent == NULL then c.tab[d].covered else c.tab[d].parent
  }

  ghost predicate Alive(c: Cache, d: Addr) {
    d in c.tab && d !in c.dying
  }

  /** Links lead from a node to an older one that is alive as well. */
  ghost predicate LinkedUp(c: Cache, d: Addr) {
    && (d in c.tab ==> d != NULL && d < U32 && d in c.born && c.born[d] < c.clock)
    && (Alive(c, d) && d != c.droot ==>
         var u := Up(c, d); Alive(c, u) && u in c.born && c.born[u] < c.born[d])
  }

  /** Mount edges: both ends are held by the super block and point to each other. */
  ghost predicate MountedWell(c: Cache, d: Addr) {
    && (d in c.tab && c.tab[d].mount != NULL ==>
         var m := c.tab[d].mount;
         d in c.holds && m in c.tab && m in c.holds && m != c.droot && c.tab[m].parent == NULL && c.tab[m].covered == d)
    && (d in c.tab && c.tab[d].parent == NULL ==>
         var u := c.tab[d].covered; u in c.tab && c.tab[u].mount == d)
  }

  ghost predicate Consistent(c: Cache) {
    && |c.hash| == NR_HASH_LISTS
    && (forall k | 0 <= k < NR_HASH_LISTS :: NoDuplicates(c.hash[k]))
    && (forall k: nat, d :: RightlyHashed(c, k, d))
    && (forall d, e :: DistinctKeys(c, d, e))
    && (forall p, d :: RightlyListed(c, p, d))
    && (forall d :: Counted(c, d))
    && (forall d :: LinkedUp(c, d))
    && (forall d :: MountedWell(c, d))
    && (forall d :: d in c.holds ==> d in c.tab)
    && c.dying <= c.tab.Keys
    && c.droot in c.tab && c.tab[c.droot].parent == c.droot && c.droot in c.holds
  }

  /** The kernel itself holds these for good. */
  ghost predicate Pinned(c: Cache, d: Addr) {
    d in c.tab && (d == c.droot || c.tab[d].mount != NULL || c.tab[d].parent == NULL)
  }

  // ---------------------------------------------------------------------------------------------
  // The steps
  // ---------------------------------------------------------------------------------------------

  /** The fields that only creation and mounting set. */
  predicate SameNode(n: Node, m: Node) {
    n.inode == m.inode && n.parent == m.parent && n.mount == m.mount && n.covered == m.covered
  }

  predicate SameEntry(n: Node, m: Node) {
    SameNode(n, m) && n.name == m.name
  }

  function WithRefs(tab: map<Addr, Node>, d: Addr, n: nat): map<Addr, Node>
    requires d in tab
  {
    tab[d := tab[d].(refs := n)]
  }

  /** dcache_setup and init_droot: droot is its own parent and is referenced three times. */
  ghost function Initial(d: Addr, iroot: Addr): Cache {
    Cache(map[d := Node("", iroot, d, [], NULL, NULL, 3)], seq(NR_HASH_LISTS, _ => []), d, multiset{d, d, d}, map[d := 0], 1, {})
  }

  /** dref. */
  ghost function Referenced(c: Cache, d: Addr): Cache
    requires d in c.tab
  {
    c.(tab := WithRefs(c.tab, d, c.tab[d].refs + 1), holds := c.holds + multiset{d})
  }

  /** dput of a dentry that keeps other references. */
  ghost function Released(c: Cache, d: Addr): Cache
    requires d in c.tab && c.tab[d].refs > 1
  {
    c.(tab := WithRefs(c.tab, d, c.tab[d].refs - 1), holds := c.holds - multiset{d})
  }

  function UnlinkedTab(tab: map<Addr, Node>, d: Addr): map<Addr, Node>
    requires d in tab && tab[d].parent in tab
  {
    var p := tab[d].parent;
    var t := WithRefs(tab, d, 0);
    t[p := t[p].(children := Without(t[p].children, d))]
  }

  /** dput of the last reference, up to the list_del: the child's reference to the parent is left over. */
  ghost function Unlinked(c: Cache, d: Addr): Cache
    requires d in c.tab && c.tab[d].parent in c.tab
  {
    c.(tab := UnlinkedTab(c.tab, d),
       holds := c.holds - multiset{d} + multiset{c.tab[d].parent},
       dying := c.dying + {d})
  }

  /** ddecache and kfree. */
  ghost function Freed(c: Cache, d: Addr): Cache
    requires d in c.tab && |c.hash| == NR_HASH_LISTS
  {
    var k := HashIndex(c.tab[d].inode, c.tab[d].parent);
    c.(tab := c.tab - {d}, hash := c.hash[k := Without(c.hash[k], d)], dying := c.dying - {d})
  }

  function InsertedTab(tab: map<Addr, Node>, a: Addr, inode: Addr, parent: Addr): map<Addr, Node>
    requires parent in tab
  {
    var p := tab[parent];
    tab[parent := p.(refs := p.refs + 1, children := [a] + p.children)][a := Node("", inode, parent, [], NULL, NULL, 1)]
  }

  /** dget of a key that is not cached, at the address kmalloc returned. */
  ghost function Inserted(c: Cache, a: Addr, inode: Addr, parent: Addr): Cache
    requires parent in c.tab && |c.hash| == NR_HASH_LISTS
  {
    var k := HashIndex(inode, parent);
    c.(tab := InsertedTab(c.tab, a, inode, parent),
       hash := c.hash[k := [a] + c.hash[k]],
       holds := c.holds + multiset{a},
       born := c.born[a := c.clock],
       clock := c.clock + 1)
  }

  /** do_mount on `d`: the mounted-on dentry and the new root dentry `a` both get a reference. */
  ghost function Mounted(c: Cache, d: Addr, a: Addr, inode: Addr): Cache
    requires d in c.tab && |c.hash| == NR_HASH_LISTS
  {
    var k := HashIndex(inode, NULL);
    c.(tab := c.tab[d := c.tab[d].(refs := c.tab[d].refs + 1, mount := a)][a := Node("", inode, NULL, [], NULL, d, 1)],
       hash := c.hash[k := [a] + c.hash[k]],
       holds := c.holds + multiset{d, a},
       born := c.born[a := c.clock],
       clock := c.clock + 1)
  }

  /** The file system's lookup writes the name of the dentry it got. */
  ghost function Named(c: Cache, d: Addr, name: string): Cache
    requires d in c.tab
  {
    c.(tab := c.tab[d := c.tab[d].(name := name)])
  }

  /** dput: one reference less, and on the last one the dentry goes after its parent had its turn. */
  ghost function Put(c: Cache, d: Addr): (r: Cache)
    ensures r.born == c.born && r.clock == c.clock && r.droot == c.droot
    decreases if d in c.born then c.born[d] else 0
  {
    if d !in c.tab || c.tab[d].refs == 0 then c
    else if c.tab[d].refs > 1 then Released(c, d)
    else
      var p := c.tab[d].parent;
      if p !in c.tab || d !in c.born || p !in c.born || c.born[p] >= c.born[d] then c
      else
        var mid := Put(Unlinked(c, d), p);
        if d in mid.tab && |mid.hash| == NR_HASH_LISTS then Freed(mid, d) else mid
  }

  // ---------------------------------------------------------------------------------------------
  // Every step keeps the invariant
  // ---------------------------------------------------------------------------------------------

  lemma InitialConsistent(d: Addr, iroot: Addr)
    requires 0 < d < U32
    ensures Consistent(Initial(d, iroot))
  {
    hide HashIndex;
    var c := Initial(d, iroot);
    forall p, e ensures RightlyListed(c, p, e) && DistinctKeys(c, p, e) && LinkedUp(c, e) && MountedWell(c, e) && Counted(c, e) {
    }
    forall k: nat, e ensures RightlyHashed(c, k, e) {
    }
  }

  lemma ReferencedKeeps(c: Cache, d: Addr)
    requires Consistent(c) && Alive(c, d)
    ensures Consistent(Referenced(c, d))
  {
    hide HashIndex;
    var r := Referenced(c, d);
    assert Counted(c, d);
    forall k: nat, e ensures RightlyHashed(r, k, e) { assert RightlyHashed(c, k, e); }
    forall e, f ensures DistinctKeys(r, e, f) { assert DistinctKeys(c, e, f); }
    forall p, e ensures RightlyListed(r, p, e) { assert RightlyListed(c, p, e); }
    forall e ensures Counted(r, e) && LinkedUp(r, e) && MountedWell(r, e) {
      assert Counted(c, e) && LinkedUp(c, e) && MountedWell(c, e);
    }
  }

  lemma NamedKeeps(c: Cache, d: Addr, name: string)
    requires Consistent(c) && d in c.tab
    ensures Consistent(Named(c, d, name))
  {
    hide HashIndex;
    var r := Named(c, d, name);
    forall k: nat, e ensures RightlyHashed(r, k, e) { assert RightlyHashed(c, k, e); }
    forall e, f ensures DistinctKeys(r, e, f) { assert DistinctKeys(c, e, f); }
    forall p, e ensures RightlyListed(r, p, e) { assert RightlyListed(c, p, e); }
    forall e ensures Counted(r, e) && LinkedUp(r, e) && MountedWell(r, e) {
      assert Counted(c, e) && LinkedUp(c, e) && MountedWell(c, e);
    }
  }

  lemma ReleasedKeeps(c: Cache, d: Addr)
    requires Consistent(c) && d in c.holds && (Pinned(c, d) ==> c.holds[d] > 1) && c.tab[d].refs > 1
    ensures Consistent(Released(c, d))
  {
    hide HashIndex;
    var r := Released(c, d);
    assert Counted(c, d);
    forall k: nat, e ensures RightlyHashed(r, k, e) { assert RightlyHashed(c, k, e); }
    forall e, f ensures DistinctKeys(r, e, f) { assert DistinctKeys(c, e, f); }
    forall p, e ensures RightlyListed(r, p, e) { assert RightlyListed(c, p, e); }
    forall e ensures Counted(r, e) && LinkedUp(r, e) && MountedWell(r, e) {
      assert Counted(c, e) && LinkedUp(c, e) && MountedWell(c, e);
    }
  }

  /** A dentry whose last reference goes is no root and has a parent that is alive. */
  lemma LastReference(c: Cache, d: Addr)
    requires Consistent(c) && d in c.holds && (Pinned(c, d) ==> c.holds[d] > 1) && c.tab[d].refs == 1
    ensures Alive(c, d) && c.holds[d] == 1 && c.tab[d].children == [] && d != c.droot && c.tab[d].mount == NULL
    ensures c.tab[d].parent != NULL && Alive(c, c.tab[d].parent) && c.tab[d].parent != d
    ensures d in c.tab[c.tab[d].parent].children
  {
    assert Counted(c, d) && LinkedUp(c, d) && RightlyListed(c, c.tab[d].parent, d);
  }

  lemma UnlinkedKeeps(c: Cache, d: Addr)
    requires Consistent(c) && d in c.holds && (Pinned(c, d) ==> c.holds[d] > 1) && c.tab[d].refs == 1
    ensures c.tab[d].parent in c.tab && Consistent(Unlinked(c, d))
  {
    hide HashIndex;
    LastReference(c, d);
    var r := Unlinked(c, d);
    forall k: nat, e ensures RightlyHashed(r, k, e) { assert RightlyHashed(c, k, e); }
    forall e, f ensures DistinctKeys(r, e, f) { assert DistinctKeys(c, e, f); }
    forall p, e ensures RightlyListed(r, p, e) { UnlinkedLists(c, d, p, e); }
    forall e ensures Counted(r, e) && MountedWell(r, e) && LinkedUp(r, e) {
      UnlinkedCounts(c, d, e);
      UnlinkedLinks(c, d, e);
    }
    hide RightlyHashed, DistinctKeys, RightlyListed, Counted, MountedWell, LinkedUp;
  }

  lemma UnlinkedLists(c: Cache, d: Addr, p: Addr, e: Addr)
    requires Consistent(c) && d in c.holds && (Pinned(c, d) ==> c.holds[d] > 1) && c.tab[d].refs == 1
    requires c.tab[d].parent in c.tab
    ensures RightlyListed(Unlinked(c, d), p, e)
  {
    LastReference(c, d);
    assert Counted(c, c.tab[d].parent);
    WithoutMembers(c.tab[c.tab[d].parent].children, d);
    assert RightlyListed(c, p, e) && RightlyListed(c, p, d) && Counted(c, p);
    hide Without, Consistent;
  }

  lemma UnlinkedCounts(c: Cache, d: Addr, e: Addr)
    requires Consistent(c) && d in c.holds && (Pinned(c, d) ==> c.holds[d] > 1) && c.tab[d].refs == 1
    requires c.tab[d].parent in c.tab
    ensures Counted(Unlinked(c, d), e) && MountedWell(Unlinked(c, d), e)
  {
    LastReference(c, d);
    assert Counted(c, c.tab[d].parent);
    WithoutMembers(c.tab[c.tab[d].parent].children, d);
    assert Counted(c, e) && MountedWell(c, e);
    hide Without, Consistent;
  }

  /** Nothing alive leads up to a dentry whose count has dropped to zero. */
  lemma UnlinkedLinks(c: Cache, d: Addr, e: Addr)
    requires Consistent(c) && d in c.holds && (Pinned(c, d) ==> c.holds[d] > 1) && c.tab[d].refs == 1
    requires c.tab[d].parent in c.tab
    ensures LinkedUp(Unlinked(c, d), e)
  {
    hide HashIndex;
    LastReference(c, d);
    assert LinkedUp(c, e) && MountedWell(c, e) && Counted(c, e) && RightlyListed(c, d, e);
  }

  lemma FreedKeeps(c: Cache, d: Addr)
    requires Consistent(c) && d in c.dying
    ensures Consistent(Freed(c, d))
  {
    hide HashIndex;
    var r, k0 := Freed(c, d), HashIndex(c.tab[d].inode, c.tab[d].parent);
    assert Counted(c, d) && RightlyHashed(c, k0, d) && MountedWell(c, d);
    WithoutMembers(c.hash[k0], d);
    forall k: nat, e ensures RightlyHashed(r, k, e) { assert RightlyHashed(c, k, e); }
    forall e, f ensures DistinctKeys(r, e, f) { assert DistinctKeys(c, e, f); }
    forall p, e ensures RightlyListed(r, p, e) { assert RightlyListed(c, p, e); }
    forall e ensures Counted(r, e) && LinkedUp(r, e) && MountedWell(r, e) {
      assert Counted(c, e) && LinkedUp(c, e) && MountedWell(c, e);
    }
  }

  lemma InsertedKeeps(c: Cache, a: Addr, inode: Addr, parent: Addr)
    requires Consistent(c) && Alive(c, parent) && a !in c.tab && 0 < a < U32
    requires forall e :: !HasKey(c, e, inode, parent)
    ensures Consistent(Inserted(c, a, inode, parent))
  {
    hide HashIndex;
    var r, k0 := Inserted(c, a, inode, parent), HashIndex(inode, parent);
    assert Counted(c, parent) && LinkedUp(c, parent) && RightlyHashed(c, k0, a) && RightlyListed(c, parent, a);
    PushMembers(c.hash[k0], a);
    PushMembers(c.tab[parent].children, a);
    forall k: nat, e ensures RightlyHashed(r, k, e) { assert RightlyHashed(c, k, e); }
    forall e, f ensures DistinctKeys(r, e, f) {
      assert DistinctKeys(c, e, f) && !HasKey(c, e, inode, parent) && !HasKey(c, f, inode, parent);
    }
    forall p, e ensures RightlyListed(r, p, e) {
      assert RightlyListed(c, p, e) && LinkedUp(c, e);
    }
    forall e ensures Counted(r, e) && LinkedUp(r, e) && MountedWell(r, e) {
      assert Counted(c, e) && LinkedUp(c, e) && MountedWell(c, e);
    }
  }

  lemma MountedKeeps(c: Cache, d: Addr, a: Addr, inode: Addr)
    requires Consistent(c) && Alive(c, d) && c.tab[d].mount == NULL && a !in c.tab && 0 < a < U32
    requires forall e :: !HasKey(c, e, inode, NULL)
    ensures Consistent(Mounted(c, d, a, inode))
  {
    hide HashIndex;
    var r, k0 := Mounted(c, d, a, inode), HashIndex(inode, NULL);
    assert Counted(c, d) && LinkedUp(c, d) && RightlyHashed(c, k0, a);
    PushMembers(c.hash[k0], a);
    forall k: nat, e ensures RightlyHashed(r, k, e) { assert RightlyHashed(c, k, e); }
    forall e, f ensures DistinctKeys(r, e, f) {
      assert DistinctKeys(c, e, f) && !HasKey(c, e, inode, NULL) && !HasKey(c, f, inode, NULL);
    }
    forall p, e ensures RightlyListed(r, p, e) {
      assert RightlyListed(c, p, e) && LinkedUp(c, e) && LinkedUp(c, p);
    }
    forall e ensures Counted(r, e) && LinkedUp(r, e) && MountedWell(r, e) {
      assert Counted(c, e) && LinkedUp(c, e) && MountedWell(c, e);
    }
  }

  // ---------------------------------------------------------------------------------------------
  // Ancestors, and which dentries exist
  // ---------------------------------------------------------------------------------------------

  /** `a` is `d` or an ancestor of `d`, across mount edges. */
  ghost predicate Above(c: Cache, a: Addr, d: Addr)
    decreases if d in c.born then c.born[d] else 0
  {
    d in c.tab &&
    (a == d ||
     (d != c.droot && d in c.born && Up(c, d) in c.born && c.born[Up(c, d)] < c.born[d] && Above(c, a, Up(c, d))))
  }

  ghost predicate HolderBelow(c: Cache, d: Addr, h: Addr) {
    h in c.holds && Above(c, d, h)
  }

  /** droot is above everything. */
  lemma {:induction false} RootAbove(c: Cache, d: Addr)
    requires Consistent(c) && Alive(c, d)
    ensures Above(c, c.droot, d)
    decreases if d in c.born then c.born[d] else 0
  {
    assert LinkedUp(c, d);
    if d != c.droot { RootAbove(c, Up(c, d)); }
  }

  /** What stands above an existing dentry exists. */
  lemma {:induction false} AboveAlive(c: Cache, a: Addr, d: Addr)
    requires Consistent(c) && Alive(c, d) && Above(c, a, d)
    ensures Alive(c, a)
    decreases if d in c.born then c.born[d] else 0
  {
    assert LinkedUp(c, d);
    if a != d { AboveAlive(c, a, Up(c, d)); }
  }

  lemma {:induction false} AboveTransitive(c: Cache, a: Addr, b: Addr, d: Addr)
    requires Above(c, a, b) && Above(c, b, d)
    ensures Above(c, a, d)
    decreases if d in c.born then c.born[d] else 0
  {
    if b != d { AboveTransitive(c, a, b, Up(c, d)); }
  }

  lemma {:induction false} HolderExists(c: Cache, d: Addr) returns (h: Addr)
    requires Consistent(c) && Alive(c, d)
    ensures HolderBelow(c, d, h)
    decreases c.clock - (if d in c.born then c.born[d] else 0)
  {
    assert Counted(c, d) && LinkedUp(c, d);
    if d in c.holds {
      h := d;
    } else {
      var e := c.tab[d].children[0];
      assert RightlyListed(c, d, e) && LinkedUp(c, e);
      h := HolderExists(c, e);
      assert d != NULL && Up(c, e) == d;
      AboveTransitive(c, d, e, h);
    }
  }

  /**
   The dentries that exist are exactly those above some outside reference: a dget, dref or dput
   determines the whole set through `holds` alone.
   */
  lemma LiveIffNeeded(c: Cache, d: Addr)
    requires Consistent(c) && c.dying == {}
    ensures d in c.tab <==> exists h :: HolderBelow(c, d, h)
  {
    if d in c.tab {
      var h := HolderExists(c, d);
    }
    forall h | HolderBelow(c, d, h) ensures d in c.tab {
      AboveAlive(c, d, h);
    }
  }

  /** The dentries a dput of `d` frees: up to the first one with another reference. */
  ghost function Chain(c: Cache, d: Addr): set<Addr>
    decreases if d in c.born then c.born[d] else 0
  {
    if d in c.tab && c.tab[d].refs == 1 && d in c.born && c.tab[d].parent in c.born && c.born[c.tab[d].parent] < c.born[d]
    then {d} + Chain(c, c.tab[d].parent)
    else {}
  }

  lemma {:induction false} ChainFrame(c: Cache, d: Addr, e: Addr)
    requires Consistent(c) && d in c.holds && (Pinned(c, d) ==> c.holds[d] > 1) && c.tab[d].refs == 1
    requires c.tab[d].parent in c.tab && d in c.born && e in c.born && c.born[e] < c.born[d]
    ensures Chain(Unlinked(c, d), e) == Chain(c, e)
    decreases if e in c.born then c.born[e] else 0
  {
    hide HashIndex;
    if e in c.tab && c.tab[e].parent in c.born && c.born[c.tab[e].parent] < c.born[e] {
      ChainFrame(c, d, c.tab[e].parent);
    }
  }

  /** All that dput needs when the last reference goes: the parent's turn comes next. */
  lemma LastPut(c: Cache, d: Addr)
    requires Consistent(c) && d in c.holds && (Pinned(c, d) ==> c.holds[d] > 1) && c.tab[d].refs == 1
    ensures d !in c.dying && d in c.born
    ensures c.tab[d].parent != NULL && c.tab[d].parent in c.tab && c.tab[d].parent in c.born
    ensures c.born[c.tab[d].parent] < c.born[d]
    ensures var r, p := Unlinked(c, d), c.tab[d].parent;
            Consistent(r) && p in r.holds && (Pinned(r, p) ==> r.holds[p] > 1) && Chain(c, d) == {d} + Chain(r, p)
  {
    hide HashIndex;
    var p := c.tab[d].parent;
    LastReference(c, d);
    UnlinkedKeeps(c, d);
    assert LinkedUp(c, d) && MountedWell(c, p) && LinkedUp(c, p) && MountedWell(c, c.tab[p].covered);
    ChainFrame(c, d, p);
  }

  /** A dying dentry is still in its bucket and has no children left. */
  lemma DyingHashed(c: Cache, d: Addr)
    requires Consistent(c) && d in c.dying
    ensures d in c.tab && d != c.droot && c.tab[d].children == [] && |c.hash| == NR_HASH_LISTS
    ensures d in c.hash[HashIndex(c.tab[d].inode, c.tab[d].parent)]
    ensures forall e :: e in c.hash[HashIndex(c.tab[d].inode, c.tab[d].parent)] ==> e in c.tab
  {
    var k := HashIndex(c.tab[d].inode, c.tab[d].parent);
    hide HashIndex;
    assert Counted(c, d) && Counted(c, c.droot) && RightlyHashed(c, k, d);
    forall e ensures e in c.hash[k] ==> e in c.tab {
      assert RightlyHashed(c, k, e);
    }
  }

  /** What dput of `d` makes of `c`: one reference less, and the whole chain above `d` is gone. */
  ghost predicate PutResult(c: Cache, r: Cache, d: Addr) {
    && Consistent(r) && r.droot == c.droot && r.dying == c.dying && r.born == c.born && r.clock == c.clock
    && r.holds == c.holds - multiset{d}
    && r.tab.Keys == c.tab.Keys - Chain(c, d)
    && (forall e :: e in r.tab ==> e in c.tab && SameEntry(r.tab[e], c.tab[e]))
  }

  lemma PutMore(c: Cache, d: Addr)
    requires Consistent(c) && d in c.holds && (Pinned(c, d) ==> c.holds[d] > 1) && c.tab[d].refs > 1
    ensures PutResult(c, Released(c, d), d)
  {
    ReleasedKeeps(c, d);
    hide Consistent, Pinned;
  }

  lemma UnlinkedSame(tab: map<Addr, Node>, d: Addr)
    requires d in tab && tab[d].parent in tab
    ensures UnlinkedTab(tab, d).Keys == tab.Keys
    ensures forall e :: e in tab ==> SameEntry(UnlinkedTab(tab, d)[e], tab[e])
  {
  }

  lemma PutLast(c: Cache, mid: Cache, d: Addr)
    requires Consistent(c) && d in c.holds && (Pinned(c, d) ==> c.holds[d] > 1) && c.tab[d].refs == 1
    requires c.tab[d].parent in c.tab && PutResult(Unlinked(c, d), mid, c.tab[d].parent)
    ensures Consistent(mid) && d in mid.dying && d in mid.tab && PutResult(c, Freed(mid, d), d)
  {
    hide HashIndex, Pinned, RightlyListed, RightlyHashed, DistinctKeys, LinkedUp, MountedWell, Counted, Without, Consistent;
    LastPut(c, d);
    UnlinkedSame(c.tab, d);
    hide Chain, UnlinkedTab;
    DyingHashed(mid, d);
    FreedKeeps(mid, d);
    var chain, r := Chain(Unlinked(c, d), c.tab[d].parent), Freed(mid, d);
    assert r.tab.Keys == c.tab.Keys - ({d} + chain) by {
      assert mid.tab.Keys == c.tab.Keys - chain;
    }
    assert r.holds == c.holds - multiset{d};
    forall e | e in r.tab ensures e in c.tab && SameEntry(r.tab[e], c.tab[e]) {
      assert e in mid.tab;
    }
  }

  /** What the recursion of dput amounts to. */
  lemma {:induction false} PutGives(c: Cache, d: Addr)
    requires Consistent(c) && d in c.holds && (Pinned(c, d) ==> c.holds[d] > 1)
    ensures PutResult(c, Put(c, d), d)
    decreases if d in c.born then c.born[d] else 0
  {
    hide PutResult, HashIndex;
    assert Counted(c, d);
    hide Counted;
    if c.tab[d].refs > 1 {
      PutMore(c, d);
    } else {
      LastPut(c, d);
      hide Consistent, UnlinkedTab, WithRefs, Chain;
      PutGives(Unlinked(c, d), c.tab[d].parent);
      PutParent(c, d);
    }
  }

  /** The last reference: the parent's turn, and then the dentry is free to go. */
  lemma PutParent(c: Cache, d: Addr)
    requires Consistent(c) && d in c.holds && (Pinned(c, d) ==> c.holds[d] > 1) && c.tab[d].refs == 1
    requires c.tab[d].parent in c.tab
    requires PutResult(Unlinked(c, d), Put(Unlinked(c, d), c.tab[d].parent), c.tab[d].parent)
    ensures var mid := Put(Unlinked(c, d), c.tab[d].parent);
            Consistent(mid) && d in mid.dying && d in mid.tab && |mid.hash| == NR_HASH_LISTS && Put(c, d) == Freed(mid, d)
    ensures PutResult(c, Put(c, d), d)
  {
    hide Put, PutResult, HashIndex, UnlinkedTab, WithRefs, Chain;
    LastPut(c, d);
    PutLast(c, Put(Unlinked(c, d), c.tab[d].parent), d);
    DyingHashed(Put(Unlinked(c, d), c.tab[d].parent), d);
    hide Consistent, Pinned, Unlinked, Freed;
    PutUnfolds(c, d);
  }

  lemma PutUnfolds(c: Cache, d: Addr)
    requires d in c.tab && c.tab[d].refs == 1 && c.tab[d].parent in c.tab
    requires d in c.born && c.tab[d].parent in c.born && c.born[c.tab[d].parent] < c.born[d]
    requires var mid := Put(Unlinked(c, d), c.tab[d].parent); d in mid.tab && |mid.hash| == NR_HASH_LISTS
    ensures Put(c, d) == Freed(Put(Unlinked(c, d), c.tab[d].parent), d)
  {
    hide Unlinked, Freed;
  }

  /** Whatever is left after a dput is what it was. */
  lemma {:induction false} PutShrinks(c: Cache, d: Addr)
    ensures forall e :: e in Put(c, d).tab ==> e in c.tab && SameEntry(Put(c, d).tab[e], c.tab[e])
    decreases if d in c.born then c.born[d] else 0
  {
    hide HashIndex, Without;
    if d in c.tab && c.tab[d].refs == 1 {
      var p := c.tab[d].parent;
      if p in c.tab && d in c.born && p in c.born && c.born[p] < c.born[d] {
        UnlinkedSame(c.tab, d);
        hide UnlinkedTab;
        PutShrinks(Unlinked(c, d), p);
      }
    }
  }

  /** dput undoes dref. */
  lemma PutUndoesReferenced(c: Cache, d: Addr)
    requires d in c.tab && c.tab[d].refs > 0
    ensures Put(Referenced(c, d), d) == c
  {
    var r := Referenced(c, d);
    assert WithRefs(r.tab, d, c.tab[d].refs) == c.tab;
    assert r.holds - multiset{d} == c.holds;
  }

  // ---------------------------------------------------------------------------------------------
  // What the operations leave alone
  // ---------------------------------------------------------------------------------------------

  ghost predicate Unchanged(c: Cache, r: Cache, d: Addr) {
    d in r.tab && d in r.born && r.born[d] < c.clock ==>
      d in c.tab && d in c.born && c.born[d] == r.born[d] && SameNode(r.tab[d], c.tab[d])
  }

  /** Dentries of `r` older than the clock of `c` are dentries of `c`. */
  ghost predicate Evolves(c: Cache, r: Cache) {
    r.droot == c.droot && c.clock <= r.clock && forall d :: Unchanged(c, r, d)
  }

  lemma EvolvesTransitive(c: Cache, r: Cache, s: Cache)
    requires Evolves(c, r) && Evolves(r, s)
    ensures Evolves(c, s)
  {
    forall d ensures Unchanged(c, s, d) {
      assert Unchanged(c, r, d) && Unchanged(r, s, d);
    }
  }

  ghost predicate Survives(c: Cache, r: Cache, d: Addr) {
    Alive(r, d) && d in c.tab && d in c.born && d in r.born && r.born[d] == c.born[d]
  }

  /** A surviving dentry keeps its ancestors. */
  lemma {:induction false} AboveFrame(c: Cache, r: Cache, a: Addr, d: Addr)
    requires Consistent(c) && Consistent(r) && Evolves(c, r) && Survives(c, r, d)
    ensures Above(c, a, d) <==> Above(r, a, d)
    decreases if d in c.born then c.born[d] else 0
  {
    assert LinkedUp(c, d) && LinkedUp(r, d) && Unchanged(c, r, d);
    if d != c.droot {
      var u := Up(r, d);
      assert u == Up(c, d);
      assert Unchanged(c, r, u);
      AboveFrame(c, r, a, u);
    }
  }

  lemma PutEvolves(c: Cache, r: Cache, d: Addr)
    requires Consistent(c) && PutResult(c, r, d)
    ensures Evolves(c, r)
  {
    forall e ensures Unchanged(c, r, e) {
    }
  }

  /** The chain dput frees is exactly what stands above no remaining reference. */
  lemma ChainIsUnneeded(c: Cache, r: Cache, d: Addr, e: Addr)
    requires Consistent(c) && c.dying == {} && PutResult(c, r, d) && e in c.tab
    ensures e in Chain(c, d) <==> !exists h :: h in c.holds - multiset{d} && Above(c, e, h)
  {
    hide HashIndex;
    LiveIffNeeded(r, e);
    PutEvolves(c, r, d);
    forall h | h in r.holds ensures Above(r, e, h) <==> Above(c, e, h) {
      assert Counted(r, h) && LinkedUp(r, h);
      AboveFrame(c, r, e, h);
    }
    assert e in r.tab <==> exists h :: HolderBelow(r, e, h);
    if h :| h in c.holds - multiset{d} && Above(c, e, h) {
      assert HolderBelow(r, e, h);
    }
  }

  /** Where a walk that stands on a mounted-on dentry continues. */
  ghost function Bottom(c: Cache, d: Addr): Addr
    decreases c.clock - if d in c.born then c.born[d] else 0
  {
    if d in c.tab && c.tab[d].mount != NULL && d in c.born && c.tab[d].mount in c.born
       && c.born[d] < c.born[c.tab[d].mount] < c.clock
    then Bottom(c, c.tab[d].mount)
    else d
  }

  /** A mount edge leads one step down. */
  lemma MountBelow(c: Cache, a: Addr, d: Addr)
    requires Consistent(c) && Alive(c, d) && c.tab[d].mount != NULL && Above(c, a, d)
    ensures Alive(c, c.tab[d].mount) && Above(c, a, c.tab[d].mount) && Bottom(c, d) == Bottom(c, c.tab[d].mount)
    ensures d in c.born && c.tab[d].mount in c.born && c.tab[d].mount in c.holds
    ensures c.born[d] < c.born[c.tab[d].mount] < c.clock
  {
    var m := c.tab[d].mount;
    assert MountedWell(c, d) && LinkedUp(c, d) && Counted(c, m) && LinkedUp(c, m);
  }
}
