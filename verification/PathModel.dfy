/**
 fs/namei.c as functions of the dentry cache: the components of a path, one step of the walk, a whole
 lookup, and what holds of all of them. What the file system finds on disk and where kmalloc puts a
 new dentry are parameters.
 */
module PathModel {
  import opened Sequences
  import opened DentryModel
  import opened Words

  // ---------------------------------------------------------------------------------------------
  // References
  // ---------------------------------------------------------------------------------------------

  /** Beside the kernel's own reference, `d` has all the references in `own`. */
  ghost predicate Enough(c: Cache, own: multiset<Addr>, d: Addr) {
    c.holds[d] >= own[d] + if Pinned(c, d) then 1 else 0
  }

  ghost predicate Owned(c: Cache, own: multiset<Addr>) {
    && Consistent(c) && c.dying == {} && c.tab[c.droot].mount != NULL
    && forall d :: Enough(c, own, d)
  }

  /** From `c` to `r` the dentries referenced by `own` and those pinned by the kernel stayed. */
  ghost predicate Keeps(c: Cache, r: Cache, own: multiset<Addr>) {
    Evolves(c, r) && forall d :: d in own || Pinned(c, d) ==> Survives(c, r, d)
  }

  lemma KeepsTransitive(c: Cache, r: Cache, s: Cache, own: multiset<Addr>)
    requires Consistent(c) && Keeps(c, r, own) && Keeps(r, s, own)
    ensures Keeps(c, s, own)
  {
    EvolvesTransitive(c, r, s);
    forall d | d in own || Pinned(c, d) ensures Survives(c, s, d) {
      assert LinkedUp(c, d);
      assert Survives(c, r, d) && Unchanged(c, r, d) && Survives(r, s, d);
    }
  }

  lemma KeepsLess(c: Cache, r: Cache, own: multiset<Addr>, less: multiset<Addr>)
    requires Keeps(c, r, own) && less <= own
    ensures Keeps(c, r, less)
  {
    hide Evolves, Survives;
    forall d | d in less || Pinned(c, d) ensures Survives(c, r, d) {
      assert d in own || Pinned(c, d);
    }
  }

  lemma KeepsTwice(c: Cache, c1: Cache, r: Cache, own: multiset<Addr>, own1: multiset<Addr>, own2: multiset<Addr>)
    requires Consistent(c) && own <= own1 && own <= own2 && Keeps(c, c1, own1) && Keeps(c1, r, own2)
    ensures Keeps(c, r, own)
  {
    KeepsLess(c, c1, own1, own);
    KeepsLess(c1, r, own2, own);
    hide Keeps;
    KeepsTransitive(c, c1, r, own);
  }

  lemma KeepsThrice(c: Cache, c1: Cache, c2: Cache, r: Cache, own: multiset<Addr>, own1: multiset<Addr>, own2: multiset<Addr>)
    requires Consistent(c) && own <= own1 && own <= own2 && Keeps(c, c1, own) && Keeps(c1, c2, own1) && Keeps(c2, r, own2)
    ensures Keeps(c, r, own)
  {
    hide Keeps;
    KeepsTwice(c, c1, c2, own, own, own1);
    KeepsTwice(c, c2, r, own, own, own2);
  }

  lemma OwnedAlive(c: Cache, own: multiset<Addr>, d: Addr)
    requires Owned(c, own) && d in own
    ensures Alive(c, d) && d in c.holds && (Pinned(c, d) ==> c.holds[d] > 1)
    ensures c.tab[d].refs > 0
  {
    assert Enough(c, own, d) && Counted(c, d);
  }

  lemma OwnedConsistent(c: Cache, own: multiset<Addr>)
    requires Owned(c, own)
    ensures Consistent(c) && c.dying == {} && own <= c.holds
  {
    forall d ensures own[d] <= c.holds[d] {
      assert Enough(c, own, d);
    }
  }

  lemma AboveItself(c: Cache, d: Addr)
    requires d in c.tab
    ensures Above(c, d, d)
  {
  }

  /** After mount_root the kernel's references and those of the first task are all counted. */
  lemma BootOwned(c: Cache, d: Addr, memory: Addr)
    requires Consistent(c) && c.dying == {} && c.droot == d && memory != d && c.tab.Keys == {d, memory} && c.tab[d].mount != NULL
    requires c.holds[d] == 6 && c.holds[memory] == 1
    ensures Owned(c, multiset{d} + multiset{d}) && Above(c, d, d)
  {
    forall x ensures Enough(c, multiset{d} + multiset{d}, x) {
    }
  }

  lemma NextSurvives(c: Cache, r: Cache, own: multiset<Addr>, d: Addr)
    requires Owned(r, own) && d in own && d in c.tab && d in c.born && r.born == c.born
    ensures Survives(c, r, d)
  {
    OwnedAlive(r, own, d);
  }

  lemma AliveLinked(c: Cache, d: Addr)
    requires Consistent(c)
    ensures LinkedUp(c, d)
  {
  }

  lemma OwnedSelf(c: Cache, own: multiset<Addr>)
    requires Owned(c, own)
    ensures Keeps(c, c, own)
  {
    forall d | d in own || Pinned(c, d) ensures Survives(c, c, d) {
      assert Enough(c, own, d) && Counted(c, d) && LinkedUp(c, d);
    }
  }

  lemma OwnMore(c: Cache, own: multiset<Addr>, d: Addr)
    requires Owned(c, own) && Alive(c, d)
    ensures Owned(Referenced(c, d), own + multiset{d}) && Keeps(c, Referenced(c, d), own)
  {
    var r := Referenced(c, d);
    OwnedSelf(c, own);
    ReferencedKeeps(c, d);
    hide Consistent;
    forall e ensures Enough(r, own + multiset{d}, e) { assert Enough(c, own, e); }
    forall e ensures Unchanged(c, r, e) { assert Unchanged(c, c, e); }
    forall e | e in own || Pinned(c, e) ensures Survives(c, r, e) { assert Survives(c, c, e); }
  }

  lemma OwnLess(c: Cache, r: Cache, own: multiset<Addr>, d: Addr)
    requires Owned(c, own) && d in own && PutResult(c, r, d)
    ensures Owned(r, own - multiset{d}) && Keeps(c, r, own - multiset{d})
  {
    PutEvolves(c, r, d);
    forall e ensures Enough(r, own - multiset{d}, e) { assert Enough(c, own, e) && Enough(c, own, d); }
    forall e | e in own - multiset{d} || Pinned(c, e) ensures Survives(c, r, e) {
      assert Enough(c, own, e) && Enough(c, own, d) && Counted(r, e) && LinkedUp(r, e);
    }
    assert Pinned(c, c.droot) && Survives(c, r, c.droot);
  }

  lemma OwnNew(c: Cache, own: multiset<Addr>, a: Addr, inode: Addr, parent: Addr)
    requires Owned(c, own) && Alive(c, parent) && parent != c.droot && a !in c.tab && 0 < a < U32
    requires forall e :: !HasKey(c, e, inode, parent)
    ensures Owned(Inserted(c, a, inode, parent), own + multiset{a}) && Keeps(c, Inserted(c, a, inode, parent), own)
  {
    var r := Inserted(c, a, inode, parent);
    OwnedSelf(c, own);
    InsertedKeeps(c, a, inode, parent);
    assert LinkedUp(c, parent);
    hide Consistent;
    forall e ensures Enough(r, own + multiset{a}, e) { assert Enough(c, own, e); }
    forall e ensures Unchanged(c, r, e) { assert Unchanged(c, c, e); }
    forall e | e in own || Pinned(c, e) ensures Survives(c, r, e) { assert Survives(c, c, e); }
  }

  /** A dentry that a reference keeps stays under its ancestors. */
  lemma StaysUnder(c: Cache, r: Cache, own: multiset<Addr>, a: Addr, d: Addr)
    requires Consistent(c) && Consistent(r) && Keeps(c, r, own) && d in own && Above(c, a, d)
    ensures Above(r, a, d)
  {
    hide Consistent;
    AboveFrame(c, r, a, d);
  }

  lemma UnderReferenced(c: Cache, x: Addr, a: Addr, d: Addr)
    requires Consistent(c) && Alive(c, x) && Alive(c, d) && Above(c, a, d)
    ensures Above(Referenced(c, x), a, d)
  {
    var r := Referenced(c, x);
    ReferencedKeeps(c, x);
    assert LinkedUp(c, d);
    hide Consistent;
    forall e ensures Unchanged(c, r, e) {
    }
    AboveFrame(c, r, a, d);
  }

  lemma ChildBelow(c: Cache, a: Addr, p: Addr, d: Addr)
    requires Consistent(c) && c.dying == {} && p in c.tab && d in c.tab && d != c.droot && c.tab[d].parent == p && Above(c, a, p)
    ensures Alive(c, d) && Above(c, a, d) && d != a
  {
    assert LinkedUp(c, d) && LinkedUp(c, p);
    AboveOlder(c, a, p);
  }

  lemma {:induction false} AboveOlder(c: Cache, a: Addr, d: Addr)
    requires Above(c, a, d) && d in c.born
    ensures a in c.born && c.born[a] <= c.born[d]
    decreases if d in c.born then c.born[d] else 0
  {
    if a != d { AboveOlder(c, a, Up(c, d)); }
  }

  // ---------------------------------------------------------------------------------------------
  // Paths
  // ---------------------------------------------------------------------------------------------

  function NextSlash(s: string): (e: nat)
    ensures e <= |s| && (e < |s| ==> s[e] == '/')
    ensures forall i :: 0 <= i < e ==> s[i] != '/'
  {
    if s == [] || s[0] == '/' then 0 else 1 + NextSlash(s[1..])
  }

  /** The components of a path that make the walk move. */
  function Components(s: string): seq<string>
    decreases |s|
  {
    if s == [] then []
    else if s[0] == '/' then Components(s[1..])
    else
      var e := NextSlash(s);
      (if s[..e] == "." then [] else [s[..e]]) + Components(s[e..])
  }

  predicate IsName(s: string) {
    s != [] && s != "." && '/' !in s
  }

  function Join(names: seq<string>): string {
    if names == [] then [] else "/" + names[0] + Join(names[1..])
  }

  lemma {:induction false} NextSlashOf(first: string, rest: string)
    requires '/' !in first && (rest != [] ==> rest[0] == '/')
    ensures NextSlash(first + rest) == |first|
  {
    if first == [] {
      assert first + rest == rest;
    } else {
      assert (first + rest)[1..] == first[1..] + rest && first[0] in first;
      NextSlashOf(first[1..], rest);
    }
  }

  /** Splitting undoes joining. */
  lemma {:induction false} ComponentsOfJoin(names: seq<string>)
    requires forall i :: 0 <= i < |names| ==> IsName(names[i])
    ensures Components(Join(names)) == names
  {
    if names != [] {
      var first, rest := names[0], Join(names[1..]);
      ComponentsOfJoin(names[1..]);
      FirstComponent(first, rest);
      assert names == [first] + names[1..];
    }
  }

  lemma FirstComponent(first: string, rest: string)
    requires IsName(first) && (rest != [] ==> rest[0] == '/')
    ensures Components("/" + first + rest) == [first] + Components(rest)
  {
    var s := first + rest;
    assert ("/" + first + rest)[1..] == s;
    assert s[0] in first;
    NextSlashOf(first, rest);
    assert s[..|first|] == first && s[|first|..] == rest;
  }

  /** One round of the scan: what lies between two slashes is the next component, if it moves the walk. */
  lemma ComponentsStep(path: string, begin: nat, end: nat)
    requires begin <= end <= |path| && (forall i :: begin <= i < end ==> path[i] != '/') && (end < |path| ==> path[end] == '/')
    ensures end == |path| ==> Components(path[end..]) == []
    ensures begin == end < |path| ==> Components(path[begin..]) == Components(path[begin + 1..])
    ensures begin < end ==>
      Components(path[begin..]) == (if path[begin..end] == "." then [] else [path[begin..end]]) + Components(path[end..])
  {
    var s := path[begin..];
    if begin < end {
      assert s == path[begin..end] + path[end..];
      NextSlashOf(path[begin..end], path[end..]);
      assert s[..end - begin] == path[begin..end] && s[end - begin..] == path[end..];
    } else if begin < |path| {
      assert s[1..] == path[begin + 1..];
    }
  }

  lemma ParentComponents()
    ensures Components("/..") == [".."]
  {
    ComponentsOfJoin([".."]);
    assert Join([".."]) == "/..";
  }

  /** Slashes that follow each other count as one, and "." does not move the walk. */
  lemma ComponentsIdle(path: string)
    ensures Components("/" + path) == Components(path)
    ensures path == "" || path[0] == '/' ==> Components("." + path) == Components(path)
  {
    assert ("/" + path)[1..] == path;
    if path == "" || path[0] == '/' {
      NextSlashOf(".", path);
      assert ("." + path)[..1] == "." && ("." + path)[1..] == path;
    }
  }

  /** `n` times "..", stopping at `top`. */
  ghost function Climb(c: Cache, top: Addr, d: Addr, n: nat): Addr {
    if n == 0 then d else OneUp(c, top, Climb(c, top, d, n - 1))
  }

  ghost function OneUp(c: Cache, top: Addr, d: Addr): Addr {
    if d == top || d !in c.tab then d else Up(c, d)
  }

  /** One step up stays under `top`, and a dentry that survived has the same one above it. */
  lemma UpBelow(c0: Cache, c: Cache, own: multiset<Addr>, top: Addr, d: Addr)
    requires Consistent(c0) && Consistent(c) && c.dying == {} && Keeps(c0, c, own) && d in c.tab && Above(c, top, d)
    requires d != top || d == c.droot
    ensures Alive(c, Up(c, d)) && Above(c, top, Up(c, d)) && Up(c, d) != NULL && (d == c.droot ==> Up(c, d) == d)
    ensures Survives(c0, c, d) ==> Up(c0, d) == Up(c, d) && Survives(c0, c, Up(c, d))
  {
    assert LinkedUp(c, d) && LinkedUp(c, Up(c, d)) && Unchanged(c0, c, d) && Unchanged(c0, c, Up(c, d)) && LinkedUp(c0, d);
  }

  /** Mounts on a dentry that survived are where they were. */
  lemma MountStays(c0: Cache, c: Cache, own: multiset<Addr>, d: Addr)
    requires Consistent(c0) && Consistent(c) && Keeps(c0, c, own) && Survives(c0, c, d)
    ensures c.tab[d].mount == c0.tab[d].mount
    ensures c.tab[d].mount != NULL ==> Survives(c0, c, c.tab[d].mount) && Bottom(c0, d) == Bottom(c0, c.tab[d].mount)
    ensures c.tab[d].mount == NULL ==> Bottom(c0, d) == d
  {
    assert LinkedUp(c0, d) && Unchanged(c0, c, d) && MountedWell(c0, d) && Counted(c0, d);
    if c.tab[d].mount != NULL {
      assert Pinned(c0, c.tab[d].mount) && Counted(c0, c.tab[d].mount);
      RootAbove(c0, d);
      MountBelow(c0, c0.droot, d);
    }
  }

  /** Up to `begin` the scan has split off `done` of the components `all`. */
  predicate Scanned(path: string, begin: nat, done: seq<string>, all: seq<string>) {
    begin <= |path| && all == done + Components(path[begin..])
  }

  lemma ScanStep(path: string, begin: nat, end: nat, done: seq<string>, all: seq<string>)
    requires begin <= end <= |path| && (forall i :: begin <= i < end ==> path[i] != '/') && (end < |path| ==> path[end] == '/')
    requires Scanned(path, begin, done, all)
    ensures begin == end == |path| ==> all == done
    ensures begin == end < |path| ==> Scanned(path, begin + 1, done, all)
    ensures path[begin..end] == "." ==> Scanned(path, end, done, all) && (end == |path| ==> all == done)
    ensures begin < end && path[begin..end] != "." ==>
      Scanned(path, end, done + [path[begin..end]], all) && (end == |path| ==> all == done + [path[begin..end]])
  {
    ComponentsStep(path, begin, end);
    assert begin < end ==> |path[begin..end]| > 0;
    hide Components;
  }

  // ---------------------------------------------------------------------------------------------
  // One step of the walk, as a function of the cache
  // ---------------------------------------------------------------------------------------------

  /**
   What the walk sees of the file system and of kmalloc: the inode a directory has under a name, NULL
   for none; which inodes are directories; and where a new dentry would go while these addresses are
   taken, NULL for nowhere.
   */
  datatype FileSystem = FileSystem(onDisk: (Addr, string) -> Addr, isDir: Addr -> bool, memory: set<Addr> -> Addr)

  /** A walk on its way: the cache, and the dentry it refers to, NULL once it has failed. */
  datatype Visit = Visit(cache: Cache, d: Addr)

  /** find_entry's test of a cached dentry compares only as many characters as the name asked for has. */
  predicate Begins(tab: map<Addr, Node>, e: Addr, name: string) {
    e in tab && name <= tab[e].name
  }

  /** The first child that passes the test, or the number of children. */
  function MatchIndex(tab: map<Addr, Node>, kids: seq<Addr>, name: string): (i: nat)
    ensures i <= |kids| && (i < |kids| ==> Begins(tab, kids[i], name))
    ensures forall j :: 0 <= j < i ==> !Begins(tab, kids[j], name)
  {
    if kids == [] || Begins(tab, kids[0], name) then 0 else 1 + MatchIndex(tab, kids[1..], name)
  }

  /** What kmalloc answers: an address that is free, or NULL. */
  function Memory(keys: set<Addr>, fs: FileSystem): (a: Addr)
    ensures a < U32 && (a != NULL ==> a !in keys)
  {
    var a := fs.memory(keys);
    if a in keys || a >= U32 then NULL else a
  }

  /** The cached dentry with this key, or NULL. */
  ghost function Cached(c: Cache, inode: Addr, parent: Addr): (d: Addr)
    ensures d != NULL ==> HasKey(c, d, inode, parent)
    ensures d == NULL ==> forall e :: e != NULL ==> !HasKey(c, e, inode, parent)
  {
    if exists e: Addr :: e != NULL && HasKey(c, e, inode, parent)
    then var e: Addr :| e != NULL && HasKey(c, e, inode, parent); e
    else NULL
  }

  ghost function Grab(c: Cache, d: Addr): Cache {
    if d in c.tab then Referenced(c, d) else c
  }

  /**
   The answer of find_entry in the directory `p`: the first child in memory that passes the test, or
   what is on disk, as the dentry that is cached for it or as a new one.
   */
  ghost function Found(c: Cache, fs: FileSystem, p: Addr, name: string): Addr
    requires p in c.tab
  {
    var kids := c.tab[p].children;
    var i, inode := MatchIndex(c.tab, kids, name), fs.onDisk(c.tab[p].inode, name);
    if i < |kids| then kids[i]
    else if inode == NULL then NULL
    else if Cached(c, inode, p) != NULL then Cached(c, inode, p)
    else Memory(c.tab.Keys, fs)
  }

  /** The file system's lookup: dget for the inode it found, which gets the name that was asked for. */
  ghost function Obtained(c: Cache, inode: Addr, p: Addr, d: Addr, name: string): Cache
    requires p in c.tab
  {
    if d in c.tab then Named(Referenced(c, d), d, name)
    else if |c.hash| == NR_HASH_LISTS then Named(Inserted(c, d, inode, p), d, name)
    else c
  }

  /** The cache after that search: one reference more for the answer. */
  ghost function Searched(c: Cache, fs: FileSystem, p: Addr, name: string): Cache
    requires p in c.tab
  {
    var kids, d := c.tab[p].children, Found(c, fs, p, name);
    if d == NULL then c
    else if MatchIndex(c.tab, kids, name) < |kids| then Grab(c, d)
    else Obtained(c, fs.onDisk(c.tab[p].inode, name), p, d, name)
  }

  /** find_entry: the search where the mounts on `d` lead, with a reference to that directory meanwhile. */
  ghost function Entry(c: Cache, fs: FileSystem, d: Addr, name: string): Visit {
    var p := Bottom(c, d);
    if p !in c.tab then Visit(c, NULL)
    else Visit(Put(Searched(Grab(c, p), fs, p, name), p), Found(Grab(c, p), fs, p, name))
  }

  /** The reference to `d` is exchanged for one to `next`. */
  ghost function Moved(c: Cache, d: Addr, next: Addr): (r: Cache)
    ensures r.born == c.born && r.clock == c.clock && r.droot == c.droot
  {
    Put(Grab(c, next), d)
  }

  /** A component of the path: ".." goes up, but not beyond `top`; a name goes down, from a directory only. */
  ghost function Step(fs: FileSystem, top: Addr, v: Visit, name: string): Visit {
    if v.d !in v.cache.tab then v
    else if name == ".." then
      if v.d == top then v else Visit(Moved(v.cache, v.d, Up(v.cache, v.d)), Up(v.cache, v.d))
    else if !fs.isDir(v.cache.tab[v.d].inode) then Visit(Put(v.cache, v.d), NULL)
    else
      var e := Entry(v.cache, fs, v.d, name);
      Visit(Put(e.cache, v.d), e.d)
  }

  /** The walk along all components; once it failed it stays so. */
  ghost function Walk(fs: FileSystem, top: Addr, v: Visit, names: seq<string>): Visit {
    if names == [] then v
    else
      var w := Walk(fs, top, v, names[..|names| - 1]);
      if w.d == NULL then w else Step(fs, top, w, names[|names| - 1])
  }

  /** The end of a walk: on to the root of what is mounted here. */
  ghost function Settle(v: Visit): Visit
    decreases v.cache.clock - if v.d in v.cache.born then v.cache.born[v.d] else 0
  {
    var c, d := v.cache, v.d;
    if d in c.tab && c.tab[d].mount in c.tab && c.tab[d].mount != NULL && d in c.born && c.tab[d].mount in c.born
       && c.born[d] < c.born[c.tab[d].mount] < c.clock
    then Settle(Visit(Moved(c, d, c.tab[d].mount), c.tab[d].mount))
    else v
  }

  /** A whole lookup from `start`. */
  ghost function Landed(c: Cache, fs: FileSystem, top: Addr, start: Addr, names: seq<string>): Visit {
    var v := Walk(fs, top, Visit(Grab(c, start), start), names);
    if v.d == NULL then v else Settle(v)
  }

  // ---------------------------------------------------------------------------------------------
  // What every step keeps
  // ---------------------------------------------------------------------------------------------

  /** Since `c0` the walk has gained a reference to `d`, below `top`, and nothing else. */
  ghost predicate Standing(c0: Cache, c: Cache, own: multiset<Addr>, top: Addr, d: Addr) {
    && Consistent(c0) && Owned(c, own + multiset{d}) && Keeps(c0, c, own)
    && c.holds == c0.holds + multiset{d} && Above(c, top, d) && d != NULL
  }

  /** The walk has given back all references it took since `c0`. */
  ghost predicate BackOut(c0: Cache, c: Cache, own: multiset<Addr>) {
    Owned(c, own) && Keeps(c0, c, own) && c.holds == c0.holds
  }

  ghost predicate OnWay(c0: Cache, v: Visit, own: multiset<Addr>, top: Addr) {
    if v.d == NULL then Consistent(c0) && BackOut(c0, v.cache, own) else Standing(c0, v.cache, own, top, v.d)
  }

  lemma StandingFacts(c0: Cache, c: Cache, own: multiset<Addr>, top: Addr, d: Addr)
    requires Standing(c0, c, own, top, d)
    ensures Consistent(c0) && d != NULL && Alive(c, d) && Owned(c, own + multiset{d})
    ensures c.holds == c0.holds + multiset{d} && Above(c, top, d) && Keeps(c0, c, own)
  {
    OwnedAlive(c, own + multiset{d}, d);
  }

  /** dput of a reference beside those in `own`. */
  lemma PutKeeps(c: Cache, own: multiset<Addr>, d: Addr)
    requires Owned(c, own + multiset{d})
    ensures PutResult(c, Put(c, d), d) && Owned(Put(c, d), own) && Keeps(c, Put(c, d), own)
    ensures Put(c, d).holds == c.holds - multiset{d} && d in c.holds
  {
    hide Put, Consistent, Owned, Keeps, Pinned, Alive;
    OwnedConsistent(c, own + multiset{d});
    OwnedAlive(c, own + multiset{d}, d);
    PutGives(c, d);
    OwnLess(c, Put(c, d), own + multiset{d}, d);
    assert own + multiset{d} - multiset{d} == own;
  }

  /** What another reference keeps is untouched by that. */
  lemma PutLeaves(c: Cache, own: multiset<Addr>, d: Addr, top: Addr, e: Addr)
    requires Owned(c, own + multiset{d}) && e in own
    ensures Alive(c, e) && Alive(Put(c, d), e) && SameEntry(Put(c, d).tab[e], c.tab[e])
    ensures Above(c, top, e) ==> Above(Put(c, d), top, e)
  {
    PutKeeps(c, own, d);
    OwnedAlive(c, own + multiset{d}, e);
    OwnedAlive(Put(c, d), own, e);
    hide Put;
    if Above(c, top, e) { StaysUnder(c, Put(c, d), own, top, e); }
  }

  lemma GrabKeeps(c: Cache, own: multiset<Addr>, top: Addr, d: Addr)
    requires Owned(c, own) && Alive(c, d) && Above(c, top, d)
    ensures Grab(c, d) == Referenced(c, d) && Owned(Grab(c, d), own + multiset{d}) && Keeps(c, Grab(c, d), own)
    ensures Above(Grab(c, d), top, d) && Alive(Grab(c, d), d)
  {
    OwnMore(c, own, d);
    UnderReferenced(c, d, top, d);
  }

  lemma NamedKeepsOwned(c: Cache, own: multiset<Addr>, top: Addr, d: Addr, name: string)
    requires Owned(c, own) && d in own && Above(c, top, d)
    ensures d in c.tab && Owned(Named(c, d, name), own) && Keeps(c, Named(c, d, name), own)
    ensures Above(Named(c, d, name), top, d)
  {
    OwnedAlive(c, own, d);
    var r := Named(c, d, name);
    OwnedSelf(c, own);
    NamedKeeps(c, d, name);
    assert LinkedUp(c, d);
    hide Consistent;
    forall e ensures Enough(r, own, e) { assert Enough(c, own, e); }
    forall e ensures Unchanged(c, r, e) { assert Unchanged(c, c, e); }
    forall e | e in own || Pinned(c, e) ensures Survives(c, r, e) { assert Survives(c, c, e); }
    StaysUnder(c, r, own, top, d);
  }

  /** What a search in `p` leaves behind: a reference to a child of `p`, or nothing. */
  ghost predicate Holding(c: Cache, r: Cache, own: multiset<Addr>, top: Addr, p: Addr, d: Addr) {
    && Owned(r, own + multiset{d}) && Keeps(c, r, own) && r.holds == c.holds + multiset{d}
    && d != NULL && d != top && d in r.tab && r.tab[d].parent == p && Above(r, top, d)
  }

  lemma CachedIs(c: Cache, inode: Addr, parent: Addr, d: Addr)
    requires Consistent(c) && HasKey(c, d, inode, parent)
    ensures Cached(c, inode, parent) == d && d != NULL
  {
    assert LinkedUp(c, d) && DistinctKeys(c, d, Cached(c, inode, parent));
  }

  lemma ChildReferenced(c: Cache, own: multiset<Addr>, top: Addr, p: Addr, d: Addr)
    requires Owned(c, own) && p in own && Above(c, top, p) && d in c.tab && d != c.droot && c.tab[d].parent == p
    ensures Grab(c, d) == Referenced(c, d) && Holding(c, Referenced(c, d), own, top, p, d)
  {
    OwnedAlive(c, own, p);
    ChildBelow(c, top, p, d);
    GrabKeeps(c, own, top, d);
    assert LinkedUp(c, d);
    hide Consistent, Above, Owned, Keeps;
  }

  lemma NamedHolding(c: Cache, c1: Cache, own: multiset<Addr>, top: Addr, p: Addr, d: Addr, name: string)
    requires Consistent(c) && Holding(c, c1, own, top, p, d)
    ensures d in c1.tab && Holding(c, Named(c1, d, name), own, top, p, d)
  {
    NamedKeepsOwned(c1, own + multiset{d}, top, d, name);
    KeepsTwice(c, c1, Named(c1, d, name), own, own, own + multiset{d});
    hide Consistent, Above, Owned, Keeps;
  }

  lemma InsertedHolding(c: Cache, own: multiset<Addr>, top: Addr, p: Addr, d: Addr, inode: Addr)
    requires Owned(c, own) && p in own && Above(c, top, p) && p != c.droot && d !in c.tab && 0 < d < U32
    requires forall e :: !HasKey(c, e, inode, p)
    ensures p in c.tab && |c.hash| == NR_HASH_LISTS && Holding(c, Inserted(c, d, inode, p), own, top, p, d)
  {
    OwnedAlive(c, own, p);
    OwnNew(c, own, d, inode, p);
    var r := Inserted(c, d, inode, p);
    StaysUnder(c, r, own, top, p);
    ChildBelow(r, top, p, d);
    hide Consistent, Above, Owned, Keeps;
  }

  /** The part of the search that goes to the disk. */
  lemma ObtainedKeeps(c: Cache, own: multiset<Addr>, top: Addr, p: Addr, d: Addr, inode: Addr, name: string)
    requires Owned(c, own) && p in own && Above(c, top, p) && p in c.tab && p != c.droot && d != NULL
    requires d in c.tab ==> HasKey(c, d, inode, p)
    requires d !in c.tab ==> d < U32 && forall e :: !HasKey(c, e, inode, p)
    ensures Holding(c, Obtained(c, inode, p, d, name), own, top, p, d)
    ensures Obtained(c, inode, p, d, name).tab[d].inode == inode && Obtained(c, inode, p, d, name).tab[d].name == name
  {
    OwnedConsistent(c, own);
    if d in c.tab {
      ChildReferenced(c, own, top, p, d);
      hide Consistent, Above, Owned, Keeps, Holding;
      NamedHolding(c, Referenced(c, d), own, top, p, d, name);
    } else {
      InsertedHolding(c, own, top, p, d, inode);
      hide Consistent, Above, Owned, Keeps, Holding;
      NamedHolding(c, Inserted(c, d, inode, p), own, top, p, d, name);
    }
  }

  /** A child on the list is a cached dentry below `p`. */
  lemma ListedChild(c: Cache, p: Addr, d: Addr)
    requires Consistent(c) && p in c.tab && d in c.tab[p].children
    ensures d in c.tab && d != c.droot && c.tab[d].parent == p && d != NULL
  {
    assert RightlyListed(c, p, d) && LinkedUp(c, d);
  }

  lemma NullNotCached(c: Cache)
    requires Consistent(c)
    ensures NULL !in c.tab
  {
    assert LinkedUp(c, NULL);
  }

  lemma SearchedKeeps(c: Cache, fs: FileSystem, own: multiset<Addr>, top: Addr, p: Addr, name: string)
    requires Owned(c, own) && p in own && Above(c, top, p) && p in c.tab && c.tab[p].mount == NULL
    ensures var d, r := Found(c, fs, p, name), Searched(c, fs, p, name);
            if d == NULL then r == c else Holding(c, r, own, top, p, d)
  {
    var kids, d, inode := c.tab[p].children, Found(c, fs, p, name), fs.onDisk(c.tab[p].inode, name);
    var i := MatchIndex(c.tab, kids, name);
    OwnedConsistent(c, own);
    NullNotCached(c);
    assert p != c.droot;
    hide Consistent, Above, Owned, Holding, Referenced, HasKey, MatchIndex, Cached;
    if i < |kids| {
      ListedChild(c, p, d);
      ChildReferenced(c, own, top, p, d);
    } else if d != NULL {
      NotNullKey(c, inode, p);
      ObtainedKeeps(c, own, top, p, d, inode, name);
    }
  }

  lemma NotNullKey(c: Cache, inode: Addr, parent: Addr)
    requires NULL !in c.tab
    ensures Cached(c, inode, parent) == NULL ==> forall e :: !HasKey(c, e, inode, parent)
    ensures Cached(c, inode, parent) != NULL ==> Cached(c, inode, parent) in c.tab && HasKey(c, Cached(c, inode, parent), inode, parent)
  {
  }

  lemma {:induction false} BottomBelow(c: Cache, top: Addr, d: Addr)
    requires Consistent(c) && Alive(c, d) && Above(c, top, d)
    ensures Alive(c, Bottom(c, d)) && Above(c, top, Bottom(c, d)) && c.tab[Bottom(c, d)].mount == NULL
    decreases c.clock - if d in c.born then c.born[d] else 0
  {
    if c.tab[d].mount != NULL {
      MountBelow(c, top, d);
      BottomBelow(c, top, c.tab[d].mount);
    }
  }

  /** find_entry takes one reference to what it finds and keeps none to the directory it searched. */
  lemma EntryKeeps(c: Cache, fs: FileSystem, own: multiset<Addr>, top: Addr, d: Addr, name: string)
    requires Owned(c, own) && d in own && Above(c, top, d)
    ensures var e := Entry(c, fs, d, name);
            if e.d == NULL then Owned(e.cache, own) && Keeps(c, e.cache, own) && e.cache.holds == c.holds
            else Holding(c, e.cache, own, top, Bottom(c, d), e.d)
  {
    hide Consistent, Keeps, Above, Bottom, Enough, Survives, Evolves, HasKey, Put, Referenced, Searched, Found;
    OwnedAlive(c, own, d);
    BottomBelow(c, top, d);
    var p := Bottom(c, d);
    GrabKeeps(c, own, top, p);
    var c1, own1 := Grab(c, p), own + multiset{p};
    GrabSame(c, p);
    SearchedKeeps(c1, fs, own1, top, p, name);
    var c2, found := Searched(c1, fs, p, name), Found(c1, fs, p, name);
    if found == NULL {
      PutKeeps(c2, own, p);
      KeepsTwice(c, c1, Put(c2, p), own, own, own);
      assert c1.holds - multiset{p} == c.holds;
    } else {
      EntryHolding(c, c1, c2, own, top, p, found);
    }
  }

  lemma GrabSame(c: Cache, d: Addr)
    requires d in c.tab
    ensures Grab(c, d) == Referenced(c, d) && Grab(c, d).tab.Keys == c.tab.Keys && Grab(c, d).holds == c.holds + multiset{d}
    ensures forall e :: e in c.tab ==> SameEntry(Grab(c, d).tab[e], c.tab[e]) && Grab(c, d).tab[e].children == c.tab[e].children
  {
  }

  lemma Exchange(own: multiset<Addr>, holds: multiset<Addr>, d: Addr, e: Addr)
    ensures own + multiset{d} + multiset{e} == own + multiset{e} + multiset{d}
    ensures holds + multiset{d} + multiset{e} - multiset{d} == holds + multiset{e}
  {
  }

  lemma EntryHolding(c: Cache, c1: Cache, c2: Cache, own: multiset<Addr>, top: Addr, p: Addr, found: Addr)
    requires Consistent(c) && Keeps(c, c1, own) && c1.holds == c.holds + multiset{p}
    requires Holding(c1, c2, own + multiset{p}, top, p, found)
    ensures Holding(c, Put(c2, p), own, top, p, found)
  {
    hide Consistent, Keeps, Above, Owned, Put, PutResult;
    var rest := own + multiset{found};
    Exchange(own, c.holds, p, found);
    PutKeeps(c2, rest, p);
    PutLeaves(c2, rest, p, top, found);
    KeepsThrice(c, c1, c2, Put(c2, p), own, own + multiset{p}, rest);
  }

  /** Moving along a link exchanges one reference for another. */
  lemma MovedKeeps(c: Cache, own: multiset<Addr>, top: Addr, d: Addr, next: Addr)
    requires Owned(c, own + multiset{d}) && Alive(c, next) && Above(c, top, next)
    ensures Moved(c, d, next) == Put(Referenced(c, next), d)
    ensures Owned(Referenced(c, next), own + multiset{next} + multiset{d})
    ensures Owned(Moved(c, d, next), own + multiset{next}) && Keeps(c, Moved(c, d, next), own)
    ensures Above(Moved(c, d, next), top, next) && Moved(c, d, next).holds == c.holds + multiset{next} - multiset{d}
  {
    hide Consistent, Above, Owned, Put, PutResult, SameEntry, Keeps, Referenced;
    OwnedConsistent(c, own + multiset{d});
    GrabKeeps(c, own + multiset{d}, top, next);
    GrabSame(c, next);
    Exchange(own, c.holds, d, next);
    PutKeeps(Grab(c, next), own + multiset{next}, d);
    PutLeaves(Grab(c, next), own + multiset{next}, d, top, next);
    KeepsTwice(c, Grab(c, next), Moved(c, d, next), own, own + multiset{d}, own + multiset{next});
  }

  lemma MovedStands(c0: Cache, c: Cache, own: multiset<Addr>, top: Addr, d: Addr, next: Addr)
    requires Standing(c0, c, own, top, d) && Alive(c, next) && Above(c, top, next) && next != NULL
    ensures Standing(c0, Moved(c, d, next), own, top, next) && Survives(c, Moved(c, d, next), next)
    ensures Moved(c, d, next) == Put(Referenced(c, next), d)
    ensures Owned(Referenced(c, next), own + multiset{next} + multiset{d})
  {
    hide Consistent, Above, Owned, Put, Keeps;
    OwnedConsistent(c, own + multiset{d});
    MovedKeeps(c, own, top, d, next);
    AliveLinked(c, next);
    NextSurvives(c, Moved(c, d, next), own + multiset{next}, next);
    hide Survives, Moved, Referenced;
    KeepsTransitive(c0, c, Moved(c, d, next), own);
    Exchange(own, c0.holds, d, next);
  }

  lemma LeaveKeeps(c0: Cache, c: Cache, own: multiset<Addr>, top: Addr, d: Addr)
    requires Standing(c0, c, own, top, d)
    ensures BackOut(c0, Put(c, d), own)
  {
    StandingFacts(c0, c, own, top, d);
    hide Consistent, Above, Owned, Put, PutResult, Keeps;
    PutKeeps(c, own, d);
    KeepsTransitive(c0, c, Put(c, d), own);
    assert c0.holds + multiset{d} - multiset{d} == c0.holds;
  }

  lemma EnterNothing(c0: Cache, c: Cache, r: Cache, own: multiset<Addr>, top: Addr, d: Addr)
    requires Standing(c0, c, own, top, d) && Owned(r, own + multiset{d}) && Keeps(c, r, own + multiset{d}) && r.holds == c.holds
    ensures BackOut(c0, Put(r, d), own)
  {
    hide Consistent, Above, Owned, Put, PutResult, Keeps;
    PutKeeps(r, own, d);
    KeepsThrice(c0, c, r, Put(r, d), own, own + multiset{d}, own) by { OwnedConsistent(c, own + multiset{d}); }
    assert c0.holds + multiset{d} - multiset{d} == c0.holds;
  }

  lemma EnterFound(c0: Cache, c: Cache, r: Cache, own: multiset<Addr>, top: Addr, d: Addr, p: Addr, e: Addr)
    requires Standing(c0, c, own, top, d) && Holding(c, r, own + multiset{d}, top, p, e)
    ensures Standing(c0, Put(r, d), own, top, e) && Owned(r, own + multiset{e} + multiset{d})
  {
    hide Consistent, Above, Owned, Put, PutResult, Keeps, Alive;
    Exchange(own, c0.holds, d, e);
    PutKeeps(r, own + multiset{e}, d);
    PutLeaves(r, own + multiset{e}, d, top, e);
    KeepsThrice(c0, c, r, Put(r, d), own, own + multiset{d}, own + multiset{e});
  }

  /** A name: the directory is left for what find_entry answers. */
  lemma EnterStands(c0: Cache, c: Cache, fs: FileSystem, own: multiset<Addr>, top: Addr, d: Addr, name: string)
    requires Standing(c0, c, own, top, d)
    ensures var e := Entry(c, fs, d, name); OnWay(c0, Visit(Put(e.cache, d), e.d), own, top)
    ensures var e := Entry(c, fs, d, name);
            Owned(e.cache, (if e.d == NULL then own else own + multiset{e.d}) + multiset{d})
  {
    StandingFacts(c0, c, own, top, d);
    hide Consistent, Above, Owned, Put, Keeps, Entry, Alive, Standing, BackOut, Holding;
    EntryKeeps(c, fs, own + multiset{d}, top, d, name);
    var e := Entry(c, fs, d, name);
    if e.d == NULL {
      EnterNothing(c0, c, e.cache, own, top, d);
    } else {
      EnterFound(c0, c, e.cache, own, top, d, Bottom(c, d), e.d);
    }
  }

  /** A name and ".." behind it lead back to the directory, or to what is mounted on it. */
  lemma NameThenUp(c0: Cache, v: Visit, fs: FileSystem, own: multiset<Addr>, top: Addr, name: string)
    requires Standing(c0, v.cache, own, top, v.d) && name != ".." && Step(fs, top, v, name).d != NULL
    ensures Step(fs, top, Step(fs, top, v, name), "..").d == Bottom(v.cache, v.d)
  {
    StandingFacts(c0, v.cache, own, top, v.d);
    OwnedConsistent(v.cache, own + multiset{v.d});
    NullNotCached(v.cache);
    BottomBelow(v.cache, top, v.d);
    hide Consistent, Above, Owned, Put, PutResult, Keeps, Entry, Bottom;
    EntryKeeps(v.cache, fs, own + multiset{v.d}, top, v.d, name);
    var e := Entry(v.cache, fs, v.d, name);
    if fs.isDir(v.cache.tab[v.d].inode) {
      Exchange(own, e.cache.holds, v.d, e.d);
      PutLeaves(e.cache, own + multiset{e.d}, v.d, top, e.d);
    }
  }

  /** Every component leaves the walk with one reference, below `top`, or with none when it fails. */
  lemma StepStands(c0: Cache, v: Visit, fs: FileSystem, own: multiset<Addr>, top: Addr, name: string)
    requires Standing(c0, v.cache, own, top, v.d)
    ensures OnWay(c0, Step(fs, top, v, name), own, top) && (name == ".." ==> Step(fs, top, v, name).d != NULL)
  {
    StandingFacts(c0, v.cache, own, top, v.d);
    if name == ".." {
      if v.d != top {
        UpBelow(c0, v.cache, own, top, v.d);
        MovedStands(c0, v.cache, own, top, v.d, Up(v.cache, v.d));
      }
    } else if !fs.isDir(v.cache.tab[v.d].inode) {
      LeaveKeeps(c0, v.cache, own, top, v.d);
    } else {
      EnterStands(c0, v.cache, fs, own, top, v.d, name);
    }
    hide OnWay, Consistent, Above, Owned, Put, Keeps, Entry, Moved;
  }

  /** So does a whole walk, whatever the path. */
  lemma {:induction false} WalkStands(c0: Cache, v: Visit, fs: FileSystem, own: multiset<Addr>, top: Addr, names: seq<string>)
    requires Standing(c0, v.cache, own, top, v.d)
    ensures OnWay(c0, Walk(fs, top, v, names), own, top)
  {
    hide Standing, BackOut, Step;
    if names == [] {
      assert v.d != NULL by { StandingFacts(c0, v.cache, own, top, v.d); }
    } else {
      var w := Walk(fs, top, v, names[..|names| - 1]);
      WalkStands(c0, v, fs, own, top, names[..|names| - 1]);
      if w.d != NULL { StepStands(c0, w, fs, own, top, names[|names| - 1]); }
    }
  }

  lemma WalkNothing(fs: FileSystem, top: Addr, v: Visit)
    ensures Walk(fs, top, v, []) == v
  {
  }

  lemma WalkOne(fs: FileSystem, top: Addr, v: Visit, done: seq<string>, name: string)
    requires Walk(fs, top, v, done).d != NULL
    ensures Walk(fs, top, v, done + [name]) == Step(fs, top, Walk(fs, top, v, done), name)
  {
    hide Step;
    assert (done + [name])[..|done|] == done;
  }

  /** What failed is not looked up any further. */
  lemma {:induction false} WalkStuck(fs: FileSystem, top: Addr, v: Visit, done: seq<string>, rest: seq<string>)
    requires Walk(fs, top, v, done).d == NULL
    ensures Walk(fs, top, v, done + rest) == Walk(fs, top, v, done)
  {
    hide Step;
    if rest == [] {
      assert done + rest == done;
    } else {
      WalkStuck(fs, top, v, done, rest[..|rest| - 1]);
      assert (done + rest)[..|done + rest| - 1] == done + rest[..|rest| - 1];
    }
  }

  lemma ScanStuck(path: string, end: nat, fs: FileSystem, top: Addr, v: Visit, done: seq<string>, all: seq<string>)
    requires Scanned(path, end, done, all) && Walk(fs, top, v, done).d == NULL
    ensures Walk(fs, top, v, all) == Walk(fs, top, v, done)
  {
    WalkStuck(fs, top, v, done, Components(path[end..]));
  }

  lemma StandingNotNull(c0: Cache, c: Cache, own: multiset<Addr>, top: Addr, d: Addr)
    requires Standing(c0, c, own, top, d)
    ensures d != NULL
  {
  }

  lemma WalkOn(c0: Cache, w: Visit, fs: FileSystem, own: multiset<Addr>, top: Addr, v: Visit, done: seq<string>, name: string)
    requires Standing(c0, w.cache, own, top, w.d) && Walk(fs, top, v, done) == w
    ensures var x := Step(fs, top, w, name);
            Walk(fs, top, v, done + [name]) == x && (x.d != NULL ==> Standing(c0, x.cache, own, top, x.d))
  {
    StandingNotNull(c0, w.cache, own, top, w.d);
    StepStands(c0, w, fs, own, top, name);
    hide Step, Standing, Walk;
    WalkOne(fs, top, v, done, name);
  }

  lemma SettleOne(c0: Cache, v: Visit, own: multiset<Addr>, top: Addr)
    requires Standing(c0, v.cache, own, top, v.d) && v.cache.tab[v.d].mount != NULL
    ensures var m := v.cache.tab[v.d].mount;
            && Alive(v.cache, m) && Above(v.cache, top, m) && m != NULL && Standing(c0, Moved(v.cache, v.d, m), own, top, m)
            && Settle(v) == Settle(Visit(Moved(v.cache, v.d, m), m))
            && Survives(v.cache, Moved(v.cache, v.d, m), m)
            && v.d in v.cache.born && m in v.cache.born && v.cache.born[v.d] < v.cache.born[m] < v.cache.clock
  {
    StandingFacts(c0, v.cache, own, top, v.d);
    MountBelow(v.cache, top, v.d);
    AliveLinked(v.cache, v.cache.tab[v.d].mount);
    hide Consistent, Above, Owned, Put, Keeps;
    MovedStands(c0, v.cache, own, top, v.d, v.cache.tab[v.d].mount);
  }

  /** The end of a walk is never mounted on. */
  lemma {:induction false} SettleStands(c0: Cache, v: Visit, own: multiset<Addr>, top: Addr)
    requires Standing(c0, v.cache, own, top, v.d)
    ensures var w := Settle(v); Standing(c0, w.cache, own, top, w.d) && w.d in w.cache.tab && w.cache.tab[w.d].mount == NULL
    decreases v.cache.clock - if v.d in v.cache.born then v.cache.born[v.d] else 0
  {
    StandingFacts(c0, v.cache, own, top, v.d);
    if v.cache.tab[v.d].mount != NULL {
      SettleOne(c0, v, own, top);
      hide Standing, Alive, Survives, Settle;
      SettleStands(c0, Visit(Moved(v.cache, v.d, v.cache.tab[v.d].mount), v.cache.tab[v.d].mount), own, top);
    }
  }

  /** A whole lookup gains one reference to where it lands, below `top` and not mounted on, or nothing. */
  lemma LandedStands(c0: Cache, fs: FileSystem, own: multiset<Addr>, top: Addr, start: Addr, names: seq<string>)
    requires Standing(c0, Grab(c0, start), own, top, start)
    ensures var w := Landed(c0, fs, top, start, names);
            OnWay(c0, w, own, top) && (w.d != NULL ==> w.d in w.cache.tab && w.cache.tab[w.d].mount == NULL)
  {
    hide Standing, BackOut, Walk, Settle;
    var v := Visit(Grab(c0, start), start);
    WalkStands(c0, v, fs, own, top, names);
    var w := Walk(fs, top, v, names);
    if w.d != NULL {
      SettleStands(c0, w, own, top);
      assert Settle(w).d != NULL by { StandingFacts(c0, Settle(w).cache, own, top, Settle(w).d); }
    }
  }

  // ---------------------------------------------------------------------------------------------
  // Where a lookup fails, and why
  // ---------------------------------------------------------------------------------------------

  /** The walk stands on something that is no directory. */
  ghost predicate NoDirectory(c: Cache, fs: FileSystem, d: Addr) {
    d in c.tab && !fs.isDir(c.tab[d].inode)
  }

  /** No child in memory passes the test, and the directory has nothing of this name on disk. */
  ghost predicate NotThere(c: Cache, fs: FileSystem, p: Addr, name: string) {
    p in c.tab && MatchIndex(c.tab, c.tab[p].children, name) == |c.tab[p].children| && fs.onDisk(c.tab[p].inode, name) == NULL
  }

  /** The name is on disk, but nothing in memory stands for it and kmalloc has no room for a dentry. */
  ghost predicate NoMemory(c: Cache, fs: FileSystem, p: Addr, name: string) {
    p in c.tab && MatchIndex(c.tab, c.tab[p].children, name) == |c.tab[p].children|
    && var inode := fs.onDisk(c.tab[p].inode, name);
       inode != NULL && (forall e :: !HasKey(c, e, inode, p)) && Memory(c.tab.Keys, fs) == NULL
  }

  ghost predicate Blocked(c: Cache, fs: FileSystem, d: Addr, name: string) {
    NoDirectory(c, fs, d) || NotThere(c, fs, Bottom(c, d), name) || NoMemory(c, fs, Bottom(c, d), name)
  }

  /** A reference to the directory changes nothing for the search. */
  lemma {:induction false} MatchIndexSame(tab: map<Addr, Node>, tab1: map<Addr, Node>, kids: seq<Addr>, name: string)
    requires tab.Keys == tab1.Keys && forall e :: e in tab ==> SameEntry(tab[e], tab1[e])
    ensures MatchIndex(tab1, kids, name) == MatchIndex(tab, kids, name)
  {
    if kids != [] { MatchIndexSame(tab, tab1, kids[1..], name); }
  }

  lemma FoundGrab(c: Cache, fs: FileSystem, p: Addr, name: string)
    requires Consistent(c) && p in c.tab
    ensures p in Grab(c, p).tab && Found(Grab(c, p), fs, p, name) == Found(c, fs, p, name)
  {
    var r, inode := Grab(c, p), fs.onDisk(c.tab[p].inode, name);
    GrabSame(c, p);
    MatchIndexSame(c.tab, r.tab, c.tab[p].children, name);
    NullNotCached(c);
    assert r.droot == c.droot;
    hide Grab, Consistent, MatchIndex;
    assert Cached(c, inode, p) != NULL ==> HasKey(r, Cached(c, inode, p), inode, p);
    if Cached(r, inode, p) != NULL {
      CachedIs(c, inode, p, Cached(r, inode, p));
    }
  }

  lemma FoundIff(c: Cache, fs: FileSystem, p: Addr, name: string)
    requires Consistent(c) && p in c.tab
    ensures Found(c, fs, p, name) == NULL <==> NotThere(c, fs, p, name) || NoMemory(c, fs, p, name)
  {
    NullNotCached(c);
    NotNullKey(c, fs.onDisk(c.tab[p].inode, name), p);
    var i := MatchIndex(c.tab, c.tab[p].children, name);
    hide Consistent, MatchIndex, Cached;
    if i < |c.tab[p].children| { ListedChild(c, p, c.tab[p].children[i]); }
  }

  /** A component makes the walk fail exactly if it is a name and one of the three reasons holds. */
  lemma StepFailsIff(c0: Cache, v: Visit, fs: FileSystem, own: multiset<Addr>, top: Addr, name: string)
    requires Standing(c0, v.cache, own, top, v.d)
    ensures Step(fs, top, v, name).d == NULL <==> name != ".." && Blocked(v.cache, fs, v.d, name)
  {
    StandingFacts(c0, v.cache, own, top, v.d);
    OwnedConsistent(v.cache, own + multiset{v.d});
    StepStands(c0, v, fs, own, top, name);
    BottomBelow(v.cache, top, v.d);
    hide Consistent, Above, Owned, Put, Keeps, Moved, Found, Searched, NotThere, NoMemory, OnWay;
    FoundGrab(v.cache, fs, Bottom(v.cache, v.d), name);
    FoundIff(v.cache, fs, Bottom(v.cache, v.d), name);
  }

  /** The walk gets as far as component `k`, and that one stops it. */
  ghost predicate StopsAt(fs: FileSystem, top: Addr, v: Visit, names: seq<string>, k: nat)
    requires k < |names|
  {
    var w := Walk(fs, top, v, names[..k]);
    w.d != NULL && names[k] != ".." && Blocked(w.cache, fs, w.d, names[k])
  }

  ghost predicate Stops(fs: FileSystem, top: Addr, v: Visit, names: seq<string>) {
    exists k: nat | k < |names| :: StopsAt(fs, top, v, names, k)
  }

  lemma {:induction false} WalkFailsIff(c0: Cache, v: Visit, fs: FileSystem, own: multiset<Addr>, top: Addr, names: seq<string>)
    requires Standing(c0, v.cache, own, top, v.d)
    ensures Walk(fs, top, v, names).d == NULL <==> Stops(fs, top, v, names)
  {
    hide Standing, Step, Blocked, BackOut;
    if names == [] {
      assert v.d != NULL by { StandingFacts(c0, v.cache, own, top, v.d); }
    } else {
      var n := |names| - 1;
      var w := Walk(fs, top, v, names[..n]);
      WalkFailsIff(c0, v, fs, own, top, names[..n]);
      WalkStands(c0, v, fs, own, top, names[..n]);
      if w.d != NULL { StepFailsIff(c0, w, fs, own, top, names[n]); }
      forall k: nat | k < n ensures StopsAt(fs, top, v, names, k) <==> StopsAt(fs, top, v, names[..n], k) {
        assert names[..n][..k] == names[..k];
      }
      assert StopsAt(fs, top, v, names, n) <==> w.d != NULL && names[n] != ".." && Blocked(w.cache, fs, w.d, names[n]);
    }
  }

  /** A lookup gives NULL exactly if some name of the path stops it, for one of the three reasons. */
  lemma LandedFailsIff(c0: Cache, fs: FileSystem, own: multiset<Addr>, top: Addr, start: Addr, names: seq<string>)
    requires Standing(c0, Grab(c0, start), own, top, start)
    ensures Landed(c0, fs, top, start, names).d == NULL <==> Stops(fs, top, Visit(Grab(c0, start), start), names)
  {
    var v := Visit(Grab(c0, start), start);
    WalkFailsIff(c0, v, fs, own, top, names);
    WalkStands(c0, v, fs, own, top, names);
    var w := Walk(fs, top, v, names);
    hide Standing, Walk, Settle, Stops, BackOut;
    if w.d != NULL {
      SettleStands(c0, w, own, top);
      assert Settle(w).d != NULL by { StandingFacts(c0, Settle(w).cache, own, top, Settle(w).d); }
    }
  }

  // ---------------------------------------------------------------------------------------------
  // Paths without names
  // ---------------------------------------------------------------------------------------------

  predicate OnlyUp(names: seq<string>) {
    forall k :: 0 <= k < |names| ==> names[k] == ".."
  }

  lemma StepUpIs(c0: Cache, v: Visit, fs: FileSystem, own: multiset<Addr>, top: Addr)
    requires Standing(c0, v.cache, own, top, v.d) && Survives(c0, v.cache, v.d)
    ensures var w := Step(fs, top, v, ".."); w.d == OneUp(c0, top, v.d) && Survives(c0, w.cache, w.d)
  {
    StandingFacts(c0, v.cache, own, top, v.d);
    if v.d != top {
      UpBelow(c0, v.cache, own, top, v.d);
      MovedStands(c0, v.cache, own, top, v.d, Up(v.cache, v.d));
    }
    hide Consistent, Above, Owned, Put, Keeps, Moved;
  }

  lemma {:induction false} WalkUp(c0: Cache, v: Visit, fs: FileSystem, own: multiset<Addr>, top: Addr, names: seq<string>)
    requires Standing(c0, v.cache, own, top, v.d) && Survives(c0, v.cache, v.d) && OnlyUp(names)
    ensures var w := Walk(fs, top, v, names);
            Standing(c0, w.cache, own, top, w.d) && Survives(c0, w.cache, w.d) && w.d == Climb(c0, top, v.d, |names|)
  {
    hide Standing, Survives, Step;
    if names != [] {
      var w := Walk(fs, top, v, names[..|names| - 1]);
      WalkUp(c0, v, fs, own, top, names[..|names| - 1]);
      assert w.d != NULL by { StandingFacts(c0, w.cache, own, top, w.d); }
      StepUpIs(c0, w, fs, own, top);
      StepStands(c0, w, fs, own, top, "..");
    }
  }

  lemma {:induction false} SettleIs(c0: Cache, v: Visit, own: multiset<Addr>, top: Addr)
    requires Standing(c0, v.cache, own, top, v.d) && Survives(c0, v.cache, v.d)
    ensures var w := Settle(v); w.d == Bottom(c0, v.d) && Survives(c0, w.cache, w.d)
    decreases v.cache.clock - if v.d in v.cache.born then v.cache.born[v.d] else 0
  {
    StandingFacts(c0, v.cache, own, top, v.d);
    OwnedConsistent(v.cache, own + multiset{v.d});
    MountStays(c0, v.cache, own, v.d);
    if v.cache.tab[v.d].mount != NULL {
      SettleOne(c0, v, own, top);
      assert Survives(c0, Moved(v.cache, v.d, v.cache.tab[v.d].mount), v.cache.tab[v.d].mount);
      hide Standing, Alive, Survives, Settle, Bottom;
      SettleIs(c0, Visit(Moved(v.cache, v.d, v.cache.tab[v.d].mount), v.cache.tab[v.d].mount), own, top);
    }
  }

  /** A path of slashes, "." and ".." only leads up the tree as it was, and then to what is mounted there. */
  lemma LandedUp(c0: Cache, fs: FileSystem, own: multiset<Addr>, top: Addr, start: Addr, names: seq<string>)
    requires Standing(c0, Grab(c0, start), own, top, start) && Survives(c0, Grab(c0, start), start) && OnlyUp(names)
    ensures var w := Landed(c0, fs, top, start, names);
            w.d == Bottom(c0, Climb(c0, top, start, |names|)) && Survives(c0, w.cache, w.d)
  {
    hide Standing, Survives, Walk, Settle;
    var v := Visit(Grab(c0, start), start);
    WalkUp(c0, v, fs, own, top, names);
    var w := Walk(fs, top, v, names);
    assert w.d != NULL by { StandingFacts(c0, w.cache, own, top, w.d); }
    SettleIs(c0, w, own, top);
  }

  // ---------------------------------------------------------------------------------------------
  // The cache against the disk
  // ---------------------------------------------------------------------------------------------

  /** The directory above `e` has the inode of `e` on disk under the name of `e`. */
  ghost predicate RightlyNamed(c: Cache, fs: FileSystem, e: Addr) {
    e in c.tab && e != c.droot && c.tab[e].parent in c.tab ==>
      c.tab[e].inode != NULL && fs.onDisk(c.tab[c.tab[e].parent].inode, c.tab[e].name) == c.tab[e].inode
  }

  ghost predicate Coherent(c: Cache, fs: FileSystem) {
    forall e :: RightlyNamed(c, fs, e)
  }

  lemma CoherentLess(c: Cache, r: Cache, fs: FileSystem)
    requires Coherent(c, fs) && r.droot == c.droot
    requires forall e :: e in r.tab ==> e in c.tab && SameEntry(r.tab[e], c.tab[e])
    ensures Coherent(r, fs)
  {
    forall e ensures RightlyNamed(r, fs, e) { assert RightlyNamed(c, fs, e); }
  }

  lemma {:induction false} PutCoherent(c: Cache, fs: FileSystem, d: Addr)
    requires Coherent(c, fs)
    ensures Coherent(Put(c, d), fs)
  {
    PutShrinks(c, d);
    hide Put;
    CoherentLess(c, Put(c, d), fs);
  }

  lemma GrabCoherent(c: Cache, fs: FileSystem, d: Addr)
    requires Coherent(c, fs)
    ensures Coherent(Grab(c, d), fs)
  {
    CoherentLess(c, Grab(c, d), fs);
  }

  /** What the disk search makes of the cache is coherent again once the new dentry has its name. */
  lemma ObtainedCoherent(c: Cache, fs: FileSystem, p: Addr, d: Addr, name: string)
    requires Coherent(c, fs) && p in c.tab && |c.hash| == NR_HASH_LISTS && fs.onDisk(c.tab[p].inode, name) != NULL
    requires d in c.tab ==> HasKey(c, d, fs.onDisk(c.tab[p].inode, name), p)
    requires d !in c.tab ==> d != c.droot && forall e :: e in c.tab && e != c.droot ==> c.tab[e].parent != d
    ensures Coherent(Obtained(c, fs.onDisk(c.tab[p].inode, name), p, d, name), fs)
  {
    var r := Obtained(c, fs.onDisk(c.tab[p].inode, name), p, d, name);
    forall e ensures RightlyNamed(r, fs, e) { assert RightlyNamed(c, fs, e); }
  }

  lemma ParentCached(c: Cache, d: Addr)
    requires Consistent(c) && c.dying == {} && d !in c.tab && d != NULL
    ensures d != c.droot && forall e :: e in c.tab && e != c.droot ==> c.tab[e].parent != d
  {
    forall e ensures e in c.tab && e != c.droot ==> c.tab[e].parent != d { assert LinkedUp(c, e); }
  }

  lemma SearchedCoherent(c: Cache, fs: FileSystem, p: Addr, name: string)
    requires Consistent(c) && c.dying == {} && Coherent(c, fs) && p in c.tab
    ensures Coherent(Searched(c, fs, p, name), fs)
  {
    var kids, d := c.tab[p].children, Found(c, fs, p, name);
    GrabCoherent(c, fs, d);
    NullNotCached(c);
    NotNullKey(c, fs.onDisk(c.tab[p].inode, name), p);
    if d != NULL && d !in c.tab { ParentCached(c, d); }
    assert |c.hash| == NR_HASH_LISTS;
    hide Consistent, Coherent, Obtained, Grab, MatchIndex, Cached;
    if d != NULL && MatchIndex(c.tab, kids, name) == |kids| {
      ObtainedCoherent(c, fs, p, d, name);
    }
  }

  lemma EntryCoherent(c: Cache, fs: FileSystem, top: Addr, d: Addr, name: string)
    requires Consistent(c) && c.dying == {} && Alive(c, d) && Above(c, top, d) && Coherent(c, fs)
    ensures Coherent(Entry(c, fs, d, name).cache, fs)
  {
    BottomBelow(c, top, d);
    var p := Bottom(c, d);
    hide Consistent, Above, Put, Searched, Found, Coherent, Bottom;
    GrabCoherent(c, fs, p);
    ReferencedKeeps(c, p);
    GrabSame(c, p);
    SearchedCoherent(Grab(c, p), fs, p, name);
    PutCoherent(Searched(Grab(c, p), fs, p, name), fs, p);
  }

  /** No step of a walk makes the cache disagree with the disk. */
  lemma StepCoherent(c0: Cache, v: Visit, fs: FileSystem, own: multiset<Addr>, top: Addr, name: string)
    requires Standing(c0, v.cache, own, top, v.d) && Coherent(v.cache, fs)
    ensures Coherent(Step(fs, top, v, name).cache, fs)
  {
    StandingFacts(c0, v.cache, own, top, v.d);
    OwnedConsistent(v.cache, own + multiset{v.d});
    var c, d := v.cache, v.d;
    hide Consistent, Above, Owned, Put, Keeps, Coherent, Standing, Entry, Grab, Up;
    if name == ".." {
      GrabCoherent(c, fs, Up(c, d));
      PutCoherent(Grab(c, Up(c, d)), fs, d);
    } else if !fs.isDir(c.tab[d].inode) {
      PutCoherent(c, fs, d);
    } else {
      EntryCoherent(c, fs, top, d, name);
      PutCoherent(Entry(c, fs, d, name).cache, fs, d);
    }
  }

  lemma {:induction false} WalkCoherent(c0: Cache, v: Visit, fs: FileSystem, own: multiset<Addr>, top: Addr, names: seq<string>)
    requires Standing(c0, v.cache, own, top, v.d) && Coherent(v.cache, fs)
    ensures Coherent(Walk(fs, top, v, names).cache, fs)
  {
    hide Standing, Step, Coherent;
    if names != [] {
      var w := Walk(fs, top, v, names[..|names| - 1]);
      WalkCoherent(c0, v, fs, own, top, names[..|names| - 1]);
      WalkStands(c0, v, fs, own, top, names[..|names| - 1]);
      if w.d != NULL { StepCoherent(c0, w, fs, own, top, names[|names| - 1]); }
    }
  }

  /** The answer of a search in `p` is what the disk has under the name. */
  ghost predicate Right(c: Cache, fs: FileSystem, p: Addr, name: string)
    requires p in c.tab
  {
    var d, r, inode := Found(c, fs, p, name), Searched(c, fs, p, name), fs.onDisk(c.tab[p].inode, name);
    if inode == NULL then d == NULL else d != NULL && d in r.tab && r.tab[d].inode == inode
  }

  /**
   The cache gives the disk's answer exactly if the first child whose name begins with the name asked
   for is a link to the same file, and kmalloc had room if a dentry was needed. So a cached longer name
   hides a shorter one.
   */
  lemma RightIff(c: Cache, fs: FileSystem, p: Addr, name: string)
    requires Consistent(c) && c.dying == {} && Coherent(c, fs) && p in c.tab
    ensures var kids, dir := c.tab[p].children, c.tab[p].inode;
            var i := MatchIndex(c.tab, kids, name);
            Right(c, fs, p, name) <==>
              && (i < |kids| ==> fs.onDisk(dir, name) == fs.onDisk(dir, c.tab[kids[i]].name))
              && !NoMemory(c, fs, p, name)
  {
    var kids, inode := c.tab[p].children, fs.onDisk(c.tab[p].inode, name);
    var i := MatchIndex(c.tab, kids, name);
    NullNotCached(c);
    NotNullKey(c, inode, p);
    assert |c.hash| == NR_HASH_LISTS;
    hide Consistent, MatchIndex, Cached, HashIndex;
    if i < |kids| {
      ListedChild(c, p, kids[i]);
      assert RightlyNamed(c, fs, kids[i]);
    }
  }

  /** A dentry just got from disk is found for every beginning of its name, before all older ones. */
  lemma NewestFirst(c: Cache, fs: FileSystem, p: Addr, name: string, m: string)
    requires Consistent(c) && p in c.tab && Found(c, fs, p, name) != NULL && Found(c, fs, p, name) !in c.tab && m <= name
    ensures var d, r := Found(c, fs, p, name), Searched(c, fs, p, name);
            p in r.tab && Found(r, fs, p, m) == d
  {
    var d := Found(c, fs, p, name);
    if MatchIndex(c.tab, c.tab[p].children, name) < |c.tab[p].children| { ListedChild(c, p, d); }
    assert |c.hash| == NR_HASH_LISTS;
    hide Consistent, HashIndex, Cached;
    var r := Searched(c, fs, p, name);
    assert r.tab[p].children[0] == d && Begins(r.tab, d, m);
  }

  /** The same search again finds the same dentry. */
  lemma FoundAgain(c: Cache, fs: FileSystem, p: Addr, name: string)
    requires Consistent(c) && c.dying == {} && p in c.tab && Found(c, fs, p, name) != NULL
    ensures var r := Searched(c, fs, p, name); p in r.tab && Found(r, fs, p, name) == Found(c, fs, p, name)
  {
    var d, kids, inode := Found(c, fs, p, name), c.tab[p].children, fs.onDisk(c.tab[p].inode, name);
    var r := Searched(c, fs, p, name);
    NullNotCached(c);
    NotNullKey(c, inode, p);
    if MatchIndex(c.tab, kids, name) < |kids| {
      ListedChild(c, p, d);
      GrabSame(c, d);
      MatchIndexSame(c.tab, r.tab, kids, name);
    } else if d !in c.tab {
      NewestFirst(c, fs, p, name, name);
    } else {
      assert RightlyListed(c, p, d);
      hide Consistent, Cached, Found;
      OnlyMatch(c.tab, r.tab, kids, d, name);
    }
  }

  /** Once the one child has the name that no other begins with, it is the first match. */
  lemma {:induction false} OnlyMatch(tab: map<Addr, Node>, tab1: map<Addr, Node>, kids: seq<Addr>, d: Addr, name: string)
    requires d in kids && d in tab1 && tab1[d].name == name && tab1.Keys == tab.Keys
    requires forall e :: e in tab && e != d ==> tab1[e].name == tab[e].name
    requires forall j :: 0 <= j < |kids| ==> !Begins(tab, kids[j], name)
    ensures MatchIndex(tab1, kids, name) < |kids| && kids[MatchIndex(tab1, kids, name)] == d
  {
    if kids[0] != d {
      assert !Begins(tab, kids[0], name);
      forall j | 0 <= j < |kids[1..]| ensures !Begins(tab, kids[1..][j], name) { assert kids[1..][j] == kids[j + 1]; }
      OnlyMatch(tab, tab1, kids[1..], d, name);
    }
  }

  /** A root directory, inode 8, whose only file "ab", inode 9, is cached. */
  ghost function OneFileCached(): Cache {
    Named(Inserted(Mounted(Initial(1, 7), 1, 2, 8), 3, 9, 2), 3, "ab")
  }

  function OneFile(): FileSystem {
    FileSystem((dir: Addr, name: string) => if dir == 8 && name == "ab" then 9 else NULL, inode => inode == 8, keys => NULL)
  }

  lemma OneFileConsistent()
    ensures Consistent(OneFileCached()) && OneFileCached().dying == {}
  {
    InitialConsistent(1, 7);
    MountedKeeps(Initial(1, 7), 1, 2, 8);
    var c := Mounted(Initial(1, 7), 1, 2, 8);
    InsertedKeeps(c, 3, 9, 2);
    NamedKeeps(Inserted(c, 3, 9, 2), 3, "ab");
    hide Consistent;
  }

  /** Asked for "a", which is not on disk, the search finds "ab". */
  lemma LongerNameHides()
    ensures var c, fs := OneFileCached(), OneFile();
            && Consistent(c) && c.dying == {} && Coherent(c, fs) && 2 in c.tab
            && fs.onDisk(c.tab[2].inode, "a") == NULL && Found(c, fs, 2, "a") == 3 && c.tab[3].name == "ab"
            && !Right(c, fs, 2, "a")
  {
    OneFileConsistent();
    var c, fs := OneFileCached(), OneFile();
    hide Consistent, HashIndex;
    assert c.tab[2].children == [3] && Begins(c.tab, 3, "a");
    assert MatchIndex(c.tab, [3], "a") == 0;
    forall e ensures RightlyNamed(c, fs, e) {
    }
  }

  /** No file anywhere has a longer name that begins with `name`. */
  ghost predicate NoLonger(fs: FileSystem, name: string) {
    forall dir, m :: name <= m && fs.onDisk(dir, m) != NULL ==> m == name
  }

  /** Where component `k` is a name and leads on, it leads to what the disk has under it. */
  ghost predicate ResolvedAt(fs: FileSystem, top: Addr, v: Visit, names: seq<string>, k: nat)
    requires k < |names|
  {
    Resolved(fs, Walk(fs, top, v, names[..k]), Walk(fs, top, v, names[..k + 1]), names[k])
  }

  ghost predicate Resolved(fs: FileSystem, v: Visit, w: Visit, name: string) {
    v.d != NULL && w.d != NULL && name != ".." ==>
      && w.d in w.cache.tab && Bottom(v.cache, v.d) in v.cache.tab
      && w.cache.tab[w.d].inode == fs.onDisk(v.cache.tab[Bottom(v.cache, v.d)].inode, name)
  }

  /** The search finds what is on disk, if it finds anything. */
  lemma SearchedInode(c: Cache, fs: FileSystem, p: Addr, name: string)
    requires Consistent(c) && c.dying == {} && Coherent(c, fs) && p in c.tab && NoLonger(fs, name)
    ensures var d, r := Found(c, fs, p, name), Searched(c, fs, p, name);
            d != NULL ==> d in r.tab && r.tab[d].inode == fs.onDisk(c.tab[p].inode, name)
  {
    RightIff(c, fs, p, name);
    var kids := c.tab[p].children;
    var i := MatchIndex(c.tab, kids, name);
    if i < |kids| {
      ListedChild(c, p, kids[i]);
      assert RightlyNamed(c, fs, kids[i]);
    }
    FoundIff(c, fs, p, name);
    hide Consistent, Coherent, Found, Searched, MatchIndex;
  }

  lemma StepResolves(c0: Cache, v: Visit, fs: FileSystem, own: multiset<Addr>, top: Addr, name: string)
    requires Standing(c0, v.cache, own, top, v.d) && Coherent(v.cache, fs) && NoLonger(fs, name)
    ensures Resolved(fs, v, Step(fs, top, v, name), name)
  {
    StandingFacts(c0, v.cache, own, top, v.d);
    OwnedConsistent(v.cache, own + multiset{v.d});
    BottomBelow(v.cache, top, v.d);
    var c, d, p := v.cache, v.d, Bottom(v.cache, v.d);
    hide Consistent, Above, Owned, Put, Keeps, Searched, Found, Coherent, Bottom, NoLonger;
    if name != ".." && fs.isDir(c.tab[d].inode) {
      GrabCoherent(c, fs, p);
      ReferencedKeeps(c, p);
      GrabSame(c, p);
      SearchedInode(Grab(c, p), fs, p, name);
      StepStands(c0, v, fs, own, top, name);
      PutShrinks(Searched(Grab(c, p), fs, p, name), p);
      PutShrinks(Entry(c, fs, d, name).cache, d);
      assert Step(fs, top, v, name).d != NULL ==> Alive(Step(fs, top, v, name).cache, Step(fs, top, v, name).d) by {
        var w := Step(fs, top, v, name);
        if w.d != NULL { StandingFacts(c0, w.cache, own, top, w.d); }
      }
    }
  }

  /**
   Path lookup over a cache that agrees with the disk resolves every name on the way as the disk does,
   provided no file on disk has a longer name beginning with a name of the path.
   */
  lemma WalkResolves(c0: Cache, v: Visit, fs: FileSystem, own: multiset<Addr>, top: Addr, names: seq<string>, k: nat)
    requires Standing(c0, v.cache, own, top, v.d) && Coherent(v.cache, fs)
    requires k < |names| && NoLonger(fs, names[k])
    ensures ResolvedAt(fs, top, v, names, k)
  {
    var w := Walk(fs, top, v, names[..k]);
    WalkStands(c0, v, fs, own, top, names[..k]);
    WalkCoherent(c0, v, fs, own, top, names[..k]);
    assert names[..k + 1][..k] == names[..k];
    hide Standing, Step, Coherent, NoLonger, BackOut, Resolved;
    if w.d != NULL {
      StepResolves(c0, w, fs, own, top, names[k]);
    }
    NeverBegun(fs, w, Walk(fs, top, v, names[..k + 1]), names[k]);
  }

  lemma NeverBegun(fs: FileSystem, v: Visit, w: Visit, name: string)
    ensures v.d == NULL ==> Resolved(fs, v, w, name)
  {
  }

  lemma SameInode(c: Cache, r: Cache, own: multiset<Addr>, d: Addr)
    requires Consistent(c) && Keeps(c, r, own) && Survives(c, r, d)
    ensures d in c.tab && d in r.tab && r.tab[d].inode == c.tab[d].inode
  {
    assert LinkedUp(c, d) && Unchanged(c, r, d);
  }

  // ---------------------------------------------------------------------------------------------
  // The walk
  // ---------------------------------------------------------------------------------------------

  /** What dput demands of its caller: a reference to `d` that is not the kernel's own. */
  ghost predicate Returnable(c: Cache, d: Addr) {
    Consistent(c) && d in c.holds && (Pinned(c, d) ==> c.holds[d] > 1)
  }

  lemma OwnedReturnable(c: Cache, own: multiset<Addr>, d: Addr)
    requires Owned(c, own) && d in own
    ensures Returnable(c, d) && Alive(c, d)
  {
    OwnedAlive(c, own, d);
  }

  lemma SearchedReturnable(c: Cache, fs: FileSystem, own: multiset<Addr>, top: Addr, d: Addr, name: string)
    requires Owned(c, own) && d in own && Above(c, top, d)
    ensures var p := Bottom(c, d); var c1 := Grab(c, p);
            && Alive(c, p) && Above(c1, top, p) && Owned(c1, own + multiset{p}) && c1 == Referenced(c, p)
            && p in c1.tab && c1.tab[p].mount == NULL && Returnable(Searched(c1, fs, p, name), p)
  {
    hide Consistent, Keeps, Above, Bottom, Enough, Survives, Evolves, HasKey, Put, Referenced, Searched, Found, Returnable;
    OwnedAlive(c, own, d);
    BottomBelow(c, top, d);
    var p := Bottom(c, d);
    GrabKeeps(c, own, top, p);
    GrabSame(c, p);
    SearchedKeeps(Grab(c, p), fs, own + multiset{p}, top, p, name);
    var found := Found(Grab(c, p), fs, p, name);
    OwnedReturnable(Searched(Grab(c, p), fs, p, name),
                    if found == NULL then own + multiset{p} else own + multiset{p} + multiset{found}, p);
  }
}
