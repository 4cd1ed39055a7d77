/**
 fs/namei.c: path lookup, chdir and chroot of one task over the dentry cache.
 */
module PathWalk {
  import opened Sequences
  import opened DentryModel
  import opened Dentry
  import opened PathModel
  import opened Words

  class Walker {
    const cache: DentryCache
    var root: Addr
    var pwd: Addr

    /** One reference, if the pointer is not NULL. */
    ghost function Ref(d: Addr): multiset<Addr> {
      if d == NULL then multiset{} else multiset{d}
    }

    ghost function Own(): multiset<Addr>
      reads this
    {
      Ref(root) + Ref(pwd)
    }

    /** current->root, or droot for a task that has none. */
    function Root(): Addr
      reads this
    {
      if root == NULL then cache.droot else root
    }

    /** The task's references are counted, and its root is above its working directory. */
    ghost predicate Valid()
      reads this, cache
    {
      && Owned(cache.View(), Own())
      && (pwd == NULL ==> root == NULL)
      && (pwd != NULL ==> Above(cache.View(), Root(), pwd))
    }

    /** mount_root: the first task starts with droot as its root and working directory. */
    constructor (d: Addr, iroot: Addr, rootInode: Addr, memory: Addr)
      requires 0 < d < U32 && 0 < memory < U32 && memory != d && rootInode != NULL
      ensures Valid() && fresh(cache) && root == pwd == cache.droot == d
      ensures cache.tab.Keys == {d, memory} && cache.tab[d].mount == memory
    {
      hide Consistent, HashIndex;
      var c := new DentryCache(d, iroot);
      c.Mount(d, rootInode, memory);
      c.Dref(d);
      c.Dref(d);
      cache := c;
      root, pwd := d, d;
      new;
      hide Referenced, Mounted, Owned, Above;
      BootOwned(cache.View(), d, memory);
    }

    lemma Viewed()
      ensures cache.View().tab == cache.tab && cache.View().holds == cache.holds && cache.View().droot == cache.droot
      ensures cache.View().dying == cache.dying
    {
    }

    /** Follows the mounts on `d`. */
    method Descend(d: Addr, ghost top: Addr) returns (iter: Addr)
      requires Consistent(cache.View()) && Alive(cache.View(), d) && Above(cache.View(), top, d)
      ensures iter == Bottom(cache.View(), d)
    {
      ghost var c := cache.View();
      hide Consistent;
      iter := d;
      while cache.tab[iter].mount != NULL
        invariant Alive(c, iter) && Bottom(c, iter) == Bottom(c, d) && Above(c, top, iter)
        decreases c.clock - if iter in c.born then c.born[iter] else 0
      {
        MountBelow(c, top, iter);
        iter := cache.tab[iter].mount;
      }
    }

    /** list_for_each_safe over the children, up to the first that passes the test. */
    method FirstMatch(kids: seq<Addr>, name: string) returns (i: nat)
      ensures i == MatchIndex(cache.tab, kids, name)
    {
      i := 0;
      while i < |kids| && !Begins(cache.tab, kids[i], name)
        invariant i <= |kids| && forall j :: 0 <= j < i ==> !Begins(cache.tab, kids[j], name)
      {
        i := i + 1;
      }
    }

    /** The end of the file system's lookup: dget for the inode it found, and the name. */
    method FromDisk(inode: Addr, p: Addr, name: string, fs: FileSystem) returns (found: Addr)
      requires Consistent(cache.View()) && cache.dying == {} && p in cache.tab && p != cache.droot && inode != NULL
      modifies cache
      ensures found == if Cached(old(cache.View()), inode, p) != NULL then Cached(old(cache.View()), inode, p)
                       else Memory(old(cache.tab).Keys, fs)
      ensures cache.View() == if found == NULL then old(cache.View()) else Obtained(old(cache.View()), inode, p, found, name)
    {
      ghost var c := cache.View();
      NullNotCached(c);
      NotNullKey(c, inode, p);
      assert |c.hash| == NR_HASH_LISTS;
      var memory := Memory(cache.tab.Keys, fs);
      found := cache.Dget(inode, p, memory);
      if e :| HasKey(c, e, inode, p) {
        CachedIs(c, inode, p, found);
      }
      hide Consistent, Referenced, Inserted;
      if found != NULL {
        cache.SetName(found, name);
      }
    }

    /** The search of find_entry in the directory `p`. */
    method Select(p: Addr, name: string, fs: FileSystem, ghost own: multiset<Addr>) returns (found: Addr)
      requires Owned(cache.View(), own) && p in cache.tab && cache.tab[p].mount == NULL
      modifies cache
      ensures found == Found(old(cache.View()), fs, p, name) && cache.View() == Searched(old(cache.View()), fs, p, name)
    {
      ghost var c := cache.View();
      OwnedConsistent(c, own);
      NullNotCached(c);
      hide Consistent, Referenced, Obtained, Cached;
      var kids := cache.tab[p].children;
      var i: nat := FirstMatch(kids, name);
      if i < |kids| {
        found := kids[i];
        ListedChild(c, p, found);
        cache.Dref(found);
      } else {
        var inode := fs.onDisk(cache.tab[p].inode, name);
        if inode == NULL {
          return NULL;
        }
        found := FromDisk(inode, p, name, fs);
      }
    }

    /** find_entry below `d`. */
    method FindEntry(d: Addr, name: string, fs: FileSystem, ghost top: Addr, ghost own: multiset<Addr>) returns (found: Addr)
      requires Owned(cache.View(), own) && d in own && Above(cache.View(), top, d)
      modifies cache
      ensures Visit(cache.View(), found) == Entry(old(cache.View()), fs, d, name)
    {
      ghost var c := cache.View();
      OwnedConsistent(c, own);
      OwnedAlive(c, own, d);
      SearchedReturnable(c, fs, own, top, d, name);
      hide Consistent, Above, Owned, Referenced, Searched, Found, Put, Bottom;
      var iter := Descend(d, top);
      cache.Dref(iter);
      found := Select(iter, name, fs, own + multiset{iter});
      cache.Dput(iter);
    }

    /** Exchange the reference on `d` for one on `next`, as lookup does when it moves along a link. */
    method MoveTo(d: Addr, next: Addr, ghost c0: Cache, ghost own: multiset<Addr>, ghost top: Addr)
      requires Standing(c0, cache.View(), own, top, d) && Alive(cache.View(), next) && Above(cache.View(), top, next)
      requires next != NULL
      modifies cache
      ensures cache.View() == Moved(old(cache.View()), d, next)
    {
      ghost var c := cache.View();
      StandingFacts(c0, c, own, top, d);
      OwnedConsistent(c, own + multiset{d});
      MovedStands(c0, c, own, top, d, next);
      OwnedReturnable(Referenced(c, next), own + multiset{next} + multiset{d}, d);
      hide Consistent, Above, Owned, Referenced, Put, Moved;
      cache.Dref(next);
      cache.Dput(d);
    }

    /** The ".." case of lookup: nothing above the task's root `top`. */
    method StepUp(d: Addr, top: Addr, ghost fs: FileSystem, ghost c0: Cache, ghost own: multiset<Addr>) returns (next: Addr)
      requires Standing(c0, cache.View(), own, if top == NULL then cache.droot else top, d)
      modifies cache
      ensures Visit(cache.View(), next)
              == Step(fs, if top == NULL then cache.droot else top, Visit(old(cache.View()), d), "..")
    {
      ghost var c, r := cache.View(), if top == NULL then cache.droot else top;
      StandingFacts(c0, c, own, r, d);
      hide Consistent, Above, Enough, Evolves, Keeps, Put;
      next := d;
      if d != top {
        UpBelow(c0, c, own, r, d);
        OwnedAlive(c, own + multiset{d}, d);
        PutUndoesReferenced(c, d);
        hide Referenced;
        next := if cache.tab[d].parent == NULL then cache.tab[d].covered else cache.tab[d].parent;
        MoveTo(d, next, c0, own, r);
      }
    }

    /** A named component of lookup: only a directory is searched. */
    method StepInto(d: Addr, name: string, fs: FileSystem, ghost top: Addr, ghost c0: Cache, ghost own: multiset<Addr>)
      returns (next: Addr)
      requires Standing(c0, cache.View(), own, top, d) && name != ".."
      modifies cache
      ensures Visit(cache.View(), next) == Step(fs, top, Visit(old(cache.View()), d), name)
    {
      ghost var c := cache.View();
      StandingFacts(c0, c, own, top, d);
      EnterStands(c0, c, fs, own, top, d, name);
      OwnedReturnable(c, own + multiset{d}, d);
      ghost var e := Entry(c, fs, d, name);
      OwnedReturnable(e.cache, (if e.d == NULL then own else own + multiset{e.d}) + multiset{d}, d);
      hide Consistent, Above, Owned, Put, Entry, OnWay, Standing, Keeps;
      if !fs.isDir(cache.tab[d].inode) {
        cache.Dput(d);
        return NULL;
      }
      next := FindEntry(d, name, fs, top, own + multiset{d});
      cache.Dput(d);
    }

    /** The end of lookup: the walk never stops on a mounted-on dentry. */
    method Finish(d: Addr, ghost top: Addr, ghost c0: Cache, ghost own: multiset<Addr>) returns (iter: Addr)
      requires Standing(c0, cache.View(), own, top, d)
      modifies cache
      ensures Visit(cache.View(), iter) == Settle(Visit(old(cache.View()), d))
    {
      hide Standing, Survives, Moved;
      StandingFacts(c0, cache.View(), own, top, d);
      hide Consistent, Above, Owned, Keeps;
      iter := d;
      while cache.tab[iter].mount != NULL
        invariant Standing(c0, cache.View(), own, top, iter) && Alive(cache.View(), iter)
        invariant Settle(Visit(cache.View(), iter)) == Settle(Visit(old(cache.View()), d))
        invariant cache.born == old(cache.born) && cache.clock == old(cache.clock)
        decreases cache.clock - if iter in cache.born then cache.born[iter] else 0
      {
        ghost var c := cache.View();
        StandingFacts(c0, c, own, top, iter);
        SettleOne(c0, Visit(c, iter), own, top);
        var next := cache.tab[iter].mount;
        MoveTo(iter, next, c0, own, top);
        StandingFacts(c0, cache.View(), own, top, next);
        iter := next;
      }
    }

    /** The end of the component that begins here. */
    method ScanEnd(path: string, begin: nat) returns (end: nat)
      requires begin <= |path|
      ensures begin <= end <= |path| && (end < |path| ==> path[end] == '/')
      ensures forall i :: begin <= i < end ==> path[i] != '/'
    {
      end := begin;
      while end < |path| && path[end] != '/'
        invariant begin <= end <= |path| && forall i :: begin <= i < end ==> path[i] != '/'
      {
        end := end + 1;
      }
    }

    /** One component of lookup that moves the walk. */
    method Advance(d: Addr, name: string, top: Addr, fs: FileSystem, ghost c0: Cache, ghost own: multiset<Addr>)
      returns (next: Addr)
      requires Standing(c0, cache.View(), own, if top == NULL then cache.droot else top, d)
      modifies cache
      ensures Visit(cache.View(), next)
              == Step(fs, if top == NULL then cache.droot else top, Visit(old(cache.View()), d), name)
    {
      hide *;
      if name == ".." {
        next := StepUp(d, top, fs, c0, own);
      } else {
        next := StepInto(d, name, fs, if top == NULL then cache.droot else top, c0, own);
      }
    }

    /** Where a lookup starts. */
    function Start(path: string, fromroot: bool): Addr
      reads this
    {
      var d := if path != [] && path[0] == '/' then root else pwd;
      if fromroot || d == NULL then cache.droot else d
    }

    /** What a lookup may not leave. */
    function Limit(fromroot: bool): Addr
      reads this
    {
      if fromroot then cache.droot else Root()
    }

    /** The head of lookup: take a reference to where the walk starts. */
    method Begin(path: string, fromroot: bool) returns (iter: Addr, top: Addr, begin: nat)
      requires Valid()
      modifies cache
      ensures (if top == NULL then cache.droot else top) == Limit(fromroot) && iter == Start(path, fromroot)
      ensures cache.View() == Grab(old(cache.View()), iter)
      ensures begin <= |path| && Scanned(path, begin, [], Components(path))
    {
      hide NextSlash, Enough;
      ghost var c := cache.View();
      iter, top, begin := pwd, root, 0;
      if begin < |path| && path[begin] == '/' {
        iter := root;
        begin := begin + 1;
      }
      if iter == NULL || fromroot {
        iter, top := cache.droot, cache.droot;
      }
      assert path[0..] == path;
      StartStands(path, fromroot);
      assert (this as object) != cache;
      cache.Dref(iter);
    }

    /** The reference that a lookup begins with. */
    lemma StartStands(path: string, fromroot: bool)
      requires Valid()
      ensures var c, d := cache.View(), Start(path, fromroot);
              && Consistent(c) && Alive(c, d) && Survives(c, Grab(c, d), d) && Grab(c, d) == Referenced(c, d)
              && Standing(c, Grab(c, d), Own(), Limit(fromroot), d)
    {
      hide Enough;
      var c, own, d := cache.View(), Own(), Start(path, fromroot);
      assert Pinned(c, c.droot);
      OwnedSelf(c, own);
      assert Survives(c, c, d) && LinkedUp(c, d);
      RootAbove(c, d);
      GrabKeeps(c, own, Limit(fromroot), d);
    }

    /** Where a path leads that consists of slashes, "." and ".." only. */
    ghost function Nameless(path: string, fromroot: bool): Addr
      reads this, cache
    {
      Bottom(cache.View(), Climb(cache.View(), Limit(fromroot), Start(path, fromroot), |Components(path)|))
    }

    /** Where a path leads. */
    ghost function Landing(path: string, fromroot: bool, fs: FileSystem): Visit
      reads this, cache
    {
      Landed(cache.View(), fs, Limit(fromroot), Start(path, fromroot), Components(path))
    }

    /** A name of the path stops the lookup: no directory, nothing of this name, or no memory. */
    ghost predicate Fails(path: string, fromroot: bool, fs: FileSystem)
      reads this, cache
    {
      Stops(fs, Limit(fromroot), Visit(Grab(cache.View(), Start(path, fromroot)), Start(path, fromroot)), Components(path))
    }

    /** Whatever the path: where it leads is below the limit, or it fails for a reason, and references balance. */
    lemma LandingStands(path: string, fromroot: bool, fs: FileSystem)
      requires Valid()
      ensures var w := Landing(path, fromroot, fs);
              && OnWay(cache.View(), w, Own(), Limit(fromroot))
              && (w.d == NULL <==> Fails(path, fromroot, fs))
              && (w.d != NULL ==> w.d in w.cache.tab && w.cache.tab[w.d].mount == NULL)
              && (OnlyUp(Components(path)) ==> w.d == Nameless(path, fromroot) && Survives(cache.View(), w.cache, w.d))
    {
      StartStands(path, fromroot);
      hide OnWay, Standing, Survives, Stops, Landed, OnlyUp, Grab, Consistent;
      var c, d, top, names := cache.View(), Start(path, fromroot), Limit(fromroot), Components(path);
      LandedStands(c, fs, Own(), top, d, names);
      LandedFailsIff(c, fs, Own(), top, d, names);
      if OnlyUp(names) { LandedUp(c, fs, Own(), top, d, names); }
    }

    /** The empty path leads to the working directory and "/" to the root, or to droot where there is none. */
    lemma ShortPaths(fs: FileSystem)
      requires Valid()
      ensures Landing("", false, fs).d == Bottom(cache.View(), if pwd == NULL then cache.droot else pwd)
      ensures Landing("/", false, fs).d == Bottom(cache.View(), if root == NULL then cache.droot else root)
      ensures Landing("", true, fs).d == Bottom(cache.View(), cache.droot)
    {
      assert Components("") == [] && "/"[1..] == "" && Components("/") == [];
      LandingStands("", false, fs);
      LandingStands("/", false, fs);
      LandingStands("", true, fs);
      hide Landed, OnWay, Stops, Survives, Bottom, Valid;
    }

    /** An absolute path leads where the rest of it leads for a task that stands in this one's root. */
    lemma AbsolutePath(other: Walker, path: string, fs: FileSystem)
      requires other.cache == cache && other.root == root && other.pwd == root
      ensures Landing("/" + path, false, fs) == other.Landing(path, false, fs)
    {
      assert ("/" + path)[1..] == path;
      hide Landed;
    }

    /** For a path without a leading slash the root matters as a limit only. */
    lemma RelativePath(other: Walker, path: string, fs: FileSystem)
      requires other.cache == cache && other.pwd == pwd && other.Root() == Root()
      requires path == "" || path[0] != '/'
      ensures Landing(path, false, fs) == other.Landing(path, false, fs)
    {
      hide Landed;
    }

    /** From droot a path leads where it leads for a task whose root and working directory are droot. */
    lemma PathFromDroot(other: Walker, path: string, fs: FileSystem)
      requires other.cache == cache && other.root == other.pwd == cache.droot
      ensures Landing(path, true, fs) == other.Landing(path, false, fs)
    {
      hide Landed;
    }

    /** The limit is the task's root: ".." from there leads nowhere else. */
    lemma ParentOfRoot(fs: FileSystem)
      requires Valid()
      ensures Landing("/..", false, fs).d == Landing("/", false, fs).d
    {
      ShortPaths(fs);
      ParentComponents();
      LandingStands("/..", false, fs);
      hide Landed, OnWay, Stops, Survives, Valid, Components, Bottom;
    }

    lemma LandingReaches(path: string, fromroot: bool, fs: FileSystem)
      requires Valid()
      ensures var w := Landing(path, fromroot, fs);
              if w.d == NULL then BackOut(cache.View(), w.cache, Own())
              else Standing(cache.View(), w.cache, Own(), Limit(fromroot), w.d)
      ensures Landing(path, fromroot, fs).d == NULL <==> Fails(path, fromroot, fs)
    {
      LandingStands(path, fromroot, fs);
      hide Landing, Fails, Standing, BackOut, OnlyUp, Survives;
    }

    lemma LandingIs(path: string, fromroot: bool, fs: FileSystem)
      ensures var start := Start(path, fromroot);
              var w := Walk(fs, Limit(fromroot), Visit(Grab(cache.View(), start), start), Components(path));
              Landing(path, fromroot, fs) == if w.d == NULL then w else Settle(w)
    {
    }

    /** lookup: the walk from the task's root or working directory. */
    method Lookup(path: string, fromroot: bool, fs: FileSystem) returns (found: Addr)
      requires Valid()
      modifies cache
      ensures Visit(cache.View(), found) == old(Landing(path, fromroot, fs))
      ensures if found == NULL then BackOut(old(cache.View()), cache.View(), Own())
              else Standing(old(cache.View()), cache.View(), Own(), Limit(fromroot), found)
      ensures found == NULL <==> old(Fails(path, fromroot, fs))
    {
      LandingReaches(path, fromroot, fs);
      StartStands(path, fromroot);
      LandingIs(path, fromroot, fs);
      hide *;
      assert (this as object) != cache;
      ghost var c0, own, all, limit := cache.View(), Own(), Components(path), Limit(fromroot);
      ghost var done: seq<string> := [];
      var iter, top, begin := Begin(path, fromroot);
      ghost var v := Visit(cache.View(), iter);
      WalkNothing(fs, limit, v);
      while true
        invariant begin <= |path| && Scanned(path, begin, done, all)
        invariant Standing(c0, cache.View(), own, limit, iter)
        invariant Walk(fs, limit, v, done) == Visit(cache.View(), iter)
        decreases |path| - begin
      {
        var end := ScanEnd(path, begin);
        ScanStep(path, begin, end, done, all);
        var name := path[begin..end];
        if begin == end {
          if end == |path| {
            break;
          }
          begin := begin + 1;
          continue;
        } else if name == "." {
        } else {
          WalkOn(c0, Visit(cache.View(), iter), fs, own, limit, v, done, name);
          done := done + [name];
          iter := Advance(iter, name, top, fs, c0, own);
          if iter == NULL {
            ScanStuck(path, end, fs, limit, v, done, all);
            return NULL;
          }
        }
        if end == |path| {
          break;
        }
        begin := end;
      }
      StandingNotNull(c0, cache.View(), own, limit, iter);
      found := Finish(iter, limit, c0, own);
    }

    /** The task's premise still holds when a walk has given everything back. */
    lemma ValidAgain(c0: Cache)
      requires BackOut(c0, cache.View(), Own()) && Consistent(c0) && (pwd == NULL ==> root == NULL)
      requires pwd != NULL ==> Above(c0, Root(), pwd)
      ensures Valid() && cache.holds == c0.holds
    {
      if pwd != NULL { StaysUnder(c0, cache.View(), Own(), Root(), pwd); }
    }

    /** sys_chdir's check that the new directory is below the task's root: it always is. */
    method BelowRoot(find: Addr) returns (below: bool)
      requires Consistent(cache.View()) && Alive(cache.View(), find) && Above(cache.View(), Root(), find)
      ensures below
    {
      ghost var c := cache.View();
      var top: Addr := if root == NULL then cache.droot else root;
      var iter: Addr := find;
      while iter != cache.droot
        invariant Alive(c, iter) && Above(c, top, iter)
        decreases if iter in c.born then c.born[iter] else 0
      {
        if iter == top {
          return true;
        }
        AliveLinked(c, iter);
        AliveLinked(c, Up(c, iter));
        iter := if cache.tab[iter].parent == NULL then cache.tab[iter].covered else cache.tab[iter].parent;
      }
      below := iter == top;
    }

    /** A failed chdir or chroot drops what lookup found. */
    method GiveUp(find: Addr, ghost top: Addr, ghost c0: Cache)
      requires Standing(c0, cache.View(), Own(), top, find) && (pwd == NULL ==> root == NULL)
      requires pwd != NULL ==> Above(c0, Root(), pwd)
      modifies cache
      ensures Valid() && cache.holds == c0.holds && cache.View() == Put(old(cache.View()), find)
    {
      ghost var c := cache.View();
      StandingFacts(c0, c, Own(), top, find);
      LeaveKeeps(c0, c, Own(), top, find);
      OwnedReturnable(c, Own() + multiset{find}, find);
      Viewed();
      hide *;
      assert (this as object) != cache;
      cache.Dput(find);
      ValidAgain(c0);
    }

    /** Drop the task's old directory, if it has one, while it refers to the new one `e`. */
    method PutOld(d: Addr, e: Addr, ghost rest: multiset<Addr>, ghost top: Addr)
      requires Owned(cache.View(), rest + Ref(d)) && e in rest && Above(cache.View(), top, e)
      modifies cache
      ensures Owned(cache.View(), rest) && cache.holds == old(cache.holds) - Ref(d)
      ensures cache.View() == if d == NULL then old(cache.View()) else Put(old(cache.View()), d)
      ensures Above(cache.View(), top, e) && e in cache.tab && e in old(cache.tab) && SameNode(cache.tab[e], old(cache.tab)[e])
    {
      ghost var c := cache.View();
      assert rest + multiset{} == rest;
      OwnedAlive(c, rest + Ref(d), e);
      if d != NULL {
        PutKeeps(c, rest, d);
        PutLeaves(c, rest, d, top, e);
        OwnedReturnable(c, rest + multiset{d}, d);
        hide Owned, Above, Keeps, Put, Consistent;
        cache.Dput(d);
      }
    }

    /** Where a path without names leads is a dentry of before, and has its inode. */
    lemma NamelessInode(path: string, fromroot: bool, fs: FileSystem)
      requires Valid() && OnlyUp(Components(path))
      ensures var d, w := Nameless(path, fromroot), Landing(path, fromroot, fs);
              w.d == d && d in cache.tab && d in w.cache.tab && w.cache.tab[d].inode == cache.tab[d].inode
    {
      hide OnlyUp;
      LandingStands(path, fromroot, fs);
      StartStands(path, fromroot);
      var c, w := cache.View(), Landing(path, fromroot, fs);
      hide Landing, Nameless, Consistent, Owned, Above;
      SameInode(c, w.cache, Own(), w.d);
    }

    /** The new working directory `find`, referenced once, takes the place of the old one. */
    method Enter(find: Addr)
      requires Owned(cache.View(), Own() + multiset{find}) && pwd != NULL && find != NULL && Above(cache.View(), Root(), find)
      modifies `pwd, cache
      ensures Valid() && pwd == find && cache.View() == Put(old(cache.View()), old(pwd))
      ensures cache.holds == old(cache.holds) - multiset{old(pwd)}
    {
      hide Owned, Above, Put, Consistent;
      assert Own() + multiset{find} == Ref(root) + multiset{find} + Ref(pwd);
      PutOld(pwd, find, Ref(root) + multiset{find}, Root());
      pwd := find;
    }

    /** sys_chdir. A task without a working directory may not call it: dput would get NULL. */
    method SysChdir(path: string, fs: FileSystem) returns (ok: bool)
      requires Valid() && pwd != NULL
      modifies `pwd, cache
      ensures Valid() && pwd != NULL
      ensures var w := old(Landing(path, false, fs));
              && (ok <==> w.d != NULL && w.d in w.cache.tab && fs.isDir(w.cache.tab[w.d].inode))
              && (ok ==> pwd == w.d && cache.View() == Put(w.cache, old(pwd)))
              && (!ok ==> pwd == old(pwd) && cache.View() == if w.d == NULL then w.cache else Put(w.cache, w.d))
      ensures old(Landing(path, false, fs)).d == NULL <==> old(Fails(path, false, fs))
      ensures !ok ==> cache.holds == old(cache.holds)
      ensures ok ==> cache.holds == old(cache.holds) + multiset{pwd} - multiset{old(pwd)} && old(pwd) in old(cache.holds)
      ensures OnlyUp(Components(path)) ==> old(Nameless(path, false)) in old(cache.tab)
      ensures OnlyUp(Components(path)) ==>
        (ok <==> fs.isDir(old(cache.tab)[old(Nameless(path, false))].inode)) && (ok ==> pwd == old(Nameless(path, false)))
    {
      ghost var c0, own, w := cache.View(), Own(), Landing(path, false, fs);
      if OnlyUp(Components(path)) { NamelessInode(path, false, fs); }
      hide Owned, Consistent, Above, Keeps, BackOut, Standing, Nameless, Components, OnlyUp, Referenced, Survives, Landing, Fails, Put;
      OwnedConsistent(c0, own);
      assert (this as object) != cache;
      var find := Lookup(path, false, fs);
      if find == NULL {
        ValidAgain(c0);
        return false;
      }
      StandingFacts(c0, cache.View(), own, Root(), find);
      OwnedConsistent(cache.View(), own + multiset{find});
      var below := BelowRoot(find);
      if below && fs.isDir(cache.tab[find].inode) {
        Enter(find);
        ok := true;
      } else {
        GiveUp(find, Root(), c0);
        ok := false;
      }
    }

    lemma Regroup(r: multiset<Addr>, p: multiset<Addr>, f: Addr, h: multiset<Addr>)
      ensures r + p + multiset{f} == p + multiset{f} + r
      ensures p + multiset{f} + multiset{f} == multiset{f, f} + p
      ensures r + p + multiset{f} <= h ==> h - r + multiset{f} - p == h + multiset{f} - (r + p) && r + p <= h
    {
    }

    lemma RefIs(d: Addr)
      ensures d != NULL ==> Ref(d) + Ref(d) == multiset{d, d}
    {
    }

    /** What sys_chroot makes of the cache once its lookup has found `d`. */
    ghost function Rebased(c: Cache, d: Addr): Cache
      reads this
    {
      var c1 := Grab(if root == NULL then c else Put(c, root), d);
      if pwd == NULL then c1 else Put(c1, pwd)
    }

    /** The body of sys_chroot: `find`, referenced once, becomes root and working directory. */
    method Rebase(find: Addr)
      requires Owned(cache.View(), Own() + multiset{find}) && find != NULL && find in cache.tab
      modifies this, cache
      ensures Valid() && root == pwd == find && cache.View() == old(Rebased(cache.View(), find))
      ensures old(Own()) <= old(cache.holds) && cache.holds == old(cache.holds) + multiset{find} - old(Own())
    {
      hide Owned, Consistent, Above, Referenced, Ref, Put, SameNode;
      OwnedConsistent(cache.View(), Own() + multiset{find});
      AboveItself(cache.View(), find);
      Regroup(Ref(root), Ref(pwd), find, cache.holds);
      PutOld(root, find, Ref(pwd) + multiset{find}, find);
      root := find;
      TakeAnother(find, Ref(pwd) + multiset{find});
      PutOld(pwd, find, multiset{find, find}, find);
      pwd := find;
      RefIs(find);
    }

    /** dref of a dentry the task already refers to. */
    method TakeAnother(d: Addr, ghost own: multiset<Addr>)
      requires Owned(cache.View(), own) && d in own
      modifies cache
      ensures Owned(cache.View(), own + multiset{d}) && cache.holds == old(cache.holds) + multiset{d}
      ensures d in cache.tab && Above(cache.View(), d, d) && cache.View() == Grab(old(cache.View()), d)
    {
      OwnedAlive(cache.View(), own, d);
      OwnMore(cache.View(), own, d);
      cache.Dref(d);
    }

    /** sys_chroot: the path is taken from droot; the result becomes root and working directory. */
    method SysChroot(path: string, fs: FileSystem) returns (ok: bool)
      requires Valid()
      modifies this, cache
      ensures Valid()
      ensures var w := old(Landing(path, true, fs));
              && (ok <==> w.d != NULL && w.d in w.cache.tab && fs.isDir(w.cache.tab[w.d].inode))
              && (ok ==> root == pwd == w.d && cache.View() == old(Rebased(Landing(path, true, fs).cache, Landing(path, true, fs).d)))
              && (!ok ==> pwd == old(pwd) && root == old(root))
              && (!ok ==> cache.View() == if w.d == NULL then w.cache else Put(w.cache, w.d))
      ensures old(Landing(path, true, fs)).d == NULL <==> old(Fails(path, true, fs))
      ensures !ok ==> cache.holds == old(cache.holds)
      ensures ok ==> cache.holds == old(cache.holds) + multiset{pwd} + multiset{pwd} - old(Own()) && old(Own()) <= old(cache.holds)
      ensures OnlyUp(Components(path)) ==> old(Nameless(path, true)) in old(cache.tab)
      ensures OnlyUp(Components(path)) ==>
        (ok <==> fs.isDir(old(cache.tab)[old(Nameless(path, true))].inode)) && (ok ==> pwd == old(Nameless(path, true)))
    {
      ghost var c0, own, w := cache.View(), Own(), Landing(path, true, fs);
      if OnlyUp(Components(path)) { NamelessInode(path, true, fs); }
      hide Owned, Consistent, Above, Keeps, BackOut, Standing, Nameless, Components, OnlyUp, Referenced, Survives, Landing, Fails, Put;
      OwnedConsistent(c0, own);
      assert (this as object) != cache;
      var find := Lookup(path, true, fs);
      if find == NULL {
        ValidAgain(c0);
        return false;
      }
      StandingFacts(c0, cache.View(), own, cache.droot, find);
      if fs.isDir(cache.tab[find].inode) {
        hide Ref, Rebased;
        Rebase(find);
        ok := true;
      } else {
        GiveUp(find, cache.droot, c0);
        ok := false;
      }
    }
  }
}
