/**
 The process tree of kernel/sched.c and kernel/exit.c on top of the scheduler: parents, child lists,
 pids, and what a task is waiting for when it sleeps on its own `wait_exit` queue.
 */
module ProcModel {
  import opened Sequences
  import opened SchedModel

  const NR_PID_LISTS: nat := 10
  const TASK_INIT_PID: nat := 1

  /** The family fields of a task_struct. */
  datatype Kin = Kin(pid: nat, parent: Option<Tid>, active: seq<Tid>, zombies: seq<Tid>, code: int)

  /** Why a task last went to sleep on its own `wait_exit` queue. */
  datatype Reason = ForChild | ForTask(t: Tid)

  /** `waits` and `init` are bookkeeping of the model; all other fields are the kernel's. */
  datatype Proc = Proc(
    core: Core,
    kin: map<Tid, Kin>,
    pidLists: seq<seq<Tid>>,
    waits: map<Tid, Reason>,
    init: Option<Tid>)

  // ---------------------------------------------------------------------------------------------
  // The steps
  // ---------------------------------------------------------------------------------------------

  /** The list work of kernel_thread for the task `t` with the fresh pid `pid`. */
  function Forked(p: Proc, t: Tid, pid: nat): (r: Proc)
    requires Placed(p.core) && t !in p.core.info && p.core.current in p.kin && |p.pidLists| == NR_PID_LISTS
  {
    var me := p.core.current;
    var mine := p.kin[me];
    p.(core := Next(p.core, Spawn(t)),
       kin := p.kin[me := mine.(active := [t] + mine.active)][t := Kin(pid, Some(me), [], [], 0)],
       pidLists := p.pidLists[pid % NR_PID_LISTS := [t] + p.pidLists[pid % NR_PID_LISTS]],
       init := if p.init.None? then Some(t) else p.init)
  }

  /** sys_exit: the task joins its parent's zombies, and the parent's wait_exit queue is woken. */
  function Exited(p: Proc, code: int): (r: Proc)
    requires Placed(p.core) && p.core.current != p.core.idle && p.core.current in p.kin
    requires p.kin[p.core.current].parent.Some? && p.kin[p.core.current].parent.value in p.kin
  {
    var me := p.core.current;
    var up := p.kin[me].parent.value;
    var marked := p.kin[me := p.kin[me].(code := code)];
    var k := marked[up];
    p.(core := Next(p.core, Exit(ExitOf(up))),
       kin := marked[up := k.(active := Without(k.active, me), zombies := [me] + k.zombies)])
  }

  /** The family lists after kthread_release has unlinked `t` and given its children to `heir`. */
  function Released(kin: map<Tid, Kin>, t: Tid, up: Tid, heir: Option<Tid>): (r: map<Tid, Kin>)
    requires t in kin && up in kin
  {
    var gone := kin[t];
    var unlinked := kin[up := kin[up].(active := Without(kin[up].active, t), zombies := Without(kin[up].zombies, t))] - {t};
    if heir.Some? && heir.value in unlinked then
      var moved := map u | u in unlinked :: if u in gone.active || u in gone.zombies then unlinked[u].(parent := heir) else unlinked[u];
      var h := moved[heir.value];
      moved[heir.value := h.(active := gone.active + h.active, zombies := gone.zombies + h.zombies)]
    else
      unlinked
  }

  predicate HasChildren(k: Kin) {
    k.active != [] || k.zombies != []
  }

  /** kthread_release of the zombie `t`, a child of the current task. */
  function Reaped(p: Proc, t: Tid): (r: Proc)
    requires Placed(p.core) && t in p.core.info && p.core.info[t].state.Zombie?
    requires t in p.kin && p.core.current in p.kin && |p.pidLists| == NR_PID_LISTS
    requires HasChildren(p.kin[t]) ==> p.init.Some? && p.init.value in p.kin && p.init.value != t
  {
    var gone := p.kin[t];
    var heir := if HasChildren(gone) then p.init else None;
    var kin := Released(p.kin, t, p.core.current, heir);
    var k := gone.pid % NR_PID_LISTS;
    ForgetKeeps(p.core, t);
    var core := Next(p.core, Forget(t));
    p.(core := if heir.Some? && heir.value in kin && kin[heir.value].zombies != [] then Next(core, WakeUp(ExitOf(heir.value))) else core,
       kin := kin,
       pidLists := p.pidLists[k := Without(p.pidLists[k], t)])
  }

  /** `r` is what releasing the zombie `t` makes of `p`. */
  ghost predicate ReapsTo(p: Proc, r: Proc, t: Tid) {
    && Placed(p.core) && t in p.core.info && p.core.info[t].state.Zombie?
    && t in p.kin && p.core.current in p.kin && |p.pidLists| == NR_PID_LISTS
    && (HasChildren(p.kin[t]) ==> p.init.Some? && p.init.value in p.kin && p.init.value != t)
    && r == Reaped(p, t)
  }

  /** wait_event found its condition false: the current task sleeps on its own wait_exit queue. */
  function Slept(p: Proc, why: Reason): (r: Proc)
    requires Placed(p.core) && p.core.current != p.core.idle
  {
    p.(core := Next(p.core, Wait(ExitOf(p.core.current))), waits := p.waits[p.core.current := why])
  }

  // ---------------------------------------------------------------------------------------------
  // The family invariant
  // ---------------------------------------------------------------------------------------------

  ghost predicate IsChild(kin: map<Tid, Kin>, t: Tid, q: Tid) {
    t in kin && kin[t].parent == Some(q)
  }

  /** The child lists of `q` hold its children, each once, the zombies apart. */
  ghost predicate ChildrenListed(kin: map<Tid, Kin>, zombies: set<Tid>, q: Tid) {
    q in kin ==>
      && NoDuplicates(kin[q].active) && NoDuplicates(kin[q].zombies)
      && (forall t :: t in kin[q].active <==> IsChild(kin, t, q) && t !in zombies)
      && (forall t :: t in kin[q].zombies <==> IsChild(kin, t, q) && t in zombies)
  }

  /** Every task but idle has a parent, and the parent still exists. */
  ghost predicate HasParent(kin: map<Tid, Kin>, idle: Tid, t: Tid) {
    t in kin ==>
      if t == idle then kin[t].parent == None
      else kin[t].parent.Some? && kin[t].parent.value in kin && kin[t].parent.value != t
  }

  ghost predicate Family(kin: map<Tid, Kin>, zombies: set<Tid>, idle: Tid) {
    (forall q :: ChildrenListed(kin, zombies, q)) && (forall t :: HasParent(kin, idle, t))
  }

  ghost predicate FamilyOk(p: Proc) {
    p.kin.Keys == p.core.info.Keys && Family(p.kin, Zombies(p.core), p.core.idle)
  }

  /** Pids are distinct, and the hash lists hold every task under its pid. */
  ghost predicate PidsOk(p: Proc) {
    && |p.pidLists| == NR_PID_LISTS
    && (forall t, u :: t in p.kin && u in p.kin && p.kin[t].pid == p.kin[u].pid ==> t == u)
    && (forall k :: 0 <= k < NR_PID_LISTS ==> NoDuplicates(p.pidLists[k]))
    && (forall k, t :: 0 <= k < NR_PID_LISTS ==> (t in p.pidLists[k] <==> t in p.kin && p.kin[t].pid % NR_PID_LISTS == k))
  }

  /** idle has pid 0; as soon as there is another task, the task with pid 1 lives. */
  ghost predicate InitOk(p: Proc) {
    && p.core.idle in p.kin && p.kin[p.core.idle].pid == 0
    && (p.init.None? ==> p.kin.Keys == {p.core.idle})
    && (p.init.Some? ==>
      && p.init.value in p.kin && p.kin[p.init.value].pid == TASK_INIT_PID
      && p.init.value !in Zombies(p.core) && p.kin[p.init.value].parent == Some(p.core.idle))
  }

  /**
   No lost child: only a task itself sleeps on its wait_exit queue; one that waits for any child has
   no zombie child, and one that waits for a given child has it as a child that is not a zombie.
   */
  ghost predicate SleeperOk(p: Proc, q: Tid, t: Tid) {
    t in p.core.Waiters(ExitOf(q)) ==>
      && t == q && t in p.waits && t in p.kin
      && match p.waits[t]
         case ForChild => p.kin[t].zombies == []
         case ForTask(x) => IsChild(p.kin, x, t) && x !in Zombies(p.core)
  }

  ghost predicate ProcOk(p: Proc) {
    && Placed(p.core) && FamilyOk(p) && PidsOk(p) && InitOk(p) && |p.pidLists| == NR_PID_LISTS
    && forall q, t :: SleeperOk(p, q, t)
  }

  /** Each task but idle is on exactly one child list, that of its parent; zombies apart. */
  lemma OnOneChildList(p: Proc, t: Tid, q: Tid)
    requires ProcOk(p) && t in p.kin && q in p.kin && t != p.core.idle
    ensures t in p.kin[q].active + p.kin[q].zombies <==> p.kin[t].parent == Some(q)
    ensures !(t in p.kin[q].active && t in p.kin[q].zombies)
    ensures t in p.kin[q].zombies ==> p.core.info[t].state.Zombie?
    ensures t in p.kin[q].active ==> !p.core.info[t].state.Zombie?
    ensures p.kin[t].parent.Some? && p.kin[t].parent.value in p.kin
  {
    assert ChildrenListed(p.kin, Zombies(p.core), q) && HasParent(p.kin, p.core.idle, t);
  }

  // ---------------------------------------------------------------------------------------------
  // Preservation
  // ---------------------------------------------------------------------------------------------

  /** Steps of the scheduler that leave the wait_exit queues alone. */
  predicate Outside(e: Event) {
    match e
    case Wait(q) => q.Other?
    case WakeUp(q) => q.Other?
    case WakeUpAll(q) => q.Other?
    case Tick => true
    case Yield => true
    case _ => false
  }

  /** Ticks, other queues and their sleepers do not disturb the family. */
  lemma OutsideKeeps(p: Proc, e: Event)
    requires ProcOk(p) && Enabled(p.core, e) && Outside(e)
    ensures ProcOk(p.(core := Next(p.core, e)))
  {
    hide Next, Listed, Accounted, Family, Zombies;
    var r := p.(core := Next(p.core, e));
    NextKeepsPlacement(p.core, e);
    StatusStep(p.core, e);
    forall q, t ensures SleeperOk(r, q, t) {
      assert SleeperOk(p, q, t);
      WaitersStep(p.core, e, ExitOf(q));
    }
  }

  lemma SleptKeeps(p: Proc, why: Reason)
    requires ProcOk(p) && p.core.current != p.core.idle && p.core.current in p.kin
    requires match why
      case ForChild => p.kin[p.core.current].zombies == []
      case ForTask(x) => IsChild(p.kin, x, p.core.current) && x !in Zombies(p.core)
    ensures ProcOk(Slept(p, why))
  {
    hide Next, Listed, Accounted, Family, Zombies;
    var e := Wait(ExitOf(p.core.current));
    var r := Slept(p, why);
    NextKeepsPlacement(p.core, e);
    StatusStep(p.core, e);
    forall q, t ensures SleeperOk(r, q, t) {
      assert SleeperOk(p, q, t);
      WaitersStep(p.core, e, ExitOf(q));
    }
  }

  lemma CurrentAwake(c: Core, q: Tid)
    requires Placed(c)
    ensures c.current !in c.Waiters(ExitOf(q))
  {
    assert RightlyListed(c, c.current);
  }

  /** Nobody but the task itself sleeps on its wait_exit queue, so waking one wakes all. */
  lemma OneSleeper(p: Proc, q: Tid)
    requires ProcOk(p)
    ensures p.core.Waiters(ExitOf(q)) == [] || p.core.Waiters(ExitOf(q)) == [q]
  {
    var w := p.core.Waiters(ExitOf(q));
    forall t ensures t in w ==> t == q { assert SleeperOk(p, q, t); }
    SameElements(w, q);
  }

  lemma SameElements(w: seq<Tid>, q: Tid)
    requires NoDuplicates(w) && forall t :: t in w ==> t == q
    ensures w == [] || w == [q]
  {
    if |w| > 0 { assert w[0] in w && w[|w| - 1] in w; }
  }

  // --- kernel_thread ---

  lemma ForkedFamily(kin: map<Tid, Kin>, zombies: set<Tid>, idle: Tid, me: Tid, t: Tid, k: Kin)
    requires Family(kin, zombies, idle) && me in kin && t !in kin && t !in zombies && t != idle
    requires k.parent == Some(me) && k.active == [] && k.zombies == []
    ensures Family(kin[me := kin[me].(active := [t] + kin[me].active)][t := k], zombies, idle)
  {
    var r := kin[me := kin[me].(active := [t] + kin[me].active)][t := k];
    assert ChildrenListed(kin, zombies, me);
    PushMembers(kin[me].active, t);
    forall q ensures ChildrenListed(r, zombies, q) {
      assert ChildrenListed(kin, zombies, q);
      if q == t {
        forall u ensures !IsChild(r, u, t) { assert HasParent(kin, idle, u); }
      }
    }
    forall u ensures HasParent(r, idle, u) { assert HasParent(kin, idle, u); }
  }

  lemma ForkedKeeps(p: Proc, t: Tid, pid: nat)
    requires ProcOk(p) && t !in p.core.info && p.core.current in p.kin
    requires forall u :: u in p.kin ==> p.kin[u].pid != pid
    requires p.init.None? ==> pid == TASK_INIT_PID
    ensures ProcOk(Forked(p, t, pid))
  {
    hide Next, Listed, Accounted, Family, Zombies, PidsOk;
    var r := Forked(p, t, pid);
    var e := Spawn(t);
    NextKeepsPlacement(p.core, e);
    StatusStep(p.core, e);
    ZombiesKnown(p.core);
    ForkedFamily(p.kin, Zombies(p.core), p.core.idle, p.core.current, t, Kin(pid, Some(p.core.current), [], [], 0));
    ForkedPids(p, t, pid);
    forall q, u ensures SleeperOk(r, q, u) {
      assert SleeperOk(p, q, u);
      WaitersStep(p.core, e, ExitOf(q));
      CurrentAwake(p.core, q);
    }
  }

  /** A new thread is the first active child of its creator, has no children, and waits on ready_list. */
  lemma ForkedEffect(p: Proc, t: Tid, pid: nat)
    requires ProcOk(p) && t !in p.core.info && p.core.current in p.kin
    ensures var r, me := Forked(p, t, pid), p.core.current;
            && t in r.kin && r.kin[t] == Kin(pid, Some(me), [], [], 0)
            && me in r.kin && r.kin[me].active == [t] + p.kin[me].active && r.kin[me].zombies == p.kin[me].zombies
            && r.core.ready == [t] + p.core.ready && r.core.current == me && r.core.run == p.core.run
            && t in r.core.info && r.core.info[t].state == Runnable && r.core.info[t].slice == TIME_SLICE
            && forall u :: u in p.kin && u != me && u != t ==> u in r.kin && r.kin[u] == p.kin[u]
  {
    hide Listed, Accounted, Family, Zombies, PidsOk;
    CurrentOther(p, t);
  }

  lemma CurrentOther(p: Proc, t: Tid)
    requires ProcOk(p) && t !in p.core.info
    ensures p.core.current != t
  {
  }

  lemma ZombiesKnown(c: Core)
    ensures Zombies(c) <= c.info.Keys
  {
  }

  lemma ForkedPids(p: Proc, t: Tid, pid: nat)
    requires Placed(p.core) && t !in p.core.info && p.core.current in p.kin && t !in p.kin && PidsOk(p)
    requires forall u :: u in p.kin ==> p.kin[u].pid != pid
    ensures PidsOk(Forked(p, t, pid))
  {
    hide Next, Placed;
    PushMembers(p.pidLists[pid % NR_PID_LISTS], t);
  }

  // --- sys_exit ---

  lemma ExitedFamily(kin: map<Tid, Kin>, zombies: set<Tid>, idle: Tid, me: Tid, up: Tid, code: int)
    requires Family(kin, zombies, idle) && IsChild(kin, me, up) && up in kin && me !in zombies && me != idle
    ensures var marked := kin[me := kin[me].(code := code)];
      var k := marked[up];
      Family(marked[up := k.(active := Without(k.active, me), zombies := [me] + k.zombies)], zombies + {me}, idle)
  {
    var marked := kin[me := kin[me].(code := code)];
    var k := marked[up];
    var r := marked[up := k.(active := Without(k.active, me), zombies := [me] + k.zombies)];
    assert HasParent(kin, idle, me) && ChildrenListed(kin, zombies, up);
    WithoutMembers(k.active, me);
    PushMembers(k.zombies, me);
    forall q ensures ChildrenListed(r, zombies + {me}, q) { assert ChildrenListed(kin, zombies, q); }
    forall u ensures HasParent(r, idle, u) { assert HasParent(kin, idle, u); }
  }

  /** The parent of a task, as the steps need it. */
  lemma ParentKnown(p: Proc, t: Tid)
    requires ProcOk(p) && t != p.core.idle && t in p.kin
    ensures p.kin[t].parent.Some? && p.kin[t].parent.value in p.kin && p.kin[t].parent.value != t
  {
    assert HasParent(p.kin, p.core.idle, t);
  }

  lemma ExitedKeeps(p: Proc, code: int)
    requires ProcOk(p) && p.core.current != p.core.idle && p.init != Some(p.core.current) && p.core.current in p.kin
    requires p.kin[p.core.current].parent.Some? && p.kin[p.core.current].parent.value in p.kin
    ensures ProcOk(Exited(p, code))
  {
    hide Next, Listed, Accounted, Family, Zombies, PidsOk;
    var me := p.core.current;
    ParentKnown(p, me);
    var r, up := Exited(p, code), p.kin[me].parent.value;
    var e := Exit(ExitOf(up));
    NextKeepsPlacement(p.core, e);
    StatusStep(p.core, e);
    ExitedFamily(p.kin, Zombies(p.core), p.core.idle, me, up, code);
    SamePids(p, r);
    forall q, u ensures SleeperOk(r, q, u) {
      assert SleeperOk(p, q, u);
      WaitersStep(p.core, e, ExitOf(q));
      OneSleeper(p, q);
      CurrentAwake(p.core, q);
    }
  }

  /**
   After an exit the task is the first zombie of its parent and no longer among the active children, its
   code is stored, and nobody is left asleep on the parent's wait_exit queue.
   */
  lemma ExitedEffect(p: Proc, code: int)
    requires ProcOk(p) && p.core.current != p.core.idle && p.init != Some(p.core.current) && p.core.current in p.kin
    requires p.kin[p.core.current].parent.Some? && p.kin[p.core.current].parent.value in p.kin
    ensures var r, me := Exited(p, code), p.core.current;
            var up := p.kin[me].parent.value;
            && me in r.kin && r.kin[me].code == code && r.kin[me].parent == Some(up) && me in Zombies(r.core)
            && up in r.kin && r.kin[up].zombies == [me] + p.kin[up].zombies && me !in r.kin[up].active
            && Placed(r.core) && r.core.Waiters(ExitOf(up)) == []
  {
    hide Next, Listed, Accounted, Zombies, PidsOk;
    var me := p.core.current;
    ParentKnown(p, me);
    var up := p.kin[me].parent.value;
    ExitedKeeps(p, code);
    StatusStep(p.core, Exit(ExitOf(up)));
    WaitersStep(p.core, Exit(ExitOf(up)), ExitOf(up));
    OneSleeper(p, up);
    CurrentAwake(p.core, up);
    assert ChildrenListed(p.kin, Zombies(p.core), up);
    WithoutMembers(p.kin[up].active, me);
  }

  lemma SamePids(p: Proc, r: Proc)
    requires PidsOk(p) && r.pidLists == p.pidLists && r.kin.Keys == p.kin.Keys
    requires forall u :: u in p.kin ==> r.kin[u].pid == p.kin[u].pid
    ensures PidsOk(r)
  {
    assert forall u :: u in p.kin <==> u in r.kin;
  }

  // --- kthread_release ---

  /** Unlinking a childless zombie from its parent's list. */
  lemma UnlinkedLists(kin: map<Tid, Kin>, zombies: set<Tid>, idle: Tid, t: Tid, up: Tid, q: Tid)
    requires Family(kin, zombies, idle) && t in zombies && IsChild(kin, t, up) && up in kin && up != t && q in kin && q != t
    ensures var u := Released(kin, t, up, None);
      && q in u && u[q].parent == kin[q].parent && NoDuplicates(u[q].active) && NoDuplicates(u[q].zombies)
      && (forall x :: x in u[q].active <==> IsChild(kin, x, q) && x !in zombies)
      && (forall x :: x in u[q].zombies <==> IsChild(kin, x, q) && x in zombies && x != t)
  {
    assert ChildrenListed(kin, zombies, q) && ChildrenListed(kin, zombies, up);
    WithoutMembers(kin[up].active, t);
    WithoutMembers(kin[up].zombies, t);
  }

  /** The lists of the heir after list_splice has put the orphans in front. */
  lemma HeirLists(kin: map<Tid, Kin>, zombies: set<Tid>, idle: Tid, t: Tid, up: Tid, heir: Tid)
    requires Family(kin, zombies, idle) && t in zombies && IsChild(kin, t, up) && up in kin && up != t && heir in kin && heir != t && t in kin
    ensures var h, gone := Released(kin, t, up, None)[heir], kin[t];
      && NoDuplicates(gone.active + h.active) && NoDuplicates(gone.zombies + h.zombies)
      && (forall x :: x in gone.active + h.active <==> (IsChild(kin, x, heir) || IsChild(kin, x, t)) && x !in zombies)
      && (forall x :: x in gone.zombies + h.zombies <==> (IsChild(kin, x, heir) || IsChild(kin, x, t)) && x in zombies && x != t)
  {
    UnlinkedLists(kin, zombies, idle, t, up, heir);
    var h, gone := Released(kin, t, up, None)[heir], kin[t];
    hide Released;
    assert ChildrenListed(kin, zombies, t) && HasParent(kin, idle, t);
    AppendMembers(gone.active, h.active);
    AppendMembers(gone.zombies, h.zombies);
  }

  /** The family of one task after kthread_release. */
  lemma ReleasedAt(kin: map<Tid, Kin>, t: Tid, up: Tid, heir: Option<Tid>, x: Tid)
    requires t in kin && up in kin && up != t
    requires heir.Some? ==> heir.value in kin && heir.value != t
    ensures var r, u, gone := Released(kin, t, up, heir), Released(kin, t, up, None), kin[t];
      && (x in r <==> x in kin && x != t) && (x in u <==> x in kin && x != t)
      && (x in r ==>
        && r[x].pid == kin[x].pid
        && r[x].parent == (if heir.Some? && (x in gone.active || x in gone.zombies) then heir else kin[x].parent)
        && r[x].active == (if heir == Some(x) then gone.active + u[x].active else u[x].active)
        && r[x].zombies == (if heir == Some(x) then gone.zombies + u[x].zombies else u[x].zombies)
        && (x != up ==> u[x].zombies == kin[x].zombies))
  {
  }

  ghost predicate CanRelease(kin: map<Tid, Kin>, zombies: set<Tid>, idle: Tid, t: Tid, up: Tid, heir: Option<Tid>) {
    && Family(kin, zombies, idle) && t in kin && t in zombies && IsChild(kin, t, up) && up in kin && up != t && t != idle
    && if HasChildren(kin[t]) then heir.Some? && heir.value in kin && heir.value != t && !IsChild(kin, heir.value, t) else heir.None?
  }

  /** The children of `t` pass to the heir; everybody else keeps the parent. */
  lemma ReleasedParent(kin: map<Tid, Kin>, zombies: set<Tid>, idle: Tid, t: Tid, up: Tid, heir: Option<Tid>, x: Tid)
    requires CanRelease(kin, zombies, idle, t, up, heir)
    ensures var r := Released(kin, t, up, heir);
      && (x in r <==> x in kin && x != t)
      && (x in r && kin[x].parent != Some(t) ==> r[x].parent == kin[x].parent)
      && (x in r && kin[x].parent == Some(t) ==> r[x].parent == heir && heir.Some?)
      && HasParent(r, idle, x)
  {
    ReleasedAt(kin, t, up, heir, x);
    hide Released;
    assert HasParent(kin, idle, x) && ChildrenListed(kin, zombies, t);
    assert x in kin[t].active || x in kin[t].zombies <==> IsChild(kin, x, t);
  }

  lemma ReleasedChildren(kin: map<Tid, Kin>, zombies: set<Tid>, idle: Tid, t: Tid, up: Tid, heir: Option<Tid>, q: Tid)
    requires CanRelease(kin, zombies, idle, t, up, heir)
    ensures ChildrenListed(Released(kin, t, up, heir), zombies - {t}, q)
  {
    var r := Released(kin, t, up, heir);
    ReleasedAt(kin, t, up, heir, q);
    if q in r {
      UnlinkedLists(kin, zombies, idle, t, up, q);
      if heir == Some(q) { HeirLists(kin, zombies, idle, t, up, q); }
      forall x
        ensures IsChild(r, x, q) <==> x != t && (IsChild(kin, x, q) || (heir == Some(q) && IsChild(kin, x, t)))
      {
        ReleasedParent(kin, zombies, idle, t, up, heir, x);
      }
      assert !IsChild(kin, t, t) by { assert HasParent(kin, idle, t); }
      hide Released, CanRelease;
    }
  }

  lemma ReleasedFamily(kin: map<Tid, Kin>, zombies: set<Tid>, idle: Tid, t: Tid, up: Tid, heir: Option<Tid>)
    requires CanRelease(kin, zombies, idle, t, up, heir)
    ensures var r := Released(kin, t, up, heir);
      && r.Keys == kin.Keys - {t} && Family(r, zombies - {t}, idle)
      && (forall u :: u in r ==> r[u].pid == kin[u].pid)
      && (forall u :: u in r && kin[u].parent != Some(t) ==> r[u].parent == kin[u].parent)
      && (forall u :: u in r && u != up && heir != Some(u) ==> r[u].zombies == kin[u].zombies)
  {
    var r := Released(kin, t, up, heir);
    hide Released, ChildrenListed, HasParent;
    forall x: Tid
      ensures x in r <==> x in kin && x != t
      ensures x in r ==> r[x].pid == kin[x].pid
      ensures x in r && kin[x].parent != Some(t) ==> r[x].parent == kin[x].parent
      ensures x in r && x != up && heir != Some(x) ==> r[x].zombies == kin[x].zombies
      ensures ChildrenListed(r, zombies - {t}, x) && HasParent(r, idle, x)
    {
      ReleasedAt(kin, t, up, heir, x);
      ReleasedParent(kin, zombies, idle, t, up, heir, x);
      ReleasedChildren(kin, zombies, idle, t, up, heir, x);
    }
  }

  /** What wait_pid and wait_chld know about the zombie they release. */
  lemma ReapReady(p: Proc, t: Tid)
    requires ProcOk(p) && p.core.current in p.kin && t in p.kin[p.core.current].zombies
    ensures t in p.kin && t in p.core.info && p.core.info[t].state.Zombie? && IsChild(p.kin, t, p.core.current)
    ensures t != p.core.idle && t != p.core.current && p.init.Some? && p.init.value in p.kin && p.init.value != t
    ensures !IsChild(p.kin, p.init.value, t) && t in Zombies(p.core)
  {
    StatusStep(p.core, Yield);
    assert ChildrenListed(p.kin, Zombies(p.core), p.core.current);
    assert HasParent(p.kin, p.core.idle, t);
  }

  lemma ReapedKeeps(p: Proc, t: Tid)
    requires ProcOk(p) && p.core.current in p.kin && t in p.kin[p.core.current].zombies
    requires t in p.kin && t in p.core.info && p.core.info[t].state.Zombie?
    requires HasChildren(p.kin[t]) ==> p.init.Some? && p.init.value in p.kin && p.init.value != t
    ensures ProcOk(Reaped(p, t)) && t !in Reaped(p, t).kin
  {
    hide Listed, Accounted, Family, Next, Released, PidsOk;
    ReapReady(p, t);
    var heir := if HasChildren(p.kin[t]) then p.init else None;
    var r := Reaped(p, t);
    ReapedCore(p, t);
    ReleasedFamily(p.kin, Zombies(p.core), p.core.idle, t, p.core.current, heir);
    PidsWithout(p, r, t);
    forall q, u ensures SleeperOk(r, q, u) { ReapedSleeper(p, t, q, u); }
  }

  /** Forgetting the zombie and perhaps waking the heir. */
  lemma ReapedCore(p: Proc, t: Tid)
    requires ProcOk(p) && p.core.current in p.kin && t in p.core.info && p.core.info[t].state.Zombie? && t in p.kin
    requires HasChildren(p.kin[t]) ==> p.init.Some? && p.init.value in p.kin && p.init.value != t
    ensures var r := Reaped(p, t);
      && Placed(r.core) && r.core.info.Keys == p.core.info.Keys - {t} && Zombies(r.core) == Zombies(p.core) - {t}
      && r.core.idle == p.core.idle
  {
    hide Listed, Accounted, Family, Next, Released, PidsOk, Zombies;
    NextKeepsPlacement(p.core, Forget(t));
    StatusStep(p.core, Forget(t));
    var c := Next(p.core, Forget(t));
    if p.init.Some? {
      NextKeepsPlacement(c, WakeUp(ExitOf(p.init.value)));
      StatusStep(c, WakeUp(ExitOf(p.init.value)));
    }
  }

  lemma PidsWithout(p: Proc, r: Proc, t: Tid)
    requires PidsOk(p) && t in p.kin && r.kin.Keys == p.kin.Keys - {t}
    requires forall u :: u in r.kin ==> r.kin[u].pid == p.kin[u].pid
    requires var k := p.kin[t].pid % NR_PID_LISTS; r.pidLists == p.pidLists[k := Without(p.pidLists[k], t)]
    ensures PidsOk(r)
  {
    assert forall u :: u in r.kin <==> u in p.kin && u != t;
    WithoutMembers(p.pidLists[p.kin[t].pid % NR_PID_LISTS], t);
  }

  /** A woken heir does not sleep any more; no other wait_exit queue changes. */
  lemma ReapedWaiters(p: Proc, t: Tid, q: Tid)
    requires ProcOk(p) && t in p.kin && p.core.current in p.kin && t in p.core.info && p.core.info[t].state.Zombie?
    requires HasChildren(p.kin[t]) ==> p.init.Some? && p.init.value in p.kin && p.init.value != t
    ensures var r, w := Reaped(p, t), p.core.Waiters(ExitOf(q));
      && (r.core.Waiters(ExitOf(q)) == w || r.core.Waiters(ExitOf(q)) == [])
      && (HasChildren(p.kin[t]) && p.init == Some(q) && q in r.kin && r.kin[q].zombies != [] ==> r.core.Waiters(ExitOf(q)) == [])
  {
    hide Listed, Accounted, Family, Next, Released, PidsOk, Zombies;
    var c := Next(p.core, Forget(t));
    NextKeepsPlacement(p.core, Forget(t));
    WaitersStep(p.core, Forget(t), ExitOf(q));
    OneSleeper(p, q);
    if p.init.Some? { WaitersStep(c, WakeUp(ExitOf(p.init.value)), ExitOf(q)); }
  }

  lemma ReapedSleeper(p: Proc, t: Tid, q: Tid, u: Tid)
    requires ProcOk(p) && p.core.current in p.kin && t in p.kin[p.core.current].zombies
    requires t in p.kin && t in p.core.info && p.core.info[t].state.Zombie?
    requires HasChildren(p.kin[t]) ==> p.init.Some? && p.init.value in p.kin && p.init.value != t
    ensures SleeperOk(Reaped(p, t), q, u)
  {
    hide Listed, Accounted, Family, Next, Released, PidsOk, Zombies, InitOk;
    ReapReady(p, t);
    ReapedCore(p, t);
    ReleasedFamily(p.kin, Zombies(p.core), p.core.idle, t, p.core.current, if HasChildren(p.kin[t]) then p.init else None);
    ReapedWaiters(p, t, q);
    assert SleeperOk(p, q, u);
    CurrentAwake(p.core, q);
    ZombieAwake(p.core, t, q);
  }

  lemma ZombieAwake(c: Core, t: Tid, q: Tid)
    requires Placed(c) && t in c.info && c.info[t].state.Zombie?
    ensures t !in c.Waiters(ExitOf(q))
  {
    assert RightlyListed(c, t);
  }

  /** Of a release, every other task sees at most a new parent: orphans go to init, and nobody else moves. */
  lemma ReapedEffect(p: Proc, r: Proc, t: Tid, u: Tid)
    requires ProcOk(p) && t in p.kin && p.core.current in p.kin && t in p.kin[p.core.current].zombies && ReapsTo(p, r, t)
    ensures u in r.kin <==> u in p.kin && u != t
    ensures u in r.kin ==> r.kin[u].pid == p.kin[u].pid
    ensures u in r.kin ==> r.kin[u].parent == if p.kin[u].parent == Some(t) then p.init else p.kin[u].parent
  {
    hide Next, Listed, Accounted, PidsOk, SleeperOk;
    ReapReady(p, t);
    var heir := if HasChildren(p.kin[t]) then p.init else None;
    assert r.kin == Released(p.kin, t, p.core.current, heir);
    ReleasedAt(p.kin, t, p.core.current, heir, u);
    ReleasedParent(p.kin, Zombies(p.core), p.core.idle, t, p.core.current, heir, u);
  }

  /** The children of a released task come first on init's lists, and it is gone from its parent's; other lists stay. */
  lemma ReapedLists(p: Proc, r: Proc, t: Tid, u: Tid)
    requires ProcOk(p) && t in p.kin && p.core.current in p.kin && t in p.kin[p.core.current].zombies && ReapsTo(p, r, t)
    requires u in p.kin && u != t
    ensures var gone, heir := p.kin[t], HasChildren(p.kin[t]) && p.init == Some(u);
            && u in r.kin
            && r.kin[u].active == (if heir then gone.active else []) + p.kin[u].active
            && r.kin[u].zombies == (if heir then gone.zombies else []) + Without(p.kin[u].zombies, t)
  {
    hide *;
    ReapReady(p, t);
    var me, gone := p.core.current, p.kin[t];
    var heir := if HasChildren(gone) then p.init else None;
    ReapedKin(p, r, t);
    NotListed(p, t, u);
    ReleasedAt(p.kin, t, me, heir, u);
    UnlinkedAt(p.kin, t, me, u);
    assert [] + p.kin[u].active == p.kin[u].active && [] + Without(p.kin[u].zombies, t) == Without(p.kin[u].zombies, t);
  }

  lemma ReapedKin(p: Proc, r: Proc, t: Tid)
    requires ReapsTo(p, r, t)
    ensures r.kin == Released(p.kin, t, p.core.current, if HasChildren(p.kin[t]) then p.init else None)
  {
  }

  lemma NotListed(p: Proc, t: Tid, u: Tid)
    requires ProcOk(p) && t in p.kin && p.core.current in p.kin && t in p.kin[p.core.current].zombies && u in p.kin
    ensures t !in p.kin[u].active && (u != p.core.current ==> t !in p.kin[u].zombies)
  {
    hide Next, Listed, Accounted, PidsOk, SleeperOk, Zombies;
    assert ChildrenListed(p.kin, Zombies(p.core), u) && ChildrenListed(p.kin, Zombies(p.core), p.core.current);
  }

  lemma UnlinkedAt(kin: map<Tid, Kin>, t: Tid, up: Tid, x: Tid)
    requires t in kin && up in kin && x in kin && x != t && up != t && t !in kin[x].active && (x != up ==> t !in kin[x].zombies)
    ensures var r := Released(kin, t, up, None);
            x in r && r[x].active == kin[x].active && r[x].zombies == Without(kin[x].zombies, t)
  {
  }
}
