/**
 Process creation, exit and reaping: kernel_thread, sys_exit, sys_wait_pid and sys_wait_chld, with
 the pid search and the pid hash. Every method is one step; a wait that finds its condition false
 puts the task to sleep, and the task repeats the step when it runs again.
 */
module Process {
  import opened Sequences
  import opened SchedModel
  import opened Scheduler
  import opened ProcModel
  import opened Words

  datatype WaitResult = Reaped(pid: nat, code: int) | Asleep | NoSuchChild

  class Processes {
    const sched: Scheduler
    var kin: map<Tid, Kin>
    var pidLists: seq<seq<Tid>>
    var pidStart: nat
    ghost var waits: map<Tid, Reason>
    ghost var init: Option<Tid>

    ghost function View(): (p: Proc)
      reads this, sched
    {
      Proc(sched.View(), kin, pidLists, waits, init)
    }

    ghost predicate Valid()
      reads this, sched
    {
      && ProcOk(View()) && pidStart < U32
      && (forall t :: t in kin ==> kin[t].pid < U32)
      && (init.None? ==> pidStart == TASK_INIT_PID)
    }

    /** sched_init: the idle task takes pid 0. */
    constructor (idle: Tid)
      ensures Valid() && fresh(sched) && kin == map[idle := Kin(0, None, [], [], 0)] && init == None
    {
      sched := new Scheduler(idle);
      kin := map[idle := Kin(0, None, [], [], 0)];
      pidLists := seq(NR_PID_LISTS, k => if k == 0 then [idle] else []);
      pidStart := 1;
      waits, init := map[], None;
      new;
      assert Zombies(sched.View()) == {};
      forall q, t ensures SleeperOk(View(), q, t) {
      }
    }

    /** A clock tick between two steps of the process tree. */
    method ClockTick()
      requires Valid()
      modifies sched
      ensures Valid() && View() == old(View()).(core := Next(old(View()).core, Tick))
    {
      hide Listed, Accounted, Family, PidsOk, InitOk, SleeperOk, Next;
      OutsideKeeps(View(), Tick);
      sched.SchedTick();
    }

    /** get_task_by_pid agrees with a search of all tasks. */
    method GetTaskByPid(pid: nat) returns (r: Option<Tid>)
      requires Valid()
      ensures r.None? <==> forall t :: t in kin ==> kin[t].pid != pid
      ensures r.Some? ==> r.value in kin && kin[r.value].pid == pid
    {
      var k := pid % NR_PID_LISTS;
      var list := pidLists[k];
      for i := 0 to |list|
        invariant forall j :: 0 <= j < i ==> list[j] in kin && kin[list[j]].pid != pid
      {
        assert list[i] in pidLists[k];
        if kin[list[i]].pid == pid {
          return Some(list[i]);
        }
      }
      forall t | t in kin ensures kin[t].pid != pid {
        assert kin[t].pid % NR_PID_LISTS == k ==> t in list;
      }
      return None;
    }

    /** Is the pid in use? One walk over task_list. */
    method PidInUse(pid: nat) returns (used: bool)
      requires ProcOk(View())
      ensures used <==> UsedPid(kin, pid)
    {
      var list := sched.tasks;
      for i := 0 to |list|
        invariant forall j :: 0 <= j < i ==> list[j] in kin && kin[list[j]].pid != pid
      {
        assert list[i] in list;
        if kin[list[i]].pid == pid {
          return true;
        }
      }
      forall t | t in kin ensures kin[t].pid != pid {
        assert t in list;
      }
      return false;
    }

    /** find_usable_pid: the first unused pid from pid_start on, with 32-bit wrap-around. */
    method FindUsablePid() returns (pid: nat)
      requires Valid() && |kin| < U32
      modifies this`pidStart
      ensures pid < U32 && pidStart == (pid + 1) % U32
      ensures !UsedPid(kin, pid)
      ensures exists k: nat :: FirstFree(kin, old(pidStart), k) && pid == (old(pidStart) + k) % U32
      ensures init.None? ==> pid == TASK_INIT_PID
    {
      hide ProcOk, UsedPid;
      StartKnown(View());
      ghost var k: nat := 0;
      var used := PidInUse(pidStart);
      while used
        invariant pidStart == (old(pidStart) + k) % U32 && k <= |kin|
        invariant pidStart < U32 && (init.None? ==> k == 0)
        invariant forall i: nat :: i < k ==> UsedFrom(kin, old(pidStart), i)
        invariant used <==> UsedPid(kin, pidStart)
        decreases |kin| - k
      {
        k := k + 1;
        WrapStep(old(pidStart), k - 1);
        Pigeonhole(kin, old(pidStart), k);
        pidStart := (pidStart + 1) % U32;
        used := PidInUse(pidStart);
      }
      pid := pidStart;
      assert FirstFree(kin, old(pidStart), k);
      pidStart := (pidStart + 1) % U32;
    }

    /**
     kernel_thread: `task` is the page for the task_struct, `pageDir` whether a page directory could
     be had. The parent is the current task. A failure after the pid was chosen uses that pid up; if it
     was pid 1, init will have another one.
     */
    method KernelThread(task: Option<Tid>, pageDir: bool) returns (r: Option<nat>)
      requires Valid() && |kin| < U32 && (task.Some? ==> task.value !in kin)
      modifies this, sched
      ensures ProcOk(View())
      ensures Valid() <==> !(old(init).None? && task.Some? && !pageDir)
      ensures !Valid() ==> init.None? && pidStart == TASK_INIT_PID + 1
      ensures r.Some? <==> task.Some? && pageDir
      ensures r.None? ==> kin == old(kin) && sched.View() == old(sched.View())
      ensures r.Some? ==> View() == Forked(old(View()), task.value, r.value)
      ensures r.Some? ==> forall t :: t in old(kin) ==> old(kin)[t].pid != r.value
    {
      hide ProcOk, Forked;
      if task.None? {
        return None;
      }
      StartKnown(View());
      var t := task.value;
      var pid := FindUsablePid();
      if !pageDir {
        return None;
      }
      assert View().kin == old(kin);
      assert forall u :: u in kin && kin[u].pid == pid ==> UsedPid(kin, pid);
      r := AddChild(t, pid);
    }

    method AddChild(t: Tid, pid: nat) returns (r: Option<nat>)
      requires ProcOk(View()) && t !in kin && pid < U32 && pidStart == (pid + 1) % U32
      requires (forall u :: u in kin ==> kin[u].pid != pid && kin[u].pid < U32) && (init.None? ==> pid == TASK_INIT_PID)
      modifies this, sched
      ensures Valid() && r == Some(pid) && View() == Forked(old(View()), t, pid)
    {
      hide Listed, Accounted, Family, PidsOk, InitOk, SleeperOk, Next;
      CurrentInKin(View());
      ForkedKeeps(View(), t, pid);
      var me := sched.current;
      var k := pid % NR_PID_LISTS;
      sched.AddTask(t);
      kin := kin[me := kin[me].(active := [t] + kin[me].active)][t := Kin(pid, Some(me), [], [], 0)];
      pidLists := pidLists[k := [t] + pidLists[k]];
      init := if init.None? then Some(t) else init;
      return Some(pid);
    }

    /** sys_exit by a task that is neither idle nor init. */
    method SysExit(code: int)
      requires Valid() && sched.current != sched.idle && init != Some(sched.current)
      requires sched.current in kin && kin[sched.current].parent.Some? && kin[sched.current].parent.value in kin
      modifies this, sched
      ensures Valid() && View() == Exited(old(View()), code)
    {
      hide Listed, Accounted, Family, PidsOk, InitOk, SleeperOk, Next;
      ExitedKeeps(View(), code);
      var me := sched.current;
      kin := kin[me := kin[me].(code := code)];
      var up := kin[me].parent.value;
      sched.ExitTask(ExitOf(up));
      kin := kin[up := kin[up].(active := Without(kin[up].active, me), zombies := [me] + kin[up].zombies)];
    }

    /** kthread_release of a zombie child of the current task. */
    method KthreadRelease(t: Tid)
      requires Valid() && sched.current in kin && t in kin[sched.current].zombies
      modifies this, sched
      ensures Valid() && t in old(kin) && t !in kin && ReapsTo(old(View()), View(), t)
    {
      hide Listed, Accounted, Family, PidsOk, InitOk, SleeperOk, Next, Released;
      ReapReady(View(), t);
      ReapedKeeps(View(), t);
      ReapedKeys(View(), t);
      var gone := kin[t];
      var heir: Option<Tid> := None;
      if HasChildren(gone) {
        var found := GetTaskByPid(TASK_INIT_PID);
        TheInit(View(), found);
        heir := found;
      }
      var k := gone.pid % NR_PID_LISTS;
      pidLists := pidLists[k := Without(pidLists[k], t)];
      kin := Released(kin, t, sched.current, heir);
      sched.RemoveTask(t);
      if heir.Some? && heir.value in kin && kin[heir.value].zombies != [] {
        sched.WakeOne(ExitOf(heir.value));
      }
    }

    /** One round of sys_wait_chld: reap the first zombie child, or sleep until there is one. */
    method SysWaitChld() returns (r: WaitResult)
      requires Valid() && sched.current != sched.idle && sched.current in kin
      modifies this, sched
      ensures Valid()
      ensures r.Asleep? <==> old(kin)[old(sched.current)].zombies == []
      ensures r.Asleep? ==> View() == Slept(old(View()), ForChild)
      ensures !r.NoSuchChild?
      ensures r.Reaped? ==> var t := old(kin)[old(sched.current)].zombies[0];
        && t in old(kin) && r == WaitResult.Reaped(old(kin)[t].pid, old(kin)[t].code) && t !in kin && ReapsTo(old(View()), View(), t)
    {
      hide Listed, Accounted, Family, PidsOk, InitOk, SleeperOk, Next;
      var z := kin[sched.current].zombies;
      if z == [] {
        SleptKeeps(View(), ForChild);
        waits := waits[sched.current := ForChild];
        sched.Wait(ExitOf(sched.current));
        return Asleep;
      }
      assert z[0] in z;
      ReapReady(View(), z[0]);
      var pid, code := kin[z[0]].pid, kin[z[0]].code;
      KthreadRelease(z[0]);
      return WaitResult.Reaped(pid, code);
    }

    /** One round of sys_wait_pid, with the pid looked up again: it still names the same child. */
    method SysWaitPid(pid: nat) returns (r: WaitResult)
      requires Valid() && sched.current != sched.idle && sched.current in kin
      modifies this, sched
      ensures Valid()
      ensures r.NoSuchChild? <==> forall t :: t in old(kin) && old(kin)[t].pid == pid ==> old(kin)[t].parent != Some(old(sched.current))
      ensures r.NoSuchChild? ==> View() == old(View())
      ensures r.Asleep? ==> exists t :: Awaited(old(View()), t, pid) && t !in old(Zombies(sched.View()))
                                        && View() == Slept(old(View()), ForTask(t))
      ensures r.Reaped? ==> exists t :: Awaited(old(View()), t, pid) && t in old(Zombies(sched.View()))
                                        && r == WaitResult.Reaped(pid, old(kin)[t].code) && t !in kin && ReapsTo(old(View()), View(), t)
    {
      hide Listed, Accounted, PidsOk, InitOk, SleeperOk, Next;
      var found := GetTaskByPid(pid);
      if found.None? || kin[found.value].parent != Some(sched.current) {
        if found.Some? { SamePid(View(), found.value); }
        return NoSuchChild;
      }
      var t := found.value;
      KnownToBoth(View(), t);
      if sched.info[t].state != Zombie {
        SleptKeeps(View(), ForTask(t));
        waits := waits[sched.current := ForTask(t)];
        sched.Wait(ExitOf(sched.current));
        return Asleep;
      }
      assert ChildrenListed(kin, Zombies(sched.View()), sched.current);
      var code := kin[t].code;
      KthreadRelease(t);
      return WaitResult.Reaped(pid, code);
    }
  }

  /** `t` is the child of the current task with this pid. */
  ghost predicate Awaited(p: Proc, t: Tid, pid: nat) {
    IsChild(p.kin, t, p.core.current) && p.kin[t].pid == pid
  }

  ghost predicate UsedPid(kin: map<Tid, Kin>, pid: nat) {
    exists t :: t in kin && kin[t].pid == pid
  }

  ghost predicate UsedFrom(kin: map<Tid, Kin>, start: nat, i: nat) {
    UsedPid(kin, (start + i) % U32)
  }

  /** All of the `k` pids from `start` on are used. */
  ghost predicate FirstFree(kin: map<Tid, Kin>, start: nat, k: nat) {
    forall i: nat :: i < k ==> UsedFrom(kin, start, i)
  }

  /** `k` consecutive used pids need `k` tasks. */
  lemma {:induction false} Pigeonhole(kin: map<Tid, Kin>, start: nat, k: nat)
    requires k <= U32 && start < U32
    requires forall i: nat :: i < k ==> UsedFrom(kin, start, i)
    ensures k <= |kin|
    decreases k
  {
    if k > 0 {
      var last := (start + (k - 1)) % U32;
      assert UsedFrom(kin, start, k - 1);
      var t :| t in kin && kin[t].pid == last;
      var rest := kin - {t};
      assert rest.Keys == kin.Keys - {t};
      assert |rest| == |kin| - 1;
      forall i: nat | i < k - 1 ensures UsedFrom(rest, start, i) {
        assert UsedFrom(kin, start, i);
        var u :| u in kin && kin[u].pid == (start + i) % U32;
        assert u in rest;
      }
      Pigeonhole(rest, start, k - 1);
    }
  }

  lemma WrapStep(start: nat, k: nat)
    ensures (start + k + 1) % U32 == ((start + k) % U32 + 1) % U32
  {
  }

  lemma StartKnown(p: Proc)
    requires ProcOk(p)
    ensures p.init.None? ==> !UsedPid(p.kin, TASK_INIT_PID)
  {
  }

  lemma CurrentInKin(p: Proc)
    requires ProcOk(p)
    ensures p.core.current in p.kin && (forall t :: t in p.kin <==> t in p.core.info)
  {
  }

  /** get_task_by_pid(1) is the init task. */
  lemma TheInit(p: Proc, found: Option<Tid>)
    requires ProcOk(p) && p.init.Some?
    requires found.None? ==> forall t :: t in p.kin ==> p.kin[t].pid != TASK_INIT_PID
    requires found.Some? ==> found.value in p.kin && p.kin[found.value].pid == TASK_INIT_PID
    ensures found == p.init
  {
  }

  lemma SamePid(p: Proc, t: Tid)
    requires ProcOk(p) && t in p.kin
    ensures forall u :: u in p.kin && p.kin[u].pid == p.kin[t].pid ==> u == t
  {
  }

  lemma KnownToBoth(p: Proc, t: Tid)
    requires ProcOk(p) && t in p.kin
    ensures t in p.core.info && (t in Zombies(p.core) <==> p.core.info[t].state.Zombie?)
  {
  }

  lemma ReapedKeys(p: Proc, t: Tid)
    requires ProcOk(p) && p.core.current in p.kin && t in p.kin[p.core.current].zombies
    requires t in p.kin && t in p.core.info && p.core.info[t].state.Zombie?
    requires HasChildren(p.kin[t]) ==> p.init.Some? && p.init.value in p.kin && p.init.value != t
    ensures var r := ProcModel.Reaped(p, t).kin; r.Keys == p.kin.Keys - {t} && forall u :: u in r ==> r[u].pid == p.kin[u].pid
  {
    hide Listed, Accounted, Next, Released, PidsOk;
    ReapReady(p, t);
    ReleasedFamily(p.kin, Zombies(p.core), p.core.idle, t, p.core.current, if HasChildren(p.kin[t]) then p.init else None);
  }
}
