/**
 The scheduler of kernel/sched.c and the semaphores of kernel/semaphore.c: the global lists and the
 task fields they update in place. Every method is one step of the state machine in SchedModel.
 */
module Scheduler {
  import opened Sequences
  import opened SchedModel

  /** The branches at the start of schedule(), before the lists are switched. */
  ghost function Prepared(c: Core, notify: Queue): (d: Core)
    requires c.current in c.info
  {
    var i := c.info[c.current];
    if i.slice == 0 && i.state.Runnable? then Expired(c)
    else if i.state.Zombie? then Woken(Gone(c), notify)
    else c
  }

  class Scheduler {
    const idle: Tid
    var run: seq<Tid>
    var ready: seq<Tid>
    var tasks: seq<Tid>
    var queues: map<Queue, seq<Tid>>
    var info: map<Tid, Info>
    var current: Tid
    ghost var epoch: nat

    ghost function View(): (c: Core)
      reads this
    {
      Core(idle, current, run, ready, tasks, queues, info, epoch)
    }

    ghost predicate Valid()
      reads this
    {
      Placed(View())
    }

    /** init_task: only the idle task, running. */
    constructor (idle: Tid)
      ensures Valid() && View() == Core(idle, idle, [idle], [], [idle], map[], map[idle := Info(Runnable, TIME_SLICE, OnRun)], 0)
    {
      this.idle := idle;
      run, ready, tasks, queues := [idle], [], [idle], map[];
      info := map[idle := Info(Runnable, TIME_SLICE, OnRun)];
      current, epoch := idle, 0;
      new;
      forall t ensures RightlyListed(View(), t) {
      }
    }

    function Waiters(q: Queue): (s: seq<Tid>)
      reads this
    {
      if q in queues then queues[q] else []
    }

    /** Marks the tasks of a list runnable, one after the other. */
    method SetRunnable(l: seq<Tid>)
      requires forall t :: t in l ==> t in info
      modifies this`info
      ensures info == MadeRunnable(old(info), l)
    {
      for k := 0 to |l|
        invariant info == MadeRunnable(old(info), l[..k])
      {
        assert l[..k + 1] == l[..k] + [l[k]];
        assert l[k] in l;
        info := info[l[k] := Info(Runnable, info[l[k]].slice, OnRun)];
      }
      assert l[..|l|] == l;
    }

    /** schedule(); `notify` is the parent's wait_exit queue, which only an exiting task uses. */
    method Schedule(notify: Queue)
      requires current in info && (Prepared(View(), notify).run != [] || Prepared(View(), notify).ready != [])
      requires forall t :: t in Prepared(View(), notify).ready || t in Waiters(notify) ==> t in info
      modifies this`run, this`ready, this`queues, this`info, this`current, this`epoch
      ensures View() == Dispatch(Prepared(old(View()), notify))
    {
      ghost var c := View();
      var me := info[current];
      if me.slice == 0 && me.state == Runnable {
        info := info[current := Info(Runnable, TIME_SLICE, OnReady)];
        run, ready := Without(run, current), [current] + ready;
        assert View() == Expired(c);
      } else if me.state == Zombie {
        run := Without(run, current);
        info := info[current := Info(Zombie, me.slice, OffLists)];
        assert View() == Gone(c);
        WakeUp(notify);
      }
      Switch(Prepared(c, notify));
    }

    /** The end of schedule(): refill an empty run_list and switch to its first task. */
    method Switch(ghost c: Core)
      requires View() == c && (run != [] || ready != []) && forall t :: t in ready ==> t in info
      modifies this`run, this`ready, this`info, this`current, this`epoch
      ensures View() == Dispatch(c)
    {
      if run == [] {
        run, ready := ready, [];
        SetRunnable(run);
        epoch := epoch + 1;
      }
      current := run[0];
    }

    /** wake_up. */
    method WakeUp(q: Queue)
      requires forall t :: t in Waiters(q) ==> t in info
      modifies this`run, this`queues, this`info
      ensures View() == Woken(old(View()), q)
    {
      var w := Waiters(q);
      if w == [] {
        return;
      }
      queues := queues[q := w[1..]];
      run := [w[0]] + run;
      info := info[w[0] := Info(Runnable, info[w[0]].slice, OnRun)];
      assert w[..1] == [w[0]];
    }

    /** wake_up_all. */
    method WakeUpAll(q: Queue)
      requires Valid()
      modifies this`run, this`queues, this`info
      ensures Valid() && View() == Next(old(View()), Event.WakeUpAll(q))
    {
      NextKeepsPlacement(View(), Event.WakeUpAll(q));
      var w := Waiters(q);
      QueuedKnown(View(), q);
      SetRunnable(w);
      run := w + run;
      queues := queues[q := []];
      assert w[..|w|] == w && w[|w|..] == [];
    }

    method WakeOne(q: Queue)
      requires Valid()
      modifies this`run, this`queues, this`info
      ensures Valid() && View() == Next(old(View()), Event.WakeUp(q))
    {
      NextKeepsPlacement(View(), Event.WakeUp(q));
      QueuedKnown(View(), q);
      WakeUp(q);
    }

    /** sched_tick. */
    method SchedTick()
      requires Valid()
      modifies this
      ensures Valid() && View() == Next(old(View()), Tick)
    {
      NextKeepsPlacement(View(), Tick);
      IdleKeepsListsFilled(View());
      var me := info[current];
      if me.slice != 0 {
        info := info[current := me.(slice := me.slice - 1)];
      }
      assert View() == Ticked(old(View()));
      CurrentRunnable(old(View()));
      if info[current].slice == 0 {
        ExpiredKnown(old(View()));
        Schedule(ExitOf(current));
      }
    }

    /** wait: the current task goes to the front of the queue and the next task runs. */
    method Wait(q: Queue)
      requires Valid() && current != idle
      modifies this
      ensures Valid() && View() == Next(old(View()), Event.Wait(q))
    {
      NextKeepsPlacement(View(), Event.Wait(q));
      IdleStays(View());
      AsleepKnown(View(), q);
      run := Without(run, current);
      queues := queues[q := [current] + Waiters(q)];
      info := info[current := Info(Waiting, info[current].slice, OnQueue(q))];
      Schedule(ExitOf(current));
    }

    /** The scheduler's part of kernel_thread. */
    method AddTask(t: Tid)
      requires Valid() && t !in info
      modifies this
      ensures Valid() && View() == Next(old(View()), Spawn(t))
    {
      NextKeepsPlacement(View(), Spawn(t));
      info := info[t := Info(Runnable, TIME_SLICE, OnReady)];
      ready := [t] + ready;
      tasks := [t] + tasks;
    }

    /** The scheduler's part of sys_exit. */
    method ExitTask(notify: Queue)
      requires Valid() && current != idle
      modifies this
      ensures Valid() && View() == Next(old(View()), Exit(notify))
    {
      NextKeepsPlacement(View(), Exit(notify));
      IdleStays(View());
      GoneKnown(View(), notify);
      info := info[current := info[current].(state := Zombie)];
      assert Gone(View()) == Gone(old(View()));
      Schedule(notify);
    }

    /** The scheduler's part of kthread_release. */
    method RemoveTask(t: Tid)
      requires Valid() && t in info && info[t].state.Zombie?
      modifies this
      ensures Valid() && View() == Next(old(View()), Forget(t))
    {
      NextKeepsPlacement(View(), Forget(t));
      tasks := Without(tasks, t);
      info := info - {t};
    }
  }

  // ---------------------------------------------------------------------------------------------
  // Tasks on lists are known tasks
  // ---------------------------------------------------------------------------------------------

  lemma CurrentRunnable(c: Core)
    requires Placed(c)
    ensures c.info[c.current].state.Runnable? && c.info[c.current].slice > 0
  {
    assert RightlyListed(c, c.current);
  }

  lemma QueuedKnown(c: Core, q: Queue)
    requires Placed(c)
    ensures forall t :: t in c.Waiters(q) ==> t in c.info
  {
    forall t ensures t in c.Waiters(q) ==> t in c.info { assert RightlyListed(c, t); }
  }

  lemma ExpiredKnown(c: Core)
    requires Placed(c)
    ensures forall t :: t in c.ready || t in c.Waiters(ExitOf(c.current)) ==> t in c.info
  {
    forall t ensures t in c.ready || t in c.Waiters(ExitOf(c.current)) ==> t in c.info { assert RightlyListed(c, t); }
  }

  lemma AsleepKnown(c: Core, q: Queue)
    requires Placed(c) && c.current != c.idle
    ensures var d := Asleep(c, q); forall t :: t in d.ready || t in d.Waiters(ExitOf(c.current)) ==> t in d.info
  {
    var d := Asleep(c, q);
    AsleepKeeps(c, q);
    forall t ensures t in d.ready || t in d.Waiters(ExitOf(c.current)) ==> t in d.info { assert RightlyListed(d, t); }
  }

  lemma GoneKnown(c: Core, q: Queue)
    requires Placed(c) && c.current != c.idle
    ensures var d := Gone(c); forall t :: t in d.ready || t in c.Waiters(q) ==> t in d.info
    ensures Woken(Gone(c), q).ready == c.ready
  {
    forall t ensures t in c.ready || t in c.Waiters(q) ==> t in c.info { assert RightlyListed(c, t); }
  }
}
