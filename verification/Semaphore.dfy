/** The counting semaphore of kernel/semaphore.c, used as a lock, on top of the wait queues. */
module Semaphore {
  import opened Sequences
  import opened SchedModel
  import opened Scheduler

  /**
   Mutual exclusion: the count is waiters plus holders, at most one task holds the semaphore, and
   nobody waits while it is free. `holders` are the tasks whose down() has succeeded and that have
   not called up() since.
   */
  ghost predicate Consistent(c: Core, q: Queue, count: int, holders: set<Tid>) {
    && count == |c.Waiters(q)| + |holders|
    && |holders| <= 1
    && (c.Waiters(q) != [] ==> holders != {})
  }

  predicate Touches(e: Event, q: Queue) {
    match e
    case Wait(p) => p == q
    case WakeUp(p) => p == q
    case WakeUpAll(p) => p == q
    case Exit(p) => p == q
    case _ => false
  }

  /** Ticks, other queues, new and exiting tasks leave a semaphore alone. */
  lemma OtherStepsKeep(c: Core, e: Event, q: Queue, count: int, holders: set<Tid>)
    requires Placed(c) && Enabled(c, e) && !Touches(e, q) && Consistent(c, q, count, holders)
    ensures Consistent(Next(c, e), q, count, holders)
  {
    assert Next(c, e).Waiters(q) == c.Waiters(q);
  }

  class Semaphore {
    const sched: Scheduler
    const queue: Queue
    var count: int
    ghost var holders: set<Tid>

    ghost predicate Valid()
      reads this, sched
    {
      sched.Valid() && Consistent(sched.View(), queue, count, holders)
    }

    /** SEMAPHORE(name), on a queue of its own. */
    constructor (sched: Scheduler, queue: Queue)
      requires sched.Valid() && sched.Waiters(queue) == []
      ensures Valid() && this.sched == sched && this.queue == queue && count == 0 && holders == {}
    {
      this.sched, this.queue := sched, queue;
      count, holders := 0, {};
    }

    /** down(): takes a free semaphore, otherwise sleeps until an up() hands it over. */
    method Down()
      requires Valid() && (holders != {} ==> sched.current != sched.idle)
      modifies this, sched
      ensures Valid() && count == old(count) + 1
      ensures old(holders) == {} ==> holders == {old(sched.current)} && sched.View() == old(sched.View())
      ensures old(holders) != {} ==> holders == old(holders) && sched.View() == Next(old(sched.View()), Event.Wait(queue))
      ensures old(holders) != {} ==> sched.Waiters(queue) == [old(sched.current)] + old(sched.Waiters(queue))
    {
      HoldersCount(holders);
      count := count + 1;
      if count != 1 {
        sched.Wait(queue);
      } else {
        holders := {sched.current};
      }
    }

    /** up() by the holder: the woken task, if there is one, is the next holder. */
    method Up()
      requires Valid() && sched.current in holders
      modifies this, sched
      ensures Valid() && count == old(count) - 1
      ensures sched.View() == Next(old(sched.View()), Event.WakeUp(queue))
      ensures old(sched.Waiters(queue)) == [] ==> holders == {}
      ensures var w := old(sched.Waiters(queue));
        w != [] ==> holders == {w[0]} && sched.Waiters(queue) == w[1..] && sched.run == [w[0]] + old(sched.run)
    {
      HoldersCount(holders);
      var w := sched.Waiters(queue);
      count := count - 1;
      sched.WakeOne(queue);
      holders := if w == [] then {} else {w[0]};
    }
  }

  lemma HoldersCount(s: set<Tid>)
    requires |s| <= 1
    ensures |s| == 0 <==> s == {}
    ensures forall t :: t in s ==> s == {t}
  {
    forall t | t in s ensures s == {t} {
      assert |s - {t}| == |s| - 1;
    }
  }
}
