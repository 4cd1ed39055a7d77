/**
 The order in which the scheduler of kernel/sched.c runs tasks: who comes next after a wake-up or a used
 up slice, how long a task stays current, and the order of a whole epoch.
 */
module SchedOrder {
  import opened Sequences
  import opened SchedModel

  // ---------------------------------------------------------------------------------------------
  // Who runs next
  // ---------------------------------------------------------------------------------------------

  lemma OneStep(c: Core, e: Event)
    requires Placed(c) && Enabled(c, e)
    ensures Placed(Next(c, e))
  {
    NextKeepsPlacement(c, e);
  }

  /** A woken task is the next to run when the current one yields: the one that went to sleep last. */
  lemma WokenRunsNext(c: Core, q: Queue)
    requires Placed(c) && c.Waiters(q) != []
    ensures Placed(Next(c, WakeUp(q))) && Next(Next(c, WakeUp(q)), Yield).current == c.Waiters(q)[0]
    ensures Placed(Next(c, WakeUpAll(q))) && Next(Next(c, WakeUpAll(q)), Yield).current == c.Waiters(q)[0]
  {
    OneStep(c, WakeUp(q));
    OneStep(c, WakeUpAll(q));
    hide Placed;
  }

  /** A task that sleeps and is woken at once is the next to run again. */
  lemma SleeperReturns(c: Core, q: Queue)
    requires Placed(c) && c.current != c.idle
    ensures Placed(Next(c, Wait(q))) && Placed(Next(Next(c, Wait(q)), WakeUp(q)))
    ensures Next(Next(Next(c, Wait(q)), WakeUp(q)), Yield).current == c.current
  {
    OneStep(c, Wait(q));
    WaitersStep(c, Wait(q), q);
    WokenRunsNext(Next(c, Wait(q)), q);
  }

  /** When the current task's slice is used up, the one behind it on run_list runs. */
  lemma ExpiredNext(c: Core, a: Tid, rest: seq<Tid>)
    requires Placed(c) && c.current in c.info && c.run == [c.current, a] + rest && c.info[c.current].slice == 1
    ensures Next(c, Tick) == c.(current := a, run := [a] + rest, ready := [c.current] + c.ready,
                                info := c.info[c.current := Info(Runnable, TIME_SLICE, OnReady)])
  {
    assert c.run[0] == c.current && c.run[1..] == [a] + rest;
    var u := Ticked(c);
    assert u.info[c.current := Info(Runnable, TIME_SLICE, OnReady)] == c.info[c.current := Info(Runnable, TIME_SLICE, OnReady)];
    hide Placed;
  }

  /** If no other task is left on run_list it stays current, and the ready tasks follow it. */
  lemma LastStays(c: Core)
    requires Placed(c) && c.current in c.info && c.run == [c.current] && c.info[c.current].slice == 1
    ensures var d := Next(c, Tick);
            && d.current == c.current && d.run == [c.current] + c.ready && d.ready == [] && d.epoch == c.epoch + 1
            && c.current in d.info && d.info[c.current].slice == TIME_SLICE
  {
    assert c.run[1..] == [];
    hide Placed;
  }

  lemma CurrentKnown(c: Core)
    requires Placed(c)
    ensures c.current in c.info && c.info[c.current].slice > 0 && c.run != []
  {
  }

  // ---------------------------------------------------------------------------------------------
  // How long a task runs
  // ---------------------------------------------------------------------------------------------

  /** The state after `n` clock ticks and nothing else. */
  ghost function Ticking(c: Core, n: nat): (d: Core)
    requires Placed(c)
    ensures Placed(d)
  {
    if n == 0 then c
    else
      OneStep(Ticking(c, n - 1), Tick);
      Next(Ticking(c, n - 1), Tick)
  }

  lemma {:induction false} TickingOn(c: Core, m: nat, n: nat)
    requires Placed(c)
    ensures Ticking(c, m + n) == Ticking(Ticking(c, m), n)
  {
    hide Placed, Next;
    if n > 0 { TickingOn(c, m, n - 1); }
  }

  /** `c` with `n` less on the slice of the current task. */
  function LessSlice(c: Core, n: nat): Core
    requires c.current in c.info && n < c.info[c.current].slice
  {
    var i := c.info[c.current];
    c.(info := c.info[c.current := i.(slice := i.slice - n)])
  }

  lemma LessAndLess(c: Core, n: nat)
    requires c.current in c.info && n < c.info[c.current].slice
    ensures LessSlice(c, 0) == c
    ensures var d := LessSlice(c, n);
            && d == c.(info := d.info)
            && c.current in d.info && d.info[c.current].slice == c.info[c.current].slice - n
            && d.info[c.current := Info(Runnable, TIME_SLICE, OnReady)] == c.info[c.current := Info(Runnable, TIME_SLICE, OnReady)]
    ensures n > 0 ==>
      var d := LessSlice(c, n - 1);
      d.current in d.info && d.info[d.current].slice > 1 && LessSlice(d, 1) == LessSlice(c, n)
  {
    assert c.info[c.current := c.info[c.current]] == c.info;
  }

  lemma CountsDown(c: Core)
    requires Placed(c) && c.current in c.info && c.info[c.current].slice > 1
    ensures Next(c, Tick) == LessSlice(c, 1)
  {
  }

  /** Before its slice is used up a tick only counts down. */
  lemma {:induction false} Counting(c: Core, n: nat)
    requires Placed(c) && c.current in c.info && n < c.info[c.current].slice
    ensures Ticking(c, n) == LessSlice(c, n)
  {
    hide Placed, LessSlice, Next;
    LessAndLess(c, n);
    if n > 0 {
      Counting(c, n - 1);
      CountsDown(Ticking(c, n - 1));
    }
  }

  /** The current task runs for exactly the ticks of its slice, then makes way with a new slice. */
  lemma UsesItsSlice(c: Core, a: Tid, rest: seq<Tid>)
    requires Placed(c) && c.current in c.info && c.run == [c.current, a] + rest
    ensures var s := c.info[c.current].slice;
            && (forall n: nat | n < s :: Ticking(c, n).current == c.current)
            && Ticking(c, s) == c.(current := a, run := [a] + rest, ready := [c.current] + c.ready,
                                   info := c.info[c.current := Info(Runnable, TIME_SLICE, OnReady)])
  {
    hide Placed, Next, LessSlice;
    CurrentKnown(c);
    var s := c.info[c.current].slice;
    forall n: nat | n < s ensures Ticking(c, n).current == c.current {
      Counting(c, n);
      LessAndLess(c, n);
    }
    Counting(c, s - 1);
    LessAndLess(c, s - 1);
    ExpiredNext(Ticking(c, s - 1), a, rest);
  }

  lemma LastUsesItsSlice(c: Core)
    requires Placed(c) && c.current in c.info && c.run == [c.current]
    ensures var d := Ticking(c, c.info[c.current].slice);
            && d.current == c.current && d.run == [c.current] + c.ready && d.ready == [] && d.epoch == c.epoch + 1
            && c.current in d.info && d.info[c.current].slice == TIME_SLICE
  {
    hide Placed, Next, LessSlice;
    CurrentKnown(c);
    var s := c.info[c.current].slice;
    Counting(c, s - 1);
    LessAndLess(c, s - 1);
    LastStays(Ticking(c, s - 1));
  }

  // ---------------------------------------------------------------------------------------------
  // A whole epoch
  // ---------------------------------------------------------------------------------------------

  /** The slices of the tasks of a list. */
  ghost function Slices(c: Core, l: seq<Tid>): (n: nat)
    requires forall t :: t in l ==> t in c.info
  {
    if l == [] then 0 else c.info[l[0]].slice + Slices(c, l[1..])
  }

  lemma {:induction false} SlicesSame(c: Core, d: Core, l: seq<Tid>)
    requires forall t :: t in l ==> t in c.info && t in d.info && d.info[t] == c.info[t]
    ensures Slices(d, l) == Slices(c, l)
  {
    if l != [] {
      assert forall t :: t in l[1..] ==> t in l;
      SlicesSame(c, d, l[1..]);
    }
  }

  lemma OnRunKnown(c: Core)
    requires Placed(c)
    ensures (forall t :: t in c.run ==> t in c.info) && NoDuplicates(c.run)
  {
    forall t ensures t in c.run ==> t in c.info { assert RightlyListed(c, t); }
  }

  /** The state when the first `k` tasks of run_list have used their slices. */
  ghost predicate Served(c: Core, k: nat, d: Core) {
    && k < |c.run| && d.current == c.run[k] && d.run == c.run[k..] && d.ready == Reverse(c.run[..k]) + c.ready && d.epoch == c.epoch
    && d.info.Keys == c.info.Keys
    && forall t :: t in c.info ==> d.info[t] == if t in c.run[..k] then Info(Runnable, TIME_SLICE, OnReady) else c.info[t]
  }

  /**
   Left to the clock, the tasks of run_list run in the order of the list, each for its slice: after the
   slices of the first `k` the next one is current and the others stand on ready_list, the latest first.
   */
  lemma {:induction false} EpochOrder(c: Core, k: nat)
    requires Placed(c) && c.run[0] == c.current && k < |c.run| && forall t :: t in c.run ==> t in c.info
    ensures Served(c, k, Ticking(c, Slices(c, c.run[..k])))
    decreases k
  {
    hide Placed, Next, NoDuplicates, Ticking, Served, Slices, Reverse;
    if k == 0 {
      NothingServed(c);
    } else {
      var a, rest := c.run[1], c.run[2..];
      assert c.run == [c.current, a] + rest;
      CurrentKnown(c);
      UsesItsSlice(c, a, rest);
      var d := Ticking(c, c.info[c.current].slice);
      FirstServed(c, d);
      OnRunKnown(c);
      OnRunKnown(d);
      EpochOrder(d, k - 1);
      SlicesSplit(c, d, k);
      TickingOn(c, c.info[c.current].slice, Slices(d, d.run[..k - 1]));
      ServedLater(c, d, k, Ticking(c, Slices(c, c.run[..k])));
    }
  }

  lemma NothingServed(c: Core)
    requires Placed(c) && c.run[0] == c.current && (forall t :: t in c.run ==> t in c.info) && c.run != []
    ensures Served(c, 0, Ticking(c, Slices(c, c.run[..0])))
  {
    hide Placed;
    assert c.run[..0] == [] && c.run[0..] == c.run && [] + c.ready == c.ready;
  }

  lemma FirstServed(c: Core, d: Core)
    requires c.current in c.info && |c.run| > 1 && c.run[0] == c.current
    requires d == c.(current := c.run[1], run := [c.run[1]] + c.run[2..], ready := [c.current] + c.ready,
                     info := c.info[c.current := Info(Runnable, TIME_SLICE, OnReady)])
    ensures Served(c, 1, d)
  {
    assert c.run[..1] == [c.current] && Reverse([c.current]) == [c.current];
  }

  lemma SlicesSplit(c: Core, d: Core, k: nat)
    requires 0 < k < |c.run| && NoDuplicates(c.run) && d.run == c.run[1..]
    requires (forall t :: t in c.run ==> t in c.info) && forall t :: t in d.run ==> t in d.info
    requires d.info.Keys == c.info.Keys && forall t :: t in c.info && t != c.run[0] ==> d.info[t] == c.info[t]
    ensures Slices(c, c.run[..k]) == c.info[c.run[0]].slice + Slices(d, d.run[..k - 1])
  {
    var later := d.run[..k - 1];
    assert c.run[..k][1..] == later;
    forall t | t in later ensures t in c.info && t in d.info && d.info[t] == c.info[t] {
      assert t in d.run && t in c.run;
    }
    SlicesSame(c, d, later);
  }

  lemma ServedLater(c: Core, d: Core, k: nat, e: Core)
    requires 0 < k < |c.run| && NoDuplicates(c.run) && Served(c, 1, d) && Served(d, k - 1, e)
    ensures Served(c, k, e)
  {
    var first := c.run[..k];
    assert first == [c.run[0]] + d.run[..k - 1] && first[1..] == d.run[..k - 1];
    assert c.run[..1] == [c.run[0]] && Reverse([c.run[0]]) == [c.run[0]];
    ReversePush(d.run[..k - 1], c.run[0]);
    assert Reverse(first) + c.ready == Reverse(d.run[..k - 1]) + ([c.run[0]] + c.ready);
    hide NoDuplicates;
  }

  /** After the slices of all tasks of run_list the last one is still current, in front of the reversed others and the ready tasks. */
  lemma WholeEpoch(c: Core)
    requires Placed(c) && c.run[0] == c.current && forall t :: t in c.run ==> t in c.info
    ensures var d := Ticking(c, Slices(c, c.run));
            && d.current == c.run[|c.run| - 1] && d.run == Reverse(c.run) + c.ready && d.ready == [] && d.epoch == c.epoch + 1
  {
    hide Placed, Next, Ticking, Slices, Reverse, Served, NoDuplicates;
    CurrentKnown(c);
    OnRunKnown(c);
    var k := |c.run| - 1;
    EpochOrder(c, k);
    var e := Ticking(c, Slices(c, c.run[..k]));
    LastServed(c, e);
    LastUsesItsSlice(e);
    EpochSum(c);
    TickingOn(c, Slices(c, c.run[..k]), c.info[c.run[k]].slice);
  }

  lemma LastServed(c: Core, e: Core)
    requires c.run != [] && NoDuplicates(c.run) && (forall t :: t in c.run ==> t in c.info) && Served(c, |c.run| - 1, e)
    ensures var k := |c.run| - 1; var last := c.run[k];
            && e.run == [last] && e.current == last && e.epoch == c.epoch && e.ready == Reverse(c.run[..k]) + c.ready
            && last in e.info && e.info[last] == c.info[last]
  {
    hide Reverse;
    var k := |c.run| - 1;
    assert c.run[k] !in c.run[..k] && c.run[k] in c.run;
  }

  lemma EpochSum(c: Core)
    requires c.run != [] && forall t :: t in c.run ==> t in c.info
    ensures var k := |c.run| - 1;
            && Slices(c, c.run) == Slices(c, c.run[..k]) + c.info[c.run[k]].slice
            && [c.run[k]] + (Reverse(c.run[..k]) + c.ready) == Reverse(c.run) + c.ready
  {
    var first, last := c.run[..|c.run| - 1], c.run[|c.run| - 1];
    assert c.run == first + [last];
    SlicesAppend(c, first, last);
    hide Slices;
  }

  lemma {:induction false} SlicesAppend(c: Core, l: seq<Tid>, t: Tid)
    requires t in c.info && forall u :: u in l ==> u in c.info
    ensures Slices(c, l + [t]) == Slices(c, l) + c.info[t].slice
  {
    if l != [] {
      SlicesAppend(c, l[1..], t);
      assert (l + [t])[1..] == l[1..] + [t];
    } else {
      assert (l + [t])[1..] == [];
    }
  }

  /** A thread created by the only task on run_list runs after the creator has used its slice twice. */
  lemma SpawnedRuns(c: Core, t: Tid)
    requires Placed(c) && c.current in c.info && c.run == [c.current] && t !in c.info
    ensures Placed(Next(c, Spawn(t)))
    ensures var d := Ticking(Next(c, Spawn(t)), c.info[c.current].slice);
            && d.run == [c.current, t] + c.ready && d.current == c.current && Ticking(d, TIME_SLICE).current == t
  {
    hide Placed, Ticking;
    OneStep(c, Spawn(t));
    CurrentKnown(c);
    SpawnedList(c, t);
    hide Next;
    var n := Next(c, Spawn(t));
    LastUsesItsSlice(n);
    UsesItsSlice(Ticking(n, c.info[c.current].slice), t, c.ready);
  }

  lemma SpawnedList(c: Core, t: Tid)
    requires Placed(c) && c.current in c.info && t !in c.info
    ensures var n := Next(c, Spawn(t));
            n.run == c.run && n.ready == [t] + c.ready && n.current == c.current && c.current in n.info && n.info[c.current] == c.info[c.current]
  {
    hide Placed;
  }
}
