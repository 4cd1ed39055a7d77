/**
 The two-list epoch scheduler of kernel/sched.c as a state machine.

 Each interrupt-protected section is one step. `Core` is the part of the task structures that the
 scheduler touches; `epoch` counts how often run_list was refilled from ready_list. Tasks are named
 by the address of their task_struct; `idle` is the task with pid 0, which never waits nor exits.
 */
module SchedModel {
  import opened Sequences

  type Tid = nat

  const TIME_SLICE: nat := 10

  datatype State = Runnable | Waiting | Zombie

  /** A wait queue: the `wait_exit` queue of a task, or any other queue of the kernel. */
  datatype Queue = ExitOf(task: Tid) | Other(id: nat)

  /** Which list a task is on. */
  datatype Place = OnRun | OnReady | OnQueue(q: Queue) | OffLists

  /** What the scheduler keeps in a task_struct; `place` is bookkeeping of the model. */
  datatype Info = Info(state: State, slice: nat, place: Place)

  datatype Core = Core(
    idle: Tid,
    current: Tid,
    run: seq<Tid>,
    ready: seq<Tid>,
    tasks: seq<Tid>,
    queues: map<Queue, seq<Tid>>,
    info: map<Tid, Info>,
    epoch: nat)
  {
    function Waiters(q: Queue): (s: seq<Tid>) {
      if q in queues then queues[q] else []
    }
  }

  datatype Event =
    | Tick
    | Yield
    | Wait(q: Queue)
    | WakeUp(q: Queue)
    | WakeUpAll(q: Queue)
    | Spawn(t: Tid)
    | Exit(notify: Queue)
    | Forget(t: Tid)

  // ---------------------------------------------------------------------------------------------
  // The steps
  // ---------------------------------------------------------------------------------------------

  /** The tasks of `l` become runnable, on run_list. */
  function MadeRunnable(info: map<Tid, Info>, l: seq<Tid>): (r: map<Tid, Info>) {
    map t | t in info :: if t in l then Info(Runnable, info[t].slice, OnRun) else info[t]
  }

  /** The end of schedule(): refill an empty run_list, then run its first task. */
  function Dispatch(c: Core): (d: Core)
    requires c.run != [] || c.ready != []
  {
    if c.run == [] then
      c.(run := c.ready, ready := [], current := c.ready[0], epoch := c.epoch + 1, info := MadeRunnable(c.info, c.ready))
    else
      c.(current := c.run[0])
  }

  /** The first `n` waiters move to the front of run_list. */
  function Unqueued(c: Core, q: Queue, n: nat): (d: Core)
    requires n <= |c.Waiters(q)|
  {
    var w := c.Waiters(q);
    c.(queues := c.queues[q := w[n..]], run := w[..n] + c.run, info := MadeRunnable(c.info, w[..n]))
  }

  /** wake_up takes the task that went to sleep last. */
  function Woken(c: Core, q: Queue): (d: Core) {
    if c.Waiters(q) == [] then c else Unqueued(c, q, 1)
  }

  function WokenAll(c: Core, q: Queue): (d: Core) {
    Unqueued(c, q, |c.Waiters(q)|)
  }

  /** The current task's slice is used up: it gets a new one and moves to ready_list. */
  function Expired(c: Core): (d: Core) {
    c.(run := Without(c.run, c.current), ready := [c.current] + c.ready,
       info := c.info[c.current := Info(Runnable, TIME_SLICE, OnReady)])
  }

  function Ticked(c: Core): (d: Core)
    requires c.current in c.info
  {
    var i := c.info[c.current];
    c.(info := c.info[c.current := i.(slice := if i.slice != 0 then i.slice - 1 else 0)])
  }

  function Asleep(c: Core, q: Queue): (d: Core)
    requires c.current in c.info
  {
    c.(run := Without(c.run, c.current), queues := c.queues[q := [c.current] + c.Waiters(q)],
       info := c.info[c.current := Info(Waiting, c.info[c.current].slice, OnQueue(q))])
  }

  function Gone(c: Core): (d: Core)
    requires c.current in c.info
  {
    c.(run := Without(c.run, c.current), info := c.info[c.current := Info(Zombie, c.info[c.current].slice, OffLists)])
  }

  function Spawned(c: Core, t: Tid): (d: Core) {
    c.(ready := [t] + c.ready, tasks := [t] + c.tasks, info := c.info[t := Info(Runnable, TIME_SLICE, OnReady)])
  }

  function Forgotten(c: Core, t: Tid): (d: Core) {
    c.(tasks := Without(c.tasks, t), info := c.info - {t})
  }

  predicate Enabled(c: Core, e: Event) {
    match e
    case Wait(q) => c.current != c.idle
    case Exit(q) => c.current != c.idle
    case Spawn(t) => t !in c.info
    case Forget(t) => t in c.info && c.info[t].state.Zombie?
    case _ => true
  }

  function Next(c: Core, e: Event): (d: Core)
    requires Placed(c) && Enabled(c, e)
  {
    IdleKeepsListsFilled(c);
    match e
    case Tick =>
      var u := Ticked(c);
      if u.info[c.current].slice == 0 then Dispatch(Expired(u)) else u
    case Yield => Dispatch(c)
    case Wait(q) => IdleStays(c); Dispatch(Asleep(c, q))
    case WakeUp(q) => Woken(c, q)
    case WakeUpAll(q) => WokenAll(c, q)
    case Spawn(t) => Spawned(c, t)
    case Exit(q) => IdleStays(c); Dispatch(Woken(Gone(c), q))
    case Forget(t) => Forgotten(c, t)
  }

  // ---------------------------------------------------------------------------------------------
  // Placement
  // ---------------------------------------------------------------------------------------------

  function StateAt(p: Place): (s: State) {
    match p
    case OnRun => Runnable
    case OnReady => Runnable
    case OnQueue(_) => Waiting
    case OffLists => Zombie
  }

  ghost predicate At(c: Core, t: Tid, p: Place) {
    t in c.info && c.info[t].place == p
  }

  /** Task `t` is exactly on the list its `place` names. */
  ghost predicate RightlyListed(c: Core, t: Tid) {
    && (t in c.run <==> At(c, t, OnRun))
    && (t in c.ready <==> At(c, t, OnReady))
    && forall q :: t in c.Waiters(q) <==> At(c, t, OnQueue(q))
  }

  /** Every task is on the list its `place` names, once. */
  ghost predicate Listed(c: Core) {
    && NoDuplicates(c.run) && NoDuplicates(c.ready) && (forall q :: NoDuplicates(c.Waiters(q)))
    && forall t :: RightlyListed(c, t)
  }

  /** State and place agree, slices are positive, and task_list lists every task once. */
  ghost predicate Accounted(c: Core) {
    && (forall t :: t in c.info ==> c.info[t].state == StateAt(c.info[t].place) && c.info[t].slice > 0)
    && NoDuplicates(c.tasks) && (forall t :: t in c.tasks <==> t in c.info)
    && (At(c, c.idle, OnRun) || At(c, c.idle, OnReady))
  }

  /** The placement invariant of the scheduler. */
  ghost predicate Placed(c: Core) {
    Switching(c) && c.current in c.run && c.current in c.info
  }

  /** The same in the middle of schedule(), when the current task may have left run_list. */
  ghost predicate Switching(c: Core) {
    Listed(c) && Accounted(c)
  }

  /** What the invariant says without the bookkeeping: one list for each task, none for a zombie. */
  lemma ExactlyOneList(c: Core, t: Tid, p: Queue, q: Queue)
    requires Placed(c) && t in c.info
    ensures c.info[t].state.Runnable? <==> (t in c.run || t in c.ready)
    ensures c.info[t].state.Waiting? <==> exists r :: t in c.Waiters(r)
    ensures !(t in c.run && t in c.ready)
    ensures t in c.Waiters(p) ==> t !in c.run && t !in c.ready && (t in c.Waiters(q) ==> p == q)
  {
    assert RightlyListed(c, t);
    if c.info[t].place.OnQueue? { assert t in c.Waiters(c.info[t].place.q); }
  }

  lemma IdleKeepsListsFilled(c: Core)
    requires Placed(c)
    ensures c.run != [] || c.ready != []
    ensures var u := Expired(Ticked(c)); u.run != [] || u.ready != []
  {
  }

  /** When another task leaves the lists, idle is still on one: the BUG_ON of schedule() is dead. */
  lemma IdleStays(c: Core)
    requires Placed(c) && c.current != c.idle
    ensures forall q :: var u := Asleep(c, q); u.run != [] || u.ready != []
    ensures forall q :: var u := Woken(Gone(c), q); u.run != [] || u.ready != []
  {
    assert RightlyListed(c, c.idle);
    WithoutMembers(c.run, c.current);
    assert c.idle in Without(c.run, c.current) || c.idle in c.ready;
  }

  lemma DispatchKeeps(c: Core)
    requires Switching(c) && (c.run != [] || c.ready != [])
    ensures Placed(Dispatch(c))
  {
    var d := Dispatch(c);
    var next := if c.run == [] then c.ready[0] else c.run[0];
    assert next in (if c.run == [] then c.ready else c.run) && RightlyListed(c, next);
    QueuesSame(c, d);
    forall t ensures RightlyListed(d, t) { assert RightlyListed(c, t); }
  }

  lemma QueuesSame(c: Core, d: Core)
    requires d.queues == c.queues
    ensures forall q :: d.Waiters(q) == c.Waiters(q)
  {
  }

  lemma ExpiredKeeps(c: Core)
    requires Placed(c)
    ensures Switching(Expired(Ticked(c)))
  {
    var d := Expired(Ticked(c));
    assert RightlyListed(c, c.current);
    WithoutMembers(c.run, c.current);
    PushMembers(c.ready, c.current);
    QueuesSame(c, d);
    forall t ensures RightlyListed(d, t) { assert RightlyListed(c, t); }
  }

  lemma AsleepKeeps(c: Core, q: Queue)
    requires Placed(c) && c.current != c.idle
    ensures Switching(Asleep(c, q))
  {
    var d := Asleep(c, q);
    assert RightlyListed(c, c.current);
    WithoutMembers(c.run, c.current);
    PushMembers(c.Waiters(q), c.current);
    assert forall p :: d.Waiters(p) == if p == q then [c.current] + c.Waiters(q) else c.Waiters(p);
    forall t ensures RightlyListed(d, t) { assert RightlyListed(c, t); }
  }

  lemma GoneKeeps(c: Core)
    requires Placed(c) && c.current != c.idle
    ensures Switching(Gone(c))
  {
    var d := Gone(c);
    assert RightlyListed(c, c.current);
    WithoutMembers(c.run, c.current);
    QueuesSame(c, d);
    forall t ensures RightlyListed(d, t) { assert RightlyListed(c, t); }
  }

  lemma WokenKeeps(c: Core, q: Queue)
    requires Switching(c)
    ensures Switching(Woken(c, q)) && Switching(WokenAll(c, q))
    ensures c.current in c.run ==> c.current in Woken(c, q).run && c.current in WokenAll(c, q).run
  {
    var n := |c.Waiters(q)|;
    UnqueuedKeeps(c, q, n);
    if n > 0 { UnqueuedKeeps(c, q, 1); }
  }

  lemma UnqueuedKeeps(c: Core, q: Queue, n: nat)
    requires Switching(c) && n <= |c.Waiters(q)|
    ensures Switching(Unqueued(c, q, n))
    ensures c.current in c.run ==> c.current in Unqueued(c, q, n).run
  {
    var w, d := c.Waiters(q), Unqueued(c, q, n);
    assert w == w[..n] + w[n..];
    forall t ensures !(t in w[..n] && t in c.run) && !(t in w[..n] && t in w[n..]) && (t in w <==> t in w[..n] || t in w[n..]) {
      assert RightlyListed(c, t);
    }
    AppendMembers(w[..n], c.run);
    assert forall p :: d.Waiters(p) == if p == q then w[n..] else c.Waiters(p);
    forall t ensures RightlyListed(d, t) { assert RightlyListed(c, t); }
  }

  /** Every step keeps the placement invariant. */
  lemma NextKeepsPlacement(c: Core, e: Event)
    requires Placed(c) && Enabled(c, e)
    ensures Placed(Next(c, e))
  {
    hide Listed, Accounted;
    match e
    case Tick =>
      if Ticked(c).info[c.current].slice == 0 { ExpiredKeeps(c); IdleKeepsListsFilled(c); DispatchKeeps(Expired(Ticked(c))); }
      else { StillPlaced(c); }
    case Yield => IdleKeepsListsFilled(c); DispatchKeeps(c);
    case Wait(q) => AsleepKeeps(c, q); IdleStays(c); DispatchKeeps(Asleep(c, q));
    case WakeUp(q) => WokenKeeps(c, q);
    case WakeUpAll(q) => WokenKeeps(c, q);
    case Spawn(t) => SpawnKeeps(c, t);
    case Exit(q) => GoneKeeps(c); WokenKeeps(Gone(c), q); IdleStays(c); DispatchKeeps(Woken(Gone(c), q));
    case Forget(t) => ForgetKeeps(c, t);
  }

  lemma StillPlaced(c: Core)
    requires Placed(c) && Ticked(c).info[c.current].slice != 0
    ensures Placed(Ticked(c))
  {
    var d := Ticked(c);
    QueuesSame(c, d);
    forall t ensures RightlyListed(d, t) { assert RightlyListed(c, t); }
  }

  lemma SpawnKeeps(c: Core, t: Tid)
    requires Placed(c) && t !in c.info
    ensures Placed(Spawned(c, t))
  {
    var d := Spawned(c, t);
    assert RightlyListed(c, t);
    PushMembers(c.ready, t);
    PushMembers(c.tasks, t);
    QueuesSame(c, d);
    forall u ensures RightlyListed(d, u) { assert RightlyListed(c, u); }
  }

  lemma ForgetKeeps(c: Core, t: Tid)
    requires Placed(c) && t in c.info && c.info[t].state.Zombie?
    ensures Placed(Forgotten(c, t))
  {
    assert RightlyListed(c, c.current) && c.info[t].place == OffLists;
    ForgetListed(c, t);
    ForgetAccounted(c, t);
    hide Listed, Accounted, RightlyListed;
  }

  lemma ForgetAccounted(c: Core, t: Tid)
    requires Accounted(c) && t in c.info && c.info[t].place == OffLists
    ensures Accounted(Forgotten(c, t))
  {
    WithoutMembers(c.tasks, t);
  }

  lemma ForgetListed(c: Core, t: Tid)
    requires Listed(c) && t in c.info && c.info[t].place == OffLists
    ensures Listed(Forgotten(c, t))
  {
    var d := Forgotten(c, t);
    QueuesSame(c, d);
    forall u ensures RightlyListed(d, u) { assert RightlyListed(c, u); }
  }

  /** What a step does to one wait queue. */
  lemma WaitersStep(c: Core, e: Event, q: Queue)
    requires Placed(c) && Enabled(c, e)
    ensures var w, v := c.Waiters(q), Next(c, e).Waiters(q);
      match e
      case Wait(p) => v == if p == q then [c.current] + w else w
      case WakeUp(p) => v == if p == q && w != [] then w[1..] else w
      case WakeUpAll(p) => v == if p == q then [] else w
      case Exit(p) => v == if p == q && w != [] then w[1..] else w
      case _ => v == w
  {
  }

  ghost function Zombies(c: Core): (r: set<Tid>) {
    set t | t in c.info && c.info[t].state.Zombie?
  }

  /** Tasks come and go only by Spawn and Forget, and become zombies only by Exit. */
  lemma StatusStep(c: Core, e: Event)
    requires Placed(c) && Enabled(c, e)
    ensures var d := Next(c, e);
      && d.info.Keys == (match e case Spawn(t) => c.info.Keys + {t} case Forget(t) => c.info.Keys - {t} case _ => c.info.Keys)
      && Zombies(d) == (match e case Exit(_) => Zombies(c) + {c.current} case Forget(t) => Zombies(c) - {t} case _ => Zombies(c))
      && d.idle == c.idle
    ensures c.current in c.info && c.current !in Zombies(c) && c.idle in c.info && c.idle !in Zombies(c)
  {
    assert RightlyListed(c, c.current);
    forall t ensures StatusKept(c, e, Next(c, e), t) { StatusOf(c, e, t); }
    IdleOf(c, e);
    KeysFrom(c, e, Next(c, e));
    ZombiesFrom(c, e, Next(c, e));
  }

  lemma KeysFrom(c: Core, e: Event, d: Core)
    requires forall t :: StatusKept(c, e, d, t)
    ensures d.info.Keys == match e case Spawn(t) => c.info.Keys + {t} case Forget(t) => c.info.Keys - {t} case _ => c.info.Keys
  {
    forall t ensures t in d.info <==> (t in c.info || e == Spawn(t)) && e != Forget(t) { assert StatusKept(c, e, d, t); }
  }

  lemma ZombiesFrom(c: Core, e: Event, d: Core)
    requires (forall t :: StatusKept(c, e, d, t)) && Enabled(c, e) && c.current in c.info
    ensures Zombies(d) == match e case Exit(_) => Zombies(c) + {c.current} case Forget(t) => Zombies(c) - {t} case _ => Zombies(c)
  {
    forall t
      ensures t in Zombies(d) <==> e != Forget(t) && (t in Zombies(c) || (e.Exit? && t == c.current))
    {
      assert StatusKept(c, e, d, t);
    }
  }

  ghost predicate StatusKept(c: Core, e: Event, d: Core, t: Tid) {
    && (t in d.info <==> (t in c.info || e == Spawn(t)) && e != Forget(t))
    && (t in d.info ==> (d.info[t].state.Zombie? <==> t in c.info && (c.info[t].state.Zombie? || (e.Exit? && t == c.current))))
  }

  lemma StatusOf(c: Core, e: Event, t: Tid)
    requires Placed(c) && Enabled(c, e)
    ensures StatusKept(c, e, Next(c, e), t)
  {
    assert RightlyListed(c, t);
    if e.WakeUp? || e.Exit? {
      var q := if e.WakeUp? then e.q else e.notify;
      if c.Waiters(q) != [] { assert c.Waiters(q)[0] in c.Waiters(q); }
    }
  }

  lemma IdleOf(c: Core, e: Event)
    requires Placed(c) && Enabled(c, e)
    ensures Next(c, e).idle == c.idle
  {
  }

  // ---------------------------------------------------------------------------------------------
  // Runs
  // ---------------------------------------------------------------------------------------------

  /** `cs` is a run of the scheduler that takes the steps `es`. */
  ghost predicate IsRun(cs: seq<Core>, es: seq<Event>) {
    && |cs| == |es| + 1 && Placed(cs[0])
    && forall k :: 0 <= k < |es| ==> StepAt(cs, es, k)
  }

  ghost predicate StepAt(cs: seq<Core>, es: seq<Event>, k: nat)
    requires k < |es| < |cs|
  {
    Steps(cs[k], es[k], cs[k + 1])
  }

  ghost predicate Steps(c: Core, e: Event, d: Core) {
    Placed(c) && Enabled(c, e) && d == Next(c, e)
  }

  lemma {:induction false} RunPlaced(cs: seq<Core>, es: seq<Event>, k: nat)
    requires IsRun(cs, es) && k < |cs|
    ensures Placed(cs[k])
  {
    hide Placed, Enabled, Next;
    if k > 0 {
      assert StepAt(cs, es, k - 1);
      NextKeepsPlacement(cs[k - 1], es[k - 1]);
    }
  }

  /** What one step does to the two lists, with and without a refill. */
  lemma ListsStep(c: Core, e: Event, t: Tid)
    requires Placed(c) && Enabled(c, e)
    ensures var d := Next(c, e);
      && (d.epoch == c.epoch || d.epoch == c.epoch + 1)
      && (d.epoch == c.epoch && t in c.run && t != c.current ==> t in d.run)
      && (d.epoch == c.epoch && t in c.ready ==> t in d.ready)
      && (d.epoch != c.epoch && t in c.ready ==> t in d.run)
      && (d.epoch != c.epoch && t in c.run ==> t == c.current)
  {
    WithoutMembers(c.run, c.current);
  }

  /** Without a refill a task stays on run_list until it has been the current one. */
  lemma {:induction false} StaysOnRun(cs: seq<Core>, es: seq<Event>, i: nat, j: nat, t: Tid)
    requires IsRun(cs, es) && i <= j < |cs|
    requires cs[i].epoch == cs[j].epoch && t in cs[i].run
    requires forall k :: i <= k < j ==> cs[k].current != t
    ensures t in cs[j].run
    decreases j - i
  {
    if i < j {
      hide Placed, Enabled, Next;
      EpochGrows(cs, es, i, j - 1);
      EpochGrows(cs, es, j - 1, j);
      StaysOnRun(cs, es, i, j - 1, t);
      assert StepAt(cs, es, j - 1);
      ListsStep(cs[j - 1], es[j - 1], t);
    }
  }

  lemma {:induction false} EpochGrows(cs: seq<Core>, es: seq<Event>, i: nat, j: nat)
    requires IsRun(cs, es) && i <= j < |cs|
    ensures cs[i].epoch <= cs[j].epoch
    decreases j - i
  {
    if i < j {
      hide Placed, Enabled, Next;
      EpochGrows(cs, es, i, j - 1);
      assert StepAt(cs, es, j - 1);
      ListsStep(cs[j - 1], es[j - 1], cs[0].idle);
    }
  }

  /**
   No starvation: a task that is ready when run_list is refilled is on run_list after the refill,
   and is the current task at some point before the next refill.
   */
  lemma NoStarvation(cs: seq<Core>, es: seq<Event>, i: nat, j: nat, t: Tid)
    requires IsRun(cs, es) && i < j < |es|
    requires cs[i + 1].epoch == cs[i].epoch + 1 == cs[j].epoch && cs[j + 1].epoch == cs[j].epoch + 1
    requires t in cs[i].ready
    ensures t in cs[i + 1].run
    ensures exists k :: i < k <= j && cs[k].current == t
  {
    hide Placed, Enabled, Next;
    assert StepAt(cs, es, i) && StepAt(cs, es, j);
    ListsStep(cs[i], es[i], t);
    if forall k :: i < k < j ==> cs[k].current != t {
      StaysOnRun(cs, es, i + 1, j, t);
      ListsStep(cs[j], es[j], t);
      assert cs[j].current == t;
    }
  }

  // ---------------------------------------------------------------------------------------------
  // Bounded epochs
  // ---------------------------------------------------------------------------------------------

  /** The ticks a task can still use before the next refill. */
  ghost function Share(c: Core, t: Tid): (n: nat) {
    if t in c.info && c.info[t].place != OnReady && c.info[t].place != OffLists then c.info[t].slice else 0
  }

  /** The time slices of the tasks of `l` that are neither on ready_list nor zombies. */
  ghost function Budget(c: Core, l: seq<Tid>): (n: nat) {
    if l == [] then 0 else Share(c, l[0]) + Budget(c, l[1..])
  }

  lemma {:induction false} BudgetMonotone(c: Core, d: Core, l: seq<Tid>, x: Tid)
    requires forall t :: t in l ==> Share(d, t) <= Share(c, t)
    ensures Budget(d, l) <= Budget(c, l)
    ensures x in l && Share(d, x) < Share(c, x) ==> Budget(d, l) < Budget(c, l)
  {
    if l != [] {
      assert l[0] in l && forall t :: t in l[1..] ==> t in l;
      BudgetMonotone(c, d, l[1..], x);
    }
  }

  lemma {:induction false} BudgetWithout(c: Core, l: seq<Tid>, x: Tid)
    requires Share(c, x) == 0
    ensures Budget(c, Without(l, x)) == Budget(c, l)
  {
    if l != [] && l[0] != x {
      BudgetWithout(c, l[1..], x);
      assert Without(l, x)[1..] == Without(l[1..], x);
    }
  }

  /** No step between refills adds to a task's share, and a tick uses up one of the current task's. */
  lemma ShareStep(c: Core, e: Event, t: Tid)
    requires Placed(c) && Enabled(c, e) && Next(c, e).epoch == c.epoch
    ensures Share(Next(c, e), t) <= Share(c, t)
    ensures e.Tick? ==> Share(Next(c, e), c.current) < Share(c, c.current)
    ensures e.Spawn? && t == e.t ==> Share(Next(c, e), t) == 0
    ensures e.Forget? && t == e.t ==> Share(c, t) == 0
  {
    assert RightlyListed(c, t) && RightlyListed(c, c.current);
    if e.WakeUp? || e.Exit? {
      var q := if e.WakeUp? then e.q else e.notify;
      if c.Waiters(q) != [] { assert c.Waiters(q)[0] in c.Waiters(q); }
    }
  }

  lemma BudgetStep(c: Core, e: Event)
    requires Placed(c) && Enabled(c, e) && Next(c, e).epoch == c.epoch
    ensures Budget(Next(c, e), Next(c, e).tasks) + (if e.Tick? then 1 else 0) <= Budget(c, c.tasks)
  {
    var d := Next(c, e);
    forall t ensures Share(d, t) <= Share(c, t) { ShareStep(c, e, t); }
    ShareStep(c, e, c.current);
    BudgetMonotone(c, d, c.tasks, c.current);
    match e
    case Spawn(t) =>
      ShareStep(c, e, t);
      assert d.tasks[1..] == c.tasks;
    case Forget(t) =>
      ShareStep(c, e, t);
      BudgetWithout(d, c.tasks, t);
    case _ =>
  }

  /** The number of ticks among the steps from `i` to before `j`. */
  ghost function Ticks(es: seq<Event>, i: nat, j: nat): (n: nat)
    requires i <= j <= |es|
    decreases j - i
  {
    if i == j then 0 else Ticks(es, i, j - 1) + if es[j - 1].Tick? then 1 else 0
  }

  lemma {:induction false} TicksUseBudget(cs: seq<Core>, es: seq<Event>, i: nat, j: nat)
    requires IsRun(cs, es) && i <= j < |cs| && cs[i].epoch == cs[j].epoch
    ensures Ticks(es, i, j) + Budget(cs[j], cs[j].tasks) <= Budget(cs[i], cs[i].tasks)
    decreases j - i
  {
    hide Placed, Enabled, Next, Budget;
    if i < j {
      EpochGrows(cs, es, i, j - 1);
      EpochGrows(cs, es, j - 1, j);
      TicksUseBudget(cs, es, i, j - 1);
      assert StepAt(cs, es, j - 1);
      BudgetStep(cs[j - 1], es[j - 1]);
    }
  }

  lemma {:induction false} BudgetPositive(c: Core, l: seq<Tid>)
    requires c.current in l && Share(c, c.current) > 0
    ensures Budget(c, l) > 0
  {
    if l[0] != c.current { BudgetPositive(c, l[1..]); }
  }

  /**
   Bounded epochs: whatever happens between two refills, the ticks up to and including the step that
   refills are at most the slices that the tasks off ready_list had at the start.
   */
  lemma EpochBounded(cs: seq<Core>, es: seq<Event>, i: nat, j: nat)
    requires IsRun(cs, es) && i <= j < |es| && cs[i].epoch == cs[j].epoch
    ensures Ticks(es, i, j + 1) <= Budget(cs[i], cs[i].tasks)
  {
    TicksUseBudget(cs, es, i, j);
    RunPlaced(cs, es, j);
    var c := cs[j];
    assert RightlyListed(c, c.current);
    BudgetPositive(c, c.tasks);
  }
}
