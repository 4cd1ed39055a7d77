/**
 The timer wheel of kernel/timer.c: 60 buckets, a handler with deadline d in bucket d % 60. Callbacks
 only append to a log. The 64-bit tick counter is a natural number here.
 */
module Timer {
  import opened Sequences

  const NR_TIMER_LISTS: nat := 60
  const TIMER_INFINITE: int := -1

  type Id = nat

  datatype Handler = Handler(expires: nat, jiffies: nat, times: int)

  /** A call of handler `id` at tick `at`. */
  datatype Fire = Fire(id: Id, at: nat)

  // ---------------------------------------------------------------------------------------------
  // The specification: a timer is idle, or armed with a deadline
  // ---------------------------------------------------------------------------------------------

  datatype Armed = Idle | Armed(deadline: nat, expires: nat, times: int)

  predicate FiresAt(s: Armed, now: nat) {
    s.Armed? && s.deadline == now
  }

  /** One tick at time `now`, seen from one timer. */
  function AfterTick(s: Armed, now: nat): (r: Armed) {
    if !FiresAt(s, now) then s
    else
      var left := if s.times == TIMER_INFINITE then s.times else s.times - 1;
      if left == 0 then Idle else Armed(now + s.expires, s.expires, left)
  }

  /** The timer after `n` ticks, the first of them at time `start`. */
  ghost function AfterTicks(s: Armed, start: nat, n: nat): (r: Armed) {
    if n == 0 then s else AfterTick(AfterTicks(s, start, n - 1), start + n - 1)
  }

  /** The calls of the timer during those ticks. */
  ghost function FireTimes(s: Armed, start: nat, n: nat): (r: seq<nat>) {
    if n == 0 then []
    else FireTimes(s, start, n - 1) + (if FiresAt(AfterTicks(s, start, n - 1), start + n - 1) then [start + n - 1] else [])
  }

  /** `start + c * e`, by repeated addition. */
  ghost function Due(start: nat, e: nat, c: nat): (d: nat)
    ensures d >= start
  {
    if c == 0 then start else Due(start, e, c - 1) + e
  }

  lemma {:induction false} DueIsMultiple(start: nat, e: nat, c: nat)
    ensures Due(start, e, c) == start + c * e
  {
    if c > 0 {
      DueIsMultiple(start, e, c - 1);
      assert c * e == (c - 1) * e + e;
    }
  }

  lemma {:induction false} DueMonotone(start: nat, e: nat, b: nat, c: nat)
    requires b <= c
    ensures Due(start, e, b) <= Due(start, e, c)
  {
    if b < c { DueMonotone(start, e, b, c - 1); }
  }

  /** `start + e`, `start + 2 * e`, ..., `start + count * e`. */
  ghost function Multiples(start: nat, e: nat, count: nat): (r: seq<nat>) {
    if count == 0 then [] else Multiples(start, e, count - 1) + [Due(start, e, count)]
  }

  /** A timer that has been called `c` times and waits for the next call, or is done. */
  ghost function Waiting(start: nat, e: nat, times: int, c: nat): (s: Armed) {
    if c == times then Idle else Armed(Due(start, e, c + 1), e, if times == TIMER_INFINITE then times else times - c)
  }

  /**
   A timer added at tick `start` with `e` > 0 and `times` calls is called exactly at start + e,
   start + 2e, ..., start + times * e as far as these lie before start + n; one that repeats for
   ever at all multiples. `c` is how many there are.
   */
  lemma {:induction false} FiresExactly(start: nat, e: nat, times: int, n: nat) returns (c: nat)
    requires e > 0 && (times > 0 || times == TIMER_INFINITE)
    ensures var s := Armed(start + e, e, times);
      AfterTicks(s, start, n) == Waiting(start, e, times, c) && FireTimes(s, start, n) == Multiples(start, e, c)
    ensures times > 0 ==> c <= times
    ensures c > 0 ==> Due(start, e, c) < start + n
    ensures c != times ==> start + n <= Due(start, e, c + 1)
  {
    if n == 0 {
      c := 0;
    } else {
      c := FiresExactly(start, e, times, n - 1);
      if FiresAt(AfterTicks(Armed(start + e, e, times), start, n - 1), start + n - 1) {
        c := c + 1;
      }
    }
  }

  /** Once its last multiple has passed, a timer has been called all its times. */
  lemma FiresAllTimes(start: nat, e: nat, times: nat, n: nat)
    requires e > 0 && times > 0 && n > times * e
    ensures FireTimes(Armed(start + e, e, times), start, n) == Multiples(start, e, times)
    ensures AfterTicks(Armed(start + e, e, times), start, n) == Idle
  {
    var c := FiresExactly(start, e, times, n);
    DueIsMultiple(start, e, times);
    if c != times { DueMonotone(start, e, c + 1, times); }
  }

  // ---------------------------------------------------------------------------------------------
  // The log
  // ---------------------------------------------------------------------------------------------

  /** When handler `h` was called, in order. */
  ghost function LogOf(log: seq<Fire>, h: Id): (r: seq<nat>) {
    if log == [] then []
    else
      var last := log[|log| - 1];
      LogOf(log[..|log| - 1], h) + if last.id == h then [last.at] else []
  }

  lemma {:induction false} LogAppend(a: seq<Fire>, b: seq<Fire>, h: Id)
    ensures LogOf(a + b, h) == LogOf(a, h) + LogOf(b, h)
  {
    if b == [] {
      assert a + b == a;
    } else {
      LogAppend(a, b[..|b| - 1], h);
      assert (a + b)[..|a + b| - 1] == a + b[..|b| - 1];
    }
  }

  /** The calls of one tick, seen from one handler. */
  lemma {:induction false} LogOfTick(fired: seq<Fire>, h: Id, now: nat)
    requires NoDuplicates(fired) && forall f :: f in fired ==> f.at == now
    ensures LogOf(fired, h) == if Fire(h, now) in fired then [now] else []
  {
    if fired != [] {
      var n := |fired| - 1;
      assert fired == fired[..n] + [fired[n]];
      LogOfTick(fired[..n], h, now);
    }
  }

  /** One tick more. */
  lemma LogGrows(log: seq<Fire>, fired: seq<Fire>, h: Id, before: seq<nat>, s: Armed, start: nat, n: nat)
    requires LogOf(log, h) == before + FireTimes(s, start, n)
    requires NoDuplicates(fired) && forall f :: f in fired ==> f.at == start + n
    requires Fire(h, start + n) in fired <==> FiresAt(AfterTicks(s, start, n), start + n)
    ensures LogOf(log + fired, h) == before + FireTimes(s, start, n + 1)
    ensures AfterTicks(s, start, n + 1) == AfterTick(AfterTicks(s, start, n), start + n)
  {
    hide *;
    OneTick(s, start, n);
    LogAppend(log, fired, h);
    LogOfTick(fired, h, start + n);
    AppendAssoc(before, FireTimes(s, start, n), LogOf(fired, h));
  }

  lemma OneTick(s: Armed, start: nat, n: nat)
    ensures FireTimes(s, start, n + 1)
            == FireTimes(s, start, n) + if FiresAt(AfterTicks(s, start, n), start + n) then [start + n] else []
    ensures AfterTicks(s, start, n + 1) == AfterTick(AfterTicks(s, start, n), start + n)
  {
  }

  lemma AppendAssoc(a: seq<nat>, b: seq<nat>, c: seq<nat>)
    ensures a + b + c == a + (b + c)
  {
  }

  /** The calls of tick `now` for the timers of one bucket, in the order of the bucket. */
  ghost function DueCalls(bucket: seq<Id>, handlers: map<Id, Handler>, now: nat): (r: seq<Fire>) {
    if bucket == [] then []
    else
      var last := bucket[|bucket| - 1];
      DueCalls(bucket[..|bucket| - 1], handlers, now)
      + if last in handlers && handlers[last].jiffies == now then [Fire(last, now)] else []
  }

  lemma NoCalls(handlers: map<Id, Handler>, now: nat)
    ensures DueCalls([], handlers, now) == []
  {
  }

  lemma NextCall(bucket: seq<Id>, handlers: map<Id, Handler>, now: nat, i: nat)
    requires i < |bucket|
    ensures DueCalls(bucket[..i + 1], handlers, now)
            == DueCalls(bucket[..i], handlers, now)
            + if bucket[i] in handlers && handlers[bucket[i]].jiffies == now then [Fire(bucket[i], now)] else []
  {
    assert bucket[..i + 1][..i] == bucket[..i];
  }

  lemma {:induction false} CallsAreDue(bucket: seq<Id>, handlers: map<Id, Handler>, now: nat)
    requires NoDuplicates(bucket)
    ensures var r := DueCalls(bucket, handlers, now);
      NoDuplicates(r) && forall f :: f in r <==> f.at == now && f.id in bucket && f.id in handlers && handlers[f.id].jiffies == now
  {
    if bucket != [] {
      var n := |bucket| - 1;
      assert bucket == bucket[..n] + [bucket[n]];
      CallsAreDue(bucket[..n], handlers, now);
    }
  }

  /** Of two timers due in the same tick the one that was armed later, and so stands further in front, is called first. */
  lemma {:induction false} LaterArmedFirst(bucket: seq<Id>, handlers: map<Id, Handler>, now: nat, i: nat, j: nat) returns (m: nat, n: nat)
    requires i < j < |bucket| && bucket[i] in handlers && bucket[j] in handlers
    requires handlers[bucket[i]].jiffies == now == handlers[bucket[j]].jiffies
    ensures m < n < |DueCalls(bucket, handlers, now)|
    ensures DueCalls(bucket, handlers, now)[m] == Fire(bucket[i], now) && DueCalls(bucket, handlers, now)[n] == Fire(bucket[j], now)
  {
    var rest := bucket[..|bucket| - 1];
    if j < |rest| {
      m, n := LaterArmedFirst(rest, handlers, now, i, j);
    } else {
      m := CallOf(rest, handlers, now, i);
      n := |DueCalls(rest, handlers, now)|;
    }
  }

  lemma {:induction false} CallOf(bucket: seq<Id>, handlers: map<Id, Handler>, now: nat, i: nat) returns (m: nat)
    requires i < |bucket| && bucket[i] in handlers && handlers[bucket[i]].jiffies == now
    ensures m < |DueCalls(bucket, handlers, now)| && DueCalls(bucket, handlers, now)[m] == Fire(bucket[i], now)
  {
    var rest := bucket[..|bucket| - 1];
    if i < |rest| {
      m := CallOf(rest, handlers, now, i);
    } else {
      m := |DueCalls(rest, handlers, now)|;
    }
  }

  // ---------------------------------------------------------------------------------------------
  // The wheel
  // ---------------------------------------------------------------------------------------------

  class TimerWheel {
    var jiffies: nat
    var lists: seq<seq<Id>>
    var handlers: map<Id, Handler>
    ghost var log: seq<Fire>

    ghost predicate OnList(h: Id)
      reads this
    {
      h in handlers && |lists| == NR_TIMER_LISTS && h in lists[handlers[h].jiffies % NR_TIMER_LISTS]
    }

    /** What the wheel means for one handler. */
    ghost function State(h: Id): (s: Armed)
      reads this
    {
      if OnList(h) then Armed(handlers[h].jiffies, handlers[h].expires, handlers[h].times) else Idle
    }

    /** Each bucket holds armed handlers of its remainder, once, and no deadline has been missed. */
    ghost predicate Buckets(now: nat)
      reads this
    {
      && |lists| == NR_TIMER_LISTS
      && (forall b :: 0 <= b < NR_TIMER_LISTS ==> NoDuplicates(lists[b]))
      && (forall b, h :: 0 <= b < NR_TIMER_LISTS && h in lists[b] ==>
        && h in handlers && handlers[h].jiffies % NR_TIMER_LISTS == b
        && handlers[h].jiffies >= now && handlers[h].expires > 0 && handlers[h].times != 0)
    }

    ghost predicate Valid()
      reads this
    {
      Buckets(jiffies)
    }

    /** timer_init. */
    constructor ()
      ensures Valid() && jiffies == 0 && handlers == map[] && log == []
    {
      jiffies, lists, handlers, log := 0, seq(NR_TIMER_LISTS, _ => []), map[], [];
    }

    /** add_timer of a handler that is not on a list. */
    method AddTimer(h: Id)
      requires Valid() && h in handlers && State(h) == Idle
      requires !(handlers[h].expires == 0 && handlers[h].times == TIMER_INFINITE)
      modifies this
      ensures Valid() && jiffies == old(jiffies)
      ensures var k := old(handlers)[h];
        if k.times == 0 then State(h) == Idle && log == old(log)
        else if k.expires == 0 then State(h) == Idle && log == old(log) + [Fire(h, jiffies)]
        else
          && State(h) == Armed(jiffies + k.expires, k.expires, k.times) && log == old(log)
          && var b := (k.expires + jiffies) % NR_TIMER_LISTS;
             |old(lists)| == NR_TIMER_LISTS && lists == old(lists)[b := [h] + old(lists)[b]]
      ensures forall g :: g != h ==> State(g) == old(State(g))
    {
      if handlers[h].times == 0 {
        return;
      }
      if handlers[h].expires == 0 {
        log := log + [Fire(h, jiffies)];
      } else {
        Insert(h);
      }
    }

    /** The arming part of add_timer: list_add to the bucket of the new deadline. */
    method Insert(h: Id)
      requires Valid() && h in handlers && (forall b :: 0 <= b < NR_TIMER_LISTS ==> h !in lists[b])
      requires handlers[h].expires > 0 && handlers[h].times != 0
      modifies this`handlers, this`lists
      ensures Valid()
      ensures State(h) == Armed(jiffies + old(handlers)[h].expires, old(handlers)[h].expires, old(handlers)[h].times)
      ensures forall g :: g != h ==> State(g) == old(State(g)) && (g in handlers <==> g in old(handlers))
      ensures forall g :: g != h && g in handlers ==> handlers[g] == old(handlers)[g]
      ensures var b := (old(handlers)[h].expires + jiffies) % NR_TIMER_LISTS;
              |old(lists)| == NR_TIMER_LISTS && lists == old(lists)[b := [h] + old(lists)[b]]
    {
      var k := handlers[h];
      handlers := handlers[h := k.(jiffies := k.expires + jiffies)];
      var b := handlers[h].jiffies % NR_TIMER_LISTS;
      PushMembers(lists[b], h);
      lists := lists[b := [h] + lists[b]];
    }

    /** del_timer; a handler on no list stays on none. */
    method DelTimer(h: Id)
      requires Valid() && h in handlers
      modifies this`lists
      ensures Valid() && State(h) == Idle && (forall b :: 0 <= b < NR_TIMER_LISTS ==> h !in lists[b])
      ensures forall g :: g != h ==> State(g) == old(State(g))
      ensures forall b, g :: 0 <= b < NR_TIMER_LISTS && g != h ==> (g in lists[b] <==> g in old(lists)[b])
    {
      var b := handlers[h].jiffies % NR_TIMER_LISTS;
      WithoutMembers(lists[b], h);
      lists := lists[b := Without(lists[b], h)];
    }

    /** The body of do_timer's walk for a handler whose deadline is now. */
    method Expire(h: Id)
      requires Valid() && FiresAt(State(h), jiffies)
      modifies this
      ensures Valid() && jiffies == old(jiffies) && log == old(log) + [Fire(h, jiffies)]
      ensures State(h) == AfterTick(old(State(h)), jiffies)
      ensures forall g :: g != h ==> State(g) == old(State(g))
    {
      log := log + [Fire(h, jiffies)];
      var k := handlers[h];
      DelTimer(h);
      if k.times != TIMER_INFINITE {
        handlers := handlers[h := k.(times := k.times - 1)];
      }
      if handlers[h].times != 0 {
        Insert(h);
      }
    }

    /** do_timer: every timer takes its tick, and the calls are exactly those due now, once each. */
    method DoTimer() returns (ghost fired: seq<Fire>)
      requires Valid()
      modifies this
      ensures Valid() && jiffies == old(jiffies) + 1
      ensures forall g :: State(g) == AfterTick(old(State(g)), old(jiffies))
      ensures log == old(log) + fired && NoDuplicates(fired)
      ensures forall f :: f in fired <==> f.at == old(jiffies) && FiresAt(old(State(f.id)), old(jiffies))
      ensures |old(lists)| == NR_TIMER_LISTS && fired == DueCalls(old(lists)[old(jiffies) % NR_TIMER_LISTS], old(handlers), old(jiffies))
    {
      hide DueCalls;
      var now := jiffies;
      var walk := lists[now % NR_TIMER_LISTS];
      fired := [];
      NoCalls(old(handlers), now);
      for i := 0 to |walk|
        invariant Valid() && jiffies == now
        invariant forall g :: State(g) == if g in walk[..i] then AfterTick(old(State(g)), now) else old(State(g))
        invariant log == old(log) + fired && fired == DueCalls(walk[..i], old(handlers), now)
      {
        var h := walk[i];
        assert h in walk && h !in walk[..i];
        assert walk[..i + 1] == walk[..i] + [h];
        NextCall(walk, old(handlers), now, i);
        assert old(State(h)).Armed?;
        assert now <= handlers[h].jiffies;
        if now == handlers[h].jiffies {
          Expire(h);
          fired := fired + [Fire(h, now)];
        }
      }
      assert walk[..|walk|] == walk;
      CallsAreDue(walk, old(handlers), now);
      forall g ensures State(g) == AfterTick(old(State(g)), now) && (State(g).Armed? ==> State(g).deadline > now) {
        assert old(State(g)).Armed? ==> old(State(g)).expires > 0 && old(State(g)).deadline >= now;
      }
      forall b, g | 0 <= b < NR_TIMER_LISTS && g in lists[b] ensures handlers[g].jiffies > now {
        assert OnList(g) && State(g).Armed?;
      }
      jiffies := jiffies + 1;
    }

    lemma NoTicks(start: nat)
      ensures forall g :: AfterTicks(State(g), start, 0) == State(g) && LogOf(log, g) == LogOf(log, g) + FireTimes(State(g), start, 0)
    {
    }

    /** `n` timer interrupts: every timer is called when it is due, and the log says so. */
    method Ticks(n: nat)
      requires Valid()
      modifies this
      ensures Valid() && jiffies == old(jiffies) + n
      ensures forall g :: State(g) == AfterTicks(old(State(g)), old(jiffies), n)
      ensures forall g :: LogOf(log, g) == LogOf(old(log), g) + FireTimes(old(State(g)), old(jiffies), n)
    {
      hide TimerWheel.Buckets, TimerWheel.OnList, TimerWheel.State, LogOf, FireTimes, AfterTick, AfterTicks, NoDuplicates, FiresAt;
      NoTicks(old(jiffies));
      for i: nat := 0 to n
        invariant Valid() && jiffies == old(jiffies) + i
        invariant forall g :: State(g) == AfterTicks(old(State(g)), old(jiffies), i)
        invariant forall g :: LogOf(log, g) == LogOf(old(log), g) + FireTimes(old(State(g)), old(jiffies), i)
      {
        ghost var was := log;
        label Tick:
        ghost var fired := DoTimer();
        forall g
          ensures LogOf(log, g) == LogOf(old(log), g) + FireTimes(old(State(g)), old(jiffies), i + 1)
          ensures State(g) == AfterTicks(old(State(g)), old(jiffies), i + 1)
        {
          assert old@Tick(State(g)) == AfterTicks(old(State(g)), old(jiffies), i);
          LogGrows(was, fired, g, LogOf(old(log), g), old(State(g)), old(jiffies), i);
        }
      }
    }

    /**
     A timer that is added and then left alone for `n` ticks is called at the multiples of its period
     that lie in them, `c` of them, and at no other time.
     */
    method AddThenTick(h: Id, n: nat) returns (ghost c: nat)
      requires Valid() && h in handlers && State(h) == Idle
      requires handlers[h].expires > 0 && (handlers[h].times > 0 || handlers[h].times == TIMER_INFINITE)
      modifies this
      ensures Valid() && jiffies == old(jiffies) + n
      ensures var k := old(handlers)[h];
              && LogOf(log, h) == LogOf(old(log), h) + Multiples(old(jiffies), k.expires, c)
              && State(h) == Waiting(old(jiffies), k.expires, k.times, c)
              && (k.times > 0 ==> c <= k.times)
              && (c > 0 ==> Due(old(jiffies), k.expires, c) < old(jiffies) + n)
              && (c != k.times ==> old(jiffies) + n <= Due(old(jiffies), k.expires, c + 1))
    {
      hide TimerWheel.Buckets;
      c := FiresExactly(jiffies, handlers[h].expires, handlers[h].times, n);
      AddTimer(h);
      Ticks(n);
    }
  }
}
