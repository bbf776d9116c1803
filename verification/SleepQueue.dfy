/** Threads that sleep until a timer tick: the ordered queue, the interrupt that wakes them, and every
    interleaving of the two. */
module SleepQueue {
  import opened Common

  datatype Sleeper = Sleeper(wakeTime: int, thread: Tid)

  predicate Sorted(q: seq<Sleeper>) { forall i, j :: 0 <= i < j < |q| ==> q[i].wakeTime <= q[j].wakeTime }

  /** list_insert_ordered goes in front of the first element that is greater. */
  function Position(q: seq<Sleeper>, s: Sleeper): (k: nat)
    ensures k <= |q|
  {
    if q == [] || s.wakeTime < q[0].wakeTime then 0 else 1 + Position(q[1..], s)
  }

  function Insert(q: seq<Sleeper>, s: Sleeper): seq<Sleeper> {
    q[..Position(q, s)] + [s] + q[Position(q, s)..]
  }

  /** How many sleepers at the front are due at tick `t`. */
  function Due(q: seq<Sleeper>, t: int): (k: nat)
    ensures k <= |q|
  {
    if q == [] || t < q[0].wakeTime then 0 else 1 + Due(q[1..], t)
  }

  lemma {:induction false} PositionIs(q: seq<Sleeper>, s: Sleeper)
    ensures forall i :: 0 <= i < Position(q, s) ==> q[i].wakeTime <= s.wakeTime
    ensures Position(q, s) < |q| ==> s.wakeTime < q[Position(q, s)].wakeTime
  {
    if q != [] && q[0].wakeTime <= s.wakeTime {
      PositionIs(q[1..], s);
      assert q == [q[0]] + q[1..];
    }
  }

  lemma {:induction false} DueIs(q: seq<Sleeper>, t: int)
    ensures forall i :: 0 <= i < Due(q, t) ==> q[i].wakeTime <= t
    ensures Due(q, t) < |q| ==> t < q[Due(q, t)].wakeTime
  {
    if q != [] && q[0].wakeTime <= t {
      DueIs(q[1..], t);
      assert q == [q[0]] + q[1..];
    }
  }

  lemma SpliceSorted(q: seq<Sleeper>, k: nat, s: Sleeper)
    requires Sorted(q) && k <= |q|
    requires (k > 0 ==> q[k - 1].wakeTime <= s.wakeTime) && (k < |q| ==> s.wakeTime < q[k].wakeTime)
    ensures Sorted(q[..k] + [s] + q[k..])
  {
    var q' := q[..k] + [s] + q[k..];
    forall i, j | 0 <= i < j < |q'| ensures q'[i].wakeTime <= q'[j].wakeTime {
      assert i < k ==> q[i].wakeTime <= q[k - 1].wakeTime;
      assert j > k ==> q[k].wakeTime <= q[j - 1].wakeTime;
    }
  }

  lemma InsertSorted(q: seq<Sleeper>, s: Sleeper)
    requires Sorted(q)
    ensures Sorted(Insert(q, s))
    ensures forall x :: x in Insert(q, s) <==> x in q || x == s
  {
    var k := Position(q, s);
    PositionIs(q, s);
    SpliceSorted(q, k, s);
    hide Sorted, Position;
    assert q == q[..k] + q[k..];
  }

  /** In a sorted queue, the sleepers that are due are exactly those at the front. */
  lemma DueIffFront(q: seq<Sleeper>, t: int, i: nat)
    requires Sorted(q) && i < |q|
    ensures q[i].wakeTime <= t <==> i < Due(q, t)
  {
    DueIs(q, t);
  }

  class Timer {
    var ticks: int
    var sleepingThreadQueue: seq<Sleeper>
    var unblocked: seq<Tid>   // the threads that thread_unblock has been called on, in order

    constructor TimerInit()
      ensures ticks == 0 && sleepingThreadQueue == [] && unblocked == []
    {
      ticks, sleepingThreadQueue, unblocked := 0, [], [];
    }

    method AddToSleepingQueue(s: Sleeper)
      modifies this`sleepingThreadQueue
      ensures sleepingThreadQueue == Insert(old(sleepingThreadQueue), s)
    {
      var q, k := sleepingThreadQueue, 0;
      while k < |q| && !(s.wakeTime < q[k].wakeTime)
        invariant 0 <= k <= |q|
        invariant Position(q, s) == k + Position(q[k..], s)
      {
        assert q[k..][1..] == q[k + 1..];
        k := k + 1;
      }
      sleepingThreadQueue := q[..k] + [s] + q[k..];
    }

    method RemoveFromSleepingQueue(currentTime: int) returns (thread: Option<Tid>)
      modifies this`sleepingThreadQueue
      ensures thread.None? <==> Due(old(sleepingThreadQueue), currentTime) == 0
      ensures thread.None? ==> sleepingThreadQueue == old(sleepingThreadQueue)
      ensures thread.Some? ==>
        && old(sleepingThreadQueue) != [] && thread.value == old(sleepingThreadQueue)[0].thread
        && sleepingThreadQueue == old(sleepingThreadQueue)[1..]
    {
      if sleepingThreadQueue == [] {
        return None;
      }
      if sleepingThreadQueue[0].wakeTime <= currentTime {
        thread := Some(sleepingThreadQueue[0].thread);
        sleepingThreadQueue := sleepingThreadQueue[1..];
      } else {
        thread := None;
      }
    }

    method TimerInterrupt()
      modifies this
      ensures ticks == old(ticks) + 1
      ensures var k := Due(old(sleepingThreadQueue), ticks);
              && sleepingThreadQueue == old(sleepingThreadQueue)[k..]
              && unblocked == old(unblocked) + Threads(old(sleepingThreadQueue)[..k])
    {
      ticks := ticks + 1;
      ghost var q, j, k := sleepingThreadQueue, 0, Due(sleepingThreadQueue, ticks);
      var wokeThread := RemoveFromSleepingQueue(ticks);
      while wokeThread != None
        modifies this`sleepingThreadQueue, this`unblocked
        invariant 0 <= j <= k && unblocked == old(unblocked) + Threads(q[..j])
        invariant wokeThread.None? ==> j == k && sleepingThreadQueue == q[j..]
        invariant wokeThread.Some? ==> j < k && wokeThread.value == q[j].thread && sleepingThreadQueue == q[j + 1..]
        decreases k - j, wokeThread.Some?
      {
        unblocked := unblocked + [wokeThread.value];
        assert q[..j + 1] == q[..j] + [q[j]];
        ThreadsSnoc(q[..j], q[j]);
        j := j + 1;
        DueTail(q, ticks, j);
        wokeThread := RemoveFromSleepingQueue(ticks);
      }
    }
  }

  lemma {:induction false} DueTail(q: seq<Sleeper>, t: int, j: nat)
    requires j <= Due(q, t)
    ensures Due(q[j..], t) == Due(q, t) - j
  {
    if j == 0 {
      assert q[0..] == q;
    } else {
      DueTail(q[1..], t, j - 1);
      assert q[1..][j - 1..] == q[j..];
    }
  }

  function Threads(q: seq<Sleeper>): seq<Tid> {
    seq(|q|, i requires 0 <= i < |q| => q[i].thread)
  }

  lemma ThreadsSnoc(q: seq<Sleeper>, s: Sleeper)
    ensures Threads(q + [s]) == Threads(q) + [s.thread]
  {
  }

  // ---------- every interleaving of timer_sleep and timer_interrupt ----------

  /** timer_sleep (n) reads the ticks and joins the queue in two steps, with interrupts possible in between. */
  datatype Pc = Running | Starting(start: int, n: int) | Sleeping(start: int, n: int, since: int)

  datatype Event = Slept(thread: Tid, start: int, n: int, at: int) | Woken(thread: Tid, start: int, n: int, since: int, at: int)

  datatype State = State(pc: map<Tid, Pc>, ticks: int, queue: seq<Sleeper>, log: seq<Event>)

  datatype Action = CallSleep(t: Tid, n: int) | Block(t: Tid) | Interrupt

  function Init(threads: set<Tid>): State { State(map t | t in threads :: Running, 0, [], []) }

  predicate Enabled(s: State, a: Action) {
    match a
    case CallSleep(t, _) => t in s.pc && s.pc[t].Running?
    case Block(t) => t in s.pc && s.pc[t].Starting?
    case Interrupt => true
  }

  /** The thread at the front of the queue is unblocked; thread_unblock asserts that it is blocked. */
  function WakeFirst(s: State): State
    requires s.queue != [] && s.queue[0].thread in s.pc && s.pc[s.queue[0].thread].Sleeping?
  {
    var t := s.queue[0].thread;
    var p := s.pc[t];
    s.(queue := s.queue[1..], pc := s.pc[t := Running], log := s.log + [Woken(t, p.start, p.n, p.since, s.ticks)])
  }

  function WakeDue(s: State): State
    decreases |s.queue|
  {
    if s.queue == [] || s.ticks < s.queue[0].wakeTime then s
    else if s.queue[0].thread !in s.pc || !s.pc[s.queue[0].thread].Sleeping? then s
    else WakeDue(WakeFirst(s))
  }

  function JoinQueue(s: State, t: Tid): State
    requires t in s.pc && s.pc[t].Starting?
  {
    var p := s.pc[t];
    s.(queue := Insert(s.queue, Sleeper(p.start + p.n, t)), pc := s.pc[t := Sleeping(p.start, p.n, s.ticks)],
       log := s.log + [Slept(t, p.start, p.n, s.ticks)])
  }

  function Step(s: State, a: Action): State
    requires Enabled(s, a)
  {
    match a
    case CallSleep(t, n) => s.(pc := s.pc[t := Starting(s.ticks, n)])
    case Block(t) => JoinQueue(s, t)
    case Interrupt => WakeDue(s.(ticks := s.ticks + 1))
  }

  ghost predicate IsRun(s: State, run: seq<Action>)
    decreases |run|
  {
    run == [] || (Enabled(s, run[0]) && IsRun(Step(s, run[0]), run[1..]))
  }

  ghost function After(s: State, run: seq<Action>): State
    requires IsRun(s, run)
    decreases |run|
  {
    if run == [] then s else After(Step(s, run[0]), run[1..])
  }

  /** The last event of thread `t`. */
  function Last(log: seq<Event>, t: Tid): Option<Event>
    decreases |log|
  {
    if log == [] then None
    else if log[|log| - 1].thread == t then Some(log[|log| - 1])
    else Last(log[..|log| - 1], t)
  }

  /** A thread joins the queue only when it is not on it; it is unblocked only when it has joined and has not been
      unblocked since, and exactly at its wake time, or at the first tick after it joined if that is later. */
  ghost predicate EventOk(log: seq<Event>, i: nat)
    requires i < |log|
  {
    match log[i]
    case Slept(t, start, _, at) => start <= at && (Last(log[..i], t).None? || Last(log[..i], t).value.Woken?)
    case Woken(t, start, n, since, at) =>
      Last(log[..i], t) == Some(Slept(t, start, n, since)) && at == Max(start + n, since + 1)
  }

  ghost predicate Queued(q: seq<Sleeper>, t: Tid, wake: int) {
    exists i :: 0 <= i < |q| && q[i] == Sleeper(wake, t)
  }

  predicate Distinct(q: seq<Sleeper>) { forall i, j :: 0 <= i < j < |q| ==> q[i].thread != q[j].thread }

  /** Who is on the queue sleeps until the time noted there. */
  predicate Agrees(pc: map<Tid, Pc>, q: seq<Sleeper>) {
    forall x :: x in q ==>
      x.thread in pc && pc[x.thread].Sleeping? && x.wakeTime == pc[x.thread].start + pc[x.thread].n
  }

  /** Who sleeps is on the queue. */
  ghost predicate Covered(pc: map<Tid, Pc>, q: seq<Sleeper>) {
    forall t :: t in pc && pc[t].Sleeping? ==> Queued(q, t, pc[t].start + pc[t].n)
  }

  /** The queue is sorted and holds exactly the sleeping threads, each once. */
  ghost predicate QueueInv(s: State) {
    Sorted(s.queue) && Distinct(s.queue) && Agrees(s.pc, s.queue) && Covered(s.pc, s.queue)
  }

  /** Nobody on the queue is overdue: at the time `now` a sleeper is due later, or has joined just now.
      While an interrupt runs, `now` is still the tick before it. */
  ghost predicate TimeInv(s: State, now: int) {
    forall t :: t in s.pc ==>
      match s.pc[t]
      case Running => true
      case Starting(start, _) => start <= now
      case Sleeping(start, n, since) => start <= since <= now && (start + n > now || since == now)
  }

  ghost predicate LogInv(s: State) {
    && (forall i :: 0 <= i < |s.log| ==> EventOk(s.log, i))
    && (forall t :: t in s.pc ==>
          if s.pc[t].Sleeping? then Last(s.log, t) == Some(Slept(t, s.pc[t].start, s.pc[t].n, s.pc[t].since))
          else Last(s.log, t).None? || Last(s.log, t).value.Woken?)
  }

  ghost predicate Inv(s: State, now: int) { QueueInv(s) && TimeInv(s, now) && LogInv(s) }

  lemma LogStep(s: State, s': State, t: Tid, ev: Event)
    requires LogInv(s) && t in s.pc && s'.log == s.log + [ev] && ev.thread == t
    requires s'.pc.Keys == s.pc.Keys && forall u :: u in s.pc && u != t ==> s'.pc[u] == s.pc[u]
    requires match ev
      case Slept(_, start, n, at) => !s.pc[t].Sleeping? && start <= at && s'.pc[t] == Sleeping(start, n, at)
      case Woken(_, start, n, since, at) =>
        s.pc[t] == Sleeping(start, n, since) && at == Max(start + n, since + 1) && s'.pc[t].Running?
    ensures LogInv(s')
  {
    var l, l' := s.log, s'.log;
    assert l'[..|l|] == l;
    forall i | 0 <= i < |l'| ensures EventOk(l', i) {
      assert l'[..i] == l[..i];
      assert i < |l| ==> EventOk(l, i);
    }
    forall u | u in s'.pc
      ensures if s'.pc[u].Sleeping? then Last(l', u) == Some(Slept(u, s'.pc[u].start, s'.pc[u].n, s'.pc[u].since))
              else Last(l', u).None? || Last(l', u).value.Woken?
    {
      assert Last(l', u) == if u == t then Some(ev) else Last(l, u);
    }
  }

  lemma FirstSleeps(s: State, now: int)
    requires QueueInv(s) && TimeInv(s, now) && s.ticks == now + 1 && s.queue != [] && s.queue[0].wakeTime <= s.ticks
    ensures var t := s.queue[0].thread;
            && t in s.pc && s.pc[t].Sleeping?
            && s.ticks == Max(s.pc[t].start + s.pc[t].n, s.pc[t].since + 1)
  {
    hide Sorted, Distinct, Queued;
    assert s.queue[0] in s.queue;
  }

  lemma TailQueued(q: seq<Sleeper>, t: Tid, wake: int)
    requires Queued(q, t, wake) && q[0].thread != t
    ensures Queued(q[1..], t, wake)
  {
    var i :| 0 <= i < |q| && q[i] == Sleeper(wake, t);
    assert q[1..][i - 1] == q[i];
  }

  lemma TailCovered(pc: map<Tid, Pc>, q: seq<Sleeper>)
    requires Covered(pc, q) && Agrees(pc, q) && Distinct(q) && q != []
    ensures Agrees(pc[q[0].thread := Running], q[1..]) && Covered(pc[q[0].thread := Running], q[1..])
  {
    var t := q[0].thread;
    assert forall i :: 0 <= i < |q[1..]| ==> q[1..][i] == q[i + 1] && q[1..][i].thread != t;
    assert forall x :: x in q[1..] ==> x in q && x.thread != t;
    hide Queued, Distinct;
    forall u | u in pc && u != t && pc[u].Sleeping? ensures Queued(q[1..], u, pc[u].start + pc[u].n) {
      TailQueued(q, u, pc[u].start + pc[u].n);
    }
  }

  lemma WakeFirstQueue(s: State)
    requires QueueInv(s) && s.queue != [] && s.queue[0].thread in s.pc && s.pc[s.queue[0].thread].Sleeping?
    ensures QueueInv(WakeFirst(s))
  {
    TailCovered(s.pc, s.queue);
    hide Agrees, Covered;
  }

  lemma WakeFirstInv(s: State, now: int)
    requires Inv(s, now) && s.ticks == now + 1 && s.queue != [] && s.queue[0].wakeTime <= s.ticks
    ensures s.queue[0].thread in s.pc && s.pc[s.queue[0].thread].Sleeping?
    ensures Inv(WakeFirst(s), now)
  {
    FirstSleeps(s, now);
    WakeFirstQueue(s);
    hide QueueInv, LogInv, Last;
    var s' := WakeFirst(s);
    LogStep(s, s', s.queue[0].thread, s'.log[|s.log|]);
  }

  lemma {:induction false} WakeDueInv(s: State, now: int)
    requires Inv(s, now) && s.ticks == now + 1
    ensures Inv(WakeDue(s), now + 1) && WakeDue(s).ticks == s.ticks
    ensures WakeDue(s).queue == s.queue[Due(s.queue, s.ticks)..]
    decreases |s.queue|
  {
    if s.queue == [] || s.ticks < s.queue[0].wakeTime {
      NoneDue(s, now);
    } else {
      WakeFirstInv(s, now);
      hide Inv;
      WakeDueInv(WakeFirst(s), now);
      DueTail(s.queue, s.ticks, 1);
    }
  }

  function ThreadsOf(log: seq<Event>): seq<Tid> {
    seq(|log|, i requires 0 <= i < |log| => log[i].thread)
  }

  lemma ThreadsCons(q: seq<Sleeper>, k: nat)
    requires 0 < k <= |q|
    ensures Threads(q[..k]) == [q[0].thread] + Threads(q[1..][..k - 1])
  {
  }

  lemma WakeFirstThreads(s: State)
    requires s.queue != [] && s.queue[0].thread in s.pc && s.pc[s.queue[0].thread].Sleeping?
    ensures ThreadsOf(WakeFirst(s).log) == ThreadsOf(s.log) + [s.queue[0].thread]
    ensures WakeFirst(s).queue == s.queue[1..] && WakeFirst(s).ticks == s.ticks
  {
  }

  /** The step wakes the same threads, in the same order, as Timer.TimerInterrupt. */
  lemma {:induction false} WakeDueThreads(s: State, now: int)
    requires Inv(s, now) && s.ticks == now + 1
    ensures ThreadsOf(WakeDue(s).log) == ThreadsOf(s.log) + Threads(s.queue[..Due(s.queue, s.ticks)])
    decreases |s.queue|
  {
    if !(s.queue == [] || s.ticks < s.queue[0].wakeTime) {
      WakeFirstInv(s, now);
      var s1 := WakeFirst(s);
      WakeFirstThreads(s);
      assert WakeDue(s) == WakeDue(s1);
      assert Due(s.queue, s.ticks) >= 1;
      DueTail(s.queue, s.ticks, 1);
      ThreadsCons(s.queue, Due(s.queue, s.ticks));
      hide Inv, ThreadsOf, Threads, WakeFirst, WakeDue, Due;
      WakeDueThreads(s1, now);
    }
  }

  lemma NoneDue(s: State, now: int)
    requires Inv(s, now) && s.ticks == now + 1 && (s.queue == [] || s.ticks < s.queue[0].wakeTime)
    ensures Inv(s, now + 1)
  {
    hide LogInv;
    forall t | t in s.pc && s.pc[t].Sleeping? ensures s.pc[t].start + s.pc[t].n > now + 1 {
      assert Queued(s.queue, t, s.pc[t].start + s.pc[t].n);
    }
  }

  lemma InsertDistinct(q: seq<Sleeper>, x: Sleeper)
    requires Distinct(q) && forall i :: 0 <= i < |q| ==> q[i].thread != x.thread
    ensures Distinct(Insert(q, x))
  {
  }

  lemma InsertQueued(q: seq<Sleeper>, x: Sleeper, t: Tid, wake: int)
    requires Queued(q, t, wake) || x == Sleeper(wake, t)
    ensures Queued(Insert(q, x), t, wake)
  {
    var k, q' := Position(q, x), Insert(q, x);
    assert q'[k] == x;
    if x != Sleeper(wake, t) {
      var i :| 0 <= i < |q| && q[i] == Sleeper(wake, t);
      assert q'[if i < k then i else i + 1] == q[i];
    }
  }

  lemma InsertCovered(pc: map<Tid, Pc>, q: seq<Sleeper>, t: Tid, p: Pc)
    requires Covered(pc, q) && t in pc && p.Sleeping?
    ensures Covered(pc[t := p], Insert(q, Sleeper(p.start + p.n, t)))
  {
    var x := Sleeper(p.start + p.n, t);
    hide Queued, Insert;
    forall u | u in pc && (u == t || pc[u].Sleeping?)
      ensures Queued(Insert(q, x), u, pc[t := p][u].start + pc[t := p][u].n)
    {
      InsertQueued(q, x, u, pc[t := p][u].start + pc[t := p][u].n);
    }
  }

  lemma InsertAgrees(pc: map<Tid, Pc>, q: seq<Sleeper>, t: Tid, p: Pc)
    requires Agrees(pc, q) && Distinct(q) && Sorted(q) && t in pc && !pc[t].Sleeping? && p.Sleeping?
    ensures var q' := Insert(q, Sleeper(p.start + p.n, t)); Agrees(pc[t := p], q') && Distinct(q') && Sorted(q')
  {
    var x := Sleeper(p.start + p.n, t);
    assert forall i :: 0 <= i < |q| ==> q[i] in q && q[i].thread != t;
    InsertSorted(q, x);
    InsertDistinct(q, x);
    hide Sorted, Distinct, Insert;
  }

  lemma JoinQueueOrder(s: State, t: Tid)
    requires QueueInv(s) && t in s.pc && s.pc[t].Starting?
    ensures QueueInv(JoinQueue(s, t))
  {
    hide Agrees, Covered, Sorted, Distinct, Insert;
    InsertCovered(s.pc, s.queue, t, Sleeping(s.pc[t].start, s.pc[t].n, s.ticks));
    InsertAgrees(s.pc, s.queue, t, Sleeping(s.pc[t].start, s.pc[t].n, s.ticks));
  }

  lemma JoinQueueTime(s: State, t: Tid)
    requires TimeInv(s, s.ticks) && t in s.pc && s.pc[t].Starting?
    ensures TimeInv(JoinQueue(s, t), s.ticks)
  {
    hide Insert;
  }

  lemma JoinQueueInv(s: State, t: Tid)
    requires Inv(s, s.ticks) && t in s.pc && s.pc[t].Starting?
    ensures Inv(JoinQueue(s, t), s.ticks) && JoinQueue(s, t).ticks == s.ticks
  {
    var p := s.pc[t];
    JoinQueueOrder(s, t);
    JoinQueueTime(s, t);
    assert p.start <= s.ticks;
    hide QueueInv, TimeInv, LogInv, Last, Insert;
    LogStep(s, JoinQueue(s, t), t, Slept(t, p.start, p.n, s.ticks));
  }

  lemma CallSleepInv(s: State, t: Tid, n: int)
    requires Inv(s, s.ticks) && t in s.pc && s.pc[t].Running?
    ensures Inv(s.(pc := s.pc[t := Starting(s.ticks, n)]), s.ticks)
  {
    hide Sorted, Distinct, Queued, EventOk, Last;
  }

  lemma StepPreserves(s: State, a: Action)
    requires Inv(s, s.ticks) && Enabled(s, a)
    ensures Inv(Step(s, a), Step(s, a).ticks)
  {
    hide Inv, WakeDue, JoinQueue;
    match a {
      case CallSleep(t, n) => CallSleepInv(s, t, n);
      case Block(t) => JoinQueueInv(s, t);
      case Interrupt =>
        TickInv(s);
        WakeDueInv(s.(ticks := s.ticks + 1), s.ticks);
    }
  }

  lemma {:induction false} RunPreserves(s: State, run: seq<Action>)
    requires Inv(s, s.ticks) && IsRun(s, run)
    ensures Inv(After(s, run), After(s, run).ticks)
    decreases |run|
  {
    hide Inv, Step, Enabled;
    if run != [] {
      StepPreserves(s, run[0]);
      RunPreserves(Step(s, run[0]), run[1..]);
    }
  }

  // ---------- what a caller of timer_sleep sees ----------

  /** How often the timer has interrupted in the run. */
  function Ticks(run: seq<Action>): nat {
    if run == [] then 0 else (if run[0].Interrupt? then 1 else 0) + Ticks(run[1..])
  }

  /** Thread `t` starts no new sleep in the run. */
  predicate NoNewSleep(run: seq<Action>, t: Tid) {
    forall i :: 0 <= i < |run| ==> !(run[i].CallSleep? && run[i].t == t)
  }

  /** Thread `t` sleeps as it was told at tick `k`, having joined the queue at tick `j`, or has been woken in time. */
  predicate Tracked(s: State, t: Tid, k: int, n: int, j: int) {
    t in s.pc
    && match s.pc[t]
       case Running => s.ticks >= Max(k + n, j + 1)
       case Starting(_, _) => false
       case Sleeping(start, m, since) => start == k && m == n && since == j
  }

  lemma {:induction false} WakeDueOne(s: State, now: int, t: Tid)
    requires Inv(s, now) && s.ticks == now + 1 && t in s.pc
    ensures t in WakeDue(s).pc && WakeDue(s).ticks == s.ticks
    ensures WakeDue(s).pc[t] == s.pc[t]
         || (s.pc[t].Sleeping? && WakeDue(s).pc[t].Running? && s.ticks >= s.pc[t].start + s.pc[t].n)
    decreases |s.queue|
  {
    if !(s.queue == [] || s.ticks < s.queue[0].wakeTime) {
      WakeFirstInv(s, now);
      WakeFirstDue(s);
      var s1 := WakeFirst(s);
      assert WakeDue(s) == WakeDue(s1);
      assert t != s.queue[0].thread ==> s1.pc[t] == s.pc[t];
      assert t == s.queue[0].thread ==> s1.pc[t].Running?;
      hide Inv, WakeFirst, WakeDue;
      WakeDueOne(s1, now, t);
    }
  }

  lemma WakeFirstDue(s: State)
    requires QueueInv(s) && s.queue != [] && s.queue[0].wakeTime <= s.ticks
    ensures var u := s.queue[0].thread;
            u in s.pc && s.pc[u].Sleeping? && s.ticks >= s.pc[u].start + s.pc[u].n
    ensures s.pc[s.queue[0].thread].Sleeping? ==> |WakeFirst(s).queue| < |s.queue| && WakeFirst(s).ticks == s.ticks
  {
    hide Sorted, Distinct, Covered;
    assert s.queue[0] in s.queue;
  }

  lemma TrackedStep(s: State, a: Action, t: Tid, k: int, n: int, j: int)
    requires Inv(s, s.ticks) && Enabled(s, a) && Tracked(s, t, k, n, j) && !(a.CallSleep? && a.t == t)
    ensures Tracked(Step(s, a), t, k, n, j)
  {
    hide QueueInv, LogInv, WakeDue, Insert;
    if a.Interrupt? {
      TickInv(s);
      WakeDueOne(s.(ticks := s.ticks + 1), s.ticks, t);
    }
  }

  lemma StepTicks(s: State, a: Action)
    requires Inv(s, s.ticks) && Enabled(s, a)
    ensures Step(s, a).ticks == s.ticks + (if a.Interrupt? then 1 else 0) && Step(s, a).pc.Keys == s.pc.Keys
  {
    hide Inv, WakeDue, Insert;
    if a.Interrupt? {
      TickInv(s);
      var s1 := s.(ticks := s.ticks + 1);
      WakeDueInv(s1, s.ticks);
      WakeDueKeys(s1);
    }
  }

  lemma {:induction false} WakeDueKeys(s: State)
    ensures WakeDue(s).pc.Keys == s.pc.Keys
    decreases |s.queue|
  {
    if s.queue != [] && s.queue[0].wakeTime <= s.ticks && s.queue[0].thread in s.pc && s.pc[s.queue[0].thread].Sleeping? {
      WakeDueKeys(WakeFirst(s));
    }
  }

  lemma {:induction false} TicksRun(s: State, run: seq<Action>)
    requires Inv(s, s.ticks) && IsRun(s, run)
    ensures After(s, run).ticks == s.ticks + Ticks(run) && After(s, run).pc.Keys == s.pc.Keys
    decreases |run|
  {
    if run != [] {
      StepTicks(s, run[0]);
      StepPreserves(s, run[0]);
      hide Inv, Step, Enabled;
      TicksRun(Step(s, run[0]), run[1..]);
    }
  }

  lemma {:induction false} TrackedRun(s: State, run: seq<Action>, t: Tid, k: int, n: int, j: int)
    requires Inv(s, s.ticks) && IsRun(s, run) && Tracked(s, t, k, n, j) && NoNewSleep(run, t)
    ensures Tracked(After(s, run), t, k, n, j)
    decreases |run|
  {
    if run != [] {
      assert forall i :: 0 <= i < |run[1..]| ==> run[1..][i] == run[i + 1];
      TrackedStep(s, run[0], t, k, n, j);
      StepPreserves(s, run[0]);
      hide Inv, Step, Enabled, Tracked;
      TrackedRun(Step(s, run[0]), run[1..], t, k, n, j);
    }
  }

  /** Before it joins the queue, the thread keeps the tick and the argument of its call. */
  lemma {:induction false} StartingRun(s: State, run: seq<Action>, t: Tid)
    requires Inv(s, s.ticks) && IsRun(s, run) && t in s.pc && s.pc[t].Starting?
    requires forall i :: 0 <= i < |run| ==> !(run[i].Block? && run[i].t == t)
    ensures t in After(s, run).pc && After(s, run).pc[t] == s.pc[t]
    decreases |run|
  {
    if run != [] {
      assert forall i :: 0 <= i < |run[1..]| ==> run[1..][i] == run[i + 1];
      StartingStep(s, run[0], t);
      StepPreserves(s, run[0]);
      hide Inv, Step, Enabled;
      StartingRun(Step(s, run[0]), run[1..], t);
    }
  }

  lemma StartingStep(s: State, a: Action, t: Tid)
    requires Inv(s, s.ticks) && Enabled(s, a) && t in s.pc && s.pc[t].Starting? && !(a.Block? && a.t == t)
    ensures t in Step(s, a).pc && Step(s, a).pc[t] == s.pc[t]
  {
    hide QueueInv, TimeInv, LogInv, WakeDue, Insert;
    if a.Interrupt? {
      TickInv(s);
      WakeDueOne(s.(ticks := s.ticks + 1), s.ticks, t);
    }
  }

  lemma {:induction false} RunSplits(s: State, first: seq<Action>, second: seq<Action>)
    requires IsRun(s, first + second)
    ensures IsRun(s, first) && IsRun(After(s, first), second)
    ensures After(s, first + second) == After(After(s, first), second)
    decreases |first|
  {
    hide Enabled, Step;
    if first == [] {
      assert first + second == second;
    } else {
      assert (first + second)[0] == first[0] && (first + second)[1..] == first[1..] + second;
      RunSplits(Step(s, first[0]), first[1..], second);
    }
  }

  lemma Prefix(threads: set<Tid>, pre: seq<Action>, rest: seq<Action>)
    requires IsRun(Init(threads), pre + rest)
    ensures IsRun(Init(threads), pre) && IsRun(After(Init(threads), pre), rest)
    ensures After(Init(threads), pre + rest) == After(After(Init(threads), pre), rest)
    ensures Inv(After(Init(threads), pre), After(Init(threads), pre).ticks)
    ensures After(Init(threads), pre).ticks == Ticks(pre)
  {
    var s := Init(threads);
    InitInv(threads);
    assert s.ticks == 0;
    hide Inv, IsRun, After, Init, Ticks;
    RunSplits(s, pre, rest);
    RunPreserves(s, pre);
    TicksRun(s, pre);
  }

  lemma FirstStep(s: State, a: Action, rest: seq<Action>)
    requires IsRun(s, [a] + rest)
    ensures Enabled(s, a) && IsRun(Step(s, a), rest) && After(s, [a] + rest) == After(Step(s, a), rest)
  {
    hide Enabled, Step;
    assert ([a] + rest)[0] == a && ([a] + rest)[1..] == rest;
  }

  /** At tick `now`, thread `t` runs again if and only if the tick is due that a sleep of `n` from tick `k` ends,
      or the first one after it joined the queue at tick `j`; else it is queued for `k + n`. */
  ghost predicate SleptAsTold(s: State, t: Tid, k: int, n: int, j: int, now: int) {
    && t in s.pc && s.ticks == now
    && (s.pc[t].Running? <==> now >= Max(k + n, j + 1))
    && (!s.pc[t].Running? ==> s.pc[t].Sleeping? && Queued(s.queue, t, k + n))
  }

  /** For every run in which thread `t` calls timer_sleep (n), joins the queue and starts no other sleep; the ticks
      are counted in the run's own interrupts. */
  lemma SleepsExactly(threads: set<Tid>, pre: seq<Action>, t: Tid, n: int, mid: seq<Action>, post: seq<Action>)
    requires IsRun(Init(threads), pre + ([CallSleep(t, n)] + (mid + ([Block(t)] + post))))
    requires (forall i :: 0 <= i < |mid| ==> !(mid[i].Block? && mid[i].t == t)) && NoNewSleep(post, t)
    ensures SleptAsTold(After(Init(threads), pre + ([CallSleep(t, n)] + (mid + ([Block(t)] + post)))), t,
                        Ticks(pre), n, Ticks(pre) + Ticks(mid), Ticks(pre) + Ticks(mid) + Ticks(post))
  {
    hide Inv, IsRun, After, Init, SleptAsTold, Ticks, NoNewSleep;
    Prefix(threads, pre, [CallSleep(t, n)] + (mid + ([Block(t)] + post)));
    SleepsFrom(After(Init(threads), pre), t, n, mid, post);
  }

  lemma SleepsFrom(s: State, t: Tid, n: int, mid: seq<Action>, post: seq<Action>)
    requires Inv(s, s.ticks) && IsRun(s, [CallSleep(t, n)] + (mid + ([Block(t)] + post)))
    requires (forall i :: 0 <= i < |mid| ==> !(mid[i].Block? && mid[i].t == t)) && NoNewSleep(post, t)
    ensures SleptAsTold(After(s, [CallSleep(t, n)] + (mid + ([Block(t)] + post))), t,
                        s.ticks, n, s.ticks + Ticks(mid), s.ticks + Ticks(mid) + Ticks(post))
  {
    hide Inv, IsRun, After, SleptAsTold, Ticks, NoNewSleep;
    FirstStep(s, CallSleep(t, n), mid + ([Block(t)] + post));
    var s1 := Step(s, CallSleep(t, n));
    StepPreserves(s, CallSleep(t, n));
    assert s1.ticks == s.ticks && t in s1.pc && s1.pc[t] == Starting(s.ticks, n);
    hide Step, Enabled;
    RunSplits(s1, mid, [Block(t)] + post);
    StartingRun(s1, mid, t);
    RunPreserves(s1, mid);
    TicksRun(s1, mid);
    JoinedAt(After(s1, mid), t, n, post, s.ticks);
  }

  lemma JoinedAt(s: State, t: Tid, n: int, post: seq<Action>, k: int)
    requires Inv(s, s.ticks) && t in s.pc && s.pc[t] == Starting(k, n) && IsRun(s, [Block(t)] + post) && NoNewSleep(post, t)
    ensures SleptAsTold(After(s, [Block(t)] + post), t, k, n, s.ticks, s.ticks + Ticks(post))
  {
    hide Inv, IsRun, After, Ticks, NoNewSleep, SleptAsTold;
    FirstStep(s, Block(t), post);
    var s1 := Step(s, Block(t));
    StepPreserves(s, Block(t));
    assert s1.ticks == s.ticks && Tracked(s1, t, k, n, s.ticks);
    hide Step, Enabled, Tracked;
    RunPreserves(s1, post);
    TicksRun(s1, post);
    TrackedRun(s1, post, t, k, n, s.ticks);
    TrackedMeans(After(s1, post), t, k, n, s.ticks);
  }

  lemma TrackedMeans(s: State, t: Tid, k: int, n: int, j: int)
    requires Inv(s, s.ticks) && Tracked(s, t, k, n, j)
    ensures SleptAsTold(s, t, k, n, j, s.ticks)
  {
    hide LogInv, Sorted, Distinct, Queued, Agrees;
  }

  /** Until it has joined the queue, too, the thread does not run: it keeps the tick and argument of its call. */
  lemma StartsAsTold(threads: set<Tid>, pre: seq<Action>, t: Tid, n: int, mid: seq<Action>)
    requires IsRun(Init(threads), pre + ([CallSleep(t, n)] + mid))
    requires forall i :: 0 <= i < |mid| ==> !(mid[i].Block? && mid[i].t == t)
    ensures var s := After(Init(threads), pre + ([CallSleep(t, n)] + mid)); t in s.pc && s.pc[t] == Starting(Ticks(pre), n)
  {
    hide Inv, IsRun, After, Init, Ticks;
    Prefix(threads, pre, [CallSleep(t, n)] + mid);
    var s := After(Init(threads), pre);
    FirstStep(s, CallSleep(t, n), mid);
    StepPreserves(s, CallSleep(t, n));
    assert Step(s, CallSleep(t, n)).pc[t] == Starting(s.ticks, n);
    StartingRun(Step(s, CallSleep(t, n)), mid, t);
  }

  function FirstBlock(run: seq<Action>, t: Tid): (i: nat)
    ensures i <= |run| && forall j :: 0 <= j < i ==> !(run[j].Block? && run[j].t == t)
    ensures i < |run| ==> run[i] == Block(t)
  {
    if run == [] || run[0] == Block(t) then 0 else 1 + FirstBlock(run[1..], t)
  }

  /** A thread that has called timer_sleep (n) at tick k does not run again before tick k + n; if it sleeps, it is
      queued for that tick. */
  lemma NeverEarly(threads: set<Tid>, pre: seq<Action>, t: Tid, n: int, mid: seq<Action>)
    requires IsRun(Init(threads), pre + ([CallSleep(t, n)] + mid)) && NoNewSleep(mid, t)
    ensures var s := After(Init(threads), pre + ([CallSleep(t, n)] + mid));
            && t in s.pc
            && (s.pc[t].Running? ==> s.ticks >= Ticks(pre) + n)
            && (s.pc[t].Sleeping? ==> Queued(s.queue, t, Ticks(pre) + n))
  {
    var i := FirstBlock(mid, t);
    hide IsRun, After, Init, Ticks;
    if i == |mid| {
      StartsAsTold(threads, pre, t, n, mid);
    } else {
      var post := mid[i + 1..];
      assert mid == mid[..i] + ([Block(t)] + post);
      SleepsExactly(threads, pre, t, n, mid[..i], post);
    }
  }

  /** In every run, each thread that sleeps is unblocked exactly once, never before its wake time, at the first
      tick that can serve it; until then it is on the queue, which is sorted. */
  lemma WokenOnceOnTime(threads: set<Tid>, run: seq<Action>)
    requires IsRun(Init(threads), run)
    ensures var s := After(Init(threads), run);
            && Sorted(s.queue)
            && (forall i :: 0 <= i < |s.log| ==> EventOk(s.log, i))
            && (forall t :: t in s.pc && s.pc[t].Sleeping? ==>
                  && Queued(s.queue, t, s.pc[t].start + s.pc[t].n)
                  && Last(s.log, t) == Some(Slept(t, s.pc[t].start, s.pc[t].n, s.pc[t].since))
                  && s.ticks < Max(s.pc[t].start + s.pc[t].n, s.pc[t].since + 1))
  {
    InitInv(threads);
    RunPreserves(Init(threads), run);
    hide After, IsRun, EventOk, Last, Sorted, Distinct, Queued;
  }

  /** Right after an interrupt nobody on the queue is due. */
  lemma NobodyDue(threads: set<Tid>, run: seq<Action>)
    requires IsRun(Init(threads), run)
    ensures var s := Step(After(Init(threads), run), Interrupt);
            forall i :: 0 <= i < |s.queue| ==> s.queue[i].wakeTime > s.ticks
  {
    InitInv(threads);
    RunPreserves(Init(threads), run);
    var s := After(Init(threads), run);
    assert Step(s, Interrupt) == WakeDue(s.(ticks := s.ticks + 1));
    hide Inv, After, IsRun, Init, WakeDue;
    InterruptServes(After(Init(threads), run));
  }

  lemma InitInv(threads: set<Tid>)
    ensures Inv(Init(threads), 0)
  {
  }

  lemma InterruptServes(s: State)
    requires Inv(s, s.ticks)
    ensures var s' := WakeDue(s.(ticks := s.ticks + 1));
            forall i :: 0 <= i < |s'.queue| ==> s'.queue[i].wakeTime > s'.ticks
  {
    var s1 := s.(ticks := s.ticks + 1);
    TickInv(s);
    assert Sorted(s1.queue);
    hide Inv, WakeDue, Due, Sorted;
    WakeDueInv(s1, s.ticks);
    forall i | Due(s1.queue, s1.ticks) <= i < |s1.queue| ensures s1.queue[i].wakeTime > s1.ticks {
      DueIffFront(s1.queue, s1.ticks, i);
    }
  }

  lemma TickInv(s: State)
    requires Inv(s, s.ticks)
    ensures Inv(s.(ticks := s.ticks + 1), s.ticks)
  {
    hide Sorted, Distinct, Queued, EventOk, Last;
  }
}
