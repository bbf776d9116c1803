/** Every interleaving of wq_push and wq_pop: a mutex, a condition variable, and any number of threads. */
module WorkQueueProtocol {
  import opened Common

  /** Where a thread is inside wq_push or wq_pop. */
  datatype Pc =
    | Idle
    | PushLock(fd: int)    // about to take the mutex
    | PushAppend(fd: int)  // holds it, about to DL_APPEND and count
    | PushSignal           // about to signal wq_empty
    | PushUnlock
    | PopLock              // about to take the mutex
    | PopTest(woken: bool) // holds it, about to test `size < 1`; `woken` if it has waited since it last tested
    | Sleeping             // blocked in pthread_cond_wait, mutex released
    | Woken                // signalled, must take the mutex again
    | PopUnlock(fd: int)   // has removed its item

  /** `granted` lists the pushed values in the order in which the pushes took the mutex, `popped` the values
      removed, `pushers` and `poppers` whose they are; `crashed` records a null dereference of `head`. */
  datatype State = State(pc: map<Tid, Pc>, mutex: Option<Tid>, size: int, items: seq<int>,
                         granted: seq<int>, pushers: seq<Tid>, popped: seq<int>, poppers: seq<Tid>, crashed: bool)

  datatype Action =
    | CallPush(t: Tid, fd: int)
    | CallPop(t: Tid)
    | Lock(t: Tid)
    | Append(t: Tid)
    | Signal(t: Tid, w: Option<Tid>)
    | Test(t: Tid)
    | Unlock(t: Tid)
    | Spurious(t: Tid)     // pthread_cond_wait may return without a signal

  predicate Critical(p: Pc) {
    p.PushAppend? || p.PushSignal? || p.PushUnlock? || p.PopTest? || p.PopUnlock?
  }

  predicate IsAwake(p: Pc) { p.Woken? || (p.PopTest? && p.woken) }

  function Sleepers(s: State): set<Tid> { set t | t in s.pc && s.pc[t].Sleeping? }

  /** The poppers that have been woken and have neither taken an item nor gone back to sleep. */
  function Awake(s: State): set<Tid> { set t | t in s.pc && IsAwake(s.pc[t]) }

  function Init(threads: set<Tid>): State {
    State(map t | t in threads :: Idle, None, 0, [], [], [], [], [], false)
  }

  ghost predicate Enabled(s: State, a: Action) {
    && a.t in s.pc
    && var p := s.pc[a.t];
       match a
       case CallPush(_, _) => p.Idle?
       case CallPop(_) => p.Idle?
       case Lock(_) => s.mutex.None? && (p.PushLock? || p.PopLock? || p.Woken?)
       case Append(_) => p.PushAppend?
       // the signal wakes a waiter whenever there is one
       case Signal(_, w) => p.PushSignal? && (if Sleepers(s) == {} then w.None? else w.Some? && w.value in Sleepers(s))
       case Test(_) => p.PopTest?
       case Unlock(_) => p.PushUnlock? || p.PopUnlock?
       case Spurious(_) => p.Sleeping?
  }

  function Step(s: State, a: Action): State
    requires Enabled(s, a)
  {
    var t, p := a.t, s.pc[a.t];
    match a
    case CallPush(_, fd) => s.(pc := s.pc[t := PushLock(fd)])
    case CallPop(_) => s.(pc := s.pc[t := PopLock])
    case Lock(_) =>
      if p.PushLock? then
        s.(mutex := Some(t), pc := s.pc[t := PushAppend(p.fd)], granted := s.granted + [p.fd], pushers := s.pushers + [t])
      else s.(mutex := Some(t), pc := s.pc[t := PopTest(p.Woken?)])
    case Append(_) => s.(items := s.items + [p.fd], size := s.size + 1, pc := s.pc[t := PushSignal])
    case Signal(_, w) =>
      if w.None? then s.(pc := s.pc[t := PushUnlock]) else s.(pc := s.pc[t := PushUnlock][w.value := Woken])
    case Test(_) =>
      if s.size < 1 then s.(mutex := None, pc := s.pc[t := Sleeping])
      else if s.items == [] then s.(crashed := true)
      else s.(items := s.items[1..], size := s.size - 1, popped := s.popped + [s.items[0]], poppers := s.poppers + [t],
              pc := s.pc[t := PopUnlock(s.items[0])])
    case Unlock(_) => s.(mutex := None, pc := s.pc[t := Idle])
    case Spurious(_) => s.(pc := s.pc[t := Woken])
  }

  /** A run: each action is enabled in the state the ones before it lead to. */
  ghost predicate IsRun(s: State, run: seq<Action>)
    decreases |run|
  {
    run == [] || (Enabled(s, run[0]) && IsRun(Step(s, run[0]), run[1..]))
  }

  ghost function After(s: State, run: seq<Action>): State
    requires IsRun(s, run)
    decreases |run|
  {
    if run == [] then s else After(Step(s, run[0]), run[1..])
  }

  // ---------- the invariant ----------

  /** The value of the push that holds the mutex but has not appended yet. */
  ghost function Pending(s: State): seq<int> {
    if s.mutex.Some? && s.mutex.value in s.pc && s.pc[s.mutex.value].PushAppend? then [s.pc[s.mutex.value].fd] else []
  }

  /** One more wakeup is on its way. */
  ghost function Signalling(s: State): nat {
    if s.mutex.Some? && s.mutex.value in s.pc && s.pc[s.mutex.value].PushSignal? then 1 else 0
  }

  ghost predicate MutualExclusion(s: State) {
    && (s.mutex.Some? ==> s.mutex.value in s.pc)
    && (forall t :: t in s.pc ==> (Critical(s.pc[t]) <==> s.mutex == Some(t)))
  }

  ghost predicate NoLostWakeup(s: State) {
    Sleepers(s) != {} ==> s.size <= |Awake(s)| + Signalling(s)
  }

  /** Each value pushed or popped is some thread's. */
  predicate Owned(s: State) {
    && |s.pushers| == |s.granted| && |s.poppers| == |s.popped|
    && (forall u :: u in s.pushers ==> u in s.pc) && (forall u :: u in s.poppers ==> u in s.pc)
  }

  ghost predicate Inv(s: State) {
    && !s.crashed
    && s.size == |s.items|
    && MutualExclusion(s)
    && s.popped + s.items + Pending(s) == s.granted
    && Owned(s)
    && NoLostWakeup(s)
  }

  /** What moving one thread does to the sets of sleepers and of woken poppers. */
  lemma Move(s: State, s': State, t: Tid, p: Pc)
    requires t in s.pc && s'.pc == s.pc[t := p]
    ensures Sleepers(s') == if p.Sleeping? then Sleepers(s) + {t} else Sleepers(s) - {t}
    ensures Awake(s') == if IsAwake(p) then Awake(s) + {t} else Awake(s) - {t}
  {
  }

  lemma MutexPreserved(s: State, a: Action)
    requires Inv(s) && Enabled(s, a)
    ensures MutualExclusion(Step(s, a)) && !Step(s, a).crashed
  {
  }

  lemma OrderPreserved(s: State, a: Action)
    requires Inv(s) && Enabled(s, a)
    ensures var s' := Step(s, a);
      && s'.size == |s'.items| && s'.popped + s'.items + Pending(s') == s'.granted
      && Owned(s')
  {
    var s' := Step(s, a);
    match a {
      case Append(_) => assert s.popped + s'.items == s.popped + s.items + Pending(s);
      case Test(_) =>
        if s.size >= 1 {
          assert s.items == [s.items[0]] + s.items[1..];
        }
      case _ =>
    }
  }

  lemma SignalWakeup(s: State, a: Action)
    requires Inv(s) && Enabled(s, a) && a.Signal?
    ensures NoLostWakeup(Step(s, a))
  {
    var s' := Step(s, a);
    var m := s.(pc := s.pc[a.t := PushUnlock]);
    Move(s, m, a.t, PushUnlock);
    if a.w.Some? {
      Move(m, s', a.w.value, Woken);
      assert a.w.value !in Awake(s) && Awake(s') == Awake(s) + {a.w.value};
    }
  }

  lemma TestWakeup(s: State, a: Action)
    requires Inv(s) && Enabled(s, a) && a.Test?
    ensures NoLostWakeup(Step(s, a))
  {
    var s' := Step(s, a);
    Move(s, s', a.t, s'.pc[a.t]);
    assert Signalling(s) == 0;
    if s.size >= 1 && Sleepers(s') != {} {
      assert Sleepers(s) != {};
      assert Awake(s) <= Awake(s') + {a.t};
      SubsetCard(Awake(s), Awake(s') + {a.t});
    }
  }

  /** Every other step keeps the woken poppers and lets no new one sleep. */
  lemma OtherWakeup(s: State, a: Action)
    requires Inv(s) && Enabled(s, a) && !a.Signal? && !a.Test?
    ensures NoLostWakeup(Step(s, a))
  {
    var s' := Step(s, a);
    OtherSets(s, a);
    SubsetCard(Awake(s), Awake(s'));
    assert s'.size - Signalling(s') <= s.size - Signalling(s);
  }

  lemma OtherSets(s: State, a: Action)
    requires Inv(s) && Enabled(s, a) && !a.Signal? && !a.Test?
    ensures Awake(s) <= Awake(Step(s, a)) && Sleepers(Step(s, a)) <= Sleepers(s)
  {
    var s' := Step(s, a);
    Move(s, s', a.t, s'.pc[a.t]);
  }

  lemma StepPreserves(s: State, a: Action)
    requires Inv(s) && Enabled(s, a)
    ensures Inv(Step(s, a))
  {
    MutexPreserved(s, a);
    OrderPreserved(s, a);
    if a.Signal? {
      SignalWakeup(s, a);
    } else if a.Test? {
      TestWakeup(s, a);
    } else {
      OtherWakeup(s, a);
    }
  }

  lemma {:induction false} RunPreserves(s: State, run: seq<Action>)
    requires Inv(s) && IsRun(s, run)
    ensures Inv(After(s, run))
    decreases |run|
  {
    if run != [] {
      StepPreserves(s, run[0]);
      RunPreserves(Step(s, run[0]), run[1..]);
    }
  }

  // ---------- the theorems ----------

  /** In every run: no null head, one thread in the critical section, the counter is the length,
      and items leave in the order the pushes took the mutex, each exactly once. */
  lemma Fifo(threads: set<Tid>, run: seq<Action>)
    requires IsRun(Init(threads), run)
    ensures var s := After(Init(threads), run);
      && !s.crashed && MutualExclusion(s) && s.size == |s.items|
      && s.popped + s.items + Pending(s) == s.granted
  {
    RunPreserves(Init(threads), run);
  }

  /** The value of a push that has not taken the mutex yet. */
  function Unpushed(p: Pc): seq<int> { if p.PushLock? then [p.fd] else [] }

  /** The values that the run asks thread `t` to push, in order. */
  function PushesAsked(run: seq<Action>, t: Tid): seq<int> {
    if run == [] then []
    else (if run[0].CallPush? && run[0].t == t then [run[0].fd] else []) + PushesAsked(run[1..], t)
  }

  /** The value that a pop has removed and is about to return. */
  function Unreturned(p: Pc): seq<int> { if p.PopUnlock? then [p.fd] else [] }

  /** What the pops of thread `t` return in the run, in order: wq_pop returns once it has released the mutex. */
  ghost function Returned(s: State, run: seq<Action>, t: Tid): seq<int>
    requires IsRun(s, run)
    decreases |run|
  {
    if run == [] then []
    else
      (if run[0].Unlock? && run[0].t == t && s.pc[t].PopUnlock? then [s.pc[t].fd] else [])
      + Returned(Step(s, run[0]), run[1..], t)
  }

  /** A pop that has not removed an item yet. */
  function Unpopped(p: Pc): nat { if p.PopLock? || p.PopTest? || p.Sleeping? || p.Woken? then 1 else 0 }

  function PopsAsked(run: seq<Action>, t: Tid): nat {
    if run == [] then 0
    else (if run[0].CallPop? && run[0].t == t then 1 else 0) + PopsAsked(run[1..], t)
  }

  lemma PushStep(s: State, a: Action, t: Tid)
    requires Inv(s) && Enabled(s, a) && t in s.pc
    ensures t in Step(s, a).pc && |Step(s, a).pushers| == |Step(s, a).granted|
    ensures Of(Step(s, a).granted, Step(s, a).pushers, t) + Unpushed(Step(s, a).pc[t])
         == Of(s.granted, s.pushers, t) + Unpushed(s.pc[t]) + if a.CallPush? && a.t == t then [a.fd] else []
  {
    hide NoLostWakeup, Of;
    if a.Lock? && s.pc[a.t].PushLock? {
      OfSnoc(s.granted, s.pushers, s.pc[a.t].fd, a.t, t);
    }
  }

  /** `r` is what the pops of thread `t` have returned before the step. */
  lemma PopStep(s: State, a: Action, t: Tid, r: seq<int>)
    requires Inv(s) && Enabled(s, a) && t in s.pc && Of(s.popped, s.poppers, t) == r + Unreturned(s.pc[t])
    ensures t in Step(s, a).pc && |Step(s, a).poppers| == |Step(s, a).popped|
    ensures Of(Step(s, a).popped, Step(s, a).poppers, t)
         == r + (if a.Unlock? && a.t == t && s.pc[t].PopUnlock? then [s.pc[t].fd] else []) + Unreturned(Step(s, a).pc[t])
    ensures |Of(Step(s, a).popped, Step(s, a).poppers, t)| + Unpopped(Step(s, a).pc[t])
         == |Of(s.popped, s.poppers, t)| + Unpopped(s.pc[t]) + if a.CallPop? && a.t == t then 1 else 0
  {
    hide NoLostWakeup, Of;
    if a.Test? && s.size >= 1 {
      OfSnoc(s.popped, s.poppers, s.items[0], a.t, t);
    }
  }

  lemma {:induction false} PushRun(s: State, run: seq<Action>, t: Tid)
    requires Inv(s) && IsRun(s, run) && t in s.pc
    ensures Inv(After(s, run)) && t in After(s, run).pc
    ensures Of(After(s, run).granted, After(s, run).pushers, t) + Unpushed(After(s, run).pc[t])
         == Of(s.granted, s.pushers, t) + Unpushed(s.pc[t]) + PushesAsked(run, t)
    decreases |run|
  {
    if run != [] {
      var asked := if run[0].CallPush? && run[0].t == t then [run[0].fd] else [];
      PushStep(s, run[0], t);
      StepPreserves(s, run[0]);
      hide Enabled, Step, Of, Unpushed, MutualExclusion, NoLostWakeup;
      PushRun(Step(s, run[0]), run[1..], t);
      Assoc(Of(s.granted, s.pushers, t) + Unpushed(s.pc[t]), asked, PushesAsked(run[1..], t));
    }
  }

  lemma {:induction false} PopRun(s: State, run: seq<Action>, t: Tid, r: seq<int>)
    requires Inv(s) && IsRun(s, run) && t in s.pc && Of(s.popped, s.poppers, t) == r + Unreturned(s.pc[t])
    ensures Inv(After(s, run)) && t in After(s, run).pc
    ensures Of(After(s, run).popped, After(s, run).poppers, t) == r + Returned(s, run, t) + Unreturned(After(s, run).pc[t])
    ensures |Of(After(s, run).popped, After(s, run).poppers, t)| + Unpopped(After(s, run).pc[t])
         == |Of(s.popped, s.poppers, t)| + Unpopped(s.pc[t]) + PopsAsked(run, t)
    decreases |run|
  {
    if run != [] {
      var returned := if run[0].Unlock? && run[0].t == t && s.pc[t].PopUnlock? then [s.pc[t].fd] else [];
      PopStep(s, run[0], t, r);
      StepPreserves(s, run[0]);
      hide Enabled, Step, Of, Unreturned, Unpopped, MutualExclusion, NoLostWakeup;
      PopRun(Step(s, run[0]), run[1..], t, r + returned);
      Assoc(r, returned, Returned(Step(s, run[0]), run[1..], t));
    } else {
      assert r + [] == r;
    }
  }

  /** In every run, what each thread's pushes put on the queue is what they were asked to push, and what its pops
      return is what they took off, one item for each call, in order. */
  lemma Delivery(threads: set<Tid>, run: seq<Action>, t: Tid)
    requires IsRun(Init(threads), run) && t in threads
    ensures var s := After(Init(threads), run);
      && s.pc.Keys == threads && Owned(s)
      && Of(s.granted, s.pushers, t) + Unpushed(s.pc[t]) == PushesAsked(run, t)
      && Of(s.popped, s.poppers, t) == Returned(Init(threads), run, t) + Unreturned(s.pc[t])
      && |Of(s.popped, s.poppers, t)| + Unpopped(s.pc[t]) == PopsAsked(run, t)
  {
    SameThreads(Init(threads), run);
    PushRun(Init(threads), run, t);
    PopRun(Init(threads), run, t, []);
    assert [] + Returned(Init(threads), run, t) == Returned(Init(threads), run, t);
  }

  /** No lost wakeup: while a popper sleeps, each queued item has a woken popper that will come for it,
      or, for the item just appended, a push that is about to signal. */
  lemma EveryItemHasAWokenPopper(threads: set<Tid>, run: seq<Action>)
    requires IsRun(Init(threads), run)
    ensures var s := After(Init(threads), run);
      Sleepers(s) != {} ==> |s.items| <= |Awake(s)| + Signalling(s)
  {
    RunPreserves(Init(threads), run);
  }

  /** A popper sleeps, and the queue holds more items than there are woken poppers. */
  ghost predicate Exceeded(s: State) { Sleepers(s) != {} && |s.items| > |Awake(s)| }

  lemma OneMore(s: State, a: Action, rest: seq<Action>)
    requires Enabled(s, a) && IsRun(Step(s, a), rest)
    ensures IsRun(s, [a] + rest) && After(s, [a] + rest) == After(Step(s, a), rest)
  {
    hide Enabled, Step;
    assert ([a] + rest)[1..] == rest;
  }

  /** The bound without the push that is about to signal is exceeded in the middle of that push. */
  lemma ExceedBound(threads: set<Tid>, t: Tid, u: Tid, fd: int) returns (run: seq<Action>)
    requires t in threads && u in threads && t != u
    ensures IsRun(Init(threads), run)
    ensures Exceeded(After(Init(threads), run))
  {
    var s := Init(threads);
    var s1 := Step(s, CallPop(t));
    var s2 := Step(s1, Lock(t));
    var s3 := Step(s2, Test(t));
    var s4 := Step(s3, CallPush(u, fd));
    var s5 := Step(s4, Lock(u));
    var s6 := Step(s5, Append(u));
    assert t in Sleepers(s6) && Awake(s6) == {} && s6.items == [fd];
    hide Enabled, Step;
    run := [];
    assert IsRun(s6, run) && After(s6, run) == s6;
    OneMore(s5, Append(u), run);
    run := [Append(u)] + run;
    OneMore(s4, Lock(u), run);
    run := [Lock(u)] + run;
    OneMore(s3, CallPush(u, fd), run);
    run := [CallPush(u, fd)] + run;
    OneMore(s2, Test(t), run);
    run := [Test(t)] + run;
    OneMore(s1, Lock(t), run);
    run := [Lock(t)] + run;
    OneMore(s, CallPop(t), run);
    run := [CallPop(t)] + run;
  }

  lemma {:induction false} SameThreads(s: State, run: seq<Action>)
    requires Inv(s) && IsRun(s, run)
    ensures After(s, run).pc.Keys == s.pc.Keys
    decreases |run|
  {
    if run != [] {
      StepPreserves(s, run[0]);
      assert Step(s, run[0]).pc.Keys == s.pc.Keys;
      hide Inv, Enabled, Step;
      SameThreads(Step(s, run[0]), run[1..]);
    }
  }

  /** A thread alone cannot be asleep and about to signal. */
  lemma AloneKeepsBound(s: State)
    requires Inv(s) && Sleepers(s) != {} && forall t, u :: t in s.pc && u in s.pc ==> t == u
    ensures |s.items| <= |Awake(s)|
  {
    var t :| t in Sleepers(s);
    assert !Critical(s.pc[t]);
    hide Awake;
    assert Signalling(s) == 0;
  }

  /** While a popper sleeps, the queue can hold more items than there are woken poppers exactly when two threads
      use it: a popper and the push that is about to signal. */
  lemma BoundExceededIff(threads: set<Tid>)
    ensures (exists run :: IsRun(Init(threads), run) && Exceeded(After(Init(threads), run)))
       <==> exists t, u :: t in threads && u in threads && t != u
  {
    if t, u :| t in threads && u in threads && t != u {
      var run := ExceedBound(threads, t, u, 0);
    } else {
      forall run | IsRun(Init(threads), run) ensures !Exceeded(After(Init(threads), run)) {
        var s := After(Init(threads), run);
        RunPreserves(Init(threads), run);
        SameThreads(Init(threads), run);
        if Sleepers(s) != {} {
          AloneKeepsBound(s);
        }
      }
    }
  }

  /** The steps that threads inside wq_push and wq_pop take by themselves. */
  predicate Internal(a: Action) {
    a.Lock? || a.Append? || a.Signal? || a.Test? || a.Unlock?
  }

  /** The system never comes to rest with an item queued and a popper asleep. */
  lemma NeverStuck(threads: set<Tid>, run: seq<Action>) returns (a: Action)
    requires IsRun(Init(threads), run)
    requires Sleepers(After(Init(threads), run)) != {} && After(Init(threads), run).items != []
    ensures Internal(a) && Enabled(After(Init(threads), run), a)
  {
    RunPreserves(Init(threads), run);
    var s := After(Init(threads), run);
    if s.mutex.Some? {
      var h := s.mutex.value;
      var w :| w in Sleepers(s);
      a := match s.pc[h]
        case PushAppend(_) => Append(h)
        case PushSignal => Signal(h, Some(w))
        case PopTest(_) => Test(h)
        case _ => Unlock(h);
    } else {
      assert |Awake(s)| >= 1;
      var t :| t in Awake(s);
      a := Lock(t);
    }
  }
}
