/** The interrupt queue: a ring of 64 bytes shared by threads, which may wait, and interrupt handlers, which may not. */
module IntQueue {
  import opened Common

  // ---------- the ring ----------

  datatype Ring = Ring(buf: seq<Byte>, head: nat, tail: nat)

  predicate RingOk(r: Ring) { |r.buf| == 64 && r.head < 64 && r.tail < 64 }

  function Next(pos: nat): nat { (pos + 1) % 64 }

  predicate Empty(r: Ring) { r.head == r.tail }

  predicate Full(r: Ring) { Next(r.head) == r.tail }

  /** The bytes that the ring holds, oldest first. */
  function Contents(r: Ring): seq<Byte>
    requires RingOk(r)
  {
    if r.tail <= r.head then r.buf[r.tail..r.head] else r.buf[r.tail..] + r.buf[..r.head]
  }

  function Add(r: Ring, byte: Byte): Ring
    requires RingOk(r)
  {
    r.(buf := r.buf[r.head := byte], head := Next(r.head))
  }

  function Remove(r: Ring): Ring { r.(tail := Next(r.tail)) }

  /** The ring holds at most 63 bytes; it is empty or full as the names say. */
  lemma ContentsSize(r: Ring)
    requires RingOk(r)
    ensures |Contents(r)| <= 63
    ensures Empty(r) <==> Contents(r) == []
    ensures Full(r) <==> |Contents(r)| == 63
  {
  }

  lemma SliceFirst(s: seq<Byte>, lo: nat, hi: nat)
    requires lo < hi <= |s|
    ensures s[lo..hi] == [s[lo]] + s[lo + 1..hi]
  {
  }

  lemma SliceSet(s: seq<Byte>, i: nat, byte: Byte, lo: nat)
    requires lo <= i < |s|
    ensures s[i := byte][lo..i + 1] == s[lo..i] + [byte]
    ensures forall j :: i < j <= |s| ==> s[i := byte][j..] == s[j..]
  {
  }

  lemma AddAppends(r: Ring, byte: Byte)
    requires RingOk(r) && !Full(r)
    ensures RingOk(Add(r, byte)) && Contents(Add(r, byte)) == Contents(r) + [byte]
  {
    if r.tail <= r.head {
      AddInLine(r, byte);
    } else {
      AddWrapped(r, byte);
    }
  }

  lemma AddInLine(r: Ring, byte: Byte)
    requires RingOk(r) && !Full(r) && r.tail <= r.head
    ensures Contents(Add(r, byte)) == Contents(r) + [byte]
  {
    var buf' := r.buf[r.head := byte];
    SliceSet(r.buf, r.head, byte, r.tail);
    if r.head < 63 {
      assert Add(r, byte) == Ring(buf', r.head + 1, r.tail);
    } else {
      assert Add(r, byte) == Ring(buf', 0, r.tail);
      assert r.tail > 0;
      AllOf(buf', r.tail);
    }
  }

  lemma AllOf<T>(s: seq<T>, i: nat)
    requires i <= |s|
    ensures s[i..] + s[..0] == s[i..|s|]
  {
  }

  lemma AddWrapped(r: Ring, byte: Byte)
    requires RingOk(r) && !Full(r) && r.head < r.tail
    ensures Contents(Add(r, byte)) == Contents(r) + [byte]
  {
    var buf' := r.buf[r.head := byte];
    assert Add(r, byte) == Ring(buf', r.head + 1, r.tail);
    SliceSet(r.buf, r.head, byte, 0);
    assert buf'[0..r.head + 1] == buf'[..r.head + 1] && r.buf[0..r.head] == r.buf[..r.head];
    Assoc(r.buf[r.tail..], r.buf[..r.head], [byte]);
  }

  lemma RemoveTakesOldest(r: Ring)
    requires RingOk(r) && !Empty(r)
    ensures RingOk(Remove(r)) && Contents(r) == [r.buf[r.tail]] + Contents(Remove(r))
  {
    if r.tail < r.head {
      SliceFirst(r.buf, r.tail, r.head);
    } else {
      RemoveWrapped(r);
    }
  }

  lemma First<T>(b: seq<T>, tail: nat, front: seq<T>)
    requires tail < |b|
    ensures b[tail..] + front == [b[tail]] + (b[tail + 1..] + front)
  {
    assert b[tail..] == [b[tail]] + b[tail + 1..];
    Assoc([b[tail]], b[tail + 1..], front);
  }

  lemma NothingBehind<T>(b: seq<T>, front: seq<T>)
    ensures b[|b|..] + front == front
  {
  }

  /** The same when the bytes wrap around the end of the buffer. */
  lemma RemoveWrapped(r: Ring)
    requires RingOk(r) && r.head < r.tail
    ensures Contents(r) == [r.buf[r.tail]] + Contents(Remove(r))
  {
    var b, front := r.buf, r.buf[..r.head];
    assert Contents(r) == b[r.tail..] + front;
    if r.tail == 63 {
      assert Contents(Remove(r)) == b[0..r.head] == front;
      hide Contents;
      NothingBehind(b, front);
    } else {
      assert Contents(Remove(r)) == b[r.tail + 1..] + front;
      hide Contents;
    }
    hide Remove;
    First(b, r.tail, front);
  }

  /** struct intq; `unblocked` lists the threads that thread_unblock has been called on. */
  class Intq {
    const buf: array<Byte>
    var head: nat
    var tail: nat
    var notFull: Option<Tid>
    var notEmpty: Option<Tid>
    var unblocked: seq<Tid>

    ghost function R(): Ring reads this, buf { Ring(buf[..], head, tail) }

    ghost predicate Valid() reads this, buf {
      RingOk(R()) && (notEmpty.Some? ==> Empty(R())) && (notFull.Some? ==> Full(R()))
    }

    constructor IntqInit()
      ensures Valid() && Contents(R()) == [] && notFull == None && notEmpty == None && unblocked == [] && fresh(buf)
    {
      buf := new Byte[64](_ => 0);
      head, tail, notFull, notEmpty, unblocked := 0, 0, None, None, [];
    }

    method IntqEmpty() returns (b: bool)
      requires Valid()
      ensures b <==> Contents(R()) == []
    {
      ContentsSize(R());
      b := head == tail;
    }

    method IntqFull() returns (b: bool)
      requires Valid()
      ensures b <==> |Contents(R())| == 63
    {
      ContentsSize(R());
      b := Next(head) == tail;
    }

    /** One round of intq_getc: the oldest byte leaves, and a thread that waits for room is woken;
        None if the queue is empty, so that the caller has to wait. */
    method Getc() returns (byte: Option<Byte>)
      requires Valid()
      modifies this`tail, this`notFull, this`unblocked
      ensures Valid() && (byte.None? <==> old(Contents(R())) == [])
      ensures byte.None? ==> R() == old(R()) && notFull == old(notFull) && unblocked == old(unblocked)
      ensures byte.Some? ==>
        && old(Contents(R())) == [byte.value] + Contents(R()) && R() == Remove(old(R())) && notFull == None
        && unblocked == old(unblocked) + if old(notFull).Some? then [old(notFull).value] else []
    {
      var empty := IntqEmpty();
      if empty {
        return None;
      }
      ContentsSize(R());
      RemoveTakesOldest(R());
      byte := Some(buf[tail]);
      tail := Next(tail);
      ContentsSize(R());
      hide Contents;
      if notFull.Some? {
        unblocked := unblocked + [notFull.value];
        notFull := None;
      }
    }

    /** One round of intq_putc; false if the queue is full. */
    method Putc(byte: Byte) returns (ok: bool)
      requires Valid()
      modifies this`head, this`notEmpty, this`unblocked, buf
      ensures Valid() && (ok <==> |old(Contents(R()))| < 63)
      ensures !ok ==> R() == old(R()) && notEmpty == old(notEmpty) && unblocked == old(unblocked)
      ensures ok ==>
        && Contents(R()) == old(Contents(R())) + [byte] && R() == Add(old(R()), byte) && notEmpty == None
        && unblocked == old(unblocked) + if old(notEmpty).Some? then [old(notEmpty).value] else []
    {
      var full := IntqFull();
      ContentsSize(R());
      if full {
        return false;
      }
      AddAppends(R(), byte);
      buf[head] := byte;
      head := Next(head);
      ContentsSize(R());
      hide Contents;
      if notEmpty.Some? {
        unblocked := unblocked + [notEmpty.value];
        notEmpty := None;
      }
      ok := true;
    }
  }

  // ---------- every interleaving of the threads and the interrupt handlers ----------

  /** Where a thread is. Interrupts are off, so it runs on from one of these points until it blocks or returns. */
  datatype Pc =
    | Idle
    | GetTest              // about to test intq_empty
    | GetLock              // found it true; blocked in lock_acquire
    | GetWait              // in wait, blocked until a byte is put
    | GetWoken             // unblocked by signal, about to release the lock
    | PutTest(byte: Byte)
    | PutLock(byte: Byte)
    | PutWait(byte: Byte)
    | PutWoken(byte: Byte)

  /** `put` and `got` list the bytes in the order in which they entered and left, `putters` and `getters` whose they
      are, None standing for a handler; `failed` records a failed assertion, after which nothing runs. */
  datatype State = State(pc: map<Tid, Pc>, lock: Option<Tid>, notFull: Option<Tid>, notEmpty: Option<Tid>, ring: Ring,
                         put: seq<Byte>, putters: seq<Option<Tid>>, got: seq<Byte>, getters: seq<Option<Tid>>, failed: bool)

  datatype Action =
    | CallGet(t: Tid)
    | CallPut(t: Tid, byte: Byte)
    | Test(t: Tid)         // tests the queue; then transfers a byte and returns, or waits, or blocks on the lock
    | Grab(t: Tid)         // gets the lock after having blocked on it, and calls wait
    | Release(t: Tid)      // returns from wait and releases the lock
    | HandlerGet
    | HandlerPut(byte: Byte)

  function Init(threads: set<Tid>): State {
    State(map t | t in threads :: Idle, None, None, None, Ring(seq(64, _ => 0), 0, 0), [], [], [], [], false)
  }

  predicate Enabled(s: State, a: Action) {
    && !s.failed && RingOk(s.ring)
    && match a
       case CallGet(t) => t in s.pc && s.pc[t].Idle?
       case CallPut(t, _) => t in s.pc && s.pc[t].Idle?
       case Test(t) => t in s.pc && (s.pc[t].GetTest? || s.pc[t].PutTest?)
       case Grab(t) => t in s.pc && s.lock.None? && (s.pc[t].GetLock? || s.pc[t].PutLock?)
       case Release(t) => t in s.pc && (s.pc[t].GetWoken? || s.pc[t].PutWoken?)
       // a handler may call only when it need not wait
       case HandlerGet => !Empty(s.ring)
       case HandlerPut(_) => !Full(s.ring)
  }

  /** A byte leaves and a thread that waits for room is woken. */
  function Get(s: State, who: Option<Tid>): State
    requires RingOk(s.ring)
  {
    var s1 := s.(ring := Remove(s.ring), got := s.got + [s.ring.buf[s.ring.tail]], getters := s.getters + [who],
                 notFull := None);
    if s.notFull.Some? && s.notFull.value in s.pc && s.pc[s.notFull.value].PutWait?
    then s1.(pc := s.pc[s.notFull.value := PutWoken(s.pc[s.notFull.value].byte)]) else s1
  }

  function Put(s: State, byte: Byte, who: Option<Tid>): State
    requires RingOk(s.ring)
  {
    var s1 := s.(ring := Add(s.ring, byte), put := s.put + [byte], putters := s.putters + [who], notEmpty := None);
    if s.notEmpty.Some? && s.notEmpty.value in s.pc && s.pc[s.notEmpty.value].GetWait?
    then s1.(pc := s.pc[s.notEmpty.value := GetWoken]) else s1
  }

  /** wait, with the lock just acquired; it asserts the condition that the thread had tested. */
  function Wait(s: State, t: Tid): State
    requires t in s.pc
  {
    var p := s.pc[t];
    if p.GetTest? || p.GetLock? then
      if Empty(s.ring) then s.(lock := Some(t), notEmpty := Some(t), pc := s.pc[t := GetWait])
      else s.(lock := Some(t), failed := true)
    else if p.PutTest? || p.PutLock? then
      if Full(s.ring) then s.(lock := Some(t), notFull := Some(t), pc := s.pc[t := PutWait(p.byte)])
      else s.(lock := Some(t), failed := true)
    else s
  }

  function Step(s: State, a: Action): State
    requires Enabled(s, a)
  {
    match a
    case CallGet(t) => s.(pc := s.pc[t := GetTest])
    case CallPut(t, byte) => s.(pc := s.pc[t := PutTest(byte)])
    case Test(t) =>
      if s.pc[t].GetTest? then
        if !Empty(s.ring) then Get(s.(pc := s.pc[t := Idle]), Some(t))
        else if s.lock.None? then Wait(s, t)
        else s.(pc := s.pc[t := GetLock])
      else
        if !Full(s.ring) then Put(s.(pc := s.pc[t := Idle]), s.pc[t].byte, Some(t))
        else if s.lock.None? then Wait(s, t)
        else s.(pc := s.pc[t := PutLock(s.pc[t].byte)])
    case Grab(t) => Wait(s, t)
    case Release(t) => s.(lock := None, pc := s.pc[t := if s.pc[t].GetWoken? then GetTest else PutTest(s.pc[t].byte)])
    case HandlerGet => Get(s, None)
    case HandlerPut(byte) => Put(s, byte, None)
  }

  ghost predicate IsRun(s: State, run: seq<Action>)
    decreases |run|
  {
    run == [] || (Enabled(s, run[0]) && IsRun(Step(s, run[0]), run[1..]))
  }

  ghost function After(s: State, run: seq<Action>): State
    requires IsRun(s, run)
    decreases |run|
  {
    if run == [] then s else After(Step(s, run[0]), run[1..])
  }

  predicate Holds(p: Pc) { p.GetWait? || p.GetWoken? || p.PutWait? || p.PutWoken? }

  /** The lock is held from waiting until after the wake-up, so at most one thread waits, for either condition. */
  ghost predicate LockInv(s: State) {
    && (s.lock.Some? ==> s.lock.value in s.pc)
    && (forall t :: t in s.pc && !s.failed ==> (Holds(s.pc[t]) <==> s.lock == Some(t)))
    && (forall t :: t in s.pc ==> (s.pc[t].GetWait? <==> s.notEmpty == Some(t)))
    && (forall t :: t in s.pc ==> (s.pc[t].PutWait? <==> s.notFull == Some(t)))
    && (s.notEmpty.Some? ==> s.notEmpty.value in s.pc) && (s.notFull.Some? ==> s.notFull.value in s.pc)
  }

  /** Each byte put or got is some thread's or a handler's. */
  predicate Owned(s: State) {
    && |s.putters| == |s.put| && |s.getters| == |s.got|
    && (forall u :: u in s.putters && u.Some? ==> u.value in s.pc)
    && (forall u :: u in s.getters && u.Some? ==> u.value in s.pc)
  }

  ghost predicate Inv(s: State) {
    && RingOk(s.ring) && LockInv(s) && Owned(s)
    && s.put == s.got + Contents(s.ring)
    && (s.notEmpty.Some? ==> Empty(s.ring))
    && (s.notFull.Some? ==> Full(s.ring))
  }

  lemma TransferLocks(s: State, byte: Byte, who: Option<Tid>)
    requires LockInv(s) && RingOk(s.ring)
    ensures LockInv(Get(s, who)) && LockInv(Put(s, byte, who))
  {
  }

  lemma GetInv(s: State, who: Option<Tid>)
    requires Inv(s) && !Empty(s.ring) && (who.Some? ==> who.value in s.pc)
    ensures Inv(Get(s, who)) && Get(s, who).failed == s.failed
  {
    var x, c := s.ring.buf[s.ring.tail], Contents(Remove(s.ring));
    TransferLocks(s, 0, who);
    RemoveTakesOldest(s.ring);
    assert Get(s, who).ring == Remove(s.ring) && Get(s, who).got == s.got + [x] && Get(s, who).put == s.put;
    assert Owned(Get(s, who));
    assert Get(s, who).notFull.None? && Get(s, who).notEmpty == s.notEmpty && Get(s, who).failed == s.failed;
    hide Contents, LockInv, Get, Remove, RingOk, Owned;
    Assoc(s.got, [x], c);
  }

  lemma PutInv(s: State, byte: Byte, who: Option<Tid>)
    requires Inv(s) && !Full(s.ring) && (who.Some? ==> who.value in s.pc)
    ensures Inv(Put(s, byte, who)) && Put(s, byte, who).failed == s.failed
  {
    TransferLocks(s, byte, who);
    AddAppends(s.ring, byte);
    assert Put(s, byte, who).ring == Add(s.ring, byte) && Put(s, byte, who).got == s.got && Put(s, byte, who).put == s.put + [byte];
    assert Owned(Put(s, byte, who));
    assert Put(s, byte, who).notEmpty.None? && Put(s, byte, who).notFull == s.notFull && Put(s, byte, who).failed == s.failed;
    hide Contents, LockInv, Put, Add, RingOk, Owned;
    Assoc(s.got, Contents(s.ring), [byte]);
  }

  lemma TestInv(s: State, t: Tid)
    requires Inv(s) && Enabled(s, Test(t))
    ensures Inv(Step(s, Test(t)))
  {
    var s1 := s.(pc := s.pc[t := Idle]);
    assert LockInv(s1);
    hide Contents;
    if s.pc[t].GetTest? && !Empty(s.ring) {
      GetInv(s1, Some(t));
    } else if s.pc[t].PutTest? && !Full(s.ring) {
      PutInv(s1, s.pc[t].byte, Some(t));
    }
  }

  lemma StepPreserves(s: State, a: Action)
    requires Inv(s) && Enabled(s, a)
    ensures Inv(Step(s, a))
  {
    hide Contents, Get, Put;
    match a {
      case HandlerGet => GetInv(s, None);
      case HandlerPut(byte) => PutInv(s, byte, None);
      case Test(t) => TestInv(s, t);
      case _ =>
    }
  }

  lemma {:induction false} RunPreserves(s: State, run: seq<Action>)
    requires Inv(s) && IsRun(s, run)
    ensures Inv(After(s, run))
    decreases |run|
  {
    hide Inv, Step, Enabled;
    if run != [] {
      StepPreserves(s, run[0]);
      RunPreserves(Step(s, run[0]), run[1..]);
    }
  }

  lemma InitInv(threads: set<Tid>)
    ensures Inv(Init(threads))
  {
  }

  /** Every byte leaves once, in the order in which the bytes entered; at most 63 are stored; and no thread
      waits for a condition that holds. */
  lemma Fifo(threads: set<Tid>, run: seq<Action>)
    requires IsRun(Init(threads), run)
    ensures var s := After(Init(threads), run);
            && RingOk(s.ring) && |Contents(s.ring)| <= 63
            && s.put == s.got + Contents(s.ring)
            && (s.notEmpty.Some? ==> Contents(s.ring) == [])
            && (s.notFull.Some? ==> |Contents(s.ring)| == 63)
  {
    InitInv(threads);
    RunPreserves(Init(threads), run);
    hide After, IsRun, Init, LockInv;
    ContentsSize(After(Init(threads), run).ring);
    hide Contents;
  }

  /** The byte of a call of intq_putc that has not been put yet. */
  function Unput(s: State, who: Option<Tid>): seq<Byte> {
    if who.Some? && who.value in s.pc then
      var p := s.pc[who.value];
      if p.PutTest? || p.PutLock? || p.PutWait? || p.PutWoken? then [p.byte] else []
    else []
  }

  /** A call of intq_getc that has not returned a byte yet. */
  function Ungot(s: State, who: Option<Tid>): nat {
    if who.Some? && who.value in s.pc then
      var p := s.pc[who.value];
      if p.GetTest? || p.GetLock? || p.GetWait? || p.GetWoken? then 1 else 0
    else 0
  }

  /** The bytes that one action asks thread `who`, or a handler, to put. */
  function PutAsked(a: Action, who: Option<Tid>): seq<Byte> {
    if (a.CallPut? && who == Some(a.t)) || (a.HandlerPut? && who.None?) then [a.byte] else []
  }

  function PutsAsked(run: seq<Action>, who: Option<Tid>): seq<Byte> {
    if run == [] then [] else PutAsked(run[0], who) + PutsAsked(run[1..], who)
  }

  function GetAsked(a: Action, who: Option<Tid>): nat {
    if (a.CallGet? && who == Some(a.t)) || (a.HandlerGet? && who.None?) then 1 else 0
  }

  function GetsAsked(run: seq<Action>, who: Option<Tid>): nat {
    if run == [] then 0 else GetAsked(run[0], who) + GetsAsked(run[1..], who)
  }

  lemma PutOf(s: State, byte: Byte, owner: Option<Tid>, who: Option<Tid>)
    requires RingOk(s.ring) && Owned(s) && (owner.Some? ==> owner.value in s.pc)
    ensures Owned(Put(s, byte, owner)) && Put(s, byte, owner).got == s.got && Put(s, byte, owner).getters == s.getters
    ensures Of(Put(s, byte, owner).put, Put(s, byte, owner).putters, who)
         == Of(s.put, s.putters, who) + if owner == who then [byte] else []
    ensures Unput(Put(s, byte, owner), who) == Unput(s, who) && Ungot(Put(s, byte, owner), who) == Ungot(s, who)
  {
    hide Of;
    OfSnoc(s.put, s.putters, byte, owner, who);
  }

  lemma GetOf(s: State, owner: Option<Tid>, who: Option<Tid>)
    requires RingOk(s.ring) && Owned(s) && (owner.Some? ==> owner.value in s.pc)
    ensures Owned(Get(s, owner)) && Get(s, owner).put == s.put && Get(s, owner).putters == s.putters
    ensures |Of(Get(s, owner).got, Get(s, owner).getters, who)| == |Of(s.got, s.getters, who)| + if owner == who then 1 else 0
    ensures Unput(Get(s, owner), who) == Unput(s, who) && Ungot(Get(s, owner), who) == Ungot(s, who)
  {
    hide Of;
    OfSnoc(s.got, s.getters, s.ring.buf[s.ring.tail], owner, who);
  }

  /** A thread that tests the queue transfers its byte, or keeps it while it waits. */
  lemma DeliveryTest(s: State, t: Tid, who: Option<Tid>)
    requires RingOk(s.ring) && Owned(s) && Enabled(s, Test(t))
    ensures var s2 := Step(s, Test(t));
            && Owned(s2)
            && Of(s2.put, s2.putters, who) + Unput(s2, who) == Of(s.put, s.putters, who) + Unput(s, who)
            && |Of(s2.got, s2.getters, who)| + Ungot(s2, who) == |Of(s.got, s.getters, who)| + Ungot(s, who)
  {
    hide Of, Get, Put;
    var s1 := s.(pc := s.pc[t := Idle]);
    if s.pc[t].GetTest? && !Empty(s.ring) {
      GetOf(s1, Some(t), who);
    } else if s.pc[t].PutTest? && !Full(s.ring) {
      PutOf(s1, s.pc[t].byte, Some(t), who);
    }
  }

  lemma DeliveryStep(s: State, a: Action, who: Option<Tid>)
    requires RingOk(s.ring) && Owned(s) && Enabled(s, a)
    ensures var s2 := Step(s, a);
            && Owned(s2)
            && Of(s2.put, s2.putters, who) + Unput(s2, who) == Of(s.put, s.putters, who) + Unput(s, who) + PutAsked(a, who)
            && |Of(s2.got, s2.getters, who)| + Ungot(s2, who)
            == |Of(s.got, s.getters, who)| + Ungot(s, who) + GetAsked(a, who)
  {
    hide Of, Get, Put;
    match a {
      case HandlerGet => GetOf(s, None, who);
      case HandlerPut(byte) => PutOf(s, byte, None, who);
      case Test(t) =>
        DeliveryTest(s, t, who);
      case _ =>
    }
  }

  lemma {:induction false} DeliveryRun(s: State, run: seq<Action>, who: Option<Tid>)
    requires Inv(s) && IsRun(s, run)
    ensures Inv(After(s, run)) && After(s, run).pc.Keys == s.pc.Keys
    ensures Of(After(s, run).put, After(s, run).putters, who) + Unput(After(s, run), who)
         == Of(s.put, s.putters, who) + Unput(s, who) + PutsAsked(run, who)
    ensures |Of(After(s, run).got, After(s, run).getters, who)| + Ungot(After(s, run), who)
         == |Of(s.got, s.getters, who)| + Ungot(s, who) + GetsAsked(run, who)
    decreases |run|
  {
    if run != [] {
      DeliveryStep(s, run[0], who);
      StepPreserves(s, run[0]);
      SameThreads(s, run[0]);
      hide Enabled, Step, Of, Unput, Ungot, LockInv, RingOk, Contents, PutAsked, GetAsked;
      DeliveryRun(Step(s, run[0]), run[1..], who);
      Assoc(Of(s.put, s.putters, who) + Unput(s, who), PutAsked(run[0], who), PutsAsked(run[1..], who));
    }
  }

  lemma SameThreads(s: State, a: Action)
    requires Inv(s) && Enabled(s, a)
    ensures Step(s, a).pc.Keys == s.pc.Keys
  {
    hide Contents, Add, Remove;
  }

  /** In every run, the bytes that a thread or the handlers put are those that they were asked to put, in order, and
      each call that gets a byte gets one; nobody else's byte enters or leaves. */
  lemma Delivery(threads: set<Tid>, run: seq<Action>, who: Option<Tid>)
    requires IsRun(Init(threads), run)
    ensures var s := After(Init(threads), run);
            && Owned(s) && s.pc.Keys == threads
            && Of(s.put, s.putters, who) + Unput(s, who) == PutsAsked(run, who)
            && |Of(s.got, s.getters, who)| + Ungot(s, who) == GetsAsked(run, who)
  {
    InitInv(threads);
    DeliveryRun(Init(threads), run, who);
    var s := Init(threads);
    assert Of(s.put, s.putters, who) + Unput(s, who) == [] && Ungot(s, who) == 0;
    hide After, IsRun, Of, Unput, Ungot, LockInv, Contents;
  }

  /** The assertion in wait fails exactly when a thread gets the lock late and the condition no longer holds. */
  lemma FailsIff(s: State, a: Action)
    requires Inv(s) && Enabled(s, a)
    ensures Step(s, a).failed <==>
      a.Grab? && if s.pc[a.t].GetLock? then Contents(s.ring) != [] else |Contents(s.ring)| < 63
  {
    ContentsSize(s.ring);
    hide Contents, LockInv;
  }

  /** No thread is blocked on the lock, and no assertion has failed. */
  ghost predicate Uncontended(s: State) {
    !s.failed && forall t :: t in s.pc ==> !s.pc[t].GetLock? && !s.pc[t].PutLock?
  }

  lemma AloneStep(s: State, a: Action)
    requires Inv(s) && Enabled(s, a) && Uncontended(s)
    requires forall t, u :: t in s.pc && u in s.pc ==> t == u
    ensures Uncontended(Step(s, a)) && Step(s, a).pc.Keys == s.pc.Keys
  {
    hide Contents;
  }

  lemma {:induction false} AloneRun(s: State, run: seq<Action>)
    requires Inv(s) && IsRun(s, run) && Uncontended(s)
    requires forall t, u :: t in s.pc && u in s.pc ==> t == u
    ensures Uncontended(After(s, run))
    decreases |run|
  {
    hide Inv, Step, Enabled, Uncontended;
    if run != [] {
      StepPreserves(s, run[0]);
      AloneStep(s, run[0]);
      AloneRun(Step(s, run[0]), run[1..]);
    }
  }

  lemma OneMore(s: State, a: Action, rest: seq<Action>)
    requires Enabled(s, a) && IsRun(Step(s, a), rest)
    ensures IsRun(s, [a] + rest) && After(s, [a] + rest) == After(Step(s, a), rest)
  {
    hide Enabled, Step;
    assert ([a] + rest)[1..] == rest;
  }

  /** From the point where reader `u` blocks on the lock while reader `t` waits for a byte. */
  lemma LateReader(s: State, t: Tid, u: Tid) returns (run: seq<Action>)
    requires !s.failed && RingOk(s.ring) && s.ring.head == s.ring.tail == 0
    requires t in s.pc && u in s.pc && t != u && s.lock == Some(t) && s.notEmpty == Some(t) && s.notFull.None?
    requires s.pc[t].GetWait? && s.pc[u].GetLock?
    ensures IsRun(s, run) && After(s, run).failed
  {
    var s1 := Step(s, HandlerPut(0));
    var s2 := Step(s1, HandlerPut(0));
    var s3 := Step(s2, Release(t));
    var s4 := Step(s3, Test(t));
    var s5 := Step(s4, Grab(u));
    assert s5.failed;
    hide Enabled, Step;
    run := [];
    assert IsRun(s5, run) && After(s5, run) == s5;
    OneMore(s4, Grab(u), run);
    run := [Grab(u)] + run;
    OneMore(s3, Test(t), run);
    run := [Test(t)] + run;
    OneMore(s2, Release(t), run);
    run := [Release(t)] + run;
    OneMore(s1, HandlerPut(0), run);
    run := [HandlerPut(0)] + run;
    OneMore(s, HandlerPut(0), run);
    run := [HandlerPut(0)] + run;
  }

  /** Two readers: one waits, the other blocks on the lock and gets it only when there is a byte to read. */
  lemma TwoReaders(threads: set<Tid>, t: Tid, u: Tid) returns (run: seq<Action>)
    requires t in threads && u in threads && t != u
    ensures IsRun(Init(threads), run) && After(Init(threads), run).failed
  {
    var s := Init(threads);
    var s1 := Step(s, CallGet(t));
    var s2 := Step(s1, Test(t));
    var s3 := Step(s2, CallGet(u));
    var s4 := Step(s3, Test(u));
    run := LateReader(s4, t, u);
    hide Enabled, Step;
    OneMore(s3, Test(u), run);
    run := [Test(u)] + run;
    OneMore(s2, CallGet(u), run);
    run := [CallGet(u)] + run;
    OneMore(s1, Test(t), run);
    run := [Test(t)] + run;
    OneMore(s, CallGet(t), run);
    run := [CallGet(t)] + run;
  }

  /** The queue is safe with any interrupt handlers exactly when at most one thread uses it. */
  lemma FailsIffShared(threads: set<Tid>)
    ensures (exists run :: IsRun(Init(threads), run) && After(Init(threads), run).failed)
       <==> exists t, u :: t in threads && u in threads && t != u
  {
    if t, u :| t in threads && u in threads && t != u {
      var run := TwoReaders(threads, t, u);
    } else {
      forall run | IsRun(Init(threads), run) ensures !After(Init(threads), run).failed {
        InitInv(threads);
        AloneRun(Init(threads), run);
      }
    }
  }
}
