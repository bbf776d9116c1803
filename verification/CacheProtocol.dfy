/** Every interleaving of the threads that use the buffer cache: the global lock, the entry locks and the
    reference counts together make the cache behave like a plain array of sectors with atomic accesses. */
module CacheProtocol {
  import opened Common
  import opened BufferCache

  /** A call of cache_read_len or cache_write_len. */
  datatype Op = Read(block: nat, offset: nat, len: nat) | Write(block: nat, offset: nat, buffer: seq<Byte>)

  /** Where a thread is; `e` is the index of the entry that it has found. */
  datatype Pc =
    | Idle
    | WantCache(op: Op)          // about to take cache_lock
    | Searching(op: Op)          // holds cache_lock
    | WantEntry(op: Op, e: nat)  // found its block, pinned the entry, waits for the entry's lock
    | Claimed(op: Op, e: nat)    // took over an entry, still holds cache_lock, about to take the entry's lock
    | Loading(op: Op, e: nat)    // holds the entry's lock, about to read the block from the disk
    | Using(op: Op, e: nat)      // cache_find_ent has returned
    | Releasing(e: nat)          // has copied the bytes, about to release the entry's lock
    | WantDrop(e: nat)           // about to take cache_lock again
    | Dropping(e: nat)           // holds cache_lock, about to unpin the entry

  datatype Entry = Entry(block: nat, valid: bool, dirty: bool, ref: nat, holder: Option<Tid>, data: Sector)

  /** A completed access of thread `t` and, for a read, the bytes that it returned. */
  datatype Event = Event(t: Tid, op: Op, result: seq<Byte>)

  datatype State = State(pc: map<Tid, Pc>, cacheLock: Option<Tid>, ents: seq<Entry>, disk: seq<Sector>, log: seq<Event>)

  datatype Action =
    | Call(t: Tid, op: Op)
    | LockCache(t: Tid)
    | Hit(t: Tid, e: nat)
    | Miss(t: Tid, e: nat)
    | LockClaimed(t: Tid)
    | Load(t: Tid)
    | LockEntry(t: Tid)
    | Copy(t: Tid)
    | Unlock(t: Tid)
    | Drop(t: Tid)

  function Init(threads: set<Tid>, disk: seq<Sector>): State {
    State(map t | t in threads :: Idle, None,
          seq(64, _ => Entry(0, false, false, 0, None, seq(512, _ => 0))), disk, [])
  }

  predicate Legal(op: Op, n: nat) {
    op.block < n && op.offset + (if op.Read? then op.len else |op.buffer|) <= 512
  }

  /** The entry that a miss may take over: an invalid one if there is any, else an unpinned one. */
  ghost predicate Victim(s: State, e: nat) {
    && e < |s.ents|
    && (!s.ents[e].valid || (s.ents[e].ref == 0 && forall i :: 0 <= i < |s.ents| ==> s.ents[i].valid))
  }

  ghost predicate Cached(s: State, b: nat) {
    exists i :: 0 <= i < |s.ents| && s.ents[i].valid && s.ents[i].block == b
  }

  ghost predicate Enabled(s: State, a: Action) {
    && a.t in s.pc
    && var p := s.pc[a.t];
       match a
       case Call(_, op) => p.Idle? && Legal(op, |s.disk|)
       case LockCache(_) => s.cacheLock.None? && (p.WantCache? || p.WantDrop?)
       case Hit(_, e) => p.Searching? && e < |s.ents| && s.ents[e].valid && s.ents[e].block == p.op.block
       case Miss(_, e) => p.Searching? && !Cached(s, p.op.block) && Victim(s, e)
       case LockClaimed(_) => p.Claimed? && p.e < |s.ents| && s.ents[p.e].holder.None?
       case Load(_) => p.Loading? && p.e < |s.ents| && s.ents[p.e].block < |s.disk|
       case LockEntry(_) => p.WantEntry? && p.e < |s.ents| && s.ents[p.e].holder.None?
       case Copy(_) => p.Using? && p.e < |s.ents| && Legal(p.op, |s.disk|)
       case Unlock(_) => p.Releasing? && p.e < |s.ents|
       case Drop(_) => p.Dropping? && p.e < |s.ents| && s.ents[p.e].ref > 0
  }

  function WriteBack(e: Entry, disk: seq<Sector>): seq<Sector> {
    if e.valid && e.dirty && e.block < |disk| then disk[e.block := e.data] else disk
  }

  function Step(s: State, a: Action): State
    requires Enabled(s, a)
  {
    var t, p := a.t, s.pc[a.t];
    match a
    case Call(_, op) => s.(pc := s.pc[t := WantCache(op)])
    case LockCache(_) =>
      s.(cacheLock := Some(t), pc := s.pc[t := if p.WantCache? then Searching(p.op) else Dropping(p.e)])
    case Hit(_, e) =>
      s.(cacheLock := None, pc := s.pc[t := WantEntry(p.op, e)], ents := s.ents[e := s.ents[e].(ref := s.ents[e].ref + 1)])
    case Miss(_, e) =>
      // write-back of a dirty victim, then the entry is declared valid for the new block
      s.(disk := WriteBack(s.ents[e], s.disk), pc := s.pc[t := Claimed(p.op, e)],
         ents := s.ents[e := s.ents[e].(block := p.op.block, valid := true, ref := s.ents[e].ref + 1,
                                        dirty := s.ents[e].dirty && !s.ents[e].valid)])
    case LockClaimed(_) =>
      s.(cacheLock := None, pc := s.pc[t := Loading(p.op, p.e)], ents := s.ents[p.e := s.ents[p.e].(holder := Some(t))])
    case Load(_) =>
      s.(pc := s.pc[t := Using(p.op, p.e)], ents := s.ents[p.e := s.ents[p.e].(data := s.disk[s.ents[p.e].block])])
    case LockEntry(_) =>
      s.(pc := s.pc[t := Using(p.op, p.e)], ents := s.ents[p.e := s.ents[p.e].(holder := Some(t))])
    case Copy(_) =>
      var d := s.ents[p.e].data;
      if p.op.Read? then
        s.(pc := s.pc[t := Releasing(p.e)], log := s.log + [Event(t, p.op, d[p.op.offset..p.op.offset + p.op.len])])
      else
        s.(pc := s.pc[t := Releasing(p.e)], log := s.log + [Event(t, p.op, [])],
           ents := s.ents[p.e := s.ents[p.e].(data := Patched(d, p.op.offset, p.op.buffer), dirty := true)])
    case Unlock(_) =>
      s.(pc := s.pc[t := WantDrop(p.e)], ents := s.ents[p.e := s.ents[p.e].(holder := None)])
    case Drop(_) =>
      s.(cacheLock := None, pc := s.pc[t := Idle], ents := s.ents[p.e := s.ents[p.e].(ref := s.ents[p.e].ref - 1)])
  }

  ghost predicate IsRun(s: State, run: seq<Action>)
    decreases |run|
  {
    run == [] || (Enabled(s, run[0]) && IsRun(Step(s, run[0]), run[1..]))
  }

  ghost function After(s: State, run: seq<Action>): State
    requires IsRun(s, run)
    decreases |run|
  {
    if run == [] then s else After(Step(s, run[0]), run[1..])
  }

  // ---------- the plain array ----------

  /** A plain array of sectors after the writes of `log`. */
  function Contents(disk: seq<Sector>, log: seq<Event>): (c: seq<Sector>)
    ensures |c| == |disk|
    decreases |log|
  {
    if log == [] then disk
    else
      var c, ev := Contents(disk, log[..|log| - 1]), log[|log| - 1];
      if ev.op.Write? && Legal(ev.op, |disk|)
      then c[ev.op.block := Patched(c[ev.op.block], ev.op.offset, ev.op.buffer)] else c
  }

  /** An access stayed within a block, and a read returned what the plain array `c` held. */
  predicate ReadsBack(c: seq<Sector>, ev: Event) {
    && Legal(ev.op, |c|)
    && (ev.op.Read? ==> ev.result == c[ev.op.block][ev.op.offset..ev.op.offset + ev.op.len])
  }

  /** Every read returned what the plain array held at that point of the log. */
  ghost predicate Atomic(disk: seq<Sector>, log: seq<Event>) {
    forall i :: 0 <= i < |log| ==> ReadsBack(Contents(disk, log[..i]), log[i])
  }

  // ---------- the invariant ----------

  predicate HoldsCache(p: Pc) { p.Searching? || p.Claimed? || p.Dropping? }

  /** The thread is between finding entry `e` and dropping it. */
  predicate Pins(p: Pc, e: nat) {
    (p.WantEntry? || p.Claimed? || p.Loading? || p.Using? || p.Releasing? || p.WantDrop? || p.Dropping?) && p.e == e
  }

  predicate HoldsEntry(p: Pc, e: nat) { (p.Loading? || p.Using? || p.Releasing?) && p.e == e }

  /** The entry's block has been assigned but not read from the disk yet. */
  predicate Fills(p: Pc, e: nat) { (p.Claimed? || p.Loading?) && p.e == e }

  /** Calls in progress work on legal ranges, and the entry they have found is valid for their block. */
  ghost predicate GoodPc(s: State, p: Pc) {
    && (p.WantCache? || p.Searching? || p.WantEntry? || p.Claimed? || p.Loading? || p.Using? ==> Legal(p.op, |s.disk|))
    && (p.WantEntry? || p.Claimed? || p.Loading? || p.Using? ==>
          p.e < |s.ents| && s.ents[p.e].valid && s.ents[p.e].block == p.op.block)
    && (p.Releasing? || p.WantDrop? || p.Dropping? ==> p.e < |s.ents| && s.ents[p.e].valid)
  }

  function Pinners(s: State, e: nat): set<Tid> { set t | t in s.pc && Pins(s.pc[t], e) }

  ghost predicate CacheLockInv(s: State) {
    && (s.cacheLock.Some? ==> s.cacheLock.value in s.pc)
    && (forall t :: t in s.pc ==> (HoldsCache(s.pc[t]) <==> s.cacheLock == Some(t)))
  }

  ghost predicate PcInv(s: State) {
    forall t :: t in s.pc ==> GoodPc(s, s.pc[t])
  }

  ghost predicate EntryLockInv(s: State) {
    && (forall e :: 0 <= e < |s.ents| && s.ents[e].holder.Some? ==> s.ents[e].holder.value in s.pc)
    && (forall e, t :: 0 <= e < |s.ents| && t in s.pc ==> (HoldsEntry(s.pc[t], e) <==> s.ents[e].holder == Some(t)))
  }

  ghost predicate LockInv(s: State) {
    |s.ents| == 64 && CacheLockInv(s) && PcInv(s) && EntryLockInv(s)
  }

  ghost predicate RefInv(s: State) {
    && (forall e :: 0 <= e < |s.ents| ==> s.ents[e].ref == |Pinners(s, e)|)
    && (forall e :: 0 <= e < |s.ents| && !s.ents[e].valid ==> s.ents[e].ref == 0 && !s.ents[e].dirty)
    // while an entry is being claimed nobody else has it
    && (forall t, u :: t in s.pc && u in s.pc && t != u && s.pc[t].Claimed? ==> !Pins(s.pc[u], s.pc[t].e))
  }

  ghost predicate Filling(s: State, e: nat) { exists t :: t in s.pc && Fills(s.pc[t], e) }

  /** At most one valid entry per block. */
  ghost predicate Unique(s: State) {
    && (forall e :: 0 <= e < |s.ents| && s.ents[e].valid ==> s.ents[e].block < |s.disk|)
    && (forall i, j :: 0 <= i < |s.ents| && 0 <= j < |s.ents| && i != j && s.ents[i].valid && s.ents[j].valid ==>
          s.ents[i].block != s.ents[j].block)
  }

  /** A valid entry holds its block of the plain array `c`, unless the block is still to be read. */
  ghost predicate Loaded(s: State, c: seq<Sector>)
    requires |c| == |s.disk|
  {
    forall e :: 0 <= e < |s.ents| && s.ents[e].valid && s.ents[e].block < |c| ==>
      if Filling(s, e) then !s.ents[e].dirty else s.ents[e].data == c[s.ents[e].block]
  }

  /** The disk is up to date for every block that is not dirty in the cache. */
  ghost predicate UpToDate(s: State, c: seq<Sector>)
    requires |c| == |s.disk|
  {
    forall b :: 0 <= b < |s.disk| ==> s.disk[b] == c[b] || DirtyIn(s, b)
  }

  ghost predicate DataInv(s: State, c: seq<Sector>) {
    |c| == |s.disk| && Unique(s) && Loaded(s, c) && UpToDate(s, c)
  }

  ghost predicate DirtyIn(s: State, b: nat) {
    exists i :: 0 <= i < |s.ents| && s.ents[i].valid && s.ents[i].dirty && s.ents[i].block == b
  }

  ghost predicate Inv(threads: set<Tid>, disk0: seq<Sector>, s: State) {
    && s.pc.Keys == threads && |s.disk| == |disk0|
    && (forall ev :: ev in s.log ==> ev.t in threads)
    && LockInv(s) && RefInv(s)
    && DataInv(s, Contents(disk0, s.log))
    && Atomic(disk0, s.log)
  }

  // ---------- locks and reference counts ----------

  lemma NoPinners(s: State, e: nat)
    requires RefInv(s) && e < |s.ents| && s.ents[e].ref == 0
    ensures forall t :: t in s.pc ==> !Pins(s.pc[t], e)
  {
    assert Pinners(s, e) == {};
    forall t | t in s.pc ensures !Pins(s.pc[t], e) {
      assert t !in Pinners(s, e);
    }
  }

  /** Only an entry without pinners is taken over. */
  lemma VictimUnpinned(s: State, e: nat)
    requires RefInv(s) && Victim(s, e)
    ensures s.ents[e].ref == 0 && forall t :: t in s.pc ==> !Pins(s.pc[t], e)
  {
    NoPinners(s, e);
  }

  lemma CacheLockPreserved(s: State, a: Action)
    requires LockInv(s) && Enabled(s, a)
    ensures CacheLockInv(Step(s, a))
  {
    hide PcInv, EntryLockInv, Victim, Cached, WriteBack;
  }

  lemma PcPreserved(s: State, a: Action)
    requires LockInv(s) && RefInv(s) && Enabled(s, a)
    ensures PcInv(Step(s, a))
  {
    hide CacheLockInv, EntryLockInv, Cached;
    var s' := Step(s, a);
    if a.Miss? {
      VictimUnpinned(s, a.e);
    }
    hide RefInv, Victim;
    assert GoodPc(s, s.pc[a.t]);
    forall t | t in s'.pc ensures GoodPc(s', s'.pc[t]) {
      assert GoodPc(s, s.pc[t]);
    }
  }

  /** The entry that a step may change. */
  function Target(s: State, a: Action): nat
    requires Enabled(s, a)
  {
    var p := s.pc[a.t];
    if a.Hit? || a.Miss? then a.e
    else if a.Call? || a.LockCache? then 0
    else p.e
  }

  lemma StepFrame(s: State, a: Action)
    requires Enabled(s, a)
    ensures Step(s, a).pc == s.pc[a.t := Step(s, a).pc[a.t]]
    ensures |Step(s, a).ents| == |s.ents| && |Step(s, a).disk| == |s.disk|
    ensures forall e :: 0 <= e < |s.ents| && e != Target(s, a) ==> Step(s, a).ents[e] == s.ents[e]
  {
  }

  lemma EntryLockAt(s: State, a: Action, e: nat, u: Tid)
    requires EntryLockInv(s) && Enabled(s, a) && GoodPc(s, s.pc[a.t]) && e < |s.ents| && u in s.pc
    ensures |Step(s, a).ents| == |s.ents| && u in Step(s, a).pc
    ensures HoldsEntry(Step(s, a).pc[u], e) <==> Step(s, a).ents[e].holder == Some(u)
  {
    hide Victim, Cached, WriteBack;
    StepFrame(s, a);
    var before := HoldsEntry(s.pc[u], e) <==> s.ents[e].holder == Some(u);
    assert before && (HoldsEntry(s.pc[a.t], e) <==> s.ents[e].holder == Some(a.t));
    hide EntryLockInv;
  }

  lemma EntryLockPreserved(s: State, a: Action)
    requires LockInv(s) && Enabled(s, a)
    ensures EntryLockInv(Step(s, a))
  {
    hide CacheLockInv, Victim, Cached, WriteBack;
    var s', t := Step(s, a), a.t;
    assert GoodPc(s, s.pc[t]);
    StepFrame(s, a);
    hide Step, GoodPc;
    forall e, u | 0 <= e < |s'.ents| && u in s'.pc
      ensures HoldsEntry(s'.pc[u], e) <==> s'.ents[e].holder == Some(u)
    {
      EntryLockAt(s, a, e, u);
    }
    forall e | 0 <= e < |s'.ents| && s'.ents[e].holder.Some?
      ensures s'.ents[e].holder.value in s'.pc
    {
      HolderIsThread(s, a, e);
    }
  }

  lemma HolderIsThread(s: State, a: Action, e: nat)
    requires EntryLockInv(s) && Enabled(s, a) && GoodPc(s, s.pc[a.t]) && e < |s.ents|
    ensures |Step(s, a).ents| == |s.ents|
    ensures Step(s, a).ents[e].holder.Some? ==> Step(s, a).ents[e].holder.value in Step(s, a).pc
  {
    hide Victim, Cached, WriteBack;
    StepFrame(s, a);
  }

  function Count(b: bool): nat { if b then 1 else 0 }

  lemma PinStep(s: State, a: Action, e: nat)
    requires Enabled(s, a) && GoodPc(s, s.pc[a.t]) && e < |s.ents|
    requires !s.ents[e].valid ==> s.ents[e].ref == 0 && !s.ents[e].dirty
    ensures |Step(s, a).ents| == |s.ents|
    ensures Step(s, a).ents[e].ref + Count(Pins(s.pc[a.t], e)) == s.ents[e].ref + Count(Pins(Step(s, a).pc[a.t], e))
    ensures !Step(s, a).ents[e].valid ==> Step(s, a).ents[e].ref == 0 && !Step(s, a).ents[e].dirty
  {
    hide Cached, WriteBack, Victim;
    StepFrame(s, a);
  }

  /** What moving one thread does to the pinners of an entry. */
  lemma PinnersMoved(s: State, s': State, t: Tid, e: nat)
    requires t in s.pc && t in s'.pc && s'.pc == s.pc[t := s'.pc[t]]
    ensures |Pinners(s', e)| + Count(Pins(s.pc[t], e)) == |Pinners(s, e)| + Count(Pins(s'.pc[t], e))
  {
    hide Pins;
    var P, P' := Pinners(s, e), Pinners(s', e);
    assert forall u :: u in s.pc && u != t ==> (u in P' <==> u in P);
    assert (t in P <==> Pins(s.pc[t], e)) && (t in P' <==> Pins(s'.pc[t], e));
    if Pins(s'.pc[t], e) {
      assert P' == P + {t};
    } else {
      assert P' == P - {t};
    }
  }

  lemma RefAt(s: State, a: Action, e: nat)
    requires RefInv(s) && Enabled(s, a) && GoodPc(s, s.pc[a.t]) && e < |s.ents|
    ensures |Step(s, a).ents| == |s.ents|
    ensures Step(s, a).ents[e].ref == |Pinners(Step(s, a), e)|
    ensures !Step(s, a).ents[e].valid ==> Step(s, a).ents[e].ref == 0 && !Step(s, a).ents[e].dirty
  {
    StepFrame(s, a);
    PinStep(s, a, e);
    assert s.ents[e].ref == |Pinners(s, e)|;
    assert a.t in s.pc;
    hide Step, GoodPc, Enabled, RefInv, Pins, Pinners;
    PinnersMoved(s, Step(s, a), a.t, e);
  }

  lemma ClaimedAlone(s: State, a: Action, u: Tid, w: Tid)
    requires LockInv(s) && RefInv(s) && Enabled(s, a)
    requires u in s.pc && w in s.pc && u != w && Step(s, a).pc[u].Claimed?
    ensures !Pins(Step(s, a).pc[w], Step(s, a).pc[u].e)
  {
    hide PcInv, EntryLockInv, Cached, WriteBack;
    StepFrame(s, a);
    if u == a.t {
      VictimUnpinned(s, a.e);
    } else {
      assert HoldsCache(s.pc[u]) && !Pins(s.pc[w], s.pc[u].e);
      assert HoldsCache(s.pc[w]) <==> s.cacheLock == Some(w);
    }
  }

  lemma RefPreserved(s: State, a: Action)
    requires LockInv(s) && RefInv(s) && Enabled(s, a)
    ensures RefInv(Step(s, a))
  {
    var s' := Step(s, a);
    StepFrame(s, a);
    assert GoodPc(s, s.pc[a.t]);
    hide Step, GoodPc, Enabled, Pinners;
    forall e | 0 <= e < |s'.ents|
      ensures s'.ents[e].ref == |Pinners(s', e)|
      ensures !s'.ents[e].valid ==> s'.ents[e].ref == 0 && !s'.ents[e].dirty
    {
      RefAt(s, a, e);
    }
    forall t, u | t in s'.pc && u in s'.pc && t != u && s'.pc[t].Claimed?
      ensures !Pins(s'.pc[u], s'.pc[t].e)
    {
      ClaimedAlone(s, a, t, u);
    }
  }

  // ---------- the data ----------

  lemma UniquePreserved(s: State, a: Action)
    requires LockInv(s) && Unique(s) && Enabled(s, a)
    ensures Unique(Step(s, a))
  {
    hide CacheLockInv, EntryLockInv, Victim, WriteBack;
    StepFrame(s, a);
    assert GoodPc(s, s.pc[a.t]);
    hide PcInv;
    if a.Miss? {
      forall i | 0 <= i < |s.ents| && s.ents[i].valid ensures s.ents[i].block != s.pc[a.t].op.block {
        assert !Cached(s, s.pc[a.t].op.block);
      }
    }
    hide Cached;
  }

  /** A thread that has been given an entry's lock after waiting for it finds the entry loaded. */
  lemma UserFindsItLoaded(s: State, t: Tid)
    requires LockInv(s) && RefInv(s) && t in s.pc && (s.pc[t].Using? || s.pc[t].Loading?)
    ensures forall u :: u in s.pc && u != t ==> !Fills(s.pc[u], s.pc[t].e)
  {
    hide CacheLockInv, Pinners;
    var e := s.pc[t].e;
    assert GoodPc(s, s.pc[t]);
    forall u | u in s.pc && u != t ensures !Fills(s.pc[u], e) {
      assert HoldsEntry(s.pc[t], e) && Pins(s.pc[t], e);
      assert HoldsEntry(s.pc[u], e) <==> s.ents[e].holder == Some(u);
    }
  }

  lemma FillingStep(s: State, a: Action, e: nat)
    requires LockInv(s) && RefInv(s) && Enabled(s, a) && e < |s.ents|
    ensures Filling(Step(s, a), e)
       <==> (Filling(s, e) && !(a.Load? && e == Target(s, a))) || (a.Miss? && e == a.e)
  {
    hide CacheLockInv, EntryLockInv, PcInv, Cached, Victim, WriteBack;
    var s', t := Step(s, a), a.t;
    StepFrame(s, a);
    if a.Load? {
      UserFindsItLoaded(s, t);
    }
    hide RefInv;
    if Fills(s'.pc[t], e) {
      assert Filling(s', e);
      assert Fills(s.pc[t], e) || (a.Miss? && e == a.e);
    } else if Filling(s', e) {
      var u :| u in s'.pc && Fills(s'.pc[u], e);
      assert u != t && Fills(s.pc[u], e);
    }
    if Filling(s, e) {
      var u :| u in s.pc && Fills(s.pc[u], e);
      assert u != t ==> Fills(s'.pc[u], e);
    }
  }

  lemma LogStep(disk: seq<Sector>, log: seq<Event>, ev: Event)
    ensures var c := Contents(disk, log);
            Contents(disk, log + [ev]) ==
              if ev.op.Write? && Legal(ev.op, |disk|)
              then c[ev.op.block := Patched(c[ev.op.block], ev.op.offset, ev.op.buffer)] else c
  {
    assert (log + [ev])[..|log|] == log;
  }

  lemma AtomicStep(disk: seq<Sector>, log: seq<Event>, ev: Event)
    requires Atomic(disk, log) && ReadsBack(Contents(disk, log), ev)
    ensures Atomic(disk, log + [ev])
  {
    hide ReadsBack, Contents;
    var log' := log + [ev];
    forall i | 0 <= i < |log'| ensures ReadsBack(Contents(disk, log'[..i]), log'[i]) {
      assert log'[..i] == log[..i];
    }
  }

  /** What a completed access does to the plain array. */
  function Applied(s: State, a: Action, c: seq<Sector>): seq<Sector>
    requires Enabled(s, a) && |c| == |s.disk|
  {
    var p := s.pc[a.t];
    if a.Copy? && p.op.Write? then c[p.op.block := Patched(c[p.op.block], p.op.offset, p.op.buffer)] else c
  }

  lemma ContentsStep(disk0: seq<Sector>, s: State, a: Action)
    requires Enabled(s, a) && |disk0| == |s.disk|
    ensures Contents(disk0, Step(s, a).log) == Applied(s, a, Contents(disk0, s.log))
  {
    hide Cached, Victim, WriteBack, Contents, Patched;
    if a.Copy? {
      LogStep(disk0, s.log, Step(s, a).log[|s.log|]);
    } else {
      assert Step(s, a).log == s.log;
    }
  }

  lemma LoadedAt(s: State, a: Action, c: seq<Sector>, e: nat)
    requires LockInv(s) && RefInv(s) && DataInv(s, c) && Enabled(s, a) && e < |s.ents|
    requires Step(s, a).ents[e].valid && Step(s, a).ents[e].block < |c|
    ensures if Filling(Step(s, a), e) then !Step(s, a).ents[e].dirty
            else Step(s, a).ents[e].data == Applied(s, a, c)[Step(s, a).ents[e].block]
  {
    hide CacheLockInv, EntryLockInv, Cached, Victim, WriteBack;
    var s', t := Step(s, a), a.t;
    StepFrame(s, a);
    FillingStep(s, a, e);
    assert GoodPc(s, s.pc[t]);
    if a.Copy? {
      UserFindsItLoaded(s, t);
      assert !Filling(s, s.pc[t].e);
    } else if a.Load? {
      assert Fills(s.pc[t], s.pc[t].e);
      assert Filling(s, s.pc[t].e);
      assert !DirtyIn(s, s.ents[s.pc[t].e].block);
    }
  }

  lemma UpToDateAt(s: State, a: Action, c: seq<Sector>, b: nat)
    requires LockInv(s) && RefInv(s) && DataInv(s, c) && Enabled(s, a) && b < |c|
    ensures |Step(s, a).disk| == |c|
    ensures Step(s, a).disk[b] == Applied(s, a, c)[b] || DirtyIn(Step(s, a), b)
  {
    hide CacheLockInv, EntryLockInv, Cached;
    var s', t := Step(s, a), a.t;
    StepFrame(s, a);
    assert GoodPc(s, s.pc[t]);
    if a.Miss? {
      VictimUnpinned(s, a.e);
      assert !Filling(s, a.e);
    }
    hide RefInv, Victim;
    if DirtyIn(s, b) {
      var i :| 0 <= i < |s.ents| && s.ents[i].valid && s.ents[i].dirty && s.ents[i].block == b;
      if !(a.Miss? && i == a.e) {
        assert s'.ents[i].valid && s'.ents[i].dirty && s'.ents[i].block == b;
      }
    } else if a.Copy? && s.pc[t].op.Write? && s.pc[t].op.block == b {
      assert s'.ents[s.pc[t].e].dirty;
    }
  }

  // ---------- every run ----------

  lemma DataPreserved(s: State, a: Action, c: seq<Sector>)
    requires LockInv(s) && RefInv(s) && DataInv(s, c) && Enabled(s, a)
    ensures DataInv(Step(s, a), Applied(s, a, c))
  {
    var s', c' := Step(s, a), Applied(s, a, c);
    StepFrame(s, a);
    assert GoodPc(s, s.pc[a.t]);
    assert |c'| == |c|;
    UniquePreserved(s, a);
    hide Step, Applied, Enabled, LockInv, RefInv, Unique;
    forall e | 0 <= e < |s'.ents| && s'.ents[e].valid && s'.ents[e].block < |c'|
      ensures if Filling(s', e) then !s'.ents[e].dirty else s'.ents[e].data == c'[s'.ents[e].block]
    {
      LoadedAt(s, a, c, e);
    }
    forall b | 0 <= b < |s'.disk| ensures s'.disk[b] == c'[b] || DirtyIn(s', b) {
      UpToDateAt(s, a, c, b);
    }
  }

  lemma AtomicPreserved(disk0: seq<Sector>, s: State, a: Action)
    requires |disk0| == |s.disk| && LockInv(s) && RefInv(s) && Enabled(s, a) && Atomic(disk0, s.log)
    requires DataInv(s, Contents(disk0, s.log))
    ensures Atomic(disk0, Step(s, a).log)
  {
    hide CacheLockInv, EntryLockInv, Cached, Victim, WriteBack, Atomic, Contents;
    var t := a.t;
    if a.Copy? {
      UserFindsItLoaded(s, t);
      assert !Filling(s, s.pc[t].e);
      assert GoodPc(s, s.pc[t]);
      hide RefInv;
      AtomicStep(disk0, s.log, Step(s, a).log[|s.log|]);
    }
  }

  lemma LoggerIsThread(s: State, a: Action)
    requires Enabled(s, a)
    ensures forall ev :: ev in Step(s, a).log ==> ev in s.log || ev.t in s.pc
  {
    hide Cached, Victim, WriteBack, Patched, Legal;
  }

  lemma StepPreserves(threads: set<Tid>, disk0: seq<Sector>, s: State, a: Action)
    requires Inv(threads, disk0, s) && Enabled(s, a)
    ensures Inv(threads, disk0, Step(s, a))
  {
    CacheLockPreserved(s, a);
    PcPreserved(s, a);
    EntryLockPreserved(s, a);
    RefPreserved(s, a);
    DataPreserved(s, a, Contents(disk0, s.log));
    ContentsStep(disk0, s, a);
    AtomicPreserved(disk0, s, a);
    StepFrame(s, a);
    LoggerIsThread(s, a);
    assert LockInv(Step(s, a));
    hide Step, Enabled, LockInv, RefInv, DataInv, Atomic, Applied;
  }

  lemma InitInv(threads: set<Tid>, disk: seq<Sector>)
    ensures Inv(threads, disk, Init(threads, disk))
  {
    var s := Init(threads, disk);
    forall e | 0 <= e < |s.ents| ensures Pinners(s, e) == {} {
      assert forall t :: t in s.pc ==> !Pins(s.pc[t], e);
    }
  }

  lemma {:induction false} RunPreserves(threads: set<Tid>, disk0: seq<Sector>, s: State, run: seq<Action>)
    requires Inv(threads, disk0, s) && IsRun(s, run)
    ensures Inv(threads, disk0, After(s, run))
    decreases |run|
  {
    hide Inv, Enabled, Step;
    if run != [] {
      StepPreserves(threads, disk0, s, run[0]);
      RunPreserves(threads, disk0, Step(s, run[0]), run[1..]);
    }
  }

  // ---------- what the runs promise ----------

  /** The accesses of every run are atomic on a plain array of sectors, and a thread that has found its entry
      holds the lock of the only valid entry of its block, which is loaded with what the plain array holds. */
  lemma Transparent(threads: set<Tid>, disk: seq<Sector>, run: seq<Action>, t: Tid)
    requires IsRun(Init(threads, disk), run)
    ensures Atomic(disk, After(Init(threads, disk), run).log)
    ensures var s := After(Init(threads, disk), run);
            t in s.pc && s.pc[t].Using? ==>
              && Legal(s.pc[t].op, |disk|)
              && s.pc[t].e < |s.ents|
              && var e := s.ents[s.pc[t].e];
                 && e.holder == Some(t) && e.valid && e.block == s.pc[t].op.block
                 && e.data == Contents(disk, s.log)[e.block]
                 && forall i :: 0 <= i < |s.ents| && i != s.pc[t].e && s.ents[i].valid ==> s.ents[i].block != e.block
  {
    InitInv(threads, disk);
    RunPreserves(threads, disk, Init(threads, disk), run);
    var s := After(Init(threads, disk), run);
    hide After, IsRun, Init, Atomic, CacheLockInv;
    if t in s.pc && s.pc[t].Using? {
      assert GoodPc(s, s.pc[t]);
      UserFindsItLoaded(s, t);
      assert !Filling(s, s.pc[t].e);
      assert HoldsEntry(s.pc[t], s.pc[t].e);
    }
  }

  /** The accesses that thread `t` has completed, in order. */
  function OpsOf(log: seq<Event>, t: Tid): seq<Op>
    decreases |log|
  {
    if log == [] then []
    else
      var ev := log[|log| - 1];
      OpsOf(log[..|log| - 1], t) + if ev.t == t then [ev.op] else []
  }

  /** The access that a thread has been asked for and has not made yet. */
  function Carried(p: Pc): seq<Op> {
    if p.WantCache? || p.Searching? || p.WantEntry? || p.Claimed? || p.Loading? || p.Using? then [p.op] else []
  }

  /** The accesses that the run asks thread `t` for, in order. */
  function Asked(run: seq<Action>, t: Tid): seq<Op> {
    if run == [] then []
    else (if run[0].Call? && run[0].t == t then [run[0].op] else []) + Asked(run[1..], t)
  }

  lemma OpsSnoc(log: seq<Event>, ev: Event, t: Tid)
    ensures OpsOf(log + [ev], t) == OpsOf(log, t) + if ev.t == t then [ev.op] else []
  {
    assert (log + [ev])[..|log|] == log;
  }

  lemma OpsStep(s: State, a: Action, t: Tid)
    requires Enabled(s, a) && t in s.pc
    ensures t in Step(s, a).pc
    ensures OpsOf(Step(s, a).log, t) + Carried(Step(s, a).pc[t])
         == OpsOf(s.log, t) + Carried(s.pc[t]) + if a.Call? && a.t == t then [a.op] else []
  {
    hide Cached, Victim, WriteBack, Patched, OpsOf, Legal;
    var s' := Step(s, a);
    if a.Copy? {
      OpsSnoc(s.log, s'.log[|s.log|], t);
      assert s'.log == s.log + [s'.log[|s.log|]];
      assert Carried(s'.pc[t]) == if a.t == t then [] else Carried(s.pc[t]);
    } else {
      assert s'.log == s.log;
      assert Carried(s'.pc[t]) == Carried(s.pc[t]) + if a.Call? && a.t == t then [a.op] else [];
    }
    hide Step, Enabled, Carried;
    Assoc(OpsOf(s.log, t), Carried(s.pc[t]), if a.Call? && a.t == t then [a.op] else []);
  }

  lemma {:induction false} OpsRun(s: State, run: seq<Action>, t: Tid)
    requires IsRun(s, run) && t in s.pc
    ensures t in After(s, run).pc
    ensures OpsOf(After(s, run).log, t) + Carried(After(s, run).pc[t])
         == OpsOf(s.log, t) + Carried(s.pc[t]) + Asked(run, t)
    decreases |run|
  {
    if run != [] {
      OpsStep(s, run[0], t);
      hide Enabled, Step, OpsOf, Carried;
      OpsRun(Step(s, run[0]), run[1..], t);
      Assoc(OpsOf(s.log, t) + Carried(s.pc[t]), if run[0].Call? && run[0].t == t then [run[0].op] else [], Asked(run[1..], t));
    }
  }

  lemma LoggersAreThreads(threads: set<Tid>, disk: seq<Sector>, run: seq<Action>)
    requires IsRun(Init(threads, disk), run)
    ensures forall ev :: ev in After(Init(threads, disk), run).log ==> ev.t in threads
  {
    InitInv(threads, disk);
    RunPreserves(threads, disk, Init(threads, disk), run);
    hide After, IsRun, Init, LockInv, RefInv, DataInv, Atomic;
  }

  /** The logged accesses of each thread, and then the one it is still to make, are the calls that the run asks
      it for, in their order; and nobody else's are logged. */
  lemma LogIsWhatWasAsked(threads: set<Tid>, disk: seq<Sector>, run: seq<Action>, t: Tid)
    requires IsRun(Init(threads, disk), run) && t in threads
    ensures var s := After(Init(threads, disk), run);
            t in s.pc && OpsOf(s.log, t) + Carried(s.pc[t]) == Asked(run, t)
    ensures forall ev :: ev in After(Init(threads, disk), run).log ==> ev.t in threads
  {
    LoggersAreThreads(threads, disk, run);
    OpsRun(Init(threads, disk), run, t);
    assert OpsOf(Init(threads, disk).log, t) + Carried(Init(threads, disk).pc[t]) + Asked(run, t) == Asked(run, t);
    hide After, IsRun, Init, OpsOf, Carried, Asked;
  }

  /** The event writes byte `o` of block `b`. */
  predicate Covers(ev: Event, b: nat, o: nat) {
    ev.op.Write? && ev.op.block == b && ev.op.offset <= o < ev.op.offset + |ev.op.buffer|
  }

  /** `x` is the byte that the last covering write of the log put there, or the byte of the disk if there is none. */
  ghost predicate LastWritten(disk: seq<Sector>, log: seq<Event>, b: nat, o: nat, x: Byte)
    requires b < |disk| && o < 512
  {
    || (x == disk[b][o] && forall j :: 0 <= j < |log| ==> !Covers(log[j], b, o))
    || (exists j :: 0 <= j < |log| && Covers(log[j], b, o) && x == log[j].op.buffer[o - log[j].op.offset]
                    && forall m :: j < m < |log| ==> !Covers(log[m], b, o))
  }

  lemma {:induction false} ContentsByte(disk: seq<Sector>, log: seq<Event>, b: nat, o: nat)
    requires b < |disk| && o < 512 && forall i :: 0 <= i < |log| ==> Legal(log[i].op, |disk|)
    ensures LastWritten(disk, log, b, o, Contents(disk, log)[b][o])
    decreases |log|
  {
    if log != [] {
      var n := |log| - 1;
      var l, ev := log[..n], log[n];
      ContentsByte(disk, l, b, o);
      assert log == l + [ev] && Legal(ev.op, |disk|);
      LogStep(disk, l, ev);
      if ev.op.Write? {
        AppliedByte(Contents(disk, l), ev, b, o);
      }
      hide Contents, Patched;
      var x := Contents(disk, log)[b][o];
      assert x == if Covers(ev, b, o) then ev.op.buffer[o - ev.op.offset] else Contents(disk, l)[b][o];
      LastWrittenSnoc(disk, l, ev, b, o, Contents(disk, l)[b][o], x);
    }
  }

  lemma AppliedByte(c: seq<Sector>, ev: Event, b: nat, o: nat)
    requires Legal(ev.op, |c|) && b < |c| && o < 512 && ev.op.Write?
    ensures c[ev.op.block := Patched(c[ev.op.block], ev.op.offset, ev.op.buffer)][b][o]
         == if Covers(ev, b, o) then ev.op.buffer[o - ev.op.offset] else c[b][o]
  {
  }

  lemma LastWrittenSnoc(disk: seq<Sector>, l: seq<Event>, ev: Event, b: nat, o: nat, x: Byte, x': Byte)
    requires b < |disk| && o < 512 && LastWritten(disk, l, b, o, x)
    requires x' == if Covers(ev, b, o) then ev.op.buffer[o - ev.op.offset] else x
    ensures LastWritten(disk, l + [ev], b, o, x')
  {
    var log := l + [ev];
    assert log[|l|] == ev && forall j :: 0 <= j < |l| ==> log[j] == l[j];
    if Covers(ev, b, o) {
      assert Covers(log[|l|], b, o);
    }
  }

  /** In every run, each byte that a read returned is the byte that the last completed write before it put there. */
  lemma ReadsLastWrite(threads: set<Tid>, disk: seq<Sector>, run: seq<Action>, i: nat, k: nat)
    requires IsRun(Init(threads, disk), run)
    requires i < |After(Init(threads, disk), run).log| && After(Init(threads, disk), run).log[i].op.Read?
    requires k < After(Init(threads, disk), run).log[i].op.len
    ensures var log := After(Init(threads, disk), run).log;
            && log[i].op.block < |disk| && log[i].op.offset + log[i].op.len <= 512 && |log[i].result| == log[i].op.len
            && LastWritten(disk, log[..i], log[i].op.block, log[i].op.offset + k, log[i].result[k])
  {
    InitInv(threads, disk);
    RunPreserves(threads, disk, Init(threads, disk), run);
    ReadByte(disk, After(Init(threads, disk), run).log, i, k);
  }

  lemma ReadByte(disk: seq<Sector>, log: seq<Event>, i: nat, k: nat)
    requires Atomic(disk, log) && i < |log| && log[i].op.Read? && k < log[i].op.len
    ensures log[i].op.block < |disk| && log[i].op.offset + log[i].op.len <= 512 && |log[i].result| == log[i].op.len
    ensures LastWritten(disk, log[..i], log[i].op.block, log[i].op.offset + k, log[i].result[k])
  {
    hide LastWritten, Contents;
    forall j | 0 <= j < i ensures Legal(log[..i][j].op, |disk|) {
      assert ReadsBack(Contents(disk, log[..j]), log[j]);
    }
    assert ReadsBack(Contents(disk, log[..i]), log[i]);
    ContentsByte(disk, log[..i], log[i].op.block, log[i].op.offset + k);
  }

  lemma HolderPins(s: State, e: nat)
    requires LockInv(s) && RefInv(s) && e < |s.ents|
    ensures s.ents[e].ref == |Pinners(s, e)|
    ensures s.ents[e].holder.Some? ==> s.ents[e].holder.value in Pinners(s, e)
  {
    hide CacheLockInv, PcInv;
    if s.ents[e].holder.Some? {
      assert HoldsEntry(s.pc[s.ents[e].holder.value], e);
    }
  }

  lemma PinnedKeepsBlock(s: State, a: Action, e: nat)
    requires LockInv(s) && RefInv(s) && Enabled(s, a) && e < |s.ents| && s.ents[e].ref > 0
    ensures s.ents[e].valid && |Step(s, a).ents| == |s.ents|
    ensures Step(s, a).ents[e].valid && Step(s, a).ents[e].block == s.ents[e].block
  {
    hide CacheLockInv, EntryLockInv, PcInv, WriteBack, Cached, Pinners;
    if a.Miss? {
      VictimUnpinned(s, a.e);
    }
  }

  /** An entry's reference count is the number of threads between finding it and dropping it, and only those
      hold its lock; while there is one, no step evicts the entry or hands it to another block. */
  lemma PinnedStays(threads: set<Tid>, disk: seq<Sector>, run: seq<Action>, a: Action, e: nat)
    requires IsRun(Init(threads, disk), run) && e < |After(Init(threads, disk), run).ents|
    ensures var s := After(Init(threads, disk), run);
            && s.ents[e].ref == |Pinners(s, e)|
            && (s.ents[e].holder.Some? ==> s.ents[e].holder.value in Pinners(s, e))
            && (Enabled(s, a) && s.ents[e].ref > 0 ==>
                  && e < |Step(s, a).ents|
                  && s.ents[e].valid && Step(s, a).ents[e].valid
                  && Step(s, a).ents[e].block == s.ents[e].block)
  {
    InitInv(threads, disk);
    RunPreserves(threads, disk, Init(threads, disk), run);
    var s := After(Init(threads, disk), run);
    hide After, IsRun, Init, Atomic, DataInv, LockInv, RefInv, Enabled, Step, Pinners;
    HolderPins(s, e);
    if Enabled(s, a) && s.ents[e].ref > 0 {
      PinnedKeepsBlock(s, a, e);
    }
  }

  /** The comment at the second lock_acquire of cache_find_ent is right: the lock of a claimed entry is free. */
  lemma ClaimNeverWaits(threads: set<Tid>, disk: seq<Sector>, run: seq<Action>, t: Tid)
    requires IsRun(Init(threads, disk), run)
    requires t in After(Init(threads, disk), run).pc && After(Init(threads, disk), run).pc[t].Claimed?
    ensures Enabled(After(Init(threads, disk), run), LockClaimed(t))
  {
    InitInv(threads, disk);
    RunPreserves(threads, disk, Init(threads, disk), run);
    ClaimedIsFree(After(Init(threads, disk), run), t);
  }

  lemma ClaimedIsFree(s: State, t: Tid)
    requires LockInv(s) && RefInv(s) && t in s.pc && s.pc[t].Claimed?
    ensures Enabled(s, LockClaimed(t))
  {
    hide CacheLockInv, Pinners;
    assert GoodPc(s, s.pc[t]);
    var e := s.pc[t].e;
    forall u | u in s.pc ensures s.ents[e].holder != Some(u) {
      assert HoldsEntry(s.pc[u], e) <==> s.ents[e].holder == Some(u);
      assert HoldsEntry(s.pc[u], e) ==> Pins(s.pc[u], e);
    }
  }

  // ---------- progress ----------

  /** Some pinner of each of the first `k` entries, all different. */
  lemma {:induction false} PinnersAreMany(s: State, k: nat) returns (pinners: set<Tid>)
    requires RefInv(s) && k <= |s.ents| && forall e :: 0 <= e < k ==> s.ents[e].ref > 0
    ensures |pinners| == k && pinners <= s.pc.Keys
    ensures forall t :: t in pinners ==> exists e :: 0 <= e < k && Pins(s.pc[t], e)
  {
    pinners := {};
    if k > 0 {
      var others := PinnersAreMany(s, k - 1);
      assert |Pinners(s, k - 1)| > 0;
      var t :| t in Pinners(s, k - 1);
      hide RefInv;
      pinners := others + {t};
      assert t !in others;
      assert Pins(s.pc[t], k - 1);
    }
  }

  /** The search of cache_find_ent cannot end: the block is not cached and every entry is pinned. */
  ghost predicate Spinning(s: State, t: Tid) {
    && t in s.pc && s.pc[t].Searching? && !Cached(s, s.pc[t].op.block)
    && forall e :: 0 <= e < |s.ents| ==> s.ents[e].ref > 0
  }

  /** A search goes on exactly when the block is cached or some entry is unpinned. */
  lemma SearchEndsIff(s: State, t: Tid)
    requires LockInv(s) && RefInv(s) && t in s.pc && s.pc[t].Searching?
    ensures (exists e: nat :: Enabled(s, Hit(t, e)) || Enabled(s, Miss(t, e))) <==> !Spinning(s, t)
  {
    hide CacheLockInv, PcInv, EntryLockInv;
    if Cached(s, s.pc[t].op.block) {
      var e :| 0 <= e < |s.ents| && s.ents[e].valid && s.ents[e].block == s.pc[t].op.block;
      assert Enabled(s, Hit(t, e));
    } else if e :| 0 <= e < |s.ents| && !s.ents[e].valid {
      assert Enabled(s, Miss(t, e));
    } else if e :| 0 <= e < |s.ents| && s.ents[e].ref == 0 {
      assert Enabled(s, Miss(t, e));
    }
  }

  function Below(n: nat): (r: set<nat>)
    ensures |r| == n && forall b :: b in r <==> 0 <= b < n
  {
    if n == 0 then {} else Below(n - 1) + {n - 1}
  }

  /** The blocks of the first `k` entries, all different. */
  lemma {:induction false} BlocksAreMany(s: State, k: nat) returns (blocks: set<nat>)
    requires Unique(s) && k <= |s.ents| && forall e :: 0 <= e < k ==> s.ents[e].valid
    ensures |blocks| == k && blocks <= Below(|s.disk|)
    ensures forall b :: b in blocks ==> exists e :: 0 <= e < k && s.ents[e].block == b
  {
    blocks := {};
    if k > 0 {
      var others := BlocksAreMany(s, k - 1);
      assert s.ents[k - 1].block !in others;
      blocks := others + {s.ents[k - 1].block};
    }
  }

  /** A search that cannot end has found 64 other blocks in the cache. */
  lemma SpinningNeedsBlocks(s: State, t: Tid)
    requires LockInv(s) && RefInv(s) && Unique(s) && Spinning(s, t)
    ensures |s.disk| > 64
  {
    hide CacheLockInv, EntryLockInv, Pinners;
    assert GoodPc(s, s.pc[t]);
    var b := s.pc[t].op.block;
    var blocks := BlocksAreMany(s, 64);
    hide PcInv, RefInv, Unique;
    assert b !in blocks;
    SubsetCard(blocks + {b}, Below(|s.disk|));
  }

  /** A search that cannot end has found every entry pinned by a thread of its own. */
  lemma SpinningNeedsThreads(s: State, t: Tid)
    requires |s.ents| == 64 && RefInv(s) && Spinning(s, t)
    ensures |s.pc.Keys| > 64
  {
    hide Cached;
    var pinners := PinnersAreMany(s, 64);
    hide RefInv;
    assert t !in pinners && pinners + {t} <= s.pc.Keys;
    SubsetCard(pinners + {t}, s.pc.Keys);
  }

  /** With no more threads than entries, or no more blocks, a search always ends. */
  lemma NoSpinning(threads: set<Tid>, disk0: seq<Sector>, s: State, t: Tid)
    requires Inv(threads, disk0, s) && (|threads| <= 64 || |disk0| <= 64)
    ensures !Spinning(s, t)
  {
    hide Spinning, CacheLockInv, PcInv, EntryLockInv, RefInv, Unique, Loaded, UpToDate, Atomic;
    if Spinning(s, t) {
      SpinningNeedsBlocks(s, t);
      SpinningNeedsThreads(s, t);
    }
  }

  /** A search that cannot end never will: it holds the lock that every other thread needs to drop its entry. */
  lemma SpinningStays(threads: set<Tid>, disk0: seq<Sector>, s: State, t: Tid, a: Action)
    requires Inv(threads, disk0, s) && Spinning(s, t) && Enabled(s, a)
    ensures Spinning(Step(s, a), t)
  {
    hide DataInv, Atomic, EntryLockInv, WriteBack, Contents;
    assert HoldsCache(s.pc[t]) && (HoldsCache(s.pc[a.t]) ==> a.t == t);
    StepFrame(s, a);
    hide CacheLockInv, RefInv;
    forall e | 0 <= e < |s.ents|
      ensures Step(s, a).ents[e].ref == s.ents[e].ref
      ensures Step(s, a).ents[e].valid ==> s.ents[e].valid
      ensures Step(s, a).ents[e].block == s.ents[e].block
    {
    }
  }

  lemma {:induction false} SpinsForever(threads: set<Tid>, disk0: seq<Sector>, s: State, t: Tid, run: seq<Action>)
    requires Inv(threads, disk0, s) && Spinning(s, t) && IsRun(s, run)
    ensures Spinning(After(s, run), t)
    decreases |run|
  {
    hide Inv, Enabled, Step, Spinning;
    if run != [] {
      StepPreserves(threads, disk0, s, run[0]);
      SpinningStays(threads, disk0, s, t, run[0]);
      SpinsForever(threads, disk0, Step(s, run[0]), t, run[1..]);
    }
  }

  lemma {:induction false} RunsCompose(s: State, first: seq<Action>, second: seq<Action>)
    requires IsRun(s, first) && IsRun(After(s, first), second)
    ensures IsRun(s, first + second) && After(s, first + second) == After(After(s, first), second)
    decreases |first|
  {
    hide Enabled, Step;
    if first == [] {
      assert first + second == second;
    } else {
      RunsCompose(Step(s, first[0]), first[1..], second);
      assert (first + second)[1..] == first[1..] + second;
    }
  }

  predicate Distinct(ts: seq<Tid>) { forall i, j :: 0 <= i < j < |ts| ==> ts[i] != ts[j] }

  /** The first `k` of the threads `ts` each load a block of their own, and the others have not started. */
  ghost predicate Occupied(s: State, ts: seq<Tid>, k: nat) {
    && |s.ents| == 64 && |ts| == 65 && Distinct(ts) && k <= 64 && s.cacheLock.None?
    && (forall i :: 0 <= i < 64 ==> s.ents[i].valid == (i < k) && s.ents[i].holder == (if i < k then Some(ts[i]) else None))
    && (forall i :: 0 <= i < k ==> s.ents[i].block == i && s.ents[i].ref == 1)
    && (forall i :: k <= i < 64 ==> !s.ents[i].dirty && s.ents[i].ref == 0)
    && (forall i :: k <= i <= 64 ==> ts[i] in s.pc && s.pc[ts[i]].Idle?)
  }

  lemma OneMore(s: State, a: Action, rest: seq<Action>)
    requires Enabled(s, a) && IsRun(Step(s, a), rest)
    ensures IsRun(s, [a] + rest) && After(s, [a] + rest) == After(Step(s, a), rest)
  {
    hide Enabled, Step;
    assert ([a] + rest)[1..] == rest;
  }

  lemma OccupyOne(s: State, ts: seq<Tid>, k: nat) returns (run: seq<Action>)
    requires Occupied(s, ts, k) && k < 64 && |s.disk| > k
    ensures IsRun(s, run) && Occupied(After(s, run), ts, k + 1) && |After(s, run).disk| == |s.disk|
  {
    var t := ts[k];
    var op := Read(k, 0, 0);
    var s1 := Step(s, Call(t, op));
    var s2 := Step(s1, LockCache(t));
    assert !Cached(s2, k);
    var s3 := Step(s2, Miss(t, k));
    var s4 := Step(s3, LockClaimed(t));
    assert Occupied(s4, ts, k + 1);
    hide Enabled, Step, Occupied;
    run := [];
    assert IsRun(s4, run) && After(s4, run) == s4;
    OneMore(s3, LockClaimed(t), run);
    run := [LockClaimed(t)] + run;
    OneMore(s2, Miss(t, k), run);
    run := [Miss(t, k)] + run;
    OneMore(s1, LockCache(t), run);
    run := [LockCache(t)] + run;
    OneMore(s, Call(t, op), run);
    run := [Call(t, op)] + run;
  }

  lemma {:induction false} OccupyMany(s: State, ts: seq<Tid>, k: nat) returns (run: seq<Action>)
    requires Occupied(s, ts, k) && |s.disk| > 64
    ensures IsRun(s, run) && Occupied(After(s, run), ts, 64) && |After(s, run).disk| == |s.disk|
    decreases 64 - k
  {
    if k == 64 {
      run := [];
    } else {
      var first := OccupyOne(s, ts, k);
      hide Occupied, Enabled, Step;
      assert k < 64;
      var second := OccupyMany(After(s, first), ts, k + 1);
      RunsCompose(s, first, second);
      run := first + second;
    }
  }

  /** Every access within a block of the disk can be made: on a fresh system a thread carries it out to the end. */
  lemma AccessCompletes(threads: set<Tid>, disk: seq<Sector>, t: Tid, op: Op) returns (run: seq<Action>)
    requires t in threads && op.block < |disk| && op.offset + (if op.Read? then op.len else |op.buffer|) <= 512
    ensures IsRun(Init(threads, disk), run) && t in After(Init(threads, disk), run).pc
    ensures After(Init(threads, disk), run).pc[t].Idle?
    ensures OpsOf(After(Init(threads, disk), run).log, t) == [op] && Asked(run, t) == [op]
  {
    var s := Init(threads, disk);
    var s1 := Step(s, Call(t, op));
    var s2 := Step(s1, LockCache(t));
    assert !Cached(s2, op.block);
    var s3 := Step(s2, Miss(t, 0));
    var s4 := Step(s3, LockClaimed(t));
    var rest := UseToEnd(s4, t, op);
    hide Enabled, Step, OpsOf;
    run := rest;
    OneMore(s3, LockClaimed(t), run);
    run := [LockClaimed(t)] + run;
    OneMore(s2, Miss(t, 0), run);
    run := [Miss(t, 0)] + run;
    OneMore(s1, LockCache(t), run);
    run := [LockCache(t)] + run;
    OneMore(s, Call(t, op), run);
    run := [Call(t, op)] + run;
    LogIsWhatWasAsked(threads, disk, run, t);
    AskedFirst(t, op, rest);
  }

  lemma AskedFirst(t: Tid, op: Op, rest: seq<Action>)
    requires Asked(rest, t) == []
    ensures Asked([Call(t, op)] + ([LockCache(t)] + ([Miss(t, 0)] + ([LockClaimed(t)] + rest))), t) == [op]
  {
    AskedCons(LockClaimed(t), rest, t);
    AskedCons(Miss(t, 0), [LockClaimed(t)] + rest, t);
    AskedCons(LockCache(t), [Miss(t, 0)] + ([LockClaimed(t)] + rest), t);
    AskedCons(Call(t, op), [LockCache(t)] + ([Miss(t, 0)] + ([LockClaimed(t)] + rest)), t);
  }

  lemma AskedCons(a: Action, rest: seq<Action>, t: Tid)
    ensures Asked([a] + rest, t) == (if a.Call? && a.t == t then [a.op] else []) + Asked(rest, t)
  {
    assert ([a] + rest)[1..] == rest;
  }

  lemma UseToEnd(s: State, t: Tid, op: Op) returns (run: seq<Action>)
    requires t in s.pc && s.pc[t] == Loading(op, 0) && |s.ents| > 0 && s.ents[0].block == op.block && Legal(op, |s.disk|)
    requires s.ents[0].ref == 1 && s.cacheLock.None?
    ensures IsRun(s, run) && After(s, run).pc.Keys == s.pc.Keys && After(s, run).pc[t].Idle? && Asked(run, t) == []
  {
    var s1 := Step(s, Load(t));
    var s2 := Step(s1, Copy(t));
    var s3 := Step(s2, Unlock(t));
    var s4 := Step(s3, LockCache(t));
    var s5 := Step(s4, Drop(t));
    assert s5.pc.Keys == s.pc.Keys && s5.pc[t].Idle?;
    hide Enabled, Step;
    run := [];
    assert IsRun(s5, run) && After(s5, run) == s5;
    OneMore(s4, Drop(t), run);
    AskedCons(Drop(t), run, t);
    run := [Drop(t)] + run;
    OneMore(s3, LockCache(t), run);
    AskedCons(LockCache(t), run, t);
    run := [LockCache(t)] + run;
    OneMore(s2, Unlock(t), run);
    AskedCons(Unlock(t), run, t);
    run := [Unlock(t)] + run;
    OneMore(s1, Copy(t), run);
    AskedCons(Copy(t), run, t);
    run := [Copy(t)] + run;
    OneMore(s, Load(t), run);
    AskedCons(Load(t), run, t);
    run := [Load(t)] + run;
  }

  lemma {:induction false} PickDistinct(threads: set<Tid>, n: nat) returns (ts: seq<Tid>)
    requires n <= |threads|
    ensures |ts| == n && Distinct(ts) && forall t :: t in ts ==> t in threads
  {
    if n == 0 {
      ts := [];
    } else {
      var t :| t in threads;
      ts := PickDistinct(threads - {t}, n - 1);
      ts := [t] + ts;
    }
  }

  /** 65 threads on a disk of 65 sectors can reach a search that never ends: 64 of them pin an entry each, and
      the last looks for one more block. */
  lemma CanSpin(threads: set<Tid>, disk: seq<Sector>) returns (run: seq<Action>, t: Tid)
    requires |threads| > 64 && |disk| > 64
    ensures IsRun(Init(threads, disk), run) && Spinning(After(Init(threads, disk), run), t)
  {
    var ts := PickDistinct(threads, 65);
    var s := Init(threads, disk);
    assert forall i :: 0 <= i < 65 ==> ts[i] in ts;
    run := OccupyMany(s, ts, 0);
    t := ts[64];
    var more := SpinAfter(After(s, run), ts);
    RunsCompose(s, run, more);
    run := run + more;
  }

  lemma SpinAfter(s: State, ts: seq<Tid>) returns (run: seq<Action>)
    requires Occupied(s, ts, 64) && |s.disk| > 64
    ensures IsRun(s, run) && Spinning(After(s, run), ts[64])
  {
    var t := ts[64];
    var op := Read(64, 0, 0);
    var s1 := Step(s, Call(t, op));
    var s2 := Step(s1, LockCache(t));
    assert Spinning(s2, t);
    hide Enabled, Step, Spinning;
    run := [];
    assert IsRun(s2, run) && After(s2, run) == s2;
    OneMore(s1, LockCache(t), run);
    run := [LockCache(t)] + run;
    OneMore(s, Call(t, op), run);
    run := [Call(t, op)] + run;
  }

  /** The run ends in a search of thread `t` that never ends. */
  ghost predicate ReachesSpinning(threads: set<Tid>, disk: seq<Sector>, run: seq<Action>, t: Tid) {
    IsRun(Init(threads, disk), run) && Spinning(After(Init(threads, disk), run), t)
  }

  /** Some run gets there exactly when there are more threads, and more blocks, than entries. */
  lemma SpinsIff(threads: set<Tid>, disk: seq<Sector>)
    ensures (exists run, t :: ReachesSpinning(threads, disk, run, t)) <==> |threads| > 64 && |disk| > 64
  {
    if |threads| > 64 && |disk| > 64 {
      var run, t := CanSpin(threads, disk);
      assert ReachesSpinning(threads, disk, run, t);
    } else {
      hide Inv, Spinning, Init;
      forall run, t | ReachesSpinning(threads, disk, run, t) ensures false {
        InitInv(threads, disk);
        RunPreserves(threads, disk, Init(threads, disk), run);
        NoSpinning(threads, disk, After(Init(threads, disk), run), t);
      }
    }
  }

  /** With no more threads than entries, or no more blocks, the locks cannot deadlock: while some call is in progress,
      some thread in a call can take its next step. */
  lemma NeverStuck(threads: set<Tid>, disk0: seq<Sector>, s: State)
    requires Inv(threads, disk0, s) && (|threads| <= 64 || |disk0| <= 64)
    requires exists t :: t in s.pc && !s.pc[t].Idle?
    ensures exists a: Action :: !a.Call? && Enabled(s, a)
  {
    hide DataInv, Atomic, Contents, Victim, Cached, RefInv, EntryLockInv, PcInv, GoodPc, Enabled;
    var t :| t in s.pc && !s.pc[t].Idle?;
    if s.cacheLock.Some? {
      var u := s.cacheLock.value;
      assert HoldsCache(s.pc[u]);
      HolderMoves(threads, disk0, s, u);
    } else if s.pc[t].WantEntry? {
      WaiterOrHolderMoves(s, t);
    } else {
      assert !HoldsCache(s.pc[t]);
      OtherMoves(threads, disk0, s, t);
    }
  }

  lemma OtherMoves(threads: set<Tid>, disk0: seq<Sector>, s: State, t: Tid)
    requires Inv(threads, disk0, s) && t in s.pc && s.cacheLock.None?
    requires !s.pc[t].Idle? && !s.pc[t].WantEntry? && !HoldsCache(s.pc[t])
    ensures exists a: Action :: !a.Call? && Enabled(s, a)
  {
    assert GoodPc(s, s.pc[t]);
    assert Unique(s);
    hide CacheLockInv, PcInv, EntryLockInv, RefInv, Loaded, UpToDate, Atomic, Victim, Cached;
    assert Enabled(s, LockCache(t)) || Enabled(s, Load(t)) || Enabled(s, Copy(t)) || Enabled(s, Unlock(t));
  }

  lemma HolderMoves(threads: set<Tid>, disk0: seq<Sector>, s: State, u: Tid)
    requires Inv(threads, disk0, s) && (|threads| <= 64 || |disk0| <= 64) && u in s.pc && HoldsCache(s.pc[u])
    ensures exists a: Action :: !a.Call? && Enabled(s, a)
  {
    hide DataInv, Atomic, Contents, Victim, Cached, CacheLockInv, EntryLockInv;
    assert GoodPc(s, s.pc[u]);
    if s.pc[u].Searching? {
      NoSpinning(threads, disk0, s, u);
      SearchEndsIff(s, u);
      hide Enabled, Spinning;
      var e: nat :| Enabled(s, Hit(u, e)) || Enabled(s, Miss(u, e));
    } else if s.pc[u].Claimed? {
      ClaimedIsFree(s, u);
    } else {
      assert u in Pinners(s, s.pc[u].e);
      assert Enabled(s, Drop(u));
    }
  }

  lemma WaiterOrHolderMoves(s: State, t: Tid)
    requires LockInv(s) && RefInv(s) && t in s.pc && s.pc[t].WantEntry?
    ensures exists a: Action :: !a.Call? && Enabled(s, a)
  {
    hide CacheLockInv, RefInv, Victim, Cached;
    assert GoodPc(s, s.pc[t]);
    var e := s.pc[t].e;
    if s.ents[e].holder.None? {
      assert Enabled(s, LockEntry(t));
    } else {
      var u := s.ents[e].holder.value;
      assert HoldsEntry(s.pc[u], e) && GoodPc(s, s.pc[u]);
      hide EntryLockInv, PcInv;
      assert Enabled(s, Load(u)) || Enabled(s, Copy(u)) || Enabled(s, Unlock(u));
    }
  }
}
