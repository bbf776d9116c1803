/** Priority donation along the chain of threads that wait for each other's locks. */
module Donation {
  import opened Common

  class Thread {
    var effectivePriority: int
    var waitingLock: Lock?

    constructor (priority: int)
      ensures effectivePriority == priority && waitingLock == null
    {
      effectivePriority, waitingLock := priority, null;
    }
  }

  class Lock {
    var holder: Thread?
    var lockPriority: int

    constructor ()
      ensures holder == null && lockPriority == -1
    {
      holder, lockPriority := null, -1;
    }
  }

  /** Following the locks that threads wait for, and their holders, from `ts[0]` ends: `ts[i]` waits for `ls[i]`,
      which `ts[i + 1]` holds, and the last thread waits for nothing, or for a lock that nobody holds yet. */
  ghost predicate IsChain(ts: seq<Thread>, ls: seq<Lock>)
    reads ts`waitingLock, ls`holder
  {
    && |ts| > 0 && |ts| - 1 <= |ls| <= |ts|
    && (forall i :: 0 <= i < |ls| ==> ts[i].waitingLock == ls[i])
    && (forall i :: 0 <= i < |ts| - 1 ==> ls[i].holder == ts[i + 1])
    && (if |ls| == |ts| then ls[|ls| - 1].holder == null else ts[|ts| - 1].waitingLock == null)
  }

  method PropagateBroadcast(movingPriority: int, currentThread: Thread, ghost threads: set<Thread>, ghost locks: set<Lock>,
                            ghost ts: seq<Thread>, ghost ls: seq<Lock>)
    requires IsChain(ts, ls) && ts[0] == currentThread
    requires (forall t :: t in ts ==> t in threads) && (forall l :: l in ls ==> l in locks)
    modifies threads`effectivePriority, locks`lockPriority
    ensures forall t :: t in threads ==>
      t.effectivePriority == if t in ts then Max(old(t.effectivePriority), movingPriority) else old(t.effectivePriority)
    ensures forall l :: l in locks ==>
      l.lockPriority == if l in ls then Max(old(l.lockPriority), movingPriority) else old(l.lockPriority)
    decreases |ts|
  {
    ChainStep(ts, ls);
    hide IsChain;
    currentThread.effectivePriority := Max(movingPriority, currentThread.effectivePriority);
    var lk := currentThread.waitingLock;
    if lk != null {
      lk.lockPriority := Max(lk.lockPriority, movingPriority);
      if lk.holder != null {
        PropagateBroadcast(movingPriority, lk.holder, threads, locks, ts[1..], ls[1..]);
      }
    }
  }

  lemma ChainStep(ts: seq<Thread>, ls: seq<Lock>)
    requires IsChain(ts, ls)
    ensures ts[0].waitingLock == null ==> ts == [ts[0]] && ls == []
    ensures ts[0].waitingLock != null ==> |ls| > 0 && ls[0] == ts[0].waitingLock && forall l :: l in ls <==> l == ls[0] || l in ls[1..]
    ensures ts[0].waitingLock != null && ts[0].waitingLock.holder == null ==> ts == [ts[0]] && ls == [ls[0]]
    ensures ts[0].waitingLock != null && ts[0].waitingLock.holder != null ==>
      |ts| > 1 && ts[1] == ts[0].waitingLock.holder && IsChain(ts[1..], ls[1..])
    ensures forall t :: t in ts <==> t == ts[0] || t in ts[1..]
  {
    assert ts == [ts[0]] + ts[1..];
    assert ls != [] ==> ls == [ls[0]] + ls[1..];
  }

  /** No thread that waits for a held lock outranks the holder, or the lock's own record of its priority. */
  ghost predicate Ordered(threads: set<Thread>, locks: set<Lock>)
    reads threads, locks
  {
    forall t :: t in threads && t.waitingLock != null && t.waitingLock in locks ==>
      && t.effectivePriority <= t.waitingLock.lockPriority
      && (t.waitingLock.holder != null && t.waitingLock.holder in threads ==>
            t.effectivePriority <= t.waitingLock.holder.effectivePriority)
  }

  ghost predicate Closed(threads: set<Thread>, locks: set<Lock>)
    reads threads`waitingLock, locks`holder
  {
    && (forall t :: t in threads && t.waitingLock != null ==> t.waitingLock in locks)
    && (forall l :: l in locks && l.holder != null ==> l.holder in threads)
  }

  /** The part of lock_acquire before it sleeps. `ts` and `ls` are the chain of the lock's holder. */
  method Donate(requester: Thread, lock: Lock, mlfqs: bool, ghost threads: set<Thread>, ghost locks: set<Lock>,
                ghost ts: seq<Thread>, ghost ls: seq<Lock>)
    requires requester in threads && lock in locks && Closed(threads, locks)
    requires requester.waitingLock == null && lock.holder != requester
    requires lock.holder != null ==> IsChain(ts, ls) && ts[0] == lock.holder && requester !in ts
    requires lock.holder != null ==> (forall t :: t in ts ==> t in threads) && (forall l :: l in ls ==> l in locks)
    requires Ordered(threads, locks)
    modifies requester`waitingLock, threads`effectivePriority, locks`lockPriority
    ensures Ordered(threads, locks) && Closed(threads, locks)
    ensures lock.holder == null || mlfqs ==>
      && requester.waitingLock == null
      && (forall t :: t in threads ==> t.effectivePriority == old(t.effectivePriority))
      && (forall l :: l in locks ==> l.lockPriority == old(l.lockPriority))
    ensures lock.holder != null && !mlfqs ==>
      && requester.waitingLock == lock && requester.effectivePriority == old(requester.effectivePriority)
      && requester.effectivePriority <= lock.holder.effectivePriority
      && requester.effectivePriority <= lock.lockPriority
    ensures lock.holder != null && !mlfqs ==>
      forall t :: t in threads ==>
        t.effectivePriority == if t in ts then Max(old(t.effectivePriority), requester.effectivePriority)
                               else old(t.effectivePriority)
    ensures lock.holder != null && !mlfqs ==>
      forall l :: l in locks ==>
        l.lockPriority == if l == lock || l in ls then Max(old(l.lockPriority), requester.effectivePriority)
                          else old(l.lockPriority)
  {
    if lock.holder != null && !mlfqs {
      ghost var ep: map<Thread, int> := map t: Thread | t in threads :: t.effectivePriority;
      ghost var lp: map<Lock, int> := map l: Lock | l in locks :: l.lockPriority;
      assert forall t :: t in threads && t != requester && t.waitingLock != null ==>
        && ep[t] <= lp[t.waitingLock]
        && (t.waitingLock.holder != null ==> ep[t] <= ep[t.waitingLock.holder]);
      hide Ordered;
      requester.waitingLock := lock;
      assert IsChain(ts, ls);
      hide IsChain;
      AddEdge(requester, lock, ts, ls);
      ghost var ts', ls' := [requester] + ts, [lock] + ls;
      PropagateBroadcast(requester.effectivePriority, requester, threads, locks, ts', ls');
      OrderedAgain(requester, threads, locks, ts', ls', ep, lp);
    }
  }

  lemma AddEdge(requester: Thread, lock: Lock, ts: seq<Thread>, ls: seq<Lock>)
    requires IsChain(ts, ls) && ts[0] == lock.holder && requester.waitingLock == lock
    ensures var ts', ls' := [requester] + ts, [lock] + ls;
            && IsChain(ts', ls') && ts'[0] == requester
            && (forall t :: t in ts' <==> t == requester || t in ts)
            && (forall l :: l in ls' <==> l == lock || l in ls)
            && forall t :: t in ts' && t.waitingLock != null ==>
                 t.waitingLock in ls' && (t.waitingLock.holder != null ==> t.waitingLock.holder in ts')
  {
    OnChain([requester] + ts, [lock] + ls);
  }

  /** `ep` and `lp` are the priorities before the donation. */
  lemma OrderedAgain(requester: Thread, threads: set<Thread>, locks: set<Lock>, ts: seq<Thread>, ls: seq<Lock>,
                     ep: map<Thread, int>, lp: map<Lock, int>)
    requires ep.Keys == threads && lp.Keys == locks && Closed(threads, locks)
    requires requester in threads && requester in ts
    requires forall t :: t in ts && t.waitingLock != null ==>
      t.waitingLock in ls && (t.waitingLock.holder != null ==> t.waitingLock.holder in ts)
    requires forall t :: t in threads && t != requester && t.waitingLock != null ==>
      && ep[t] <= lp[t.waitingLock]
      && (t.waitingLock.holder != null ==> ep[t] <= ep[t.waitingLock.holder])
    requires forall t :: t in threads ==> t.effectivePriority == if t in ts then Max(ep[t], ep[requester]) else ep[t]
    requires forall l :: l in locks ==> l.lockPriority == if l in ls then Max(lp[l], ep[requester]) else lp[l]
    ensures Ordered(threads, locks)
  {
  }

  /** A thread on the chain waits for a lock on the chain, whose holder is on the chain. */
  lemma OnChain(ts: seq<Thread>, ls: seq<Lock>)
    requires IsChain(ts, ls)
    ensures forall t :: t in ts && t.waitingLock != null ==>
      t.waitingLock in ls && (t.waitingLock.holder != null ==> t.waitingLock.holder in ts)
  {
    forall t | t in ts && t.waitingLock != null
      ensures t.waitingLock in ls && (t.waitingLock.holder != null ==> t.waitingLock.holder in ts)
    {
      var i :| 0 <= i < |ts| && ts[i] == t;
      assert ls[i] in ls;
      if i + 1 < |ts| {
        assert ts[i + 1] in ts;
      }
    }
  }

  /** Donation raises no priority more than it has to: any assignment of priorities that gives the waiter at
      least `p` and lets no waiter outrank its holder gives every thread on the chain at least `p`. */
  lemma {:induction false} DonationIsLeast(ts: seq<Thread>, ls: seq<Lock>, f: map<Thread, int>, p: int, i: nat)
    requires IsChain(ts, ls) && i < |ts| && forall t :: t in ts ==> t in f
    requires f[ts[0]] >= p
    requires forall t :: t in ts && t.waitingLock != null && t.waitingLock.holder != null && t.waitingLock.holder in f ==>
      f[t] <= f[t.waitingLock.holder]
    ensures f[ts[i]] >= p
  {
    if i > 0 {
      DonationIsLeast(ts, ls, f, p, i - 1);
      assert ts[i - 1].waitingLock == ls[i - 1] && ls[i - 1].holder == ts[i];
      assert ts[i - 1] in ts && ts[i] in ts;
    }
  }

  /** The links from one thread to the holder of the lock that it waits for. */
  ghost predicate Links(ts: seq<Thread>)
    reads ts, set t | t in ts && t.waitingLock != null :: t.waitingLock
  {
    forall i :: 0 <= i < |ts| - 1 ==> ts[i].waitingLock != null && ts[i].waitingLock.holder == ts[i + 1]
  }

  /** If the requester's edge closes a cycle, its chain has no end, so the recursion would not return. */
  lemma {:induction false} CycleHasNoChain(cycle: seq<Thread>, ts: seq<Thread>, ls: seq<Lock>)
    requires |cycle| > 1 && Links(cycle) && cycle[|cycle| - 1] == cycle[0]
    requires IsChain(ts, ls) && ts[0] == cycle[0]
    ensures false
    decreases |ts|
  {
    SameWay(cycle, ts, ls, |cycle| - 1);
    var n := |cycle| - 1;
    assert IsChain(ts[n..], ls[n..]);
    CycleHasNoChain(cycle, ts[n..], ls[n..]);
  }

  lemma {:induction false} SameWay(cycle: seq<Thread>, ts: seq<Thread>, ls: seq<Lock>, k: nat)
    requires Links(cycle) && k < |cycle| && IsChain(ts, ls) && ts[0] == cycle[0]
    ensures k < |ts| && k <= |ls| && ts[k] == cycle[k]
  {
    if k > 0 {
      SameWay(cycle, ts, ls, k - 1);
      var t := cycle[k - 1];
      assert t.waitingLock != null && t.waitingLock.holder == cycle[k - 1 + 1];
      assert ts[k - 1] == t;
    }
  }

  /** Once the requester waits for the lock, its chain ends, and so does the recursion, exactly when the chain of
      the lock's holder ends and the requester is not on it. */
  lemma EndsIff(requester: Thread, lock: Lock)
    requires requester.waitingLock == lock && lock.holder != null
    ensures (exists us: seq<Thread>, ms: seq<Lock> :: IsChain(us, ms) && us[0] == requester)
       <==> (exists ts: seq<Thread>, ls: seq<Lock> :: IsChain(ts, ls) && ts[0] == lock.holder && requester !in ts)
  {
    if us: seq<Thread>, ms: seq<Lock> :| IsChain(us, ms) && us[0] == requester {
      ChainStep(us, ms);
      var ts, ls := us[1..], ms[1..];
      forall i | 0 <= i < |ts| ensures ts[i] != requester {
        if ts[i] == requester {
          assert Links(us[..i + 2]);
          CycleHasNoChain(us[..i + 2], us, ms);
        }
      }
      assert IsChain(ts, ls) && ts[0] == lock.holder && requester !in ts;
    }
    if ts: seq<Thread>, ls: seq<Lock> :| IsChain(ts, ls) && ts[0] == lock.holder && requester !in ts {
      AddEdge(requester, lock, ts, ls);
      assert IsChain([requester] + ts, [lock] + ls);
    }
  }

  /** The holders that are met from `t` on: either they end, or they go on for `n` of them. */
  lemma {:induction false} EndsOrGoesOn(threads: set<Thread>, locks: set<Lock>, t: Thread, n: nat)
    returns (ends: bool, ts: seq<Thread>, ls: seq<Lock>)
    requires Closed(threads, locks) && t in threads
    ensures if ends then IsChain(ts, ls) && ts[0] == t else |ts| == n + 1 && Links(ts) && ts[0] == t
    ensures !ends ==> forall u :: u in ts ==> u in threads
  {
    if t.waitingLock == null {
      ends, ts, ls := true, [t], [];
    } else if t.waitingLock.holder == null {
      ends, ts, ls := true, [t], [t.waitingLock];
    } else if n == 0 {
      ends, ts, ls := false, [t], [];
    } else {
      var lock := t.waitingLock;
      ends, ts, ls := EndsOrGoesOn(threads, locks, lock.holder, n - 1);
      if ends {
        AddEdge(t, lock, ts, ls);
      }
      ts, ls := [t] + ts, [lock] + ls;
    }
  }

  /** Some thread occurs twice. */
  ghost predicate Repeats(ts: seq<Thread>) { exists i, j :: 0 <= i < j < |ts| && ts[i] == ts[j] }

  lemma {:induction false} ManyRepeat(ts: seq<Thread>, threads: set<Thread>)
    requires |ts| > |threads| && forall u :: u in ts ==> u in threads
    ensures Repeats(ts)
  {
    if !Repeats(ts) {
      var seen := set u | u in ts;
      Distinct(ts);
      SubsetCard(seen, threads);
    }
  }

  lemma {:induction false} Distinct(ts: seq<Thread>)
    requires !Repeats(ts)
    ensures |set u | u in ts| == |ts|
  {
    if ts != [] {
      var rest := ts[1..];
      assert forall i :: 0 <= i < |rest| ==> rest[i] == ts[i + 1] && ts[i + 1] != ts[0];
      forall i, j | 0 <= i < j < |rest| ensures rest[i] != rest[j] {
        assert rest[i] == ts[i + 1] && rest[j] == ts[j + 1];
      }
      Distinct(rest);
      assert (set u | u in ts) == (set u | u in rest) + {ts[0]};
    }
  }

  /** A chain fails to end exactly when following it comes back to a thread: when some threads wait in a circle. */
  lemma EndlessIff(threads: set<Thread>, locks: set<Lock>, t: Thread)
    requires Closed(threads, locks) && t in threads
    ensures !(exists ts: seq<Thread>, ls: seq<Lock> :: IsChain(ts, ls) && ts[0] == t)
       <==> (exists walk: seq<Thread> :: walk != [] && walk[0] == t && Links(walk) && Repeats(walk))
  {
    var ends, ts, ls := EndsOrGoesOn(threads, locks, t, |threads|);
    if !ends {
      ManyRepeat(ts, threads);
    }
    if walk: seq<Thread> :| walk != [] && walk[0] == t && Links(walk) && Repeats(walk) {
      forall us: seq<Thread>, ms: seq<Lock> | IsChain(us, ms) ensures us[0] != t {
        if us[0] == t {
          RepeatingWalk(walk, us, ms);
        }
      }
    }
  }

  lemma RepeatingWalk(walk: seq<Thread>, us: seq<Thread>, ms: seq<Lock>)
    requires walk != [] && Links(walk) && Repeats(walk) && IsChain(us, ms) && us[0] == walk[0]
    ensures false
  {
    var i, j :| 0 <= i < j < |walk| && walk[i] == walk[j];
    SameWay(walk, us, ms, i);
    var cycle := walk[i..j + 1];
    assert Links(cycle);
    assert IsChain(us[i..], ms[i..]);
    CycleHasNoChain(cycle, us[i..], ms[i..]);
  }
}
