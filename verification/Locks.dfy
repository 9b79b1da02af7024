/** Sleeping mutexes on values (kernel/src/lib/mutex.c): the sections of lock and unlock, thread by thread, and
    what they keep.  Which threads are asleep and which can run is all that they need of the scheduler.  */
module Locks {
  import opened Common

  type Tid = nat
  type Mid = nat

  datatype Mutex = Mutex(guard: Option<Tid>, owner: Option<Tid>, waiters: seq<Tid>)

  /** Where a thread is in its mutex code. */
  datatype Pc =
    | Outside
    | Locking(m: Mid, recursive: bool)  // about to take the guard; `recursive`: it owned `m` when it called
    | Guarded(m: Mid)                   // in the queue, holding the guard, about to block
    | Sleeping(m: Mid)                  // in, or back from, thread_block_current
    | Waking(n: Tid)                    // has handed over, about to wake the new owner

  /** The order in which threads queued up for a mutex and the order in which it was handed to them. */
  datatype History = History(arrivals: seq<Tid>, handoffs: seq<Tid>)

  /** `holds` is what each thread's own calls have told it. */
  datatype State = State(mutexes: map<Mid, Mutex>, pc: map<Tid, Pc>, holds: map<Tid, set<Mid>>, history: map<Mid, History>)

  function Owner(y: State, m: Mid): Option<Tid> {
    if m in y.mutexes then y.mutexes[m].owner else None
  }

  function PcOf(y: State, t: Tid): Pc {
    if t in y.pc then y.pc[t] else Outside
  }

  function HoldsOf(y: State, t: Tid): set<Mid> {
    if t in y.holds then y.holds[t] else {}
  }

  // ---- the invariant ----

  /** In the queue of `m`, blocked or about to block. */
  predicate Waits(y: State, t: Tid, m: Mid) {
    PcOf(y, t) == Guarded(m) || (PcOf(y, t) == Sleeping(m) && Owner(y, m) != Some(t))
  }

  /** The guard is where the threads say, the queue is exactly the waiting threads in the order of their coming,
      a queue implies an owner, and the owner knows that it is one unless it is yet to return from sleep. */
  ghost predicate MutexOk(y: State, m: Mid)
    requires m in y.mutexes
  {
    var x := y.mutexes[m];
    && (forall t: Tid :: x.guard == Some(t) <==> PcOf(y, t) == Guarded(m))
    && Distinct(x.waiters)
    && (forall t: Tid :: t in x.waiters <==> Waits(y, t, m))
    && (x.waiters != [] ==> x.owner.Some?)
    && (forall t: Tid :: m in HoldsOf(y, t) <==> x.owner == Some(t) && PcOf(y, t) != Sleeping(m))
    && m in y.history && y.history[m].arrivals == y.history[m].handoffs + x.waiters
  }

  predicate WakePending(y: State, u: Tid, t: Tid) {
    PcOf(y, u) == Waking(t)
  }

  /** No lost wakeup: a thread sleeps only while another owns the mutex, or with its wake on the way. */
  ghost predicate ThreadOk(y: State, asleep: set<Tid>, t: Tid) {
    && (t in asleep ==> PcOf(y, t).Sleeping?)
    && match PcOf(y, t)
       case Outside => true
       case Locking(m, recursive) => m in y.mutexes && (recursive <==> Owner(y, m) == Some(t))
       case Guarded(m) => m in y.mutexes && Owner(y, m) != Some(t)
       case Sleeping(m) =>
         && m in y.mutexes
         && (Owner(y, m) != Some(t) ==> t in asleep)
         && (Owner(y, m) == Some(t) && t in asleep ==> exists u :: WakePending(y, u, t))
       case Waking(n) => n in asleep && PcOf(y, n).Sleeping? && Owner(y, PcOf(y, n).m) == Some(n)
  }

  ghost predicate Inv(y: State, asleep: set<Tid>, awake: set<Tid>) {
    && asleep !! awake
    && (forall m | m in y.mutexes :: MutexOk(y, m))
    && (forall t: Tid :: ThreadOk(y, asleep, t))
    && (forall u, u', n :: WakePending(y, u, n) && WakePending(y, u', n) ==> u == u')
    && (forall t: Tid :: PcOf(y, t) != Outside ==> t in asleep || t in awake)
    && (forall m | m in y.mutexes && y.mutexes[m].owner.Some? :: y.mutexes[m].owner.value in asleep + awake)
    && (forall t: Tid, m :: m in HoldsOf(y, t) ==> m in y.mutexes)
  }

  // ---- the sections, run by thread `t` ----

  function WithPc(y: State, t: Tid, p: Pc): State {
    y.(pc := y.pc[t := p])
  }

  function WithMutex(y: State, m: Mid, x: Mutex): State {
    y.(mutexes := y.mutexes[m := x])
  }

  /** `t` is told that it has the mutex, or that it no longer has it. */
  function Told(y: State, t: Tid, m: Mid, has: bool): State {
    y.(holds := y.holds[t := if has then HoldsOf(y, t) + {m} else HoldsOf(y, t) - {m}])
  }

  /** `mutex_lock` is called. */
  function Call(y: State, t: Tid, m: Mid): State {
    WithPc(y, t, Locking(m, Owner(y, m) == Some(t)))
  }

  /** Its section under the guard: the mutex is taken, or the caller queues up and keeps the guard.  The owner
      would panic instead. */
  function TakeGuard(y: State, t: Tid, m: Mid): State
    requires m in y.mutexes
  {
    var x := y.mutexes[m];
    if x.owner == None then Told(WithPc(WithMutex(y, m, x.(owner := Some(t))), t, Outside), t, m, true)
    else if t in x.waiters then WithPc(WithMutex(y, m, x.(guard := Some(t))), t, Guarded(m))
    else Arrived(WithPc(WithMutex(y, m, x.(guard := Some(t), waiters := x.waiters + [t])), t, Guarded(m)), m, t)
  }

  function Arrived(y: State, m: Mid, t: Tid): State {
    if m in y.history then y.(history := y.history[m := y.history[m].(arrivals := y.history[m].arrivals + [t])]) else y
  }

  /** `thread_block_current`: the guard is released once the thread is marked as blocked. */
  function GoToSleep(y: State, t: Tid, m: Mid): State
    requires m in y.mutexes
  {
    WithPc(WithMutex(y, m, y.mutexes[m].(guard := None)), t, Sleeping(m))
  }

  /** The check after `thread_block_current`. */
  function Return(y: State, t: Tid, m: Mid): State {
    if Owner(y, m) == Some(t) then Told(WithPc(y, t, Outside), t, m, true) else WithPc(y, t, Locking(m, false))
  }

  /** `mutex_try_lock` */
  function TryLock(y: State, t: Tid, m: Mid): State
    requires m in y.mutexes
  {
    if y.mutexes[m].owner == None then Told(WithMutex(y, m, y.mutexes[m].(owner := Some(t))), t, m, true) else y
  }

  /** The section of `mutex_unlock` under the guard. */
  function Unlock(y: State, t: Tid, m: Mid): State
    requires m in y.mutexes
  {
    var x := y.mutexes[m];
    if x.waiters == [] then Told(WithMutex(y, m, x.(owner := None)), t, m, false)
    else
      var next := x.waiters[0];
      Handed(Told(WithPc(WithMutex(y, m, x.(owner := Some(next), waiters := x.waiters[1..])), t, Waking(next)), t, m, false),
             m, next)
  }

  function Handed(y: State, m: Mid, t: Tid): State {
    if m in y.history then y.(history := y.history[m := y.history[m].(handoffs := y.history[m].handoffs + [t])]) else y
  }

  // ---- the invariant is kept ----

  /** Threads without a part in any mutex come and go. */
  lemma ThreadsMoved(y: State, asleep: set<Tid>, awake: set<Tid>, awake': set<Tid>)
    requires Inv(y, asleep, awake) && asleep !! awake'
    requires forall t: Tid | t in awake && t !in awake' :: PcOf(y, t) == Outside && HoldsOf(y, t) == {}
    ensures Inv(y, asleep, awake')
  {
    forall m | m in y.mutexes && y.mutexes[m].owner.Some?
      ensures y.mutexes[m].owner.value in asleep + awake'
    {
      assert MutexOk(y, m);
    }
  }

  /** The step is one of thread `t` and, at most, mutex `m`. */
  ghost predicate Touches(y: State, y': State, t: Tid, m: Mid) {
    && y'.mutexes.Keys == y.mutexes.Keys
    && (forall u: Tid | u != t :: PcOf(y', u) == PcOf(y, u) && HoldsOf(y', u) == HoldsOf(y, u))
    && (forall k | k in y.mutexes && k != m :: y'.mutexes[k] == y.mutexes[k])
    && (forall k | k in y.history && k != m :: k in y'.history && y'.history[k] == y.history[k])
    && HoldsOf(y', t) - {m} == HoldsOf(y, t) - {m}
    && NotElsewhere(PcOf(y, t), m) && NotElsewhere(PcOf(y', t), m)
  }

  predicate NotElsewhere(p: Pc, m: Mid) {
    (p.Guarded? ==> p.m == m) && (p.Sleeping? ==> p.m == m)
  }

  lemma OtherMutexes(y: State, y': State, t: Tid, m: Mid, k: Mid)
    requires Touches(y, y', t, m) && k in y.mutexes && k != m && MutexOk(y, k)
    ensures MutexOk(y', k)
  {
    hide PcOf;
    hide HoldsOf;
    assert forall u: Tid :: k in HoldsOf(y', u) <==> k in HoldsOf(y, u) by {
      assert k in HoldsOf(y', t) - {m} <==> k in HoldsOf(y, t) - {m};
    }
    assert Owner(y', k) == Owner(y, k);
    hide Owner;
    assert forall u: Tid :: Waits(y', u, k) <==> Waits(y, u, k);
  }

  /** What a step has to show besides. */
  ghost predicate Leads(y: State, y': State, asleep: set<Tid>, awake: set<Tid>, t: Tid, m: Mid) {
    && Touches(y, y', t, m) && asleep !! awake
    && (m in y.mutexes ==> MutexOk(y', m))
    && (forall u: Tid :: ThreadOk(y', asleep, u))
    && (forall u, n :: WakePending(y', t, n) && WakePending(y', u, n) ==> u == t)
    && (PcOf(y', t) != Outside ==> t in asleep || t in awake)
    && (m in y'.mutexes && y'.mutexes[m].owner.Some? ==> y'.mutexes[m].owner.value in asleep + awake)
    && (m in HoldsOf(y', t) ==> m in y.mutexes)
  }

  lemma Keeps(y: State, y': State, asleep: set<Tid>, awake: set<Tid>, asleep': set<Tid>, awake': set<Tid>, t: Tid, m: Mid)
    requires Inv(y, asleep, awake) && Leads(y, y', asleep', awake', t, m)
    requires asleep + awake == asleep' + awake'
    ensures Inv(y', asleep', awake')
  {
    hide PcOf;
    hide HoldsOf;
    hide ThreadOk;
    forall k | k in y'.mutexes
      ensures MutexOk(y', k)
    {
      if k != m {
        OtherMutexes(y, y', t, m, k);
      }
    }
    hide MutexOk;
    forall u, u', n | WakePending(y', u, n) && WakePending(y', u', n)
      ensures u == u'
    {
      if u != t && u' != t {
        assert WakePending(y, u, n) && WakePending(y, u', n);
      }
    }
    forall u: Tid, k | k in HoldsOf(y', u)
      ensures k in y'.mutexes
    {
      if u != t {
        assert k in HoldsOf(y, u);
      } else if k != m {
        assert k in HoldsOf(y', t) - {m};
      }
    }
    forall u: Tid | PcOf(y', u) != Outside
      ensures u in asleep' || u in awake'
    {
      assert u != t ==> u in asleep + awake;
    }
    forall k | k in y'.mutexes && y'.mutexes[k].owner.Some?
      ensures y'.mutexes[k].owner.value in asleep' + awake'
    {
    }
  }

  /** Threads whose code and whose mutex's owner are the same, with no wake taken back. */
  lemma OtherThread(y: State, y': State, asleep: set<Tid>, asleep': set<Tid>, u: Tid)
    requires ThreadOk(y, asleep, u) && PcOf(y', u) == PcOf(y, u) && y'.mutexes.Keys == y.mutexes.Keys
    requires u in asleep' <==> u in asleep
    requires PcOf(y, u).Locking? || PcOf(y, u).Guarded? || PcOf(y, u).Sleeping? ==>
      (Owner(y', PcOf(y, u).m) == Some(u) <==> Owner(y, PcOf(y, u).m) == Some(u))
    requires forall w | WakePending(y, w, u) :: WakePending(y', w, u)
    requires PcOf(y, u).Waking? ==>
      var n := PcOf(y, u).n;
      PcOf(y', n) == PcOf(y, n) && n in asleep' &&
      (PcOf(y, n).Sleeping? && Owner(y, PcOf(y, n).m) == Some(n) ==> Owner(y', PcOf(y, n).m) == Some(n))
    ensures ThreadOk(y', asleep', u)
  {
    hide PcOf;
    hide Owner;
    if PcOf(y, u).Sleeping? && Owner(y, PcOf(y, u).m) == Some(u) && u in asleep {
      var w :| WakePending(y, w, u);
      assert WakePending(y', w, u);
    }
  }

  /** The other threads, when no other becomes or ceases to be an owner, falls asleep or wakes up. */
  lemma SameOwners(y: State, y': State, asleep: set<Tid>, asleep': set<Tid>, t: Tid, m: Mid)
    requires (forall u: Tid :: ThreadOk(y, asleep, u)) && Touches(y, y', t, m)
    requires t !in asleep && !PcOf(y, t).Waking?
    requires forall u: Tid | u != t :: u in asleep' <==> u in asleep
    requires forall u: Tid | u != t :: Owner(y', m) == Some(u) <==> Owner(y, m) == Some(u)
    ensures forall u: Tid | u != t :: ThreadOk(y', asleep', u)
  {
    hide PcOf;
    hide HoldsOf;
    forall u: Tid | u != t
      ensures ThreadOk(y', asleep', u)
    {
      assert ThreadOk(y, asleep, u);
      forall k: Mid, v: Tid | v != t
        ensures Owner(y', k) == Some(v) <==> Owner(y, k) == Some(v)
      {
      }
      hide Owner;
      OtherThread(y, y', asleep, asleep', u);
    }
  }

  /** What a step of thread `t` on mutex `m` may assume. */
  lemma Facts(y: State, asleep: set<Tid>, awake: set<Tid>, t: Tid, m: Mid)
    requires Inv(y, asleep, awake) && t in awake
    ensures t !in asleep && asleep !! awake && ThreadOk(y, asleep, t) && (m in y.mutexes ==> MutexOk(y, m))
    ensures forall u: Tid :: ThreadOk(y, asleep, u)
    ensures forall k: Mid :: k in HoldsOf(y, t) ==> k in y.mutexes
    ensures m in y.mutexes && y.mutexes[m].owner.Some? ==> y.mutexes[m].owner.value in asleep + awake
  {
  }

  /** Nobody but `t` has fallen asleep, and nobody has woken up. */
  ghost predicate Moved(asleep: set<Tid>, awake: set<Tid>, asleep': set<Tid>, awake': set<Tid>, t: Tid) {
    && asleep' !! awake' && asleep' + awake' == asleep + awake
    && forall u: Tid | u != t :: u in asleep' <==> u in asleep
  }

  lemma FallsAsleep(asleep: set<Tid>, awake: set<Tid>, t: Tid)
    requires asleep !! awake && t in awake
    ensures Moved(asleep, awake, asleep + {t}, awake - {t}, t)
  {
  }

  lemma NobodyMoved(asleep: set<Tid>, awake: set<Tid>, t: Tid)
    requires asleep !! awake
    ensures Moved(asleep, awake, asleep, awake, t)
  {
  }

  /** A step after which `t` has no wake to make. */
  lemma Concludes(y: State, y': State, asleep: set<Tid>, awake: set<Tid>, asleep': set<Tid>, awake': set<Tid>, t: Tid, m: Mid)
    requires Inv(y, asleep, awake) && Touches(y, y', t, m) && t in awake && !PcOf(y, t).Waking? && !PcOf(y', t).Waking?
    requires Moved(asleep, awake, asleep', awake', t)
    requires m in y.mutexes && MutexOk(y', m) && ThreadOk(y', asleep', t)
    requires Owner(y', m) == Owner(y, m) || (Owner(y, m) == None && Owner(y', m) == Some(t))
    requires m in HoldsOf(y', t) ==> m in y.mutexes
    ensures Inv(y', asleep', awake')
  {
    hide MutexOk;
    hide ThreadOk;
    hide HoldsOf;
    hide PcOf;
    hide Inv;
    hide Touches;
    Facts(y, asleep, awake, t, m);
    assert forall u: Tid | u != t :: Owner(y', m) == Some(u) <==> Owner(y, m) == Some(u);
    SameOwners(y, y', asleep, asleep', t, m);
    Keeps(y, y', asleep, awake, asleep', awake', t, m);
  }

  lemma CallKeeps(y: State, asleep: set<Tid>, awake: set<Tid>, t: Tid, m: Mid)
    requires Inv(y, asleep, awake) && t in awake && PcOf(y, t) == Outside && m in y.mutexes
    ensures Inv(Call(y, t, m), asleep, awake)
  {
    hide Inv;
    hide MutexOk;
    hide Touches;
    hide Moved;
    Facts(y, asleep, awake, t, m);
    CallMutex(y, t, m);
    NobodyMoved(asleep, awake, t);
    Concludes(y, Call(y, t, m), asleep, awake, asleep, awake, t, m);
  }

  lemma CallMutex(y: State, t: Tid, m: Mid)
    requires m in y.mutexes && MutexOk(y, m) && PcOf(y, t) == Outside
    ensures MutexOk(Call(y, t, m), m) && Touches(y, Call(y, t, m), t, m)
  {
  }

  lemma TakeGuardKeeps(y: State, asleep: set<Tid>, awake: set<Tid>, t: Tid, m: Mid, recursive: bool)
    requires Inv(y, asleep, awake) && t in awake && PcOf(y, t) == Locking(m, recursive)
    requires m in y.mutexes && y.mutexes[m].guard == None && Owner(y, m) != Some(t)
    ensures Inv(TakeGuard(y, t, m), asleep, awake)
  {
    hide Inv;
    hide MutexOk;
    hide Touches;
    hide Moved;
    Facts(y, asleep, awake, t, m);
    TakeGuardMutex(y, t, m, recursive);
    TakeGuardTouches(y, t, m);
    NobodyMoved(asleep, awake, t);
    Concludes(y, TakeGuard(y, t, m), asleep, awake, asleep, awake, t, m);
  }

  lemma TakeGuardTouches(y: State, t: Tid, m: Mid)
    requires m in y.mutexes && PcOf(y, t).Locking?
    ensures Touches(y, TakeGuard(y, t, m), t, m)
  {
  }

  lemma TakeGuardMutex(y: State, t: Tid, m: Mid, recursive: bool)
    requires m in y.mutexes && MutexOk(y, m) && PcOf(y, t) == Locking(m, recursive)
    requires y.mutexes[m].guard == None && Owner(y, m) != Some(t)
    ensures MutexOk(TakeGuard(y, t, m), m)
  {
  }

  lemma GoToSleepKeeps(y: State, asleep: set<Tid>, awake: set<Tid>, t: Tid, m: Mid)
    requires Inv(y, asleep, awake) && t in awake && PcOf(y, t) == Guarded(m)
    ensures m in y.mutexes && Inv(GoToSleep(y, t, m), asleep + {t}, awake - {t})
  {
    hide Inv;
    hide MutexOk;
    hide Touches;
    hide Moved;
    Facts(y, asleep, awake, t, m);
    Facts(y, asleep, awake, t, PcOf(y, t).m);
    GoToSleepMutex(y, t, m);
    assert Moved(asleep, awake, asleep + {t}, awake - {t}, t) by { FallsAsleep(asleep, awake, t); }
    Concludes(y, GoToSleep(y, t, m), asleep, awake, asleep + {t}, awake - {t}, t, m);
  }

  lemma GoToSleepMutex(y: State, t: Tid, m: Mid)
    requires m in y.mutexes && MutexOk(y, m) && PcOf(y, t) == Guarded(m) && Owner(y, m) != Some(t)
    ensures MutexOk(GoToSleep(y, t, m), m) && Touches(y, GoToSleep(y, t, m), t, m)
  {
  }

  /** A thread that comes back from sleep finds itself the owner. */
  lemma ReturnKeeps(y: State, asleep: set<Tid>, awake: set<Tid>, t: Tid, m: Mid)
    requires Inv(y, asleep, awake) && t in awake && PcOf(y, t) == Sleeping(m)
    ensures Owner(y, m) == Some(t) && Inv(Return(y, t, m), asleep, awake)
  {
    hide Inv;
    hide MutexOk;
    hide Touches;
    hide Moved;
    Facts(y, asleep, awake, t, m);
    ReturnMutex(y, t, m);
    NobodyMoved(asleep, awake, t);
    Concludes(y, Return(y, t, m), asleep, awake, asleep, awake, t, m);
  }

  lemma ReturnMutex(y: State, t: Tid, m: Mid)
    requires m in y.mutexes && MutexOk(y, m) && PcOf(y, t) == Sleeping(m) && Owner(y, m) == Some(t)
    ensures MutexOk(Return(y, t, m), m) && Touches(y, Return(y, t, m), t, m)
  {
  }

  lemma TryLockKeeps(y: State, asleep: set<Tid>, awake: set<Tid>, t: Tid, m: Mid)
    requires Inv(y, asleep, awake) && t in awake && PcOf(y, t) == Outside && m in y.mutexes
    ensures Inv(TryLock(y, t, m), asleep, awake)
  {
    hide Inv;
    hide MutexOk;
    hide Touches;
    hide Moved;
    if y.mutexes[m].owner == None {
      Facts(y, asleep, awake, t, m);
      TryLockMutex(y, t, m);
      NobodyMoved(asleep, awake, t);
      Concludes(y, TryLock(y, t, m), asleep, awake, asleep, awake, t, m);
    }
  }

  lemma TryLockMutex(y: State, t: Tid, m: Mid)
    requires m in y.mutexes && MutexOk(y, m) && PcOf(y, t) == Outside && y.mutexes[m].owner == None
    ensures MutexOk(TryLock(y, t, m), m) && Touches(y, TryLock(y, t, m), t, m)
  {
  }

  /** When the guard is free, the whole queue is asleep, and no wake for its head is on the way. */
  lemma NextSleeps(y: State, asleep: set<Tid>, awake: set<Tid>, m: Mid)
    requires Inv(y, asleep, awake) && m in y.mutexes && y.mutexes[m].guard == None && y.mutexes[m].waiters != []
    ensures var n := y.mutexes[m].waiters[0];
      n in asleep && PcOf(y, n) == Sleeping(m) && Owner(y, m) != Some(n) && forall u :: !WakePending(y, u, n)
  {
    var n := y.mutexes[m].waiters[0];
    assert MutexOk(y, m) && ThreadOk(y, asleep, n);
    assert n in y.mutexes[m].waiters && Waits(y, n, m);
    forall u
      ensures !WakePending(y, u, n)
    {
      assert ThreadOk(y, asleep, u);
    }
  }

  /** The mutex goes to the first in the queue, or to nobody. */
  lemma UnlockMutex(y: State, t: Tid, m: Mid)
    requires m in y.mutexes && MutexOk(y, m) && PcOf(y, t) == Outside
    requires y.mutexes[m].guard == None && Owner(y, m) == Some(t)
    ensures MutexOk(Unlock(y, t, m), m)
  {
    var x := y.mutexes[m];
    if x.waiters != [] {
      var next := x.waiters[0];
      assert next in x.waiters && Waits(y, next, m) && PcOf(y, next) == Sleeping(m);
      assert !Waits(y, t, m) && next != t;
      assert forall u: Tid :: u in x.waiters[1..] <==> u in x.waiters && u != next;
    }
  }

  lemma UnlockTouches(y: State, t: Tid, m: Mid)
    requires m in y.mutexes && PcOf(y, t) == Outside
    ensures Touches(y, Unlock(y, t, m), t, m)
  {
    var x := y.mutexes[m];
    if x.waiters == [] {
      ToldTouches(y, WithMutex(y, m, x.(owner := None)), t, m);
    } else {
      var y1 := WithPc(WithMutex(y, m, x.(owner := Some(x.waiters[0]), waiters := x.waiters[1..])), t, Waking(x.waiters[0]));
      ToldTouches(y, y1, t, m);
      HandedTouches(y, Told(y1, t, m, false), t, m, x.waiters[0]);
    }
  }

  lemma ToldTouches(y: State, y1: State, t: Tid, m: Mid)
    requires Touches(y, y1, t, m)
    ensures Touches(y, Told(y1, t, m, false), t, m)
  {
  }

  lemma HandedTouches(y: State, y1: State, t: Tid, m: Mid, n: Tid)
    requires Touches(y, y1, t, m)
    ensures Touches(y, Handed(y1, m, n), t, m)
  {
  }

  lemma UnlockEnds(y: State, t: Tid, m: Mid)
    requires m in y.mutexes && PcOf(y, t) == Outside
    ensures m in Unlock(y, t, m).mutexes
    ensures Unlock(y, t, m).mutexes[m].owner ==
      if y.mutexes[m].waiters == [] then None else Some(y.mutexes[m].waiters[0])
    ensures y.mutexes[m].waiters == [] ==> PcOf(Unlock(y, t, m), t) == Outside
    ensures y.mutexes[m].waiters != [] ==> PcOf(Unlock(y, t, m), t) == Waking(y.mutexes[m].waiters[0])
    ensures forall u: Tid | u != t :: PcOf(Unlock(y, t, m), u) == PcOf(y, u)
  {
  }

  lemma UnlockKeeps(y: State, asleep: set<Tid>, awake: set<Tid>, t: Tid, m: Mid)
    requires Inv(y, asleep, awake) && t in awake && PcOf(y, t) == Outside && m in y.mutexes
    requires y.mutexes[m].guard == None && Owner(y, m) == Some(t)
    ensures Inv(Unlock(y, t, m), asleep, awake)
  {
    hide Touches;
    hide PcOf;
    var y' := Unlock(y, t, m);
    Facts(y, asleep, awake, t, m);
    if y.mutexes[m].waiters != [] {
      NextSleeps(y, asleep, awake, m);
    }
    hide Inv;
    UnlockMutex(y, t, m);
    UnlockTouches(y, t, m);
    hide MutexOk;
    forall u: Tid
      ensures ThreadOk(y', asleep, u)
    {
      UnlockThread(y, asleep, t, m, u);
    }
    hide ThreadOk;
    UnlockEnds(y, t, m);
    forall u, n | WakePending(y', t, n) && WakePending(y', u, n)
      ensures u == t
    {
      assert u == t || WakePending(y, u, n);
    }
    Keeps(y, y', asleep, awake, asleep, awake, t, m);
  }

  lemma UnlockThread(y: State, asleep: set<Tid>, t: Tid, m: Mid, u: Tid)
    requires ThreadOk(y, asleep, u) && PcOf(y, t) == Outside && m in y.mutexes && t !in asleep
    requires Owner(y, m) == Some(t)
    requires y.mutexes[m].waiters != [] ==>
      var n := y.mutexes[m].waiters[0];
      n in asleep && PcOf(y, n) == Sleeping(m) && n != t
    ensures ThreadOk(Unlock(y, t, m), asleep, u)
  {
    var y' := Unlock(y, t, m);
    var waiters := y.mutexes[m].waiters;
    assert forall w: Tid | w != t :: PcOf(y', w) == PcOf(y, w);
    assert forall k: Mid | k != m :: Owner(y', k) == Owner(y, k);
    if waiters != [] {
      assert WakePending(y', t, waiters[0]);
      assert Owner(y', m) == Some(waiters[0]);
    }
    if u != t && (waiters == [] || u != waiters[0]) {
      hide Unlock;
      OtherThread(y, y', asleep, asleep, u);
    }
  }

  /** `thread_wake` of the new owner: it is asleep, and now can run. */
  lemma WakeKeeps(y: State, asleep: set<Tid>, awake: set<Tid>, t: Tid, n: Tid)
    requires Inv(y, asleep, awake) && t in awake && PcOf(y, t) == Waking(n)
    ensures n in asleep && Inv(WithPc(y, t, Outside), asleep - {n}, awake + {n})
  {
    hide Touches;
    hide MutexOk;
    Facts(y, asleep, awake, t, 0);
    var m := PcOf(y, n).m;
    var y' := WithPc(y, t, Outside);
    assert ThreadOk(y, asleep, n) && m in y.mutexes;
    Facts(y, asleep, awake, t, m);
    OneWaker(y, asleep, awake, t, n);
    hide Inv;
    WokenMutex(y, t, n, m);
    forall u: Tid
      ensures ThreadOk(y', asleep - {n}, u)
    {
      WokenThread(y, asleep, t, n, u);
    }
    hide ThreadOk;
    Keeps(y, y', asleep, awake, asleep - {n}, awake + {n}, t, m);
  }

  lemma OneWaker(y: State, asleep: set<Tid>, awake: set<Tid>, t: Tid, n: Tid)
    requires Inv(y, asleep, awake) && PcOf(y, t) == Waking(n)
    ensures forall u :: WakePending(y, u, n) <==> u == t
  {
    assert WakePending(y, t, n);
  }

  lemma WokenMutex(y: State, t: Tid, n: Tid, m: Mid)
    requires m in y.mutexes && MutexOk(y, m) && PcOf(y, t) == Waking(n)
    ensures MutexOk(WithPc(y, t, Outside), m) && Touches(y, WithPc(y, t, Outside), t, m)
  {
  }

  lemma WokenThread(y: State, asleep: set<Tid>, t: Tid, n: Tid, u: Tid)
    requires ThreadOk(y, asleep, u) && ThreadOk(y, asleep, t) && PcOf(y, t) == Waking(n) && n != t && t !in asleep
    requires forall w :: WakePending(y, w, n) <==> w == t
    ensures ThreadOk(WithPc(y, t, Outside), asleep - {n}, u)
  {
    var y' := WithPc(y, t, Outside);
    assert forall w: Tid | w != t :: PcOf(y', w) == PcOf(y, w);
    assert forall k: Mid :: Owner(y', k) == Owner(y, k);
    if u != t && u != n {
      assert !WakePending(y, u, n);
      assert !WakePending(y, t, u);
      hide WithPc;
      OtherThread(y, y', asleep, asleep - {n}, u);
    }
  }

  // ---- what it means ----

  /** Mutual exclusion: at most one thread has been told that it has the mutex. */
  lemma MutualExclusion(y: State, asleep: set<Tid>, awake: set<Tid>, t: Tid, u: Tid, m: Mid)
    requires Inv(y, asleep, awake) && m in HoldsOf(y, t) && m in HoldsOf(y, u)
    ensures t == u && Owner(y, m) == Some(t)
  {
    assert MutexOk(y, m);
  }

  /** A thread that finds itself the owner under the guard was one when it called: waiting for a mutex never
      ends in the recursion panic. */
  lemma PanicIsRecursion(y: State, asleep: set<Tid>, awake: set<Tid>, t: Tid, m: Mid, recursive: bool)
    requires Inv(y, asleep, awake) && PcOf(y, t) == Locking(m, recursive)
    ensures Owner(y, m) == Some(t) <==> recursive
  {
    assert ThreadOk(y, asleep, t);
  }

  /** Handoffs happen in the order of arrival, and who has arrived and has not got the mutex still queues. */
  lemma FirstComeFirstServed(y: State, asleep: set<Tid>, awake: set<Tid>, m: Mid)
    requires Inv(y, asleep, awake) && m in y.mutexes
    ensures m in y.history && y.history[m].handoffs <= y.history[m].arrivals
    ensures y.mutexes[m].waiters == y.history[m].arrivals[|y.history[m].handoffs|..]
  {
    assert MutexOk(y, m);
  }

  /** No lost wakeup: a sleeping thread queues for a mutex that another thread owns, or owns it already and
      exactly one thread is about to wake it. */
  lemma NoLostWakeup(y: State, asleep: set<Tid>, awake: set<Tid>, t: Tid)
    requires Inv(y, asleep, awake) && t in asleep
    ensures PcOf(y, t).Sleeping?
    ensures var m := PcOf(y, t).m;
      || (m in y.mutexes && t in y.mutexes[m].waiters && y.mutexes[m].owner.Some? && y.mutexes[m].owner != Some(t))
      || (Owner(y, m) == Some(t)
          && exists u :: WakePending(y, u, t) && u in awake && forall w :: WakePending(y, w, t) ==> w == u)
  {
    assert ThreadOk(y, asleep, t);
    var m := PcOf(y, t).m;
    assert MutexOk(y, m);
    if Owner(y, m) == Some(t) {
      var u :| WakePending(y, u, t);
      assert ThreadOk(y, asleep, u);
    } else {
      assert Waits(y, t, m);
    }
  }

  /** A thread queues for one mutex at most. */
  lemma OneQueue(y: State, asleep: set<Tid>, awake: set<Tid>, t: Tid, m: Mid, k: Mid)
    requires Inv(y, asleep, awake) && m in y.mutexes && k in y.mutexes
    requires t in y.mutexes[m].waiters && t in y.mutexes[k].waiters
    ensures m == k
  {
    assert MutexOk(y, m) && MutexOk(y, k);
    assert Waits(y, t, m) && Waits(y, t, k);
  }

  // ---- what each section does ----

  /** No other thread and no other mutex has a part in it. */
  ghost predicate Alone(y: State, y': State, t: Tid, m: Mid) {
    && y'.mutexes.Keys == y.mutexes.Keys
    && (forall u: Tid | u != t :: PcOf(y', u) == PcOf(y, u) && HoldsOf(y', u) == HoldsOf(y, u))
    && (forall k | k in y.mutexes && k != m :: y'.mutexes[k] == y.mutexes[k])
    && y'.history.Keys == y.history.Keys
    && (forall k | k in y.history && k != m :: y'.history[k] == y.history[k])
  }

  /** A caller of `mutex_lock` is in no queue yet. */
  lemma NotYetQueued(y: State, asleep: set<Tid>, awake: set<Tid>, t: Tid, m: Mid)
    requires Inv(y, asleep, awake) && m in y.mutexes && PcOf(y, t).Locking?
    ensures m in y.history && t !in y.mutexes[m].waiters
  {
    assert MutexOk(y, m);
    assert t in y.mutexes[m].waiters <==> Waits(y, t, m);
  }

  /** A free mutex is taken; at one that is not, the caller is the last in the queue and has the guard. */
  lemma TakeGuardMeans(y: State, t: Tid, m: Mid)
    requires m in y.mutexes && m in y.history && t !in y.mutexes[m].waiters
    ensures Alone(y, TakeGuard(y, t, m), t, m)
    ensures var x, y' := y.mutexes[m], TakeGuard(y, t, m);
      if x.owner == None then
        && y'.mutexes[m] == Mutex(x.guard, Some(t), x.waiters) && PcOf(y', t) == Outside
        && HoldsOf(y', t) == HoldsOf(y, t) + {m} && y'.history[m] == y.history[m]
      else
        && y'.mutexes[m] == Mutex(Some(t), x.owner, x.waiters + [t]) && PcOf(y', t) == Guarded(m)
        && HoldsOf(y', t) == HoldsOf(y, t)
        && y'.history[m] == History(y.history[m].arrivals + [t], y.history[m].handoffs)
  {
  }

  /** The guard is given up, the place in the queue is not. */
  lemma GoToSleepMeans(y: State, t: Tid, m: Mid)
    requires m in y.mutexes
    ensures var x, y' := y.mutexes[m], GoToSleep(y, t, m);
      && Alone(y, y', t, m) && y'.mutexes[m] == Mutex(None, x.owner, x.waiters) && PcOf(y', t) == Sleeping(m)
      && HoldsOf(y', t) == HoldsOf(y, t) && y'.history == y.history
  {
  }

  lemma ReturnMeans(y: State, t: Tid, m: Mid)
    requires m in y.mutexes && Owner(y, m) == Some(t)
    ensures var y' := Return(y, t, m);
      && Alone(y, y', t, m) && y'.mutexes == y.mutexes && PcOf(y', t) == Outside
      && HoldsOf(y', t) == HoldsOf(y, t) + {m} && y'.history == y.history
  {
  }

  /** A free mutex is taken, another is left as it is. */
  lemma TryLockMeans(y: State, t: Tid, m: Mid)
    requires m in y.mutexes
    ensures var x, y' := y.mutexes[m], TryLock(y, t, m);
      if x.owner == None then
        && Alone(y, y', t, m) && y'.mutexes[m] == Mutex(x.guard, Some(t), x.waiters) && PcOf(y', t) == PcOf(y, t)
        && HoldsOf(y', t) == HoldsOf(y, t) + {m} && y'.history == y.history
      else y' == y
  {
  }

  /** The mutex goes to the first in the queue, and is free if there is none. */
  lemma UnlockMeans(y: State, t: Tid, m: Mid)
    requires m in y.mutexes && m in y.history
    ensures Alone(y, Unlock(y, t, m), t, m)
    ensures var x, y' := y.mutexes[m], Unlock(y, t, m);
      && HoldsOf(y', t) == HoldsOf(y, t) - {m}
      && if x.waiters == [] then
           y'.mutexes[m] == Mutex(x.guard, None, []) && PcOf(y', t) == PcOf(y, t) && y'.history[m] == y.history[m]
         else
           && y'.mutexes[m] == Mutex(x.guard, Some(x.waiters[0]), x.waiters[1..]) && PcOf(y', t) == Waking(x.waiters[0])
           && y'.history[m] == History(y.history[m].arrivals, y.history[m].handoffs + [x.waiters[0]])
  {
  }
}
