/** What it is to have locked a mutex (kernel/src/lib/mutex.c:21-105): whoever comes back from `mutex_lock` owns the
    mutex, and goes on owning it until its own `mutex_unlock`, whatever all others do.  */
module Ownership {
  import opened Common
  import opened MutexSystem
  import L = Locks

  /** The thread that the step is one of, when it is one of a thread. */
  function StepCpu(step: SystemStep): nat {
    match step
    case Plain(_) => 0
    case Call(c, _) => c
    case TakeGuard(c) => c
    case GoToSleep(c) => c
    case Return(c) => c
    case TryLock(c, _) => c
    case Unlock(c, _) => c
    case WakeNext(c) => c
  }

  /** What a step does to one mutex. */
  lemma StepOnMutex(x: System, step: SystemStep, m: L.Mid)
    requires Inv(x) && Can(x, step) && m in x.locks.mutexes
    ensures var y, y' := x.locks, Next(x, step).locks;
      && m in y'.mutexes
      && (y'.mutexes[m].owner != y.mutexes[m].owner ==>
            !step.Plain? && StepCpu(step) < |x.s.cpus| &&
            var t := Actor(x, StepCpu(step));
            || (y.mutexes[m].owner == None && y'.mutexes[m].owner == Some(t)
                && ((step.TakeGuard? && Pc(x, step.cpu).m == m) || (step.TryLock? && step.m == m)))
            || (y.mutexes[m].owner == Some(t) && step.Unlock? && step.m == m
                && y'.mutexes[m].owner == if y.mutexes[m].waiters == [] then None else Some(y.mutexes[m].waiters[0])))
  {
    match step
    case Plain(_) =>
    case Call(c, k) =>
    case TakeGuard(c) =>
      L.NotYetQueued(x.locks, Asleep(x.s), Awake(x.s), Actor(x, c), Pc(x, c).m);
      L.TakeGuardMeans(x.locks, Actor(x, c), Pc(x, c).m);
    case GoToSleep(c) =>
      if Pc(x, c).m in x.locks.mutexes {
        L.GoToSleepMeans(x.locks, Actor(x, c), Pc(x, c).m);
      }
    case Return(c) =>
    case TryLock(c, k) => L.TryLockMeans(x.locks, Actor(x, c), k);
    case Unlock(c, k) =>
      assert L.MutexOk(x.locks, k);
      L.UnlockMeans(x.locks, Actor(x, c), k);
    case WakeNext(c) =>
  }

  /** Coming out of `mutex_lock`, at once or after sleep, means owning the mutex. */
  lemma LockedMeansOwned(x: System, step: SystemStep, t: L.Tid, m: L.Mid)
    requires Inv(x) && Can(x, step) && L.PcOf(Next(x, step).locks, t) == L.Outside
    requires (L.PcOf(x.locks, t).Locking? || L.PcOf(x.locks, t).Sleeping?) && L.PcOf(x.locks, t).m == m
    ensures L.Owner(Next(x, step).locks, m) == Some(t) && m in L.HoldsOf(Next(x, step).locks, t)
  {
    if step.TakeGuard? {
      var c := step.cpu;
      L.NotYetQueued(x.locks, Asleep(x.s), Awake(x.s), Actor(x, c), Pc(x, c).m);
      L.TakeGuardMeans(x.locks, Actor(x, c), Pc(x, c).m);
    } else if step.Return? {
      var c := step.cpu;
      ReturnsAsOwner(x, c);
      L.ReturnMeans(x.locks, Actor(x, c), Pc(x, c).m);
    }
  }

  lemma ReturnsAsOwner(x: System, c: nat)
    requires Inv(x) && Can(x, Return(c))
    ensures Pc(x, c).m in x.locks.mutexes && L.Owner(x.locks, Pc(x, c).m) == Some(Actor(x, c))
  {
    ActorIsAwake(x, c);
    assert L.ThreadOk(x.locks, Asleep(x.s), Actor(x, c));
  }

  /** The run has no unlocking of `m` by `t`. */
  predicate NeverUnlocks(x: System, run: seq<SystemStep>, t: L.Tid, m: L.Mid)
    requires Inv(x) && Legal(x, run)
    decreases |run|
  {
    run == [] ||
    (NextKeeps(x, run[0]);
     && !(run[0].Unlock? && run[0].m == m && run[0].cpu < |x.s.cpus| && Actor(x, run[0].cpu) == t)
     && NeverUnlocks(Next(x, run[0]), run[1..], t, m))
  }

  /** An owner stays owner through every run in which it does not unlock. */
  lemma {:induction false} OwnedUntilUnlocked(x: System, run: seq<SystemStep>, t: L.Tid, m: L.Mid)
    requires Inv(x) && Legal(x, run) && L.Owner(x.locks, m) == Some(t) && NeverUnlocks(x, run, t, m)
    ensures L.Owner(AtEnd(x, run).locks, m) == Some(t)
    decreases |run|
  {
    if run != [] {
      NextKeeps(x, run[0]);
      StepOnMutex(x, run[0], m);
      hide Inv;
      hide Next;
      hide Can;
      OwnedUntilUnlocked(Next(x, run[0]), run[1..], t, m);
    }
  }

  /** Whoever has come out of `mutex_lock` owns the mutex from then on until its own `mutex_unlock`: no other thread
      comes out of `mutex_lock` with it in between. */
  lemma LockedUntilUnlocked(x: System, step: SystemStep, run: seq<SystemStep>, t: L.Tid, m: L.Mid)
    requires Inv(x) && Can(x, step) && L.PcOf(Next(x, step).locks, t) == L.Outside
    requires (L.PcOf(x.locks, t).Locking? || L.PcOf(x.locks, t).Sleeping?) && L.PcOf(x.locks, t).m == m
    requires Inv(Next(x, step)) && Legal(Next(x, step), run) && NeverUnlocks(Next(x, step), run, t, m)
    ensures L.Owner(AtEnd(Next(x, step), run).locks, m) == Some(t)
    ensures forall u | m in L.HoldsOf(AtEnd(Next(x, step), run).locks, u) :: u == t
  {
    LockedMeansOwned(x, step, t, m);
    OwnedUntilUnlocked(Next(x, step), run, t, m);
    RunKeeps(Next(x, step), run);
    var z := AtEnd(Next(x, step), run);
    assert L.MutexOk(z.locks, m) by {
      assert m in z.locks.mutexes;
    }
  }
}
