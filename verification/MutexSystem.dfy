/** Threads, CPUs and mutexes together: all interleavings of scheduler sections and mutex sections
    (kernel/src/lib/mutex.c:43-105, kernel/src/sys/sched.c:487-674).  */
module MutexSystem {
  import opened Common
  import opened Scheduler
  import L = Locks

  datatype System = System(s: Sched, locks: L.State)

  function Asleep(s: Sched): set<Tid> {
    set t | t in s.threads && s.threads[t].status == Blocked
  }

  /** The threads that can run or do run, idle threads aside. */
  function Awake(s: Sched): set<Tid> {
    set t | t in s.threads && (s.threads[t].status == Runnable || s.threads[t].status == Running) && !IsIdle(s, t)
  }

  ghost predicate Inv(x: System) {
    SchedInv(x.s) && L.Inv(x.locks, Asleep(x.s), Awake(x.s))
  }

  // ---- the steps ----

  datatype SystemStep =
    | Plain(step: Step)               // a tick, a yield, an exit, a spawn or a reaping
    | Call(cpu: nat, m: L.Mid)        // mutex_lock is called
    | TakeGuard(cpu: nat)             // its section under the guard
    | GoToSleep(cpu: nat)             // thread_block_current, which releases the guard
    | Return(cpu: nat)                // the check after thread_block_current
    | TryLock(cpu: nat, m: L.Mid)     // mutex_try_lock
    | Unlock(cpu: nat, m: L.Mid)      // the section of mutex_unlock under the guard
    | WakeNext(cpu: nat)              // its thread_wake

  /** The idle thread uses no mutexes. */
  predicate Acts(x: System, c: nat) {
    c < |x.s.cpus| && x.s.cpus[c].current != x.s.cpus[c].idle
  }

  function Actor(x: System, c: nat): Tid
    requires c < |x.s.cpus|
  {
    x.s.cpus[c].current
  }

  function Pc(x: System, c: nat): L.Pc
    requires c < |x.s.cpus|
  {
    L.PcOf(x.locks, Actor(x, c))
  }

  predicate GuardFree(x: System, m: L.Mid) {
    m in x.locks.mutexes && x.locks.mutexes[m].guard == None
  }

  /** The section under the guard would find its caller to be the owner. */
  predicate Panics(x: System, c: nat) {
    Acts(x, c) && Pc(x, c).Locking? && GuardFree(x, Pc(x, c).m) && L.Owner(x.locks, Pc(x, c).m) == Some(Actor(x, c))
  }

  /** Threads exit with no mutex in their hands; only owners unlock. */
  predicate Can(x: System, step: SystemStep) {
    match step
    case Plain(st) =>
      && Enabled(x.s, st) && !st.BlockStep? && !st.WakeStep?
      && (st.ExitStep? ==> Pc(x, st.cpu) == L.Outside && L.HoldsOf(x.locks, Actor(x, st.cpu)) == {})
    case Call(c, m) => Acts(x, c) && Pc(x, c) == L.Outside && m in x.locks.mutexes
    case TakeGuard(c) => Acts(x, c) && Pc(x, c).Locking? && GuardFree(x, Pc(x, c).m) && !Panics(x, c)
    case GoToSleep(c) => Acts(x, c) && Pc(x, c).Guarded?
    case Return(c) => Acts(x, c) && Pc(x, c).Sleeping?
    case TryLock(c, m) => Acts(x, c) && Pc(x, c) == L.Outside && GuardFree(x, m)
    case Unlock(c, m) =>
      Acts(x, c) && Pc(x, c) == L.Outside && GuardFree(x, m) && L.Owner(x.locks, m) == Some(Actor(x, c))
    case WakeNext(c) => Acts(x, c) && Pc(x, c).Waking? && Pc(x, c).n in x.s.threads
  }

  function Next(x: System, step: SystemStep): System
    requires SchedInv(x.s) && Can(x, step)
  {
    match step
    case Plain(st) => x.(s := After(x.s, st))
    case Call(c, m) => x.(locks := L.Call(x.locks, Actor(x, c), m))
    case TakeGuard(c) => x.(locks := L.TakeGuard(x.locks, Actor(x, c), Pc(x, c).m))
    case GoToSleep(c) =>
      if Pc(x, c).m in x.locks.mutexes then
        System(Block(x.s, c), L.GoToSleep(x.locks, Actor(x, c), Pc(x, c).m))
      else x
    case Return(c) => x.(locks := L.Return(x.locks, Actor(x, c), Pc(x, c).m))
    case TryLock(c, m) => x.(locks := L.TryLock(x.locks, Actor(x, c), m))
    case Unlock(c, m) => x.(locks := L.Unlock(x.locks, Actor(x, c), m))
    case WakeNext(c) => System(Wake(x.s, Pc(x, c).n), L.WithPc(x.locks, Actor(x, c), L.Outside))
  }

  /** A step that is enabled for a thread is one that the lock system knows. */
  lemma ActorIsAwake(x: System, c: nat)
    requires Inv(x) && Acts(x, c)
    ensures Actor(x, c) in Awake(x.s)
  {
    assert CpuOk(x.s, c);
    assert InPlace(x.s, Actor(x, c));
  }

  // ---- who is asleep and who is awake ----

  lemma Switched(s: Sched, s': Sched)
    requires s'.threads.Keys == s.threads.Keys && |s'.cpus| == |s.cpus|
    requires forall c | 0 <= c < |s.cpus| :: s'.cpus[c].idle == s.cpus[c].idle
    requires forall t | t in s.threads :: s'.threads[t].cpu == s.threads[t].cpu
    requires forall t | t in s.threads :: s'.threads[t].status == Blocked <==> s.threads[t].status == Blocked
    requires forall t | t in s.threads :: s'.threads[t].status == Zombie <==> s.threads[t].status == Zombie
    ensures Asleep(s') == Asleep(s) && Awake(s') == Awake(s)
  {
    assert forall t | t in s.threads :: IsIdle(s', t) == IsIdle(s, t);
  }

  lemma DispatchMoves(s: Sched, c: nat)
    requires c < |s.cpus| && s.cpus[c].idle in s.threads
    requires s.cpus[c].rq == [] ==> s.threads[s.cpus[c].idle].status == Running
    requires s.cpus[c].rq != [] ==> s.cpus[c].rq[0] in s.threads && s.threads[s.cpus[c].rq[0]].status == Runnable
    ensures Asleep(Dispatch(s, c)) == Asleep(s) && Awake(Dispatch(s, c)) == Awake(s)
  {
    Switched(s, Dispatch(s, c));
  }

  /** The queue's head, with or without the running thread behind. */
  lemma HeadIsRunnable(s: Sched, c: nat)
    requires SchedInv(s) && c < |s.cpus|
    ensures CpuOk(s, c) && InPlace(s, s.cpus[c].current) && s.threads[s.cpus[c].idle].status == Running
    ensures s.threads[s.cpus[c].current].status == Running
    ensures s.cpus[c].rq != [] ==> s.cpus[c].rq[0] in s.threads && s.threads[s.cpus[c].rq[0]].status == Runnable
    ensures s.cpus[c].rq != [] ==> s.cpus[c].rq[0] != s.cpus[c].current && s.cpus[c].rq[0] != s.cpus[c].idle
  {
    assert CpuOk(s, c) && InPlace(s, s.cpus[c].current) && InPlace(s, s.cpus[c].idle);
    if s.cpus[c].rq != [] {
      assert s.cpus[c].rq[0] in s.cpus[c].rq;
      assert InPlace(s, s.cpus[c].rq[0]);
    }
  }

  lemma TickMoves(s: Sched, c: nat)
    requires SchedInv(s) && c < |s.cpus|
    ensures Asleep(Tick(s, c)) == Asleep(s) && Awake(Tick(s, c)) == Awake(s)
  {
    HeadIsRunnable(s, c);
    hide SchedInv;
    hide InPlace;
    var k := s.cpus[c];
    var s1 := CountDown(s, k.current);
    Switched(s, s1);
    if s.threads[k.current].ticksLeft > 1 && (k.current != k.idle || k.rq == []) {
    } else if k.current != k.idle {
      hide CountDown;
      var s2 := Enqueue(s1, k.current);
      CountsOnly(s, k.current);
      Switched(s1, s2);
      hide Asleep;
      hide Awake;
      DispatchMoves(s2, c);
    } else {
      hide Asleep;
      hide Awake;
      DispatchMoves(s1, c);
    }
  }

  lemma CountsOnly(s: Sched, t: Tid)
    requires t in s.threads && s.threads[t].ticksLeft > 0
    ensures CountDown(s, t).cpus == s.cpus && CountDown(s, t).threads.Keys == s.threads.Keys
    ensures forall u | u in s.threads ::
      CountDown(s, t).threads[u].status == s.threads[u].status && CountDown(s, t).threads[u].cpu == s.threads[u].cpu
  {
  }

  lemma YieldMoves(s: Sched, c: nat)
    requires SchedInv(s) && c < |s.cpus|
    ensures Asleep(Yield(s, c)) == Asleep(s) && Awake(Yield(s, c)) == Awake(s)
  {
    HeadIsRunnable(s, c);
    hide SchedInv;
    hide InPlace;
    var k := s.cpus[c];
    if k.current != k.idle {
      Switched(s, Enqueue(s, k.current));
      DispatchMoves(Enqueue(s, k.current), c);
    } else {
      DispatchMoves(s, c);
    }
  }

  lemma BlockMoves(s: Sched, c: nat)
    requires SchedInv(s) && c < |s.cpus| && s.cpus[c].current != s.cpus[c].idle
    ensures Asleep(Block(s, c)) == Asleep(s) + {s.cpus[c].current} && Awake(Block(s, c)) == Awake(s) - {s.cpus[c].current}
  {
    HeadIsRunnable(s, c);
    hide SchedInv;
    hide InPlace;
    var t := s.cpus[c].current;
    var s1 := s.(threads := s.threads[t := s.threads[t].(status := Blocked)]);
    assert Asleep(s1) == Asleep(s) + {t};
    assert Awake(s1) == Awake(s) - {t};
    DispatchMoves(s1, c);
  }

  lemma ExitMoves(s: Sched, c: nat)
    requires SchedInv(s) && c < |s.cpus| && s.cpus[c].current != s.cpus[c].idle
    ensures Asleep(Exit(s, c)) == Asleep(s) && Awake(Exit(s, c)) == Awake(s) - {s.cpus[c].current}
  {
    HeadIsRunnable(s, c);
    hide SchedInv;
    hide InPlace;
    var k := s.cpus[c];
    var s1 := Sched(s.threads[k.current := s.threads[k.current].(status := Zombie)],
                    s.cpus[c := k.(zombies := k.zombies + [k.current])]);
    assert forall u | u in s.threads :: IsIdle(s1, u) == IsIdle(s, u);
    assert Asleep(s1) == Asleep(s);
    assert Awake(s1) == Awake(s) - {k.current};
    DispatchMoves(s1, c);
  }

  lemma WakeMoves(s: Sched, n: Tid)
    requires SchedInv(s) && n in Asleep(s)
    ensures Asleep(Wake(s, n)) == Asleep(s) - {n} && Awake(Wake(s, n)) == Awake(s) + {n}
  {
    assert InPlace(s, n);
    assert forall t | t in s.threads :: IsIdle(Wake(s, n), t) == IsIdle(s, t);
  }

  lemma SpawnMoves(s: Sched, t: Tid, c: nat)
    requires SchedInv(s) && c < |s.cpus| && t !in s.threads
    ensures Asleep(Spawn(s, t, c)) == Asleep(s) && Awake(Spawn(s, t, c)) == Awake(s) + {t}
  {
    assert CpuOk(s, c);
    hide SchedInv;
    var s' := Spawn(s, t, c);
    assert forall u | u in s.threads :: IsIdle(s', u) == IsIdle(s, u);
    assert !IsIdle(s', t);
    assert Awake(s') == Awake(s) + {t};
  }

  lemma ReapMoves(s: Sched, c: nat)
    requires SchedInv(s) && c < |s.cpus| && s.cpus[c].zombies != []
    ensures Asleep(Reap(s, c)) == Asleep(s) && Awake(Reap(s, c)) == Awake(s)
  {
    var z := s.cpus[c].zombies[0];
    assert z in s.cpus[c].zombies;
    assert CpuOk(s, c) && InPlace(s, z);
    hide SchedInv;
    hide CpuOk;
    hide InPlace;
    var s' := Reap(s, c);
    assert forall u | u in s'.threads :: IsIdle(s', u) == IsIdle(s, u);
    assert Awake(s') == Awake(s);
  }

  // ---- every step keeps the invariant ----

  lemma PlainKeeps(x: System, st: Step)
    requires Inv(x) && Can(x, Plain(st))
    ensures Inv(Next(x, Plain(st)))
  {
    StepKeeps(x.s, st);
    var s' := After(x.s, st);
    match st
    case TickStep(c) => TickMoves(x.s, c);
    case YieldStep(c) => YieldMoves(x.s, c);
    case ExitStep(c) => ExitMoves(x.s, c);
    case SpawnStep(t, c) => SpawnMoves(x.s, t, c);
    case ReapStep(c) => ReapMoves(x.s, c);
    hide SchedInv;
    hide Asleep;
    hide Awake;
    L.ThreadsMoved(x.locks, Asleep(x.s), Awake(x.s), Awake(s'));
  }

  lemma NextKeeps(x: System, step: SystemStep)
    requires Inv(x) && Can(x, step)
    ensures Inv(Next(x, step))
  {
    match step
    case Plain(st) => PlainKeeps(x, st);
    case Call(c, m) =>
      ActorIsAwake(x, c);
      L.CallKeeps(x.locks, Asleep(x.s), Awake(x.s), Actor(x, c), m);
    case TakeGuard(c) =>
      ActorIsAwake(x, c);
      L.TakeGuardKeeps(x.locks, Asleep(x.s), Awake(x.s), Actor(x, c), Pc(x, c).m, Pc(x, c).recursive);
    case GoToSleep(c) =>
      ActorIsAwake(x, c);
      BlockKeeps(x.s, c);
      BlockMoves(x.s, c);
      L.GoToSleepKeeps(x.locks, Asleep(x.s), Awake(x.s), Actor(x, c), Pc(x, c).m);
    case Return(c) =>
      ActorIsAwake(x, c);
      L.ReturnKeeps(x.locks, Asleep(x.s), Awake(x.s), Actor(x, c), Pc(x, c).m);
    case TryLock(c, m) =>
      ActorIsAwake(x, c);
      L.TryLockKeeps(x.locks, Asleep(x.s), Awake(x.s), Actor(x, c), m);
    case Unlock(c, m) =>
      ActorIsAwake(x, c);
      L.UnlockKeeps(x.locks, Asleep(x.s), Awake(x.s), Actor(x, c), m);
    case WakeNext(c) =>
      ActorIsAwake(x, c);
      L.WakeKeeps(x.locks, Asleep(x.s), Awake(x.s), Actor(x, c), Pc(x, c).n);
      WakeKeeps(x.s, Pc(x, c).n);
      WakeMoves(x.s, Pc(x, c).n);
  }

  // ---- runs ----

  ghost predicate Legal(x: System, run: seq<SystemStep>)
    requires Inv(x)
    decreases |run|
  {
    run == [] || (Can(x, run[0]) && (NextKeeps(x, run[0]); Legal(Next(x, run[0]), run[1..])))
  }

  ghost function AtEnd(x: System, run: seq<SystemStep>): System
    requires Inv(x) && Legal(x, run)
    decreases |run|
  {
    if run == [] then x else (NextKeeps(x, run[0]); AtEnd(Next(x, run[0]), run[1..]))
  }

  lemma {:induction false} RunKeeps(x: System, run: seq<SystemStep>)
    requires Inv(x) && Legal(x, run)
    ensures Inv(AtEnd(x, run))
    decreases |run|
  {
    if run != [] {
      NextKeeps(x, run[0]);
      RunKeeps(Next(x, run[0]), run[1..]);
    }
  }

  /** After any run: two threads that both think they have a mutex are the same thread. */
  lemma NeverTwoOwners(x: System, run: seq<SystemStep>, t: Tid, u: Tid, m: L.Mid)
    requires Inv(x) && Legal(x, run)
    requires m in L.HoldsOf(AtEnd(x, run).locks, t) && m in L.HoldsOf(AtEnd(x, run).locks, u)
    ensures t == u
  {
    RunKeeps(x, run);
    var end := AtEnd(x, run);
    L.MutualExclusion(end.locks, Asleep(end.s), Awake(end.s), t, u, m);
  }

  /** After any run: the panic for recursive locking hits exactly the threads that owned the mutex when they
      called, and a thread that returns from sleep owns what it slept for. */
  lemma HandoffIsSafe(x: System, run: seq<SystemStep>, c: nat)
    requires Inv(x) && Legal(x, run) && Acts(AtEnd(x, run), c)
    ensures Panics(AtEnd(x, run), c) ==> Pc(AtEnd(x, run), c).recursive
    ensures Pc(AtEnd(x, run), c).Locking? && Pc(AtEnd(x, run), c).recursive && GuardFree(AtEnd(x, run), Pc(AtEnd(x, run), c).m) ==>
      Panics(AtEnd(x, run), c)
    ensures Pc(AtEnd(x, run), c).Sleeping? ==>
      L.Owner(AtEnd(x, run).locks, Pc(AtEnd(x, run), c).m) == Some(Actor(AtEnd(x, run), c))
  {
    RunKeeps(x, run);
    var end := AtEnd(x, run);
    ActorIsAwake(end, c);
    var p := Pc(end, c);
    if p.Locking? {
      L.PanicIsRecursion(end.locks, Asleep(end.s), Awake(end.s), Actor(end, c), p.m, p.recursive);
    }
    if p.Sleeping? {
      L.ReturnKeeps(end.locks, Asleep(end.s), Awake(end.s), Actor(end, c), p.m);
    }
  }

  /** After any run: a blocked thread queues for a mutex that another thread has, or is its owner and has its
      wake on the way, in the hands of a thread that can run. */
  lemma WakeupIsNotLost(x: System, run: seq<SystemStep>, t: Tid)
    requires Inv(x) && Legal(x, run) && t in AtEnd(x, run).s.threads && AtEnd(x, run).s.threads[t].status == Blocked
    ensures var locks := AtEnd(x, run).locks;
      L.PcOf(locks, t).Sleeping? &&
      var m := L.PcOf(locks, t).m;
      || (m in locks.mutexes && t in locks.mutexes[m].waiters && locks.mutexes[m].owner.Some?
          && locks.mutexes[m].owner != Some(t))
      || (L.Owner(locks, m) == Some(t) && exists u :: L.WakePending(locks, u, t) && u in Awake(AtEnd(x, run).s))
  {
    RunKeeps(x, run);
    var end := AtEnd(x, run);
    L.NoLostWakeup(end.locks, Asleep(end.s), Awake(end.s), t);
  }

  /** After any run: a mutex is handed over in the order in which threads queued up for it. */
  lemma FirstInFirstOut(x: System, run: seq<SystemStep>, m: L.Mid)
    requires Inv(x) && Legal(x, run) && m in AtEnd(x, run).locks.mutexes
    ensures var locks := AtEnd(x, run).locks;
      m in locks.history && locks.history[m].handoffs + locks.mutexes[m].waiters == locks.history[m].arrivals
  {
    RunKeeps(x, run);
    var end := AtEnd(x, run);
    L.FirstComeFirstServed(end.locks, Asleep(end.s), Awake(end.s), m);
  }

  /** After `sched_init` on `n` CPUs, with mutexes as `mutex_init` leaves them: idle thread `c` runs on CPU `c`. */
  function Boot(n: nat, mutexes: set<L.Mid>): System {
    System(Sched(map c: Tid | 0 <= c < n :: Thread(Running, QUANTUM, 0, c), seq(n, c requires 0 <= c < n => Cpu(c, c, [], [], 0))),
           L.State(map m | m in mutexes :: L.Mutex(None, None, []), map[], map[],
                   map m | m in mutexes :: L.History([], [])))
  }

  lemma BootIsOk(n: nat, mutexes: set<L.Mid>)
    ensures Inv(Boot(n, mutexes))
  {
    var x := Boot(n, mutexes);
    forall c | 0 <= c < n
      ensures CpuOk(x.s, c)
    {
      assert Members(x.s, c) == {};
    }
  }

  // ---- the scheduler's view ----

  /** What a system step is for the scheduler. */
  function Seen(x: System, step: SystemStep): seq<Step> {
    match step
    case Plain(st) => [st]
    case GoToSleep(c) => [BlockStep(c)]
    case WakeNext(c) => if c < |x.s.cpus| && Pc(x, c).Waking? then [WakeStep(Pc(x, c).n)] else []
    case _ => []
  }

  ghost function SeenRun(x: System, run: seq<SystemStep>): seq<Step>
    requires Inv(x) && Legal(x, run)
    decreases |run|
  {
    if run == [] then [] else (NextKeeps(x, run[0]); Seen(x, run[0]) + SeenRun(Next(x, run[0]), run[1..]))
  }

  lemma SeenStep(x: System, step: SystemStep)
    requires Inv(x) && Can(x, step)
    ensures Scheduler.Legal(x.s, Seen(x, step)) && Next(x, step).s == Scheduler.AtEnd(x.s, Seen(x, step))
  {
    match step
    case GoToSleep(c) =>
      ActorIsAwake(x, c);
      L.GoToSleepKeeps(x.locks, Asleep(x.s), Awake(x.s), Actor(x, c), Pc(x, c).m);
      OneStep(x.s, BlockStep(c));
    case WakeNext(c) => OneStep(x.s, WakeStep(Pc(x, c).n));
    case Plain(st) => OneStep(x.s, st);
    case _ =>
  }

  lemma OneStep(s: Sched, st: Step)
    requires SchedInv(s) && Enabled(s, st)
    ensures Scheduler.Legal(s, [st]) && Scheduler.AtEnd(s, [st]) == After(s, st)
  {
    StepKeeps(s, st);
    assert [st][1..] == [];
  }

  lemma {:induction false} Joined(s: Sched, a: seq<Step>, b: seq<Step>)
    requires SchedInv(s) && Scheduler.Legal(s, a) && SchedInv(Scheduler.AtEnd(s, a)) && Scheduler.Legal(Scheduler.AtEnd(s, a), b)
    ensures Scheduler.Legal(s, a + b) && Scheduler.AtEnd(s, a + b) == Scheduler.AtEnd(Scheduler.AtEnd(s, a), b)
    decreases |a|
  {
    if a == [] {
      assert a + b == b;
    } else {
      hide SchedInv;
      hide After;
      hide Enabled;
      StepKeeps(s, a[0]);
      assert (a + b)[0] == a[0] && (a + b)[1..] == a[1..] + b;
      Joined(After(s, a[0]), a[1..], b);
    }
  }

  /** A run of the whole system is a run of the scheduler, so that `BoundedWaiting` speaks about it. */
  lemma {:induction false} RunIsScheduled(x: System, run: seq<SystemStep>)
    requires Inv(x) && Legal(x, run)
    ensures Scheduler.Legal(x.s, SeenRun(x, run)) && Scheduler.AtEnd(x.s, SeenRun(x, run)) == AtEnd(x, run).s
    decreases |run|
  {
    if run != [] {
      NextKeeps(x, run[0]);
      SeenStep(x, run[0]);
      RunIsScheduled(Next(x, run[0]), run[1..]);
      Joined(x.s, Seen(x, run[0]), SeenRun(Next(x, run[0]), run[1..]));
    }
  }

  /** After `k` others in its CPU's queue, a thread runs within `2 * (k + 1)` ticks of that CPU, whatever
      threads and mutexes do meanwhile. */
  lemma QueuedThreadRuns(x: System, run: seq<SystemStep>, c: nat, t: Tid)
    requires Inv(x) && Legal(x, run) && c < |x.s.cpus| && t in x.s.cpus[c].rq
    requires TicksOf(SeenRun(x, run), c) >= QUANTUM * (IndexOf(x.s.cpus[c].rq, t) + 1)
    ensures Scheduler.Legal(x.s, SeenRun(x, run)) && GetsCpu(x.s, SeenRun(x, run), c, t)
  {
    RunIsScheduled(x, run);
    BoundedWaiting(x.s, SeenRun(x, run), c, t);
  }
}
