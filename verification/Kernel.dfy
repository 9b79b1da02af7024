/** The scheduler and the mutexes as they are programmed (kernel/src/sys/sched.c, kernel/src/lib/mutex.c): each
    method is one section under a lock and does one step of the system.  */
module Kernel {
  import opened Common
  import opened Scheduler
  import opened MutexSystem
  import opened Steps
  import L = Locks

  datatype Outcome = Acquired | MustSleep | Panic

  class Machine {
    var threads: map<Tid, Thread>
    var cpus: seq<Cpu>
    var mutexes: map<L.Mid, L.Mutex>
    ghost var pc: map<Tid, L.Pc>              // where each thread is
    ghost var holds: map<Tid, set<L.Mid>>     // what each thread has been told
    ghost var history: map<L.Mid, L.History>

    ghost function Sched(): Scheduler.Sched
      reads this
    {
      Scheduler.Sched(threads, cpus)
    }

    ghost function Locks(): L.State
      reads this
    {
      L.State(mutexes, pc, holds, history)
    }

    ghost function State(): System
      reads this
    {
      System(Sched(), Locks())
    }

    ghost predicate Valid()
      reads this
    {
      Inv(State())
    }

    /** `sched_init` on every CPU and `mutex_init` of every mutex */
    constructor (n: nat, ids: set<L.Mid>)
      ensures Valid() && State() == Boot(n, ids)
    {
      threads := map c: Tid | 0 <= c < n :: Thread(Running, QUANTUM, 0, c);
      cpus := seq(n, c requires 0 <= c < n => Cpu(c, c, [], [], 0));
      mutexes := map m | m in ids :: L.Mutex(None, None, []);
      pc, holds, history := map[], map[], map m | m in ids :: L.History([], []);
      new;
      BootIsOk(n, ids);
    }

    // ---- choosing and switching ----

    /** Only runnable threads are queued. */
    ghost predicate QueueOk(c: nat)
      reads this`threads, this`cpus
    {
      && c < |cpus| && cpus[c].idle in threads && cpus[c].idle !in cpus[c].rq
      && forall t | t in cpus[c].rq :: t in threads && threads[t].status == Runnable
    }

    /** `sched_next_thread`: the first queued thread that can run, or the idle thread.  The `n` threads before
        it are dropped, the zombies among them to be reaped. */
    method NextThread(c: nat) returns (next: Tid, ghost n: nat)
      requires c < |cpus| && cpus[c].idle !in cpus[c].rq && forall t | t in cpus[c].rq :: t in threads
      modifies this`threads, this`cpus
      ensures threads == old(threads) && n <= |old(cpus[c].rq)|
      ensures forall i | 0 <= i < n :: threads[old(cpus[c].rq)[i]].status != Runnable
      ensures n < |old(cpus[c].rq)| ==> next == old(cpus[c].rq)[n] && threads[next].status == Runnable
      ensures n == |old(cpus[c].rq)| ==> next == old(cpus[c].idle)
      ensures cpus == old(cpus)[c := Dropped(threads, old(cpus[c]), if n == |old(cpus[c].rq)| then n else n + 1, n)]
    {
      ghost var k0 := cpus[c];
      n := 0;
      NoneDropped(threads, k0);
      while cpus[c].rq != []
        invariant n <= |k0.rq| && threads == old(threads) && |cpus| == |old(cpus)|
        invariant forall i | 0 <= i < n :: threads[k0.rq[i]].status != Runnable
        invariant cpus == old(cpus)[c := Dropped(threads, k0, n, n)]
        decreases |cpus[c].rq|
      {
        next := cpus[c].rq[0];
        OneDropped(threads, k0, n);
        cpus := cpus[c := cpus[c].(rq := cpus[c].rq[1..])];
        if threads[next].status == Runnable {
          return;
        }
        if threads[next].status == Zombie {
          ghost var all := threads;
          QueueZombie(c, next);
          assert threads == all;
        }
        assert cpus[c] == Dropped(threads, k0, n + 1, n + 1);
        n := n + 1;
      }
      next := cpus[c].idle;
    }

    /** `sched_queue_zombie_locked` */
    method QueueZombie(c: nat, t: Tid)
      requires c < |cpus| && t in threads
      modifies this`threads, this`cpus
      ensures t == old(cpus[c].idle) ==> threads == old(threads) && cpus == old(cpus)
      ensures t != old(cpus[c].idle) ==>
        && threads == old(threads)[t := old(threads)[t].(status := Zombie)]
        && cpus == old(cpus)[c := old(cpus[c]).(zombies := old(cpus[c].zombies) + [t])]
    {
      if t == cpus[c].idle {
        return;
      }
      if threads[t].status != Zombie {
        threads := threads[t := threads[t].(status := Zombie)];
      }
      cpus := cpus[c := cpus[c].(zombies := cpus[c].zombies + [t])];
    }

    /** With runnable threads only, the first one is taken. */
    method TakeNext(c: nat) returns (next: Tid)
      requires QueueOk(c)
      modifies this`threads, this`cpus
      ensures threads == old(threads)
      ensures next == if old(cpus[c].rq) == [] then old(cpus[c].idle) else old(cpus[c].rq)[0]
      ensures cpus == old(cpus)[c := old(cpus[c]).(rq := if old(cpus[c].rq) == [] then [] else old(cpus[c].rq)[1..])]
    {
      ghost var n;
      ghost var k0 := cpus[c];
      assert k0.rq != [] ==> k0.rq[0] in k0.rq;
      NoneDropped(threads, k0);
      next, n := NextThread(c);
      assert k0.zombies + [] == k0.zombies;
    }

    /** `sched_run_next_locked`, with the context switch */
    method RunNext(c: nat, current: Tid)
      requires QueueOk(c) && cpus[c].current == current && current in threads
      modifies this`threads, this`cpus
      ensures Sched() == Dispatch(old(Sched()), c)
    {
      var next := TakeNext(c);
      if next == current {
        threads := threads[current := threads[current].(status := Running, ticksLeft := QUANTUM)];
        return;
      }
      threads := threads[next := threads[next].(status := Running, ticksLeft := QUANTUM)];
      cpus := cpus[c := cpus[c].(current := next)];
    }

    lemma QueuesAreOk()
      requires SchedInv(Sched())
      ensures forall c | 0 <= c < |cpus| :: QueueOk(c) && CpuOk(Sched(), c) && threads[cpus[c].current].status == Running
      ensures forall c | 0 <= c < |cpus| :: cpus[c].current !in cpus[c].rq
    {
      forall c | 0 <= c < |cpus|
        ensures QueueOk(c) && CpuOk(Sched(), c) && threads[cpus[c].current].status == Running
        ensures cpus[c].current !in cpus[c].rq
      {
        HeadIsRunnable(Sched(), c);
        assert CpuOk(Sched(), c);
        forall t | t in cpus[c].rq
          ensures t in threads && threads[t].status == Runnable
        {
          assert InPlace(Sched(), t);
        }
        assert InPlace(Sched(), cpus[c].current);
      }
    }

    // ---- the scheduler's entry points ----

    /** The locked section of `sched_tick` */
    method TickCpu(c: nat)
      requires Valid() && c < |cpus|
      modifies this`threads, this`cpus
      ensures Valid() && State() == Next(old(State()), Plain(TickStep(c)))
      ensures Means(old(Sched()), TickStep(c), Sched())
    {
      StepMeans(Sched(), TickStep(c));
      hide Means;
      NextKeeps(State(), Plain(TickStep(c)));
      hide L.Inv;
      TickSection(c);
    }

    method TickSection(c: nat)
      requires SchedInv(Sched()) && c < |cpus|
      modifies this`threads, this`cpus
      ensures Sched() == Tick(old(Sched()), c)
    {
      QueuesAreOk();
      TickFacts(Sched(), c);
      hide SchedInv;
      hide InPlace;
      hide CpuOk;
      var current := cpus[c].current;
      Account(current);
      if threads[current].status == Running {
        if threads[current].ticksLeft != 0 && (current != cpus[c].idle || cpus[c].rq == []) {
          return;
        }
        if current != cpus[c].idle {
          Requeue(c, current);
        }
      }
      RunNext(c, current);
    }

    /** The accounting at the start of `sched_tick` */
    method Account(t: Tid)
      requires t in threads && threads[t].status == Running && threads[t].ticksLeft > 0
      modifies this`threads
      ensures Sched() == CountDown(old(Sched()), t)
    {
      threads := threads[t := threads[t].(totalTicks := threads[t].totalTicks + 1)];
      if threads[t].status == Running {
        if threads[t].ticksLeft > 0 {
          threads := threads[t := threads[t].(ticksLeft := threads[t].ticksLeft - 1)];
        }
      }
    }

    /** The thread that ran goes to the end of the queue. */
    method Requeue(c: nat, t: Tid)
      requires c < |cpus| && t in threads && threads[t].cpu == c
      modifies this`threads, this`cpus
      ensures Sched() == Enqueue(old(Sched()), t)
    {
      threads := threads[t := threads[t].(status := Runnable)];
      threads := threads[t := threads[t].(ticksLeft := QUANTUM)];
      cpus := cpus[c := cpus[c].(rq := cpus[c].rq + [t])];
    }

    /** `sched_yield` */
    method YieldCpu(c: nat)
      requires Valid() && c < |cpus|
      modifies this`threads, this`cpus
      ensures Valid() && State() == Next(old(State()), Plain(YieldStep(c)))
      ensures Means(old(Sched()), YieldStep(c), Sched())
    {
      StepMeans(Sched(), YieldStep(c));
      hide Means;
      NextKeeps(State(), Plain(YieldStep(c)));
      hide L.Inv;
      YieldSection(c);
    }

    method YieldSection(c: nat)
      requires SchedInv(Sched()) && c < |cpus|
      modifies this`threads, this`cpus
      ensures Sched() == Yield(old(Sched()), c)
    {
      QueuesAreOk();
      hide SchedInv;
      hide InPlace;
      var current := cpus[c].current;
      if current != cpus[c].idle && threads[current].status != Zombie {
        Requeue(c, current);
      }
      RunNext(c, current);
    }

    /** `sched_exit` */
    method ExitCurrent(c: nat)
      requires Valid() && c < |cpus| && Can(State(), Plain(ExitStep(c)))
      modifies this`threads, this`cpus
      ensures Valid() && State() == Next(old(State()), Plain(ExitStep(c)))
      ensures Means(old(Sched()), ExitStep(c), Sched())
    {
      StepMeans(Sched(), ExitStep(c));
      hide Means;
      NextKeeps(State(), Plain(ExitStep(c)));
      hide L.Inv;
      ExitSection(c);
    }

    method QueueCurrent(c: nat, t: Tid)
      requires QueueOk(c) && t in threads && t != cpus[c].idle && t !in cpus[c].rq
      modifies this`threads, this`cpus
      ensures threads == old(threads)[t := old(threads)[t].(status := Zombie)]
      ensures cpus == old(cpus)[c := old(cpus[c]).(zombies := old(cpus[c].zombies) + [t])] && QueueOk(c)
    {
      OthersRunnable(threads, cpus[c].rq, t);
      QueueZombie(c, t);
    }

    method ExitSection(c: nat)
      requires SchedInv(Sched()) && c < |cpus| && cpus[c].current != cpus[c].idle
      modifies this`threads, this`cpus
      ensures Sched() == Exit(old(Sched()), c)
    {
      QueuesAreOk();
      hide SchedInv;
      hide InPlace;
      var current, idle := cpus[c].current, cpus[c].idle;
      QueueCurrent(c, current);
      hide QueueOk;
      var next := TakeNext(c);
      if next == current {
        next := idle;
      }
      threads := threads[next := threads[next].(status := Running, ticksLeft := QUANTUM)];
      cpus := cpus[c := cpus[c].(current := next)];
    }

    /** `thread_wake` */
    method WakeThread(t: Tid)
      requires SchedInv(Sched()) && t in threads
      modifies this`threads, this`cpus
      ensures Sched() == Wake(old(Sched()), t)
      ensures Woken(old(Sched()), Sched(), t)
    {
      WakeMeans(Sched(), t);
      hide Woken;
      assert InPlace(Sched(), t);
      var c := threads[t].cpu;
      if c >= |cpus| || t == cpus[c].idle {
        return;
      }
      if threads[t].status == Blocked {
        threads := threads[t := threads[t].(status := Runnable)];
        threads := threads[t := threads[t].(ticksLeft := QUANTUM)];
        if t !in cpus[c].rq {
          cpus := cpus[c := cpus[c].(rq := cpus[c].rq + [t])];
        }
      }
    }

    /** `thread_block_current`, with the release of a mutex's guard in between */
    method BlockCurrent(c: nat, m: L.Mid)
      requires SchedInv(Sched()) && c < |cpus| && cpus[c].current != cpus[c].idle && m in mutexes
      modifies this`threads, this`cpus, this`mutexes
      ensures Sched() == Block(old(Sched()), c) && mutexes == old(mutexes)[m := old(mutexes)[m].(guard := None)]
      ensures Means(old(Sched()), BlockStep(c), Sched())
    {
      StepMeans(Sched(), BlockStep(c));
      hide Means;
      hide SchedInv;
      BlockSection(c, m);
    }

    method BlockSection(c: nat, m: L.Mid)
      requires SchedInv(Sched()) && c < |cpus| && cpus[c].current != cpus[c].idle && m in mutexes
      modifies this`threads, this`cpus, this`mutexes
      ensures Sched() == Block(old(Sched()), c) && mutexes == old(mutexes)[m := old(mutexes)[m].(guard := None)]
    {
      QueuesAreOk();
      var current := cpus[c].current;
      threads := threads[current := threads[current].(status := Blocked)];
      WithoutAbsent(cpus[c].rq, current);
      cpus := cpus[c := cpus[c].(rq := Without(cpus[c].rq, current))];
      mutexes := mutexes[m := mutexes[m].(guard := None)];
      RunNext(c, current);
    }

    // ---- threads come and go ----

    /** `sched_select_cpu`: the first of the least loaded CPUs. */
    method SelectCpu() returns (best: nat)
      requires |cpus| > 0
      ensures best < |cpus|
      ensures forall c | 0 <= c < |cpus| ::
        Load(Sched(), best) < Load(Sched(), c) || (Load(Sched(), best) == Load(Sched(), c) && best <= c)
    {
      best := 0;
      for i := 1 to |cpus|
        invariant best < i
        invariant forall c | 0 <= c < i ::
          Load(Sched(), best) < Load(Sched(), c) || (Load(Sched(), best) == Load(Sched(), c) && best <= c)
      {
        if Load(Scheduler.Sched(threads, cpus), i) < Load(Scheduler.Sched(threads, cpus), best) {
          best := i;
        }
      }
    }

    /** `spawn_thread`: the new thread is queued on a least loaded CPU. */
    method SpawnThread(t: Tid) returns (c: nat)
      requires Valid() && t !in threads && |cpus| > 0
      modifies this`threads, this`cpus
      ensures Valid() && c < |old(cpus)| && State() == Next(old(State()), Plain(SpawnStep(t, c)))
      ensures forall b | 0 <= b < |old(cpus)| :: Load(old(Sched()), c) <= Load(old(Sched()), b)
      ensures Means(old(Sched()), SpawnStep(t, c), Sched())
      ensures forall b | 0 <= b < |old(cpus)| ::
        |Assigned(old(Sched()), c)| + Runs(old(Sched()), c) <= |Assigned(old(Sched()), b)| + Runs(old(Sched()), b)
    {
      AllLoads(Sched());
      hide Assigned;
      hide Runs;
      c := SelectCpu();
      hide Load;
      StepMeans(Sched(), SpawnStep(t, c));
      hide Means;
      NextKeeps(State(), Plain(SpawnStep(t, c)));
      hide L.Inv;
      Queue(t, c);
    }

    method Queue(t: Tid, c: nat)
      requires c < |cpus|
      modifies this`threads, this`cpus
      ensures Sched() == Spawn(old(Sched()), t, c)
    {
      threads := threads[t := Thread(Runnable, QUANTUM, 0, c)];
      cpus := cpus[c := cpus[c].(rq := cpus[c].rq + [t])];
      cpus := cpus[c := cpus[c].(count := cpus[c].count + 1)];
    }

    /** One turn of `sched_reap_cpu` */
    method ReapOne(c: nat) returns (found: bool)
      requires Valid() && c < |cpus|
      modifies this`threads, this`cpus
      ensures Valid() && (found <==> old(cpus[c].zombies) != []) && |cpus| == |old(cpus)|
      ensures found ==> State() == Next(old(State()), Plain(ReapStep(c))) && |cpus[c].zombies| == |old(cpus[c].zombies)| - 1
      ensures !found ==> State() == old(State())
      ensures found ==> Means(old(Sched()), ReapStep(c), Sched())
    {
      if cpus[c].zombies == [] {
        return false;
      }
      StepMeans(Sched(), ReapStep(c));
      hide Means;
      NextKeeps(State(), Plain(ReapStep(c)));
      hide L.Inv;
      ReapSection(c);
      return true;
    }

    method ReapSection(c: nat)
      requires SchedInv(Sched()) && c < |cpus| && cpus[c].zombies != []
      modifies this`threads, this`cpus
      ensures Sched() == Reap(old(Sched()), c)
    {
      var t := cpus[c].zombies[0];
      assert CpuOk(Sched(), c) && t in cpus[c].zombies;
      hide SchedInv;
      cpus := cpus[c := cpus[c].(zombies := cpus[c].zombies[1..])];
      var home := threads[t].cpu;
      if cpus[home].count > 0 {
        cpus := cpus[home := cpus[home].(count := cpus[home].count - 1)];
      }
      threads := threads - {t};
    }

    /** `sched_reap`: no zombie is left. */
    method ReapAll(c: nat)
      requires Valid() && c < |cpus|
      modifies this`threads, this`cpus
      ensures Valid() && |cpus| == |old(cpus)| && cpus[c].zombies == []
    {
      var more := true;
      while more
        invariant Valid() && |cpus| == |old(cpus)|
        invariant !more ==> cpus[c].zombies == []
        decreases |cpus[c].zombies|, more
      {
        more := ReapOne(c);
      }
    }

    // ---- mutexes ----

    /** `mutex_lock` is called; the spinning on the guard is not a step. */
    ghost method LockCalled(c: nat, m: L.Mid)
      requires Valid() && Can(State(), Call(c, m))
      modifies this`pc
      ensures Valid() && State() == Next(old(State()), Call(c, m))
    {
      NextKeeps(State(), Call(c, m));
      hide Inv;
      var t := cpus[c].current;
      pc := pc[t := L.Locking(m, L.Owner(State().locks, m) == Some(t))];
    }

    /** The section of `mutex_lock` under the guard: the mutex is taken, or the caller has to sleep, or it is
        the owner and panics. */
    method LockSection(c: nat, m: L.Mid) returns (r: Outcome)
      requires Valid() && Acts(State(), c) && Pc(State(), c).Locking? && Pc(State(), c).m == m && GuardFree(State(), m)
      modifies this`mutexes, this`pc, this`holds, this`history
      ensures Valid() && (r == Panic <==> old(mutexes)[m].owner == Some(old(cpus[c].current)))
      ensures r == Panic ==> State() == old(State()) && Pc(State(), c).recursive
      ensures r != Panic ==> State() == Next(old(State()), TakeGuard(c))
      ensures r == Acquired <==> old(mutexes)[m].owner == None
      ensures mutexes == old(mutexes)[m := mutexes[m]] && m in mutexes
      ensures r == Acquired ==>
        && mutexes[m] == L.Mutex(None, Some(cpus[c].current), old(mutexes)[m].waiters)
        && m in L.HoldsOf(Locks(), cpus[c].current) && Pc(State(), c) == L.Outside
      ensures r == MustSleep ==>
        && mutexes[m] == L.Mutex(Some(cpus[c].current), old(mutexes)[m].owner, old(mutexes)[m].waiters + [cpus[c].current])
        && Pc(State(), c) == L.Guarded(m)
    {
      var current := cpus[c].current;
      if mutexes[m].owner == Some(current) {
        PanicFacts(c, m);
        return Panic;
      }
      NextKeeps(State(), TakeGuard(c));
      LockFacts(c, m);
      L.NotYetQueued(Locks(), Asleep(Sched()), Awake(Sched()), current, m);
      hide L.Inv;
      hide SchedInv;
      var got := UnderGuard(current, m);
      return if got then Acquired else MustSleep;
    }

    lemma PanicFacts(c: nat, m: L.Mid)
      requires Valid() && Acts(State(), c) && Pc(State(), c).Locking? && Pc(State(), c).m == m
      requires m in mutexes && mutexes[m].owner == Some(cpus[c].current)
      ensures Pc(State(), c).recursive
    {
      L.PanicIsRecursion(Locks(), Asleep(Sched()), Awake(Sched()), cpus[c].current, m, Pc(State(), c).recursive);
    }

    lemma LockFacts(c: nat, m: L.Mid)
      requires Valid() && Acts(State(), c) && m in mutexes
      ensures m in history && cpus[c].current in Awake(Sched())
    {
      ActorIsAwake(State(), c);
      assert L.MutexOk(Locks(), m);
    }

    method UnderGuard(current: Tid, m: L.Mid) returns (got: bool)
      requires m in mutexes && mutexes[m].owner != Some(current) && m in history
      modifies this`mutexes, this`pc, this`holds, this`history
      ensures Locks() == L.TakeGuard(old(Locks()), current, m)
      ensures got <==> old(mutexes)[m].owner == None
      ensures mutexes == old(mutexes)[m := mutexes[m]] && m in mutexes
      ensures got ==>
        && mutexes[m] == L.Mutex(old(mutexes)[m].guard, Some(current), old(mutexes)[m].waiters)
        && m in L.HoldsOf(Locks(), current) && L.PcOf(Locks(), current) == L.Outside
      ensures !got && current !in old(mutexes)[m].waiters ==>
        && mutexes[m] == L.Mutex(Some(current), old(mutexes)[m].owner, old(mutexes)[m].waiters + [current])
        && L.PcOf(Locks(), current) == L.Guarded(m)
    {
      if mutexes[m].owner == None {
        mutexes := mutexes[m := mutexes[m].(owner := Some(current))];
        ghost var h := L.HoldsOf(Locks(), current);
        pc, holds := pc[current := L.Outside], holds[current := h + {m}];
        return true;
      }
      if current !in mutexes[m].waiters {
        mutexes := mutexes[m := mutexes[m].(waiters := mutexes[m].waiters + [current])];
        history := history[m := history[m].(arrivals := history[m].arrivals + [current])];
      }
      mutexes := mutexes[m := mutexes[m].(guard := Some(current))];
      pc := pc[current := L.Guarded(m)];
      return false;
    }

    /** The blocking of `mutex_lock` */
    method LockBlocks(c: nat, m: L.Mid)
      requires Valid() && Can(State(), GoToSleep(c)) && Pc(State(), c).m == m
      modifies this`threads, this`cpus, this`mutexes, this`pc
      ensures Valid() && State() == Next(old(State()), GoToSleep(c))
      ensures Means(old(Sched()), BlockStep(c), Sched()) && mutexes == old(mutexes)[m := old(mutexes)[m].(guard := None)]
    {
      StepMeans(Sched(), BlockStep(c));
      hide Means;
      NextKeeps(State(), GoToSleep(c));
      ActorIsAwake(State(), c);
      L.GoToSleepKeeps(State().locks, Asleep(Sched()), Awake(Sched()), cpus[c].current, m);
      ghost var t := cpus[c].current;
      hide L.Inv;
      BlockCurrent(c, m);
      pc := pc[t := L.Sleeping(m)];
    }

    /** The end of `mutex_lock` after the sleep: the caller owns the mutex. */
    method LockReturns(c: nat, m: L.Mid) returns (got: bool)
      requires Valid() && Can(State(), Return(c)) && Pc(State(), c).m == m
      modifies this`pc, this`holds
      ensures Valid() && State() == Next(old(State()), Return(c)) && got
      ensures m in mutexes && mutexes[m].owner == Some(cpus[c].current)
      ensures m in L.HoldsOf(Locks(), cpus[c].current) && Pc(State(), c) == L.Outside
    {
      NextKeeps(State(), Return(c));
      ActorIsAwake(State(), c);
      L.ReturnKeeps(State().locks, Asleep(Sched()), Awake(Sched()), cpus[c].current, m);
      var current := cpus[c].current;
      got := m in mutexes && mutexes[m].owner == Some(current);
      ghost var h := L.HoldsOf(State().locks, current);
      hide Inv;
      pc, holds := pc[current := L.Outside], holds[current := h + {m}];
    }

    /** `mutex_try_lock` */
    method TryLockMutex(c: nat, m: L.Mid) returns (acquired: bool)
      requires Valid() && Can(State(), TryLock(c, m))
      modifies this`mutexes, this`holds
      ensures Valid() && State() == Next(old(State()), TryLock(c, m))
      ensures acquired <==> old(mutexes)[m].owner == None
      ensures acquired ==>
        && mutexes == old(mutexes)[m := L.Mutex(None, Some(cpus[c].current), old(mutexes)[m].waiters)]
        && m in L.HoldsOf(Locks(), cpus[c].current)
      ensures !acquired ==> mutexes == old(mutexes) && holds == old(holds)
    {
      NextKeeps(State(), TryLock(c, m));
      hide Inv;
      var current := cpus[c].current;
      acquired := false;
      if mutexes[m].owner == None {
        mutexes := mutexes[m := mutexes[m].(owner := Some(current))];
        ghost var h := L.HoldsOf(State().locks, current);
        holds := holds[current := h + {m}];
        acquired := true;
      }
    }

    /** The section of `mutex_unlock` under the guard: the next owner, if any, is to be woken.  Only the owner
        may unlock. */
    method UnlockSection(c: nat, m: L.Mid) returns (panic: bool, next: Option<Tid>)
      requires Valid() && Acts(State(), c) && Pc(State(), c) == L.Outside && GuardFree(State(), m)
      modifies this`mutexes, this`pc, this`holds, this`history
      ensures Valid() && (panic <==> old(mutexes)[m].owner != Some(old(cpus[c].current)))
      ensures panic ==> State() == old(State()) && next == None
      ensures !panic ==> State() == Next(old(State()), Unlock(c, m))
      ensures !panic ==> next == if old(mutexes)[m].waiters == [] then None else Some(old(mutexes)[m].waiters[0])
      ensures !panic ==>
        && mutexes == old(mutexes)[m := L.Mutex(None, next,
             if old(mutexes)[m].waiters == [] then [] else old(mutexes)[m].waiters[1..])]
        && m !in L.HoldsOf(Locks(), cpus[c].current)
        && Pc(State(), c) == if next == None then L.Outside else L.Waking(next.value)
    {
      var current := cpus[c].current;
      if mutexes[m].owner != Some(current) {
        return true, None;
      }
      NextKeeps(State(), Unlock(c, m));
      LockFacts(c, m);
      hide L.Inv;
      hide SchedInv;
      next := HandOver(current, m);
      return false, next;
    }

    method HandOver(current: Tid, m: L.Mid) returns (next: Option<Tid>)
      requires m in mutexes && m in history
      modifies this`mutexes, this`pc, this`holds, this`history
      ensures Locks() == L.Unlock(old(Locks()), current, m)
      ensures next == if old(mutexes)[m].waiters == [] then None else Some(old(mutexes)[m].waiters[0])
      ensures mutexes == old(mutexes)[m := L.Mutex(old(mutexes)[m].guard, next,
          if old(mutexes)[m].waiters == [] then [] else old(mutexes)[m].waiters[1..])]
      ensures m !in L.HoldsOf(Locks(), current)
    {
      ghost var h := L.HoldsOf(Locks(), current);
      if mutexes[m].waiters == [] {
        next := None;
        mutexes := mutexes[m := mutexes[m].(owner := None)];
      } else {
        var first := mutexes[m].waiters[0];
        next := Some(first);
        mutexes := mutexes[m := mutexes[m].(waiters := mutexes[m].waiters[1..])];
        mutexes := mutexes[m := mutexes[m].(owner := next)];
        pc := pc[current := L.Waking(first)];
        history := history[m := history[m].(handoffs := history[m].handoffs + [first])];
      }
      holds := holds[current := h - {m}];
    }

    /** The end of `mutex_unlock`: the new owner is woken. */
    method UnlockWakes(c: nat, next: Tid)
      requires Valid() && Can(State(), WakeNext(c)) && Pc(State(), c) == L.Waking(next)
      modifies this`threads, this`cpus, this`pc
      ensures Valid() && State() == Next(old(State()), WakeNext(c))
      ensures Means(old(Sched()), WakeStep(next), Sched()) && Pc(State(), c) == L.Outside
    {
      StepMeans(Sched(), WakeStep(next));
      hide Means;
      NextKeeps(State(), WakeNext(c));
      hide L.Inv;
      ghost var t := cpus[c].current;
      WakeThread(next);
      pc := pc[t := L.Outside];
    }
  }

  /** `sched_cpu_load` */
  function Load(s: Scheduler.Sched, c: nat): nat
    requires c < |s.cpus|
  {
    var k := s.cpus[c];
    k.count + if k.current != k.idle && k.current in s.threads && s.threads[k.current].status == Running then 1 else 0
  }

  lemma OthersRunnable(threads: map<Tid, Thread>, rq: seq<Tid>, t: Tid)
    requires t in threads && t !in rq && forall u | u in rq :: u in threads && threads[u].status == Runnable
    ensures var threads' := threads[t := threads[t].(status := Zombie)];
      forall u | u in rq :: u in threads' && threads'[u].status == Runnable
  {
  }

  /** The unreaped threads of a CPU, its idle thread aside. */
  ghost function Assigned(s: Scheduler.Sched, c: nat): set<Tid>
    requires c < |s.cpus|
  {
    set t | t in s.threads && s.threads[t].cpu == c && t != s.cpus[c].idle
  }

  ghost function Runs(s: Scheduler.Sched, c: nat): nat
    requires c < |s.cpus|
  {
    if s.cpus[c].current == s.cpus[c].idle then 0 else 1
  }

  /** A CPU's load is the number of its threads, and one more if one of them runs. */
  lemma AllLoads(s: Scheduler.Sched)
    requires SchedInv(s)
    ensures forall c | 0 <= c < |s.cpus| :: Load(s, c) == |Assigned(s, c)| + Runs(s, c)
  {
    forall c | 0 <= c < |s.cpus|
      ensures Load(s, c) == |Assigned(s, c)| + Runs(s, c)
    {
      assert CpuOk(s, c) && InPlace(s, s.cpus[c].current);
      assert Assigned(s, c) == Members(s, c);
    }
  }

  lemma TickFacts(s: Scheduler.Sched, c: nat)
    requires SchedInv(s) && c < |s.cpus|
    ensures var k := s.cpus[c];
      && k.current in s.threads && s.threads[k.current].cpu == c && 1 <= s.threads[k.current].ticksLeft
  {
    HeadIsRunnable(s, c);
  }

  /** `rq_remove` */
  function Without(l: seq<Tid>, t: Tid): seq<Tid> {
    if l == [] then [] else if l[0] == t then l[1..] else [l[0]] + Without(l[1..], t)
  }

  lemma {:induction false} WithoutAbsent(l: seq<Tid>, t: Tid)
    requires t !in l
    ensures Without(l, t) == l
  {
    if l != [] {
      WithoutAbsent(l[1..], t);
    }
  }

  function ZombiesOf(threads: map<Tid, Thread>, l: seq<Tid>): seq<Tid> {
    if l == [] then []
    else ZombiesOf(threads, l[..|l| - 1])
         + if l[|l| - 1] in threads && threads[l[|l| - 1]].status == Zombie then [l[|l| - 1]] else []
  }

  /** The first `n` queued threads are gone, and the zombies among the first `z` are to be reaped. */
  function Dropped(threads: map<Tid, Thread>, k: Cpu, n: nat, z: nat): Cpu
    requires n <= |k.rq| && z <= |k.rq|
  {
    k.(rq := k.rq[n..], zombies := k.zombies + ZombiesOf(threads, k.rq[..z]))
  }

  lemma NoneDropped(threads: map<Tid, Thread>, k: Cpu)
    ensures Dropped(threads, k, 0, 0) == k
  {
    assert k.rq[0..] == k.rq && k.zombies + [] == k.zombies;
  }

  lemma OneDropped(threads: map<Tid, Thread>, k: Cpu, n: nat)
    requires n < |k.rq|
    ensures k.rq[n..][1..] == k.rq[n + 1..] && k.rq[n..][0] == k.rq[n] && k.rq[n] in k.rq
    ensures var t := k.rq[n];
      k.zombies + ZombiesOf(threads, k.rq[..n + 1]) ==
      k.zombies + ZombiesOf(threads, k.rq[..n]) + if t in threads && threads[t].status == Zombie then [t] else []
  {
    assert k.rq[..n + 1] == k.rq[..n] + [k.rq[n]];
    ZombiesOfMore(threads, k.rq[..n], k.rq[n]);
  }

  lemma ZombiesOfMore(threads: map<Tid, Thread>, l: seq<Tid>, t: Tid)
    ensures ZombiesOf(threads, l + [t]) ==
      ZombiesOf(threads, l) + if t in threads && threads[t].status == Zombie then [t] else []
  {
    assert (l + [t])[..|l|] == l;
  }
}
