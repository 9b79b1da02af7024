/** The scheduler as a step system (kernel/src/sys/sched.c:254-317, 422-674).  Each function below is one
    section that runs with a CPU's scheduler lock held, the final context switch included.  */
module Scheduler {
  import opened Common

  const QUANTUM: nat := 2  // SCHED_QUANTUM_TICKS

  type Tid = nat

  datatype Status = Runnable | Running | Blocked | Zombie

  datatype Thread = Thread(status: Status, ticksLeft: nat, totalTicks: nat, cpu: nat)

  /** One CPU: its running thread, its idle thread, its queues, and the number of its unreaped threads. */
  datatype Cpu = Cpu(current: Tid, idle: Tid, rq: seq<Tid>, zombies: seq<Tid>, count: nat)

  datatype Sched = Sched(threads: map<Tid, Thread>, cpus: seq<Cpu>)

  predicate IsIdle(s: Sched, t: Tid) {
    t in s.threads && s.threads[t].cpu < |s.cpus| && s.cpus[s.threads[t].cpu].idle == t
  }

  /** The unreaped threads of a CPU, its idle thread aside. */
  function Members(s: Sched, c: nat): set<Tid>
    requires c < |s.cpus|
  {
    set t | t in s.threads && s.threads[t].cpu == c && t != s.cpus[c].idle
  }

  /** A thread is in the one place that its status names. */
  predicate InPlace(s: Sched, t: Tid)
    requires t in s.threads
  {
    var th := s.threads[t];
    && th.cpu < |s.cpus|
    && var k := s.cpus[th.cpu];
      if t == k.idle then th.status == Running && t !in k.rq && t !in k.zombies
      else
        && (th.status == Running <==> t == k.current)
        && (th.status == Runnable <==> t in k.rq)
        && (th.status == Zombie <==> t in k.zombies)
  }

  predicate CpuOk(s: Sched, c: nat)
    requires c < |s.cpus|
  {
    var k := s.cpus[c];
    && k.idle in s.threads && s.threads[k.idle].cpu == c
    && k.current in s.threads && s.threads[k.current].cpu == c && 1 <= s.threads[k.current].ticksLeft <= QUANTUM
    && Distinct(k.rq) && (forall t | t in k.rq :: t in s.threads && s.threads[t].cpu == c)
    && Distinct(k.zombies) && (forall t | t in k.zombies :: t in s.threads && s.threads[t].cpu == c)
    && k.count == |Members(s, c)|
  }

  /** Every unreaped thread is in exactly one place, and the counters are right. */
  predicate SchedInv(s: Sched) {
    && (forall t | t in s.threads :: InPlace(s, t))
    && (forall c | 0 <= c < |s.cpus| :: CpuOk(s, c))
  }

  // ---- the steps ----

  /** `sched_run_next_locked`: the head of the queue runs, or the idle thread. */
  function Dispatch(s: Sched, c: nat): Sched
    requires c < |s.cpus| && s.cpus[c].idle in s.threads
    requires s.cpus[c].rq != [] ==> s.cpus[c].rq[0] in s.threads
  {
    var k := s.cpus[c];
    var next := if k.rq == [] then k.idle else k.rq[0];
    Sched(s.threads[next := s.threads[next].(status := Running, ticksLeft := QUANTUM)],
          s.cpus[c := k.(current := next, rq := if k.rq == [] then [] else k.rq[1..])])
  }

  /** A thread becomes runnable at the end of its CPU's queue, with a full quantum. */
  function Enqueue(s: Sched, t: Tid): Sched
    requires t in s.threads && s.threads[t].cpu < |s.cpus|
  {
    var c := s.threads[t].cpu;
    Sched(s.threads[t := s.threads[t].(status := Runnable, ticksLeft := QUANTUM)],
          s.cpus[c := s.cpus[c].(rq := s.cpus[c].rq + [t])])
  }

  /** The accounting of a tick. */
  function CountDown(s: Sched, t: Tid): Sched
    requires t in s.threads && s.threads[t].ticksLeft > 0
  {
    var th := s.threads[t];
    s.(threads := s.threads[t := th.(totalTicks := th.totalTicks + 1, ticksLeft := th.ticksLeft - 1)])
  }

  /** The locked section of `sched_tick` */
  function Tick(s: Sched, c: nat): Sched
    requires SchedInv(s) && c < |s.cpus|
  {
    assert CpuOk(s, c);
    var k := s.cpus[c];
    var s1 := CountDown(s, k.current);
    if s.threads[k.current].ticksLeft > 1 && (k.current != k.idle || k.rq == []) then s1
    else if k.current != k.idle then Dispatch(Enqueue(s1, k.current), c)
    else Dispatch(s1, c)
  }

  /** `sched_yield` */
  function Yield(s: Sched, c: nat): Sched
    requires SchedInv(s) && c < |s.cpus|
  {
    assert CpuOk(s, c);
    var k := s.cpus[c];
    if k.current != k.idle then Dispatch(Enqueue(s, k.current), c) else Dispatch(s, c)
  }

  /** `thread_block_current` */
  function Block(s: Sched, c: nat): Sched
    requires SchedInv(s) && c < |s.cpus| && s.cpus[c].current != s.cpus[c].idle
  {
    assert CpuOk(s, c);
    var t := s.cpus[c].current;
    Dispatch(s.(threads := s.threads[t := s.threads[t].(status := Blocked)]), c)
  }

  /** `thread_wake` */
  function Wake(s: Sched, t: Tid): Sched
    requires SchedInv(s) && t in s.threads
  {
    assert InPlace(s, t);
    if s.threads[t].status == Blocked then Enqueue(s, t) else s
  }

  /** `sched_exit` */
  function Exit(s: Sched, c: nat): Sched
    requires SchedInv(s) && c < |s.cpus| && s.cpus[c].current != s.cpus[c].idle
  {
    assert CpuOk(s, c);
    var k := s.cpus[c];
    Dispatch(Sched(s.threads[k.current := s.threads[k.current].(status := Zombie)],
                   s.cpus[c := k.(zombies := k.zombies + [k.current])]), c)
  }

  /** The end of `spawn_thread` */
  function Spawn(s: Sched, t: Tid, c: nat): Sched
    requires c < |s.cpus|
  {
    Sched(s.threads[t := Thread(Runnable, QUANTUM, 0, c)],
          s.cpus[c := s.cpus[c].(rq := s.cpus[c].rq + [t], count := s.cpus[c].count + 1)])
  }

  /** One turn of `sched_reap_cpu`: the first zombie is freed. */
  function Reap(s: Sched, c: nat): Sched
    requires c < |s.cpus| && s.cpus[c].zombies != []
  {
    var k := s.cpus[c];
    Sched(s.threads - {k.zombies[0]},
          s.cpus[c := k.(zombies := k.zombies[1..], count := if k.count > 0 then k.count - 1 else 0)])
  }

  // ---- the invariant is kept ----

  /** A state in which the CPU's thread has been put somewhere and its successor is to be chosen. */
  predicate Between(s: Sched, c: nat) {
    && c < |s.cpus|
    && (forall t | t in s.threads && !(s.threads[t].cpu == c) :: InPlace(s, t))
    && (forall t | t in s.threads && s.threads[t].cpu == c :: Parked(s, c, t))
    && (forall b | 0 <= b < |s.cpus| && b != c :: CpuOk(s, b))
    && ParkedCpu(s, c)
  }

  predicate Parked(s: Sched, c: nat, t: Tid)
    requires c < |s.cpus| && t in s.threads
  {
    var th, k := s.threads[t], s.cpus[c];
    if t == k.idle then th.status == Running && t !in k.rq && t !in k.zombies
    else
      && th.status != Running
      && (th.status == Runnable <==> t in k.rq)
      && (th.status == Zombie <==> t in k.zombies)
  }

  predicate ParkedCpu(s: Sched, c: nat)
    requires c < |s.cpus|
  {
    var k := s.cpus[c];
    && k.idle in s.threads && s.threads[k.idle].cpu == c
    && Distinct(k.rq) && (forall t | t in k.rq :: t in s.threads && s.threads[t].cpu == c)
    && Distinct(k.zombies) && (forall t | t in k.zombies :: t in s.threads && s.threads[t].cpu == c)
    && k.count == |Members(s, c)|
  }

  lemma DispatchKeeps(s: Sched, c: nat)
    requires Between(s, c)
    ensures SchedInv(Dispatch(s, c)) && Dispatch(s, c).threads.Keys == s.threads.Keys
  {
    var s' := Dispatch(s, c);
    SameMembers(s, s');
    forall t | t in s'.threads
      ensures InPlace(s', t)
    {
      assert if s.threads[t].cpu == c then Parked(s, c, t) else InPlace(s, t);
    }
    forall b | 0 <= b < |s'.cpus|
      ensures CpuOk(s', b)
    {
      assert b != c ==> CpuOk(s, b);
    }
  }

  /** Who belongs where depends on CPU numbers and idle threads only. */
  lemma SameMembers(s: Sched, s': Sched)
    requires s'.threads.Keys == s.threads.Keys && |s'.cpus| == |s.cpus|
    requires forall t | t in s.threads :: s'.threads[t].cpu == s.threads[t].cpu
    requires forall c | 0 <= c < |s.cpus| :: s'.cpus[c].idle == s.cpus[c].idle
    ensures forall c | 0 <= c < |s.cpus| :: Members(s', c) == Members(s, c)
  {
  }

  /** The running thread has been queued, put to sleep or given up. */
  lemma ParkKeeps(s: Sched, s1: Sched, c: nat, t: Tid)
    requires SchedInv(s) && c < |s.cpus| && t == s.cpus[c].current && t != s.cpus[c].idle
    requires t in s.threads && s1.threads.Keys == s.threads.Keys && |s1.cpus| == |s.cpus|
    requires s1.threads[t].status != Running && s1.threads[t].cpu == c
    requires forall u | u in s.threads && u != t :: s1.threads[u] == s.threads[u]
    requires forall b | 0 <= b < |s.cpus| && b != c :: s1.cpus[b] == s.cpus[b]
    requires s1.cpus[c].idle == s.cpus[c].idle && s1.cpus[c].count == s.cpus[c].count
    requires s1.cpus[c].rq == s.cpus[c].rq + if s1.threads[t].status == Runnable then [t] else []
    requires s1.cpus[c].zombies == s.cpus[c].zombies + if s1.threads[t].status == Zombie then [t] else []
    ensures Between(s1, c)
  {
    assert CpuOk(s, c) && InPlace(s, t);
    SameMembers(s, s1);
    forall u | u in s1.threads
      ensures if s1.threads[u].cpu == c then Parked(s1, c, u) else InPlace(s1, u)
    {
      assert InPlace(s, u);
    }
    hide InPlace;
    hide Parked;
    forall b | 0 <= b < |s1.cpus| && b != c
      ensures CpuOk(s1, b)
    {
      assert CpuOk(s, b);
    }
    ParkedQueues(s, s1, c, t);
  }

  lemma ParkedQueues(s: Sched, s1: Sched, c: nat, t: Tid)
    requires c < |s.cpus| == |s1.cpus| && CpuOk(s, c) && s1.threads.Keys == s.threads.Keys && t in s.threads
    requires t !in s.cpus[c].rq && t !in s.cpus[c].zombies && Members(s1, c) == Members(s, c)
    requires forall u | u in s.threads :: s1.threads[u].cpu == s.threads[u].cpu
    requires s1.threads[t].cpu == c
    requires s1.cpus[c].idle == s.cpus[c].idle && s1.cpus[c].count == s.cpus[c].count
    requires s1.cpus[c].rq == s.cpus[c].rq || s1.cpus[c].rq == s.cpus[c].rq + [t]
    requires s1.cpus[c].zombies == s.cpus[c].zombies || s1.cpus[c].zombies == s.cpus[c].zombies + [t]
    ensures ParkedCpu(s1, c)
  {
  }

  lemma IdleParkKeeps(s: Sched, s1: Sched, c: nat)
    requires SchedInv(s) && c < |s.cpus| && s.cpus[c].current == s.cpus[c].idle && s1.cpus == s.cpus
    requires s1.threads.Keys == s.threads.Keys && forall u | u in s.threads && u != s.cpus[c].idle :: s1.threads[u] == s.threads[u]
    requires s.cpus[c].idle in s.threads
    requires s1.threads[s.cpus[c].idle].status == Running && s1.threads[s.cpus[c].idle].cpu == c
    ensures Between(s1, c)
  {
    assert CpuOk(s, c);
    SameMembers(s, s1);
    forall u | u in s1.threads
      ensures if s1.threads[u].cpu == c then Parked(s1, c, u) else InPlace(s1, u)
    {
      assert InPlace(s, u);
    }
    forall b | 0 <= b < |s1.cpus| && b != c
      ensures CpuOk(s1, b)
    {
      assert CpuOk(s, b);
    }
  }

  lemma TickKeeps(s: Sched, c: nat)
    requires SchedInv(s) && c < |s.cpus|
    ensures SchedInv(Tick(s, c)) && Tick(s, c).threads.Keys == s.threads.Keys
  {
    assert CpuOk(s, c);
    var k := s.cpus[c];
    assert InPlace(s, k.current);
    var s1 := CountDown(s, k.current);
    if s.threads[k.current].ticksLeft > 1 && (k.current != k.idle || k.rq == []) {
      CountedDown(s, s1, c);
    } else if k.current != k.idle {
      ParkKeeps(s, Enqueue(s1, k.current), c, k.current);
      DispatchKeeps(Enqueue(s1, k.current), c);
    } else {
      IdleParkKeeps(s, s1, c);
      DispatchKeeps(s1, c);
    }
  }

  lemma CountedDown(s: Sched, s1: Sched, c: nat)
    requires SchedInv(s) && c < |s.cpus| && s1.cpus == s.cpus && s.cpus[c].current in s.threads
    requires s.threads[s.cpus[c].current].ticksLeft > 1
    requires var t := s.cpus[c].current;
      s1.threads == s.threads[t := s.threads[t].(totalTicks := s.threads[t].totalTicks + 1,
                                                 ticksLeft := s.threads[t].ticksLeft - 1)]
    ensures SchedInv(s1)
  {
    SameMembers(s, s1);
    forall t | t in s1.threads
      ensures InPlace(s1, t)
    {
      assert InPlace(s, t);
    }
    forall b | 0 <= b < |s1.cpus|
      ensures CpuOk(s1, b)
    {
      assert CpuOk(s, b);
    }
  }

  lemma YieldKeeps(s: Sched, c: nat)
    requires SchedInv(s) && c < |s.cpus|
    ensures SchedInv(Yield(s, c)) && Yield(s, c).threads.Keys == s.threads.Keys
  {
    assert CpuOk(s, c);
    var k := s.cpus[c];
    assert InPlace(s, k.current);
    if k.current != k.idle {
      ParkKeeps(s, Enqueue(s, k.current), c, k.current);
      DispatchKeeps(Enqueue(s, k.current), c);
    } else {
      IdleParkKeeps(s, s, c);
      DispatchKeeps(s, c);
    }
  }

  lemma BlockKeeps(s: Sched, c: nat)
    requires SchedInv(s) && c < |s.cpus| && s.cpus[c].current != s.cpus[c].idle
    ensures SchedInv(Block(s, c)) && Block(s, c).threads.Keys == s.threads.Keys
  {
    assert CpuOk(s, c);
    var t := s.cpus[c].current;
    var s1 := s.(threads := s.threads[t := s.threads[t].(status := Blocked)]);
    ParkKeeps(s, s1, c, t);
    DispatchKeeps(s1, c);
  }

  lemma ExitKeeps(s: Sched, c: nat)
    requires SchedInv(s) && c < |s.cpus| && s.cpus[c].current != s.cpus[c].idle
    ensures SchedInv(Exit(s, c)) && Exit(s, c).threads.Keys == s.threads.Keys
  {
    assert CpuOk(s, c);
    var k := s.cpus[c];
    var s1 := Sched(s.threads[k.current := s.threads[k.current].(status := Zombie)],
                    s.cpus[c := k.(zombies := k.zombies + [k.current])]);
    ParkKeeps(s, s1, c, k.current);
    DispatchKeeps(s1, c);
  }

  lemma WakeKeeps(s: Sched, t: Tid)
    requires SchedInv(s) && t in s.threads
    ensures SchedInv(Wake(s, t)) && Wake(s, t).threads.Keys == s.threads.Keys
  {
    assert InPlace(s, t);
    if s.threads[t].status == Blocked {
      var s' := Wake(s, t);
      SameMembers(s, s');
      forall u | u in s'.threads
        ensures InPlace(s', u)
      {
        assert InPlace(s, u);
      }
      forall b | 0 <= b < |s'.cpus|
        ensures CpuOk(s', b)
      {
        assert CpuOk(s, b);
      }
    }
  }

  lemma SpawnKeeps(s: Sched, t: Tid, c: nat)
    requires SchedInv(s) && c < |s.cpus| && t !in s.threads
    ensures SchedInv(Spawn(s, t, c)) && Spawn(s, t, c).threads.Keys == s.threads.Keys + {t}
  {
    var s' := Spawn(s, t, c);
    forall u | u in s'.threads
      ensures InPlace(s', u)
    {
      assert CpuOk(s, c) && (u != t ==> InPlace(s, u));
    }
    forall b | 0 <= b < |s'.cpus|
      ensures CpuOk(s', b)
    {
      assert CpuOk(s, b);
      assert Members(s', b) == if b == c then Members(s, b) + {t} else Members(s, b);
    }
  }

  /** The thread that is freed is a zombie, so it runs nowhere. */
  lemma ReapKeeps(s: Sched, c: nat)
    requires SchedInv(s) && c < |s.cpus| && s.cpus[c].zombies != []
    ensures SchedInv(Reap(s, c)) && Reap(s, c).threads.Keys == s.threads.Keys - {s.cpus[c].zombies[0]}
    ensures s.cpus[c].zombies[0] in s.threads && s.threads[s.cpus[c].zombies[0]].status == Zombie
    ensures forall b | 0 <= b < |s.cpus| :: s.cpus[b].current != s.cpus[c].zombies[0]
  {
    var s', z := Reap(s, c), s.cpus[c].zombies[0];
    assert CpuOk(s, c) && InPlace(s, z);
    forall b | 0 <= b < |s.cpus|
      ensures s.cpus[b].current != z
    {
      assert CpuOk(s, b) && InPlace(s, s.cpus[b].current);
    }
    forall u | u in s'.threads
      ensures InPlace(s', u)
    {
      assert InPlace(s, u);
    }
    forall b | 0 <= b < |s'.cpus|
      ensures CpuOk(s', b)
    {
      assert CpuOk(s, b);
      assert Members(s, b) == if b == c then Members(s', b) + {z} else Members(s', b);
    }
  }

  // ---- runs ----

  datatype Step =
    | TickStep(cpu: nat)
    | YieldStep(cpu: nat)
    | BlockStep(cpu: nat)
    | ExitStep(cpu: nat)
    | WakeStep(thread: Tid)
    | SpawnStep(thread: Tid, cpu: nat)
    | ReapStep(cpu: nat)

  predicate Enabled(s: Sched, step: Step) {
    match step
    case TickStep(c) => c < |s.cpus|
    case YieldStep(c) => c < |s.cpus|
    case BlockStep(c) => c < |s.cpus| && s.cpus[c].current != s.cpus[c].idle
    case ExitStep(c) => c < |s.cpus| && s.cpus[c].current != s.cpus[c].idle
    case WakeStep(t) => t in s.threads
    case SpawnStep(t, c) => c < |s.cpus| && t !in s.threads
    case ReapStep(c) => c < |s.cpus| && s.cpus[c].zombies != []
  }

  function After(s: Sched, step: Step): Sched
    requires SchedInv(s) && Enabled(s, step)
  {
    match step
    case TickStep(c) => Tick(s, c)
    case YieldStep(c) => Yield(s, c)
    case BlockStep(c) => Block(s, c)
    case ExitStep(c) => Exit(s, c)
    case WakeStep(t) => Wake(s, t)
    case SpawnStep(t, c) => Spawn(s, t, c)
    case ReapStep(c) => Reap(s, c)
  }

  lemma StepKeeps(s: Sched, step: Step)
    requires SchedInv(s) && Enabled(s, step)
    ensures SchedInv(After(s, step))
  {
    match step
    case TickStep(c) => TickKeeps(s, c);
    case YieldStep(c) => YieldKeeps(s, c);
    case BlockStep(c) => BlockKeeps(s, c);
    case ExitStep(c) => ExitKeeps(s, c);
    case WakeStep(t) => WakeKeeps(s, t);
    case SpawnStep(t, c) => SpawnKeeps(s, t, c);
    case ReapStep(c) => ReapKeeps(s, c);
  }

  /** A run of steps of any CPUs in any order. */
  predicate Legal(s: Sched, run: seq<Step>)
    requires SchedInv(s)
    decreases |run|
  {
    run == [] || (Enabled(s, run[0]) && (StepKeeps(s, run[0]); Legal(After(s, run[0]), run[1..])))
  }

  function AtEnd(s: Sched, run: seq<Step>): Sched
    requires SchedInv(s) && Legal(s, run)
    decreases |run|
  {
    if run == [] then s else (StepKeeps(s, run[0]); AtEnd(After(s, run[0]), run[1..]))
  }

  /** The invariant holds after every run. */
  lemma {:induction false} RunKeeps(s: Sched, run: seq<Step>)
    requires SchedInv(s) && Legal(s, run)
    ensures SchedInv(AtEnd(s, run))
    decreases |run|
  {
    if run != [] {
      StepKeeps(s, run[0]);
      RunKeeps(After(s, run[0]), run[1..]);
    }
  }

  /** Thread `t` gets CPU `c` at some point of the run. */
  predicate GetsCpu(s: Sched, run: seq<Step>, c: nat, t: Tid)
    requires SchedInv(s) && Legal(s, run)
    decreases |run|
  {
    && run != []
    && (StepKeeps(s, run[0]);
        var s' := After(s, run[0]);
        (c < |s'.cpus| && s'.cpus[c].current == t) || GetsCpu(s', run[1..], c, t))
  }

  function TicksOf(run: seq<Step>, c: nat): nat {
    if run == [] then 0 else (if run[0] == TickStep(c) then 1 else 0) + TicksOf(run[1..], c)
  }

  function IndexOf(l: seq<Tid>, t: Tid): (i: nat)
    requires t in l
    ensures i < |l| && l[i] == t && t !in l[..i]
  {
    if l[0] == t then 0 else 1 + IndexOf(l[1..], t)
  }

  /** How many ticks of its CPU a queued thread still has to wait for, at most. */
  function Wait(s: Sched, c: nat, t: Tid): nat
    requires c < |s.cpus| && t in s.cpus[c].rq && s.cpus[c].current in s.threads
  {
    (if s.cpus[c].current == s.cpus[c].idle then 1 else s.threads[s.cpus[c].current].ticksLeft)
    + QUANTUM * IndexOf(s.cpus[c].rq, t)
  }

  lemma IndexInTail(l: seq<Tid>, t: Tid)
    requires t in l && l[0] != t
    ensures t in l[1..] && IndexOf(l, t) == 1 + IndexOf(l[1..], t)
  {
  }

  lemma {:induction false} IndexInLonger(l: seq<Tid>, u: Tid, t: Tid)
    requires t in l
    ensures t in l + [u] && IndexOf(l + [u], t) == IndexOf(l, t)
  {
    if l[0] != t {
      IndexInTail(l, t);
      IndexInLonger(l[1..], u, t);
      assert (l + [u])[1..] == l[1..] + [u];
    }
  }

  /** The queued thread runs now, or is as much closer to it. */
  predicate Closer(s: Sched, s': Sched, c: nat, t: Tid, d: nat)
    requires c < |s.cpus| && CpuOk(s, c) && t in s.cpus[c].rq
  {
    && |s'.cpus| == |s.cpus| && CpuOk(s', c)
    && (s'.cpus[c].current == t || (t in s'.cpus[c].rq && Wait(s', c, t) + d <= Wait(s, c, t)))
  }

  /** A switch on the thread's own CPU. */
  lemma SwitchIsCloser(s: Sched, s': Sched, c: nat, t: Tid)
    requires c < |s.cpus| == |s'.cpus| && CpuOk(s, c) && CpuOk(s', c) && t in s.cpus[c].rq && s.cpus[c].current != t
    requires s'.cpus[c].current == s.cpus[c].rq[0] && s'.cpus[c].idle == s.cpus[c].idle
    requires s'.threads[s'.cpus[c].current].ticksLeft == QUANTUM
    requires s'.cpus[c].rq == s.cpus[c].rq[1..] || s'.cpus[c].rq == s.cpus[c].rq[1..] + [s.cpus[c].current]
    ensures Closer(s, s', c, t, 1)
  {
    var k := s.cpus[c];
    if k.rq[0] != t {
      IndexInTail(k.rq, t);
      IndexInLonger(k.rq[1..], k.current, t);
    }
  }

  /** No switch on the thread's CPU, and at most an addition at the end of its queue. */
  lemma StaysAsClose(s: Sched, s': Sched, c: nat, t: Tid, u: Tid, d: nat)
    requires c < |s.cpus| == |s'.cpus| && CpuOk(s, c) && CpuOk(s', c) && t in s.cpus[c].rq
    requires s'.cpus[c].current == s.cpus[c].current && s'.cpus[c].idle == s.cpus[c].idle
    requires if s.cpus[c].current == s.cpus[c].idle then d == 0
             else s'.threads[s'.cpus[c].current].ticksLeft + d == s.threads[s.cpus[c].current].ticksLeft
    requires s'.cpus[c].rq == s.cpus[c].rq || s'.cpus[c].rq == s.cpus[c].rq + [u]
    ensures Closer(s, s', c, t, d)
  {
    IndexInLonger(s.cpus[c].rq, u, t);
  }

  lemma TickIsCloser(s: Sched, b: nat, c: nat, t: Tid)
    requires SchedInv(s) && b < |s.cpus| && c < |s.cpus| && CpuOk(s, c) && t in s.cpus[c].rq && SchedInv(Tick(s, b))
    ensures Closer(s, Tick(s, b), c, t, if b == c then 1 else 0)
  {
    var s' := Tick(s, b);
    assert CpuOk(s, b) && CpuOk(s', c) && InPlace(s, t) && InPlace(s, s.cpus[c].current);
    if b != c || s'.cpus[c].current == s.cpus[c].current {
      StaysAsClose(s, s', c, t, t, if b == c then 1 else 0);
    } else {
      assert (s.cpus[c].rq + [s.cpus[c].current])[1..] == s.cpus[c].rq[1..] + [s.cpus[c].current];
      SwitchIsCloser(s, s', c, t);
    }
  }

  lemma YieldIsCloser(s: Sched, b: nat, c: nat, t: Tid)
    requires SchedInv(s) && b < |s.cpus| && c < |s.cpus| && CpuOk(s, c) && t in s.cpus[c].rq && SchedInv(Yield(s, b))
    ensures Closer(s, Yield(s, b), c, t, 0)
  {
    var s' := Yield(s, b);
    assert CpuOk(s, b) && CpuOk(s', c) && InPlace(s, t) && InPlace(s, s.cpus[c].current);
    if b != c {
      StaysAsClose(s, s', c, t, t, 0);
    } else {
      assert (s.cpus[c].rq + [s.cpus[c].current])[1..] == s.cpus[c].rq[1..] + [s.cpus[c].current];
      SwitchIsCloser(s, s', c, t);
    }
  }

  lemma GiveUpIsCloser(s: Sched, b: nat, c: nat, t: Tid)
    requires SchedInv(s) && b < |s.cpus| && c < |s.cpus| && CpuOk(s, c) && t in s.cpus[c].rq
    requires s.cpus[b].current != s.cpus[b].idle
    ensures SchedInv(Block(s, b)) ==> Closer(s, Block(s, b), c, t, 0)
    ensures SchedInv(Exit(s, b)) ==> Closer(s, Exit(s, b), c, t, 0)
  {
    assert CpuOk(s, b) && InPlace(s, t) && InPlace(s, s.cpus[c].current);
    if SchedInv(Block(s, b)) {
      assert CpuOk(Block(s, b), c);
      if b != c {
        StaysAsClose(s, Block(s, b), c, t, t, 0);
      } else {
        SwitchIsCloser(s, Block(s, b), c, t);
      }
    }
    if SchedInv(Exit(s, b)) {
      assert CpuOk(Exit(s, b), c);
      if b != c {
        StaysAsClose(s, Exit(s, b), c, t, t, 0);
      } else {
        SwitchIsCloser(s, Exit(s, b), c, t);
      }
    }
  }

  /** No step makes a queued thread wait longer, and every tick of its CPU brings it closer. */
  lemma WaitShrinks(s: Sched, step: Step, c: nat, t: Tid)
    requires SchedInv(s) && Enabled(s, step) && c < |s.cpus| && CpuOk(s, c) && t in s.cpus[c].rq
    ensures Closer(s, After(s, step), c, t, if step == TickStep(c) then 1 else 0)
  {
    StepKeeps(s, step);
    var s' := After(s, step);
    assert InPlace(s, t) && InPlace(s, s.cpus[c].current);
    hide Closer;
    match step
    case TickStep(b) => TickIsCloser(s, b, c, t);
    case YieldStep(b) => YieldIsCloser(s, b, c, t);
    case BlockStep(b) => GiveUpIsCloser(s, b, c, t);
    case ExitStep(b) => GiveUpIsCloser(s, b, c, t);
    case SpawnStep(u, _) =>
      assert CpuOk(s', c);
      StaysAsClose(s, s', c, t, u, 0);
    case WakeStep(u) =>
      assert InPlace(s, u) && CpuOk(s', c);
      StaysAsClose(s, s', c, t, u, 0);
    case ReapStep(b) =>
      assert CpuOk(s, b) && InPlace(s, s.cpus[b].zombies[0]) && CpuOk(s', c);
      StaysAsClose(s, s', c, t, t, 0);
  }

  /** A thread at index `k` of its CPU's queue runs within `2 * (k + 1)` ticks of that CPU, whatever else
      happens on any CPU meanwhile. */
  lemma BoundedWaiting(s: Sched, run: seq<Step>, c: nat, t: Tid)
    requires SchedInv(s) && Legal(s, run) && c < |s.cpus| && t in s.cpus[c].rq
    requires TicksOf(run, c) >= QUANTUM * (IndexOf(s.cpus[c].rq, t) + 1)
    ensures GetsCpu(s, run, c, t)
  {
    assert CpuOk(s, c);
    WaitedOut(s, run, c, t);
  }

  lemma {:induction false} WaitedOut(s: Sched, run: seq<Step>, c: nat, t: Tid)
    requires SchedInv(s) && Legal(s, run) && c < |s.cpus| && CpuOk(s, c) && t in s.cpus[c].rq
    requires TicksOf(run, c) >= Wait(s, c, t)
    ensures GetsCpu(s, run, c, t)
    decreases |run|
  {
    var step := run[0];
    StepKeeps(s, step);
    WaitShrinks(s, step, c, t);
    var s' := After(s, step);
    hide After;
    hide SchedInv;
    if s'.cpus[c].current != t {
      WaitedOut(s', run[1..], c, t);
    }
  }
}
