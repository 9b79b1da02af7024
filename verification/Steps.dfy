/** What each step of the scheduler does to threads and queues (kernel/src/sys/sched.c:254-317, 422-674), said
    without the functions that compute it, and what follows for those who wait.  */
module Steps {
  import opened Common
  import opened Scheduler

  // ---- relations between a state and the next ----

  /** Nothing but the threads in `T` and the running thread and queues of CPU `c` is different. */
  ghost predicate OnlyOn(s: Sched, s': Sched, c: nat, T: set<Tid>) {
    && |s'.cpus| == |s.cpus| && c < |s.cpus|
    && (forall b | 0 <= b < |s.cpus| && b != c :: s'.cpus[b] == s.cpus[b])
    && s'.cpus[c].idle == s.cpus[c].idle && s'.cpus[c].count == s.cpus[c].count
    && s'.threads.Keys == s.threads.Keys
    && (forall t | t in s.threads && t !in T :: s'.threads[t] == s.threads[t])
    && (forall t | t in s.threads :: s'.threads[t].cpu == s.threads[t].cpu)
  }

  /** Thread `t` runs on CPU `c` with a full quantum. */
  ghost predicate Starts(s': Sched, c: nat, t: Tid) {
    && c < |s'.cpus| && s'.cpus[c].current == t && t in s'.threads
    && s'.threads[t].status == Running && s'.threads[t].ticksLeft == QUANTUM
  }

  /** The running thread leaves with the given status, and the first in the queue runs, or the idle thread. */
  ghost predicate GaveUp(s: Sched, s': Sched, c: nat, status: Status) {
    && c < |s.cpus| == |s'.cpus|
    && var t, rq := s.cpus[c].current, s.cpus[c].rq;
    && (rq != [] ==> Starts(s', c, rq[0]) && s'.cpus[c].rq == rq[1..])
    && (rq == [] ==> Starts(s', c, s.cpus[c].idle) && s'.cpus[c].rq == [])
    && OnlyOn(s, s', c, {t, s'.cpus[c].current})
    && t in s'.threads && s'.threads[t].status == status
    && (forall u | u in s.threads :: s'.threads[u].totalTicks == s.threads[u].totalTicks)
  }

  /** The first in the queue runs; the thread that ran, unless it is the idle one, is at the end of the queue with
      a full quantum to come.  With nothing in the queue it goes on, with a full quantum. */
  ghost predicate GaveWay(s: Sched, s': Sched, c: nat) {
    && c < |s.cpus| == |s'.cpus|
    && var t, rq := s.cpus[c].current, s.cpus[c].rq;
    && (rq != [] ==> Starts(s', c, rq[0]))
    && (rq != [] && t != s.cpus[c].idle ==>
          && s'.cpus[c].rq == rq[1..] + [t] && t in s'.threads
          && s'.threads[t].status == Runnable && s'.threads[t].ticksLeft == QUANTUM)
    && (rq != [] && t == s.cpus[c].idle ==>
          s'.cpus[c].rq == rq[1..] && t in s.threads && t in s'.threads && s'.threads[t] == s.threads[t])
    && (rq == [] ==> Starts(s', c, t) && s'.cpus[c].rq == [])
    && OnlyOn(s, s', c, {t, s'.cpus[c].current}) && s'.cpus[c].zombies == s.cpus[c].zombies
    && (forall u | u in s.threads :: s'.threads[u].totalTicks == s.threads[u].totalTicks)
  }

  /** A tick is counted against the running thread.  It goes on while it has ticks left, unless it is the idle
      thread and others wait; otherwise it gives way. */
  ghost predicate Ticked(s: Sched, s': Sched, c: nat) {
    && c < |s.cpus| && s.cpus[c].current in s.threads
    && var t := s.cpus[c].current;
    && var th := s.threads[t];
    && th.ticksLeft > 0
    && var counted := s.(threads := s.threads[t := th.(totalTicks := th.totalTicks + 1, ticksLeft := th.ticksLeft - 1)]);
    && if th.ticksLeft > 1 && (t != s.cpus[c].idle || s.cpus[c].rq == []) then s' == counted
       else GaveWay(counted, s', c)
  }

  /** A blocked thread is at the end of its CPU's queue with a full quantum to come; another is left alone. */
  ghost predicate Woken(s: Sched, s': Sched, t: Tid) {
    && t in s.threads
    && if s.threads[t].status != Blocked then s' == s
       else
         var c := s.threads[t].cpu;
         && c < |s.cpus| == |s'.cpus| && OnlyOn(s, s', c, {t})
         && s'.cpus[c].rq == s.cpus[c].rq + [t] && s'.cpus[c].zombies == s.cpus[c].zombies
         && s'.cpus[c].current == s.cpus[c].current
         && s'.threads[t].status == Runnable && s'.threads[t].ticksLeft == QUANTUM
         && s'.threads[t].totalTicks == s.threads[t].totalTicks
  }

  /** A new thread of the CPU is at the end of its queue. */
  ghost predicate Added(s: Sched, s': Sched, t: Tid, c: nat) {
    && c < |s.cpus| == |s'.cpus| && t !in s.threads
    && s'.threads == s.threads[t := Thread(Runnable, QUANTUM, 0, c)]
    && (forall b | 0 <= b < |s.cpus| && b != c :: s'.cpus[b] == s.cpus[b])
    && var k, k' := s.cpus[c], s'.cpus[c];
    && k'.rq == k.rq + [t] && k'.count == k.count + 1
    && k'.current == k.current && k'.idle == k.idle && k'.zombies == k.zombies
  }

  /** The zombie that has waited longest is gone, and counted no more. */
  ghost predicate Freed(s: Sched, s': Sched, c: nat) {
    && c < |s.cpus| == |s'.cpus| && s.cpus[c].zombies != []
    && s.cpus[c].zombies[0] in s.threads && s'.threads == s.threads - {s.cpus[c].zombies[0]}
    && (forall b | 0 <= b < |s.cpus| && b != c :: s'.cpus[b] == s.cpus[b])
    && var k, k' := s.cpus[c], s'.cpus[c];
    && k'.zombies == k.zombies[1..] && k'.count == k.count - 1
    && k'.current == k.current && k'.idle == k.idle && k'.rq == k.rq
  }

  ghost predicate Means(s: Sched, step: Step, s': Sched) {
    match step
    case TickStep(c) => Ticked(s, s', c)
    case YieldStep(c) => GaveWay(s, s', c)
    case BlockStep(c) => GaveUp(s, s', c, Blocked) && s'.cpus[c].zombies == s.cpus[c].zombies
    case ExitStep(c) => GaveUp(s, s', c, Zombie) && s'.cpus[c].zombies == s.cpus[c].zombies + [s.cpus[c].current]
    case WakeStep(t) => Woken(s, s', t)
    case SpawnStep(t, c) => Added(s, s', t, c)
    case ReapStep(c) => Freed(s, s', c)
  }

  // ---- the steps are these ----

  lemma InQueue(s: Sched, c: nat)
    requires SchedInv(s) && c < |s.cpus|
    ensures var k := s.cpus[c];
      && k.current in s.threads && s.threads[k.current].cpu == c && k.idle in s.threads && k.idle !in k.rq
      && k.current !in k.rq && s.threads[k.current].ticksLeft > 0 && s.threads[k.current].status == Running
      && (forall t | t in k.rq :: t in s.threads && s.threads[t].cpu == c) && k.idle !in k.zombies
  {
    assert CpuOk(s, c) && InPlace(s, s.cpus[c].current) && InPlace(s, s.cpus[c].idle);
  }

  lemma YieldMeans(s: Sched, c: nat)
    requires SchedInv(s) && c < |s.cpus|
    ensures GaveWay(s, Yield(s, c), c)
  {
    InQueue(s, c);
    hide SchedInv;
    hide InPlace;
    hide CpuOk;
    hide Members;
    GivesWay(s, Yield(s, c), c);
  }

  /** A thread that is requeued before the first in the queue is taken. */
  lemma GivesWay(s: Sched, s': Sched, c: nat)
    requires c < |s.cpus| && s.cpus[c].current in s.threads && s.threads[s.cpus[c].current].cpu == c
    requires s.threads[s.cpus[c].current].status == Running
    requires s.cpus[c].idle in s.threads && s.cpus[c].idle !in s.cpus[c].rq && s.cpus[c].current !in s.cpus[c].rq
    requires forall t | t in s.cpus[c].rq :: t in s.threads
    requires s' == (if s.cpus[c].current != s.cpus[c].idle then Dispatch(Enqueue(s, s.cpus[c].current), c) else Dispatch(s, c))
    ensures GaveWay(s, s', c)
  {
    var k := s.cpus[c];
    if k.rq == [] {
      if k.current != k.idle {
        assert k.rq + [k.current] == [k.current];
      }
    } else {
      assert k.rq[0] in k.rq;
      if k.current != k.idle {
        assert (k.rq + [k.current])[1..] == k.rq[1..] + [k.current];
      }
    }
  }

  lemma TickMeans(s: Sched, c: nat)
    requires SchedInv(s) && c < |s.cpus|
    ensures Ticked(s, Tick(s, c), c)
  {
    InQueue(s, c);
    hide SchedInv;
    hide GaveWay;
    hide Dispatch;
    hide Enqueue;
    var t := s.cpus[c].current;
    var counted := CountDown(s, t);
    if !(s.threads[t].ticksLeft > 1 && (t != s.cpus[c].idle || s.cpus[c].rq == [])) {
      GivesWay(counted, Tick(s, c), c);
    }
  }

  lemma BlockMeans(s: Sched, c: nat)
    requires SchedInv(s) && c < |s.cpus| && s.cpus[c].current != s.cpus[c].idle
    ensures GaveUp(s, Block(s, c), c, Blocked) && Block(s, c).cpus[c].zombies == s.cpus[c].zombies
  {
    InQueue(s, c);
    hide SchedInv;
    assert s.cpus[c].rq != [] ==> s.cpus[c].rq[0] in s.cpus[c].rq;
  }

  lemma ExitMeans(s: Sched, c: nat)
    requires SchedInv(s) && c < |s.cpus| && s.cpus[c].current != s.cpus[c].idle
    ensures GaveUp(s, Exit(s, c), c, Zombie)
    ensures Exit(s, c).cpus[c].zombies == s.cpus[c].zombies + [s.cpus[c].current]
  {
    InQueue(s, c);
    hide SchedInv;
    assert s.cpus[c].rq != [] ==> s.cpus[c].rq[0] in s.cpus[c].rq;
  }

  lemma WakeMeans(s: Sched, t: Tid)
    requires SchedInv(s) && t in s.threads
    ensures Woken(s, Wake(s, t), t)
  {
    assert InPlace(s, t);
    hide SchedInv;
  }

  lemma ReapMeans(s: Sched, c: nat)
    requires SchedInv(s) && c < |s.cpus| && s.cpus[c].zombies != []
    ensures Freed(s, Reap(s, c), c)
  {
    InQueue(s, c);
    assert CpuOk(s, c);
    var z := s.cpus[c].zombies[0];
    assert z in s.cpus[c].zombies && z in Members(s, c);
    hide SchedInv;
  }

  /** Every step does what is said above. */
  lemma StepMeans(s: Sched, step: Step)
    requires SchedInv(s) && Enabled(s, step)
    ensures Means(s, step, After(s, step))
  {
    match step
    case TickStep(c) => TickMeans(s, c);
    case YieldStep(c) => YieldMeans(s, c);
    case BlockStep(c) => BlockMeans(s, c);
    case ExitStep(c) => ExitMeans(s, c);
    case WakeStep(t) => WakeMeans(s, t);
    case SpawnStep(t, c) =>
    case ReapStep(c) => ReapMeans(s, c);
  }

  // ---- waiting for yields ----

  function YieldsOf(run: seq<Step>, c: nat): nat {
    if run == [] then 0 else (if run[0] == YieldStep(c) then 1 else 0) + YieldsOf(run[1..], c)
  }

  /** The queued thread runs now, or has as many fewer before it. */
  ghost predicate Advances(s: Sched, s': Sched, c: nat, t: Tid, d: nat) {
    && c < |s.cpus| == |s'.cpus| && t in s.cpus[c].rq
    && (s'.cpus[c].current == t
        || (t in s'.cpus[c].rq && IndexOf(s'.cpus[c].rq, t) + d <= IndexOf(s.cpus[c].rq, t)))
  }

  /** A queue loses at most its first, and gains at most a last. */
  ghost predicate QueueMoved(k: Cpu, k': Cpu, switched: bool) {
    || (!switched && k'.rq == k.rq)
    || (!switched && exists u :: k'.rq == k.rq + [u])
    || (k.rq != [] && k'.current == k.rq[0] && (k'.rq == k.rq[1..] || k'.rq == k.rq[1..] + [k.current]))
  }

  lemma QueueMoves(s: Sched, step: Step, c: nat)
    requires SchedInv(s) && Enabled(s, step) && c < |s.cpus| && s.cpus[c].rq != []
    ensures c < |After(s, step).cpus| == |s.cpus|
    ensures QueueMoved(s.cpus[c], After(s, step).cpus[c], step == YieldStep(c))
  {
    StepMeans(s, step);
    InQueue(s, c);
    hide SchedInv;
    hide After;
  }

  lemma QueueAdvances(k: Cpu, k': Cpu, t: Tid, switched: bool)
    requires t in k.rq && QueueMoved(k, k', switched)
    ensures k'.current == t || (t in k'.rq && IndexOf(k'.rq, t) + (if switched then 1 else 0) <= IndexOf(k.rq, t))
  {
    if u :| !switched && k'.rq == k.rq + [u] {
      IndexInLonger(k.rq, u, t);
    } else if k'.current == k.rq[0] && k.rq[0] != t {
      IndexInTail(k.rq, t);
      IndexInLonger(k.rq[1..], k.current, t);
    }
  }

  /** No step puts anyone before a queued thread, and a yield of its CPU brings it one place forward. */
  lemma StepAdvances(s: Sched, step: Step, c: nat, t: Tid)
    requires SchedInv(s) && Enabled(s, step) && c < |s.cpus| && t in s.cpus[c].rq
    ensures Advances(s, After(s, step), c, t, if step == YieldStep(c) then 1 else 0)
  {
    QueueMoves(s, step, c);
    QueueAdvances(s.cpus[c], After(s, step).cpus[c], t, step == YieldStep(c));
  }

  /** A thread at index `k` of a queue has run by the time of the CPU's yield number `k + 1`. */
  lemma {:induction false} YieldsReach(s: Sched, run: seq<Step>, c: nat, t: Tid)
    requires SchedInv(s) && Legal(s, run) && c < |s.cpus| && t in s.cpus[c].rq
    requires YieldsOf(run, c) >= IndexOf(s.cpus[c].rq, t) + 1
    ensures GetsCpu(s, run, c, t)
    decreases |run|
  {
    StepKeeps(s, run[0]);
    StepAdvances(s, run[0], c, t);
    var s' := After(s, run[0]);
    hide SchedInv;
    hide After;
    hide Enabled;
    if s'.cpus[c].current != t {
      YieldsReach(s', run[1..], c, t);
    }
  }
}
