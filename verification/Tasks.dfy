/** Threads and their processes together (kernel/src/sys/sched.c:254-317, 387-485): what is spawned is linked into
    a process, and what is reaped is unlinked, the process going with its last thread.  */
module Tasks {
  import opened Common
  import opened Scheduler
  import M = MutexSystem
  import K = Kernel
  import L = Locks
  import P = Processes

  /** The threads that have not been reaped are those in the thread lists, each in its parent's. */
  ghost predicate Parents(threads: set<Tid>, table: P.Table, parent: map<Tid, P.Proc>) {
    && parent.Keys == threads
    && (forall t | t in threads :: parent[t] in table && t in table[parent[t]].threads)
    && (forall p, t | p in table && t in table[p].threads :: t in threads && parent[t] == p)
  }

  ghost function UpTo(n: nat): set<nat> {
    if n == 0 then {} else UpTo(n - 1) + {n - 1}
  }

  lemma {:induction false} UpToAre(n: nat)
    ensures forall t: nat :: t in UpTo(n) <==> t < n
  {
    if n > 0 {
      UpToAre(n - 1);
    }
  }

  lemma NoParents()
    ensures Parents({}, map[], map[]) && UpTo(0) == {}
  {
  }

  lemma BootThreads(n: nat, ids: set<L.Mid>)
    ensures M.Boot(n, ids).s.threads.Keys == UpTo(n)
  {
    UpToAre(n);
  }

  lemma NewProcess(threads: set<Tid>, table: P.Table, table': P.Table, parent: map<Tid, P.Proc>, p: P.Proc)
    requires Parents(threads, table, parent) && table'.Keys == table.Keys + {p} && p !in table
    requires table'[p].threads == [] && forall q | q in table :: table'[q] == table[q]
    ensures Parents(threads, table', parent)
    ensures forall t | t !in threads :: forall q | q in table' :: t !in table'[q].threads
  {
  }

  /** A new thread in the list of a process. */
  lemma Spawned(threads: set<Tid>, table: P.Table, table': P.Table, parent: map<Tid, P.Proc>, p: P.Proc, t: Tid)
    requires Parents(threads, table, parent) && p in table && t !in threads && table'.Keys == table.Keys
    requires table'[p].threads == [t] + table[p].threads && forall q | q in table && q != p :: table'[q] == table[q]
    ensures Parents(threads + {t}, table', parent[t := p])
  {
    assert forall u | u in table[p].threads :: u in table'[p].threads;
  }

  /** A thread that has left the list of its process, and the process with it if it was the only one. */
  lemma Reaped(threads: set<Tid>, table: P.Table, table': P.Table, parent: map<Tid, P.Proc>, t: Tid, freed: bool)
    requires Parents(threads, table, parent) && t in threads
    requires var p := parent[t]; (freed <==> table[p].threads == [t]) && Distinct(table[p].threads)
    requires var p := parent[t];
      if freed then table' == table - {p}
      else table'.Keys == table.Keys && forall u :: u in table'[p].threads <==> u in table[p].threads && u != t
    requires forall q | q in table && q != parent[t] :: q in table' && table'[q] == table[q]
    ensures Parents(threads - {t}, table', parent - {t})
    ensures freed <==> forall u | u in parent - {t} :: parent[u] != parent[t]
    ensures table'.Keys == table.Keys - if freed then {parent[t]} else {}
  {
    var p := parent[t];
    if forall u | u in parent - {t} :: parent[u] != p {
      forall u | u in table[p].threads
        ensures u == t
      {
        assert u in threads && parent[u] == p;
      }
      OnlyOne(table[p].threads, t);
    }
  }

  lemma OnlyOne(l: seq<nat>, t: nat)
    requires Distinct(l) && t in l && forall u | u in l :: u == t
    ensures l == [t]
  {
    var first, second := l[0], if |l| > 1 then l[1] else l[0];
    assert first in l && second in l;
  }

  class TaskSystem {
    const machine: K.Machine
    const procs: P.ProcessTable
    var parent: map<Tid, P.Proc>   // thread->parent

    ghost predicate Valid()
      reads this, machine, procs
    {
      machine.Valid() && procs.Valid() && Parents(machine.threads.Keys, procs.table, parent)
    }

    /** `sched_init` on every CPU: its idle process, with its idle thread. */
    constructor (n: nat, ids: set<L.Mid>)
      ensures Valid() && fresh(machine) && fresh(procs)
      ensures machine.State() == M.Boot(n, ids)
    {
      machine := new K.Machine(n, ids);
      procs := new P.ProcessTable();
      parent := map[];
      new;
      NoParents();
      BootThreads(n, ids);
      hide M.Boot;
      hide M.Inv;
      hide P.TableOk;
      hide P.ProcessTable.Valid;
      hide K.Machine.Valid;
      hide Parents;
      hide UpTo;
      for c := 0 to n
        invariant fresh(procs) && procs.Valid() && machine.Valid() && machine.State() == M.Boot(n, ids)
        invariant procs.table.Keys == UpTo(c) && Parents(UpTo(c), procs.table, parent)
      {
        AddIdle(c);
      }
      assert machine.State().s.threads.Keys == machine.threads.Keys;
    }

    /** The idle process of a CPU. */
    method AddIdle(c: nat)
      requires procs.Valid() && procs.table.Keys == UpTo(c) && Parents(UpTo(c), procs.table, parent)
      modifies this`parent, procs
      ensures procs.Valid() && procs.table.Keys == UpTo(c + 1) && Parents(UpTo(c + 1), procs.table, parent)
    {
      UpToAre(c);
      hide P.TableOk;
      hide Parents;
      ghost var table0 := procs.table;
      var ok := procs.SpawnProc(c, true, true, true);
      NewProcess(UpTo(c), table0, procs.table, parent, c);
      ghost var table := procs.table;
      procs.AddThread(c, c);
      Spawned(UpTo(c), table, procs.table, parent, c, c);
      parent := parent[c := c];
    }

    /** `spawn_thread` */
    method SpawnThread(p: P.Proc, t: Tid) returns (c: nat)
      requires Valid() && p in procs.table && t !in machine.threads && |machine.cpus| > 0
      modifies this, machine, procs
      ensures Valid() && parent == old(parent)[t := p]
      ensures c < |old(machine.cpus)| && machine.State() == M.Next(old(machine.State()), M.Plain(SpawnStep(t, c)))
    {
      hide P.TableOk;
      NotYetListed(machine.threads.Keys, procs.table, parent, t);
      hide Parents;
      ghost var threads0, table0, s := machine.threads.Keys, procs.table, machine.State();
      SchedOk(s);
      hide SchedInv;
      procs.AddThread(p, t);
      Spawned(threads0, table0, procs.table, parent, p, t);
      c := machine.SpawnThread(t);
      OnlySpawnAndReap(s.s, SpawnStep(t, c));
      assert machine.State().s.threads.Keys == machine.threads.Keys;
      parent := parent[t := p];
    }

    /** `sched_free_thread`, what it does to the process. */
    method FreeThread(t: Tid, ghost threads: set<Tid>) returns (freed: bool)
      requires procs.Valid() && Parents(threads, procs.table, parent) && t in threads
      modifies this`parent, procs
      ensures procs.Valid() && parent == old(parent) - {t} && Parents(threads - {t}, procs.table, parent)
      ensures freed <==> forall u | u in parent :: parent[u] != old(parent)[t]
      ensures procs.table.Keys == old(procs.table.Keys) - if freed then {old(parent)[t]} else {}
    {
      var p := parent[t];
      ghost var table0 := procs.table;
      assert P.PcbOk(procs.table, procs.list, p);
      hide P.TableOk;
      assert t in procs.table[p].threads;
      freed := procs.FreeThread(p, t);
      Reaped(threads, table0, procs.table, parent, t, freed);
      hide Parents;
      parent := parent - {t};
    }

    /** One turn of `sched_reap_cpu` with `sched_free_thread`: the process is freed exactly when no other thread
        of its is left. */
    method ReapThread(c: nat) returns (found: bool, ghost t: Tid, freed: bool)
      requires Valid() && c < |machine.cpus|
      modifies this, machine, procs
      ensures Valid() && (found <==> old(machine.cpus[c].zombies) != [])
      ensures !found ==> !freed && machine.State() == old(machine.State()) && procs.table == old(procs.table)
      ensures found ==>
        && t == old(machine.cpus[c].zombies[0]) && t in old(parent) && parent == old(parent) - {t}
        && machine.State() == M.Next(old(machine.State()), M.Plain(ReapStep(c)))
        && (freed <==> forall u | u in parent :: parent[u] != old(parent)[t])
        && procs.table.Keys == old(procs.table.Keys) - (if freed then {old(parent)[t]} else {})
    {
      if machine.cpus[c].zombies == [] {
        return false, 0, false;
      }
      found := true;
      var thread := machine.cpus[c].zombies[0];
      t := thread;
      ghost var threads0, s := machine.threads.Keys, machine.State();
      ReapNext(s, c);
      assert t in parent by {
        assert t in threads0;
      }
      hide M.Inv;
      hide SchedInv;
      hide M.Next;
      hide M.Can;
      hide Parents;
      hide P.TableOk;
      hide K.Machine.Valid;
      hide P.ProcessTable.Valid;
      var more := machine.ReapOne(c);
      assert machine.State().s.threads.Keys == machine.threads.Keys;
      freed := FreeThread(thread, threads0);
    }
  }

  lemma NotYetListed(threads: set<Tid>, table: P.Table, parent: map<Tid, P.Proc>, t: Tid)
    requires Parents(threads, table, parent) && t !in threads
    ensures forall q | q in table :: t !in table[q].threads
  {
  }

  lemma ReapNext(x: M.System, c: nat)
    requires M.Inv(x) && c < |x.s.cpus| && x.s.cpus[c].zombies != []
    ensures M.Can(x, M.Plain(ReapStep(c))) && x.s.cpus[c].zombies[0] in x.s.threads
    ensures M.Next(x, M.Plain(ReapStep(c))).s.threads.Keys == x.s.threads.Keys - {x.s.cpus[c].zombies[0]}
  {
    OnlySpawnAndReap(x.s, ReapStep(c));
  }

  lemma SchedOk(x: M.System)
    requires M.Inv(x)
    ensures SchedInv(x.s)
  {
  }

  /** Threads come and go by spawning and reaping alone. */
  lemma OnlySpawnAndReap(s: Sched, step: Step)
    requires SchedInv(s) && Enabled(s, step)
    ensures After(s, step).threads.Keys ==
      match step
      case SpawnStep(t, c) => s.threads.Keys + {t}
      case ReapStep(c) => s.threads.Keys - {s.cpus[c].zombies[0]}
      case _ => s.threads.Keys
    ensures step.ReapStep? ==> s.cpus[step.cpu].zombies[0] in s.threads
  {
    match step
    case TickStep(c) => TickKeeps(s, c);
    case YieldStep(c) => YieldKeeps(s, c);
    case BlockStep(c) => BlockKeeps(s, c);
    case ExitStep(c) => ExitKeeps(s, c);
    case WakeStep(t) => WakeKeeps(s, t);
    case SpawnStep(t, c) => SpawnKeeps(s, t, c);
    case ReapStep(c) => ReapKeeps(s, c);
  }

  /** Nor does anything that is done with a mutex change them. */
  lemma MutexesKeepThreads(x: M.System, step: M.SystemStep)
    requires M.Inv(x) && M.Can(x, step) && !step.Plain?
    ensures M.Next(x, step).s.threads.Keys == x.s.threads.Keys
  {
    if step.GoToSleep? && M.Pc(x, step.cpu).m in x.locks.mutexes {
      OnlySpawnAndReap(x.s, BlockStep(step.cpu));
    } else if step.WakeNext? {
      OnlySpawnAndReap(x.s, WakeStep(M.Pc(x, step.cpu).n));
    }
  }
}
