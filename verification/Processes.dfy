/** Processes, their identifiers and their threads (kernel/src/sys/sched.c:144-317, 387-450).  A `pcb_t *` is
    the number of the process in the table.  */
module Processes {
  import opened Common

  type Tid = nat
  type Proc = nat

  const PID_MIN: nat := 1       // SCHED_PID_MIN
  const PID_MAX: nat := 65535   // SCHED_PID_MAX
  const IDLE_PID: nat := 0      // SCHED_IDLE_PID

  datatype Pcb = Pcb(pid: nat, idle: bool, threads: seq<Tid>, threadCount: nat)

  /** The PID that follows `k` others after `start`. */
  function Cycle(start: nat, k: nat): nat
    requires start >= PID_MIN
  {
    (start - PID_MIN + k) % PID_MAX + PID_MIN
  }

  /** Within one cycle every PID comes up. */
  lemma CycleCovers(start: nat, pid: nat) returns (k: nat)
    requires PID_MIN <= start <= PID_MAX && PID_MIN <= pid <= PID_MAX
    ensures k < PID_MAX && Cycle(start, k) == pid
  {
    k := if pid >= start then pid - start else pid + PID_MAX - start;
  }

  lemma CycleNext(start: nat, k: nat)
    requires PID_MIN <= start <= PID_MAX && k < PID_MAX
    ensures PID_MIN <= Cycle(start, k) <= PID_MAX
    ensures Cycle(start, k + 1) == if Cycle(start, k) + 1 > PID_MAX then PID_MIN else Cycle(start, k) + 1
    ensures Cycle(start, k + 1) == start <==> k + 1 == PID_MAX
  {
  }

  /** Some listed process has the PID. */
  predicate InUse(table: map<Proc, Pcb>, list: seq<Proc>, pid: nat) {
    exists i :: 0 <= i < |list| && list[i] in table && table[list[i]].pid == pid
  }

  /** The PIDs of the listed processes. */
  function PidsOf(table: map<Proc, Pcb>, list: seq<Proc>): set<nat> {
    set p | p in list && p in table :: table[p].pid
  }

  lemma UserOf(table: map<Proc, Pcb>, list: seq<Proc>, pid: nat)
    requires InUse(table, list, pid)
    ensures pid in PidsOf(table, list)
  {
    var i :| 0 <= i < |list| && list[i] in table && table[list[i]].pid == pid;
    assert list[i] in list;
  }

  type Table = map<Proc, Pcb>

  ghost predicate PcbOk(table: Table, list: seq<Proc>, p: Proc)
    requires p in table
  {
    && Distinct(table[p].threads) && table[p].threadCount == |table[p].threads|
    && (p in list <==> !table[p].idle)
    && (if table[p].idle then table[p].pid == IDLE_PID else PID_MIN <= table[p].pid <= PID_MAX)
  }

  ghost predicate OwnPids(table: Table) {
    forall p, q | p in table && q in table && !table[p].idle && !table[q].idle && table[p].pid == table[q].pid :: p == q
  }

  ghost predicate OwnThreads(table: Table) {
    forall p, q, t | p in table && q in table && t in table[p].threads && t in table[q].threads :: p == q
  }

  /** All processes but the idle ones are listed, once; their PIDs are valid and their own; thread counts are
      the lengths of the thread lists, and no thread is in two. */
  ghost predicate TableOk(table: Table, list: seq<Proc>) {
    && Distinct(list) && (forall p | p in table :: PcbOk(table, list, p)) && (forall p | p in list :: p in table)
    && OwnPids(table) && OwnThreads(table)
  }

  /** A new process without threads. */
  lemma Spawned(table: Table, list: seq<Proc>, p: Proc, pid: nat, idle: bool)
    requires TableOk(table, list) && p !in table
    requires if idle then pid == IDLE_PID else PID_MIN <= pid <= PID_MAX && !InUse(table, list, pid)
    ensures TableOk(table[p := Pcb(pid, idle, [], 0)], if idle then list else [p] + list)
  {
    var table', list' := table[p := Pcb(pid, idle, [], 0)], if idle then list else [p] + list;
    forall q | q in table'
      ensures PcbOk(table', list', q)
      ensures q != p && !idle && !table[q].idle ==> table[q].pid != pid
    {
      assert q == p || PcbOk(table, list, q);
    }
  }

  /** A process whose threads change, by some that no process has. */
  lemma Rethreaded(table: Table, list: seq<Proc>, p: Proc, threads: seq<Tid>)
    requires TableOk(table, list) && p in table && Distinct(threads)
    requires forall t | t in threads :: t in table[p].threads || forall q | q in table :: t !in table[q].threads
    ensures TableOk(table[p := table[p].(threads := threads, threadCount := |threads|)], list)
  {
    var table' := table[p := table[p].(threads := threads, threadCount := |threads|)];
    forall q | q in table'
      ensures PcbOk(table', list, q)
    {
      assert PcbOk(table, list, q);
    }
  }

  /** A process that is neither listed nor in the table any more. */
  lemma Removed(table: Table, list: seq<Proc>, p: Proc, list': seq<Proc>)
    requires TableOk(table, list) && p in table && Distinct(list')
    requires forall q :: q in list' <==> q in list && (q != p || table[p].idle)
    ensures TableOk(table - {p}, list')
    ensures !table[p].idle ==> !InUse(table - {p}, list', table[p].pid)
  {
    var table' := table - {p};
    assert PcbOk(table, list, p);
    forall q | q in table'
      ensures PcbOk(table', list', q)
    {
      assert PcbOk(table, list, q);
    }
  }

  class ProcessTable {
    var table: map<Proc, Pcb>    // the processes that have not been freed
    var list: seq<Proc>          // proc_list
    var nextPid: nat             // next_pid

    ghost predicate Valid()
      reads this
    {
      PID_MIN <= nextPid <= PID_MAX && TableOk(table, list)
    }

    constructor ()
      ensures Valid() && table == map[] && list == []
    {
      table, list, nextPid := map[], [], PID_MIN;
    }

    /** `sched_pid_in_use` */
    method PidInUse(pid: nat) returns (used: bool)
      requires forall p | p in list :: p in table
      ensures used <==> InUse(table, list, pid)
    {
      for i := 0 to |list|
        invariant forall j | 0 <= j < i :: table[list[j]].pid != pid
      {
        if table[list[i]].pid == pid {
          return true;
        }
      }
      return false;
    }

    /** `sched_alloc_pid`: a PID that no listed process has, unless all 65535 are taken. */
    method AllocPid() returns (pid: Option<nat>)
      requires PID_MIN <= nextPid <= PID_MAX && forall p | p in list :: p in table
      modifies this`nextPid
      ensures PID_MIN <= nextPid <= PID_MAX
      ensures pid.Some? ==> PID_MIN <= pid.value <= PID_MAX && !InUse(table, list, pid.value)
      ensures pid.None? <==> forall q: nat | PID_MIN <= q <= PID_MAX :: InUse(table, list, q)
      ensures pid.Some? ==> 1 <= pid.value <= 65535 && forall p | p in list :: table[p].pid != pid.value
      ensures pid.None? ==> forall q: nat | 1 <= q <= 65535 :: q in PidsOf(table, list)
      ensures (forall p | p in list :: table[p].pid != old(nextPid)) ==> pid == Some(old(nextPid))
      ensures pid.Some? ==> nextPid == if pid.value == 65535 then 1 else pid.value + 1
    {
      var start := nextPid;
      ghost var k := 0;
      while true
        invariant 0 <= k < PID_MAX && nextPid == Cycle(start, k)
        invariant forall j | 0 <= j < k :: InUse(table, list, Cycle(start, j))
        decreases PID_MAX - k
      {
        CycleNext(start, k);
        var candidate := nextPid;
        nextPid := nextPid + 1;
        if nextPid > PID_MAX {
          nextPid := PID_MIN;
        }
        var used := PidInUse(candidate);
        if !used {
          return Some(candidate);
        }
        if nextPid == start {
          forall q: nat | PID_MIN <= q <= PID_MAX
            ensures InUse(table, list, q)
          {
            var j := CycleCovers(start, q);
          }
          forall q: nat | 1 <= q <= 65535
            ensures q in PidsOf(table, list)
          {
            UserOf(table, list, q);
          }
          return None;
        }
        k := k + 1;
      }
    }

    /** `spawn_proc`: the process gets a PID that no other has; without one, or without an address space, there
        is no process and the PID stays free. */
    method SpawnProc(p: Proc, idle: bool, heapOk: bool, vasOk: bool) returns (ok: bool)
      requires Valid() && p !in table
      modifies this
      ensures Valid()
      ensures !ok ==> table == old(table) && list == old(list)
      ensures !ok ==> !heapOk || !vasOk || (!idle && forall q: nat | PID_MIN <= q <= PID_MAX :: InUse(old(table), old(list), q))
      ensures ok ==> table.Keys == old(table).Keys + {p} && table[p].idle == idle && table[p].threads == []
      ensures ok ==> forall q | q in old(table) :: table[q] == old(table)[q]
      ensures ok && !idle ==> !InUse(old(table), old(list), table[p].pid)
      ensures ok && !idle ==>
        1 <= table[p].pid <= 65535 && list == [p] + old(list) && forall q | q in old(list) :: q in old(table) && old(table)[q].pid != table[p].pid
      ensures ok && idle ==> table[p].pid == 0 && list == old(list)
    {
      hide OwnPids;
      hide OwnThreads;
      hide PcbOk;
      if !heapOk {
        return false;
      }
      ghost var table0, list0 := table, list;
      var pid: nat := IDLE_PID;
      if !idle {
        var found := AllocPid();
        if found.None? {
          return false;
        }
        pid := found.value;
        list := [p] + list;
        table := table[p := Pcb(pid, idle, [], 0)];
      }
      Spawned(table0, list0, p, pid, idle);
      if !vasOk {
        if !idle {
          ReleasePid(p);
          table := table - {p};
          assert ([p] + list0)[1..] == list0 && table == table0;
        }
        return false;
      }
      if idle {
        table := table[p := Pcb(pid, idle, [], 0)];
      }
      return true;
    }

    /** `sched_proc_release_pid` with `sched_proc_unlink_locked` */
    method ReleasePid(p: Proc)
      requires p in table && Distinct(list)
      modifies this`list
      ensures Distinct(list) && forall q :: q in list <==> q in old(list) && (q != p || table[p].idle)
      ensures !table[p].idle && |old(list)| > 0 && old(list)[0] == p ==> list == old(list)[1..]
    {
      if table[p].idle {
        return;
      }
      var i := 0;
      while i < |list| && list[i] != p
        invariant 0 <= i <= |list| && forall j | 0 <= j < i :: list[j] != p
      {
        i := i + 1;
      }
      if i < |list| {
        ghost var l := list;
        list := list[..i] + list[i + 1..];
        Unlinked(l, i);
      }
    }

    /** The link that `spawn_thread` makes between a process and its new thread. */
    method AddThread(p: Proc, t: Tid)
      requires Valid() && p in table && forall q | q in table :: t !in table[q].threads
      modifies this`table
      ensures Valid() && table == old(table)[p := old(table)[p].(threads := [t] + old(table)[p].threads,
                                                                threadCount := old(table)[p].threadCount + 1)]
    {
      assert PcbOk(table, list, p);
      var pcb := table[p];
      Rethreaded(table, list, p, [t] + pcb.threads);
      table := table[p := pcb.(threads := [t] + pcb.threads, threadCount := pcb.threadCount + 1)];
    }

    /** `sched_free_thread`, its process part: the process goes with its last thread, and only then. */
    method FreeThread(p: Proc, t: Tid) returns (freed: bool)
      requires Valid() && p in table && t in table[p].threads
      modifies this`table, this`list
      ensures Valid()
      ensures freed <==> old(table)[p].threads == [t]
      ensures freed ==> table == old(table) - {p}
      ensures freed && !old(table)[p].idle ==> !InUse(table, list, old(table)[p].pid)
      ensures !freed ==> table.Keys == old(table).Keys && list == old(list)
      ensures !freed ==> table[p].pid == old(table)[p].pid && table[p].idle == old(table)[p].idle
      ensures !freed ==> forall u :: u in table[p].threads <==> u in old(table)[p].threads && u != t
      ensures forall q | q in old(table) && q != p :: q in table && table[q] == old(table)[q]
    {
      UnlinkThread(p, t);
      if table[p].threadCount == 0 {
        ghost var table0, list0 := table, list;
        assert PcbOk(table, list, p);
        ReleasePid(p);
        Removed(table0, list0, p, list);
        table := table - {p};
        return true;
      }
      return false;
    }

    /** `sched_proc_unlink_thread` */
    method UnlinkThread(p: Proc, t: Tid)
      requires Valid() && p in table && t in table[p].threads
      modifies this`table
      ensures Valid() && table.Keys == old(table).Keys
      ensures forall q | q in table && q != p :: table[q] == old(table)[q]
      ensures table[p].pid == old(table)[p].pid && table[p].idle == old(table)[p].idle
      ensures forall u :: u in table[p].threads <==> u in old(table)[p].threads && u != t
      ensures table[p].threadCount == |old(table)[p].threads| - 1
    {
      assert PcbOk(table, list, p);
      var pcb := table[p];
      var i := 0;
      while pcb.threads[i] != t
        invariant 0 <= i < |pcb.threads| && exists j :: i <= j < |pcb.threads| && pcb.threads[j] == t
        decreases |pcb.threads| - i
      {
        i := i + 1;
      }
      Unlinked(pcb.threads, i);
      Rethreaded(table, list, p, pcb.threads[..i] + pcb.threads[i + 1..]);
      var count := if pcb.threadCount > 0 then pcb.threadCount - 1 else 0;
      table := table[p := pcb.(threads := pcb.threads[..i] + pcb.threads[i + 1..], threadCount := count)];
    }
  }

  lemma Unlinked(l: seq<nat>, i: nat)
    requires i < |l| && Distinct(l)
    ensures Distinct(l[..i] + l[i + 1..])
    ensures forall x :: x in l[..i] + l[i + 1..] <==> x in l && x != l[i]
  {
    var m := l[..i] + l[i + 1..];
    forall x | x in l && x != l[i]
      ensures x in m
    {
      var k :| 0 <= k < |l| && l[k] == x;
      assert m[if k < i then k else k - 1] == x;
    }
  }
}
