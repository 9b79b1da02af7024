/** The physical page allocator (kernel/src/mm/pmm.c) over the page database (kernel/src/mm/pfndb.c). */
module Pmm {
  import opened Common
  import opened BlockTree
  import opened FreeLists
  import opened FreeMap

  datatype Outcome = Done | Panic

  /** The frame holds a byte of the range.  A range without bytes that begins inside a frame touches that one. */
  ghost predicate Touched(base: nat, length: nat, f: nat) {
    if length == 0 then base % PAGE_SIZE != 0 && f == base / PAGE_SIZE
    else exists a: nat :: base <= a < base + length && a / PAGE_SIZE == f
  }

  /** The frames touched are those from the base's on to the one before the end, rounded up. */
  lemma TouchedFrames(base: nat, length: nat, f: nat)
    ensures Touched(base, length, f) <==> base / PAGE_SIZE <= f < (base + length + PAGE_SIZE - 1) / PAGE_SIZE
  {
    if length > 0 && base / PAGE_SIZE <= f < (base + length + PAGE_SIZE - 1) / PAGE_SIZE {
      var a := if f * PAGE_SIZE >= base then f * PAGE_SIZE else base;
      assert a / PAGE_SIZE == f;
    }
  }

  ghost predicate Usable(ranges: seq<(nat, nat)>, f: nat) {
    exists k | 0 <= k < |ranges| :: Touched(ranges[k].0, ranges[k].1, f)
  }

  ghost function UsableFrames(maxPfn: nat, ranges: seq<(nat, nat)>): set<nat> {
    set f: nat | f <= maxPfn && Usable(ranges, f)
  }

  function MarkedPage(page: Page, mark: Flag): Page {
    page.(flags := page.flags - {Free, Used, Reserved, Poison, Slab} + {mark})
  }

  /** What `pmm_init` has made of an entry before it frees the usable ones. */
  predicate Waiting(page: Page, usable: bool) {
    if usable then page.flags == {Used} && page.order == 0 else page.flags == {Reserved}
  }

  ghost predicate Owns(live: map<nat, nat>, p: nat, f: nat) {
    p in live && f in Block(p, live[p])
  }

  /** Live allocations on values: aligned, referenced, disjoint, and together with `F` all that is managed. */
  ghost predicate LiveBlocks(mem: seq<Page>, live: map<nat, nat>, F: set<nat>, managed: set<nat>) {
    && F <= managed
    && (forall f | f in managed :: f < |mem| && Unmarked(mem[f]))
    && (forall p | p in live :: LiveBlock(mem, live, p))
    && (forall p, f :: Owns(live, p, f) ==> f in managed && f !in F)
    && (forall p, q, f :: Owns(live, p, f) && Owns(live, q, f) ==> p == q)
    && (forall f | f in managed && f !in F :: exists p :: Owns(live, p, f))
  }

  ghost predicate LiveBlock(mem: seq<Page>, live: map<nat, nat>, p: nat)
    requires p in live
  {
    && live[p] < MAX_ORDER
    && Head(live[p], Anc(p, live[p])) == p < |mem|
    && mem[p].order == live[p]
    && mem[p].refcount >= 1
  }

  /** Free frames have no references. */
  ghost predicate Idle(mem: seq<Page>, F: set<nat>) {
    forall f | f in F :: f < |mem| && mem[f].refcount <= 0
  }

  /** The entries of an allocated block: the head is marked as used, and bodies as such, with the block's order. */
  ghost predicate MarkedUsed(mem: seq<Page>, p: nat, o: nat) {
    && p < |mem| && Used in mem[p].flags && mem[p].order == o
    && (o > 0 ==> LargeHead in mem[p].flags)
    && (forall f: nat | p < f < p + Pow2(o) && f < |mem| ::
          mem[f].flags == {Used, LargeBody} && mem[f].order == o && mem[f].refcount == 1)
  }

  /** Only entries of frames in `F` differ. */
  ghost predicate SameOutside(mem: seq<Page>, mem': seq<Page>, F: set<nat>) {
    |mem'| == |mem| && forall f: nat | f < |mem| && f !in F :: mem'[f] == mem[f]
  }

  /** Reference counts and the reserved and poison marks are as before. */
  ghost predicate SameMarks(mem: seq<Page>, mem': seq<Page>) {
    && |mem'| == |mem|
    && forall f | 0 <= f < |mem| ::
         && mem'[f].refcount == mem[f].refcount
         && (Reserved in mem'[f].flags <==> Reserved in mem[f].flags)
         && (Poison in mem'[f].flags <==> Poison in mem[f].flags)
  }

  /** Nothing but the frames in `marked` has got the free flag, and none has lost it. */
  ghost predicate FreeFlagsAre(mem: seq<Page>, mem': seq<Page>, marked: set<nat>) {
    && |mem'| == |mem|
    && forall f: nat | f < |mem| :: Free in mem'[f].flags <==> Free in mem[f].flags || f in marked
  }

  lemma SameFreeFlags(mem: seq<Page>, mem': seq<Page>)
    requires SameBodies(mem, mem')
    ensures FreeFlagsAre(mem, mem', {})
  {
    forall f: nat | f < |mem|
      ensures Free in mem'[f].flags <==> Free in mem[f].flags
    {
      assert mem'[f].Body() == mem[f].Body();
    }
  }

  /** Frame `p` is the head of a maximal free block. */
  ghost predicate HeadsBlock(F: set<nat>, p: nat) {
    exists o: nat :: o < MAX_ORDER && IsBlock(F, o, Anc(p, o)) && Head(o, Anc(p, o)) == p
  }

  lemma NextAnc(p: nat, o: nat)
    ensures Anc(p, o + 1) == Anc(p, o) / 2
  {
  }

  lemma MergedHead(F: set<nat>, p: nat, o: nat)
    requires o < MAX_ORDER && IsBlock(F, o, Anc(p, o))
    ensures Head(o, Anc(p, o)) == p <==> HeadsBlock(F, p)
  {
    if HeadsBlock(F, p) {
      var b: nat :| b < MAX_ORDER && IsBlock(F, b, Anc(p, b)) && Head(b, Anc(p, b)) == p;
      BlocksAreDisjoint(F, o, Anc(p, o), b, Anc(p, b), p);
    }
  }

  /** What a caller of the allocator can see. */
  datatype Database = Database(mem: seq<Page>, free: set<nat>, live: map<nat, nat>)

  /** The frames in `N` have moved from the free set to single-frame allocations; nothing else changed. */
  ghost predicate Took(a: Database, b: Database, N: set<nat>) {
    && N <= a.free && b.free == a.free - N
    && (forall p | p in a.live :: p in b.live && b.live[p] == a.live[p])
    && b.live.Keys == a.live.Keys + N && a.live.Keys !! N
    && (forall t | t in N :: b.live[t] == 0 && t < |b.mem| && b.mem[t].refcount == 1)
    && SameOutside(a.mem, b.mem, a.free)
  }

  /** The block of order `o` at `p` has been allocated; nothing else changed. */
  ghost predicate TookBlock(a: Database, b: Database, p: nat, o: nat) {
    && Block(p, o) <= a.free && b.free == a.free - Block(p, o)
    && p !in a.live && b.live == a.live[p := o] && p < |b.mem| && SameOutside(a.mem, b.mem, a.free)
  }

  /** One reference to the block at `p` has been dropped, and the block freed if it was the last one. */
  ghost predicate Released(a: Database, b: Database, p: nat) {
    && p in a.live && p < |a.mem|
    && if a.mem[p].refcount > 1 then
         b == a.(mem := a.mem[p := a.mem[p].(refcount := a.mem[p].refcount - 1)])
       else
         b.live == a.live - {p} && b.free == a.free + Block(p, a.live[p]) && SameOutside(a.mem, b.mem, b.free)
  }

  /** The single frames in `N` have been given back; nothing else changed. */
  ghost predicate Gave(a: Database, b: Database, N: set<nat>) {
    && N <= a.live.Keys && b.live == a.live - N && b.free == a.free + N
    && SameOutside(a.mem, b.mem, b.free)
  }

  /** The run of 2^order frames from `p` on is free. */
  ghost predicate WholeRun(free: set<nat>, p: nat, order: nat) {
    forall f: nat | p <= f < p + Pow2(order) :: f in free
  }

  /** Exactly the 2^order frames from `p` on are no longer free. */
  ghost predicate RunTaken(before: set<nat>, after: set<nat>, p: nat, order: nat) {
    && WholeRun(before, p, order)
    && forall f: nat :: f in after <==> f in before && !(p <= f < p + Pow2(order))
  }

  /** The page is the first of the first list, from `order` on, that is not empty. */
  ghost predicate FirstOfLeast(chains: Chains, order: nat, p: int)
    requires |chains| == MAX_ORDER
  {
    exists o :: order <= o < MAX_ORDER && chains[o] != [] && chains[o][0] == p && forall o' | order <= o' < o :: chains[o'] == []
  }

  lemma TakenRun(before: set<nat>, after: set<nat>, order: nat, i: nat)
    requires Frames(order, i) <= before && after == before - Frames(order, i)
    ensures Head(order, i) % Pow2(order) == 0 && RunTaken(before, after, Head(order, i), order)
  {
    FramesRun(order, i);
    HeadIsAligned(order, i);
  }

  lemma NoRun(free: set<nat>, order: nat)
    requires forall i: nat :: !(Frames(order, i) <= free)
    ensures forall p: nat | p % Pow2(order) == 0 :: !WholeRun(free, p, order)
  {
    forall p: nat | p % Pow2(order) == 0
      ensures !WholeRun(free, p, order)
    {
      var i := p / Pow2(order);
      HeadIsMultiple(order, i);
      FramesRun(order, i);
      Multiple(p, Pow2(order));
      hide *;
      assert !(Frames(order, i) <= free);
      NotWhole(free, p, order, i);
    }
  }

  lemma Multiple(p: nat, n: nat)
    requires n >= 1 && p % n == 0
    ensures p == p / n * n
  {
  }

  lemma NotWhole(free: set<nat>, p: nat, order: nat, i: nat)
    requires !(Frames(order, i) <= free) && forall f: nat :: f in Frames(order, i) <==> p <= f < p + Pow2(order)
    ensures !WholeRun(free, p, order)
  {
  }

  /** Exactly the 2^order frames from `p` on have become free. */
  ghost predicate RunGiven(before: set<nat>, after: set<nat>, p: nat, order: nat) {
    forall f: nat :: f in after <==> f in before || p <= f < p + Pow2(order)
  }

  lemma GivenRun(before: set<nat>, after: set<nat>, p: nat, order: nat)
    requires Head(order, Anc(p, order)) == p && after == before + Block(p, order)
    ensures RunGiven(before, after, p, order)
  {
    FramesRun(order, Anc(p, order));
  }

  lemma ReleasedSingle(a: Database, b: Database, p: nat)
    requires Released(a, b, p) && a.mem[p].refcount <= 1 && a.live[p] == 0
    ensures Gave(a, b, {p})
  {
    assert Block(p, 0) == {p};
  }

  lemma SingleTaken(a: Database, b: Database, p: nat)
    requires Block(p, 0) <= a.free && b.free == a.free - Block(p, 0) && p !in a.live && b.live == a.live[p := 0]
    requires p < |b.mem| && b.mem[p].refcount == 1 && SameOutside(a.mem, b.mem, a.free)
    ensures p in a.free && Took(a, b, {p})
  {
    assert Block(p, 0) == {p};
  }

  lemma NoFrames(free: set<nat>)
    requires forall i: nat :: !(Frames(0, i) <= free)
    ensures free == {}
  {
    assert forall f | f in free :: Frames(0, f) == {f};
  }

  class PageAllocator {
    const mem: array<Page>          // mem_map, entries 0..max_pfn
    const lists: array<FreeList>    // free_lists
    var freePageCount: nat
    var totalPageCount: nat

    ghost var chains: Chains        // the frames on each list, in order
    ghost var free: set<nat>        // free frames
    ghost var live: map<nat, nat>   // heads of allocated blocks and their orders
    ghost const managed: set<nat>   // usable frames

    /** The free side of the state, while `held` is being merged or split. */
    ghost predicate Core(held: set<nat>)
      reads this, mem, lists
    {
      && mem as object != lists
      && Linked(mem[..], lists[..], chains)
      && Canonical(mem[..], chains, free)
      && FreeFlags(mem[..], free, held)
    }

    ghost predicate Valid()
      reads this, mem, lists
    {
      && Core({})
      && LiveBlocks(mem[..], live, free, managed)
      && Idle(mem[..], free)
      && freePageCount == |free|
    }

    ghost function State(): Database
      reads this, mem
    {
      Database(mem[..], free, live)
    }

    /** `pfndb_init` for the usable ranges (in bytes) of the memory map, followed by `pmm_init`. */
    constructor (maxPfn: nat, ranges: seq<(nat, nat)>)
      ensures fresh(mem) && fresh(lists) && mem.Length == maxPfn + 1
      ensures managed == UsableFrames(maxPfn, ranges)
      ensures forall f: nat :: f in free <==> f <= maxPfn && exists k | 0 <= k < |ranges| :: Touched(ranges[k].0, ranges[k].1, f)
      ensures Valid() && free == managed && live == map[]
    {
      mem := new Page[maxPfn + 1];
      lists := new FreeList[MAX_ORDER];
      managed := UsableFrames(maxPfn, ranges);
      freePageCount, totalPageCount := 0, 0;
      chains, free, live := seq(MAX_ORDER, _ => []), {}, map[];
      new;
      for pfn := 0 to mem.Length
        invariant forall f | 0 <= f < pfn :: mem[f].flags == {Reserved} && mem[f].order == 0 && mem[f].refcount == 0
      {
        mem[pfn] := Page(if pfn < maxPfn then pfn + 1 else NIL, if pfn > 0 then pfn - 1 else NIL, 0, 0, {Reserved});
      }
      for k := 0 to |ranges|
        invariant forall f: nat | f < mem.Length ::
          mem[f].refcount == 0 && mem[f].flags == if f in UsableFrames(maxPfn, ranges[..k]) then {Free} else {Reserved}
      {
        MarkRange(ranges[k].0, ranges[k].1, Free);
        assert ranges[..k + 1] == ranges[..k] + [ranges[k]];
      }
      assert ranges[..|ranges|] == ranges;
      Init();
    }

    /** `pfndb_mark_range` */
    method MarkRange(base: nat, length: nat, mark: Flag)
      requires mem.Length > 0
      modifies mem
      ensures forall f: nat | f < mem.Length ::
        mem[f] == if Touched(base, length, f) then old(mem[f]).(flags := mem[f].flags) else old(mem[f])
      ensures forall f: nat, x: Flag | f < mem.Length && Touched(base, length, f) ::
        x in mem[f].flags <==> x == mark || (x in old(mem[f]).flags && x !in {Free, Used, Reserved, Poison, Slab})
    {
      forall f: nat
        ensures Touched(base, length, f) <==> base / PAGE_SIZE <= f < (base + length + PAGE_SIZE - 1) / PAGE_SIZE
      {
        TouchedFrames(base, length, f);
      }
      hide Touched;
      var maxPfn := mem.Length - 1;
      var start, end := base / PAGE_SIZE, (base + length + PAGE_SIZE - 1) / PAGE_SIZE;
      if start > maxPfn {
        return;
      }
      if end > maxPfn + 1 {
        end := maxPfn + 1;
      }
      var pfn := start;
      while pfn < end
        invariant start <= pfn && (pfn <= end || pfn == start)
        invariant forall f: nat | f < mem.Length ::
          mem[f] == if start <= f < pfn then MarkedPage(old(mem[f]), mark) else old(mem[f])
      {
        mem[pfn] := MarkedPage(mem[pfn], mark);
        pfn := pfn + 1;
      }
    }

    /** A page database as `pfndb_init` leaves it. */
    ghost predicate FreshDatabase()
      reads mem
    {
      && (forall f | f in managed :: f < mem.Length)
      && (forall f: nat | f < mem.Length :: mem[f].flags == if f in managed then {Free} else {Reserved})
      && (forall f: nat | f < mem.Length :: mem[f].refcount == 0)
    }

    /** `pmm_init` */
    method Init()
      requires mem as object != lists && lists.Length == MAX_ORDER && FreshDatabase()
      modifies this, mem, lists
      ensures Valid() && free == managed && live == map[] && totalPageCount == |managed|
    {
      ClaimUsable();
      freePageCount, totalPageCount := 0, 0;
      chains, free, live := seq(MAX_ORDER, _ => []), {}, map[];
      EmptyIsCore(mem[..], lists[..], chains);
      assert Core({});
      InsertAll();
    }

    /** The first part of `pmm_init`: empty lists, and every usable frame marked as used. */
    method ClaimUsable()
      requires mem as object != lists && lists.Length == MAX_ORDER && FreshDatabase()
      modifies mem, lists
      ensures forall p | 0 <= p < MAX_ORDER :: lists[p] == FreeList(NIL, 0)
      ensures forall f: nat | f < mem.Length :: Waiting(mem[f], f in managed) && mem[f].refcount == 0
    {
      for o := 0 to MAX_ORDER
        invariant forall p | 0 <= p < o :: lists[p] == FreeList(NIL, 0)
        invariant FreshDatabase()
      {
        lists[o] := FreeList(NIL, 0);
      }
      for pfn := 0 to mem.Length
        invariant forall p | 0 <= p < MAX_ORDER :: lists[p] == FreeList(NIL, 0)
        invariant forall f: nat | f < pfn :: Waiting(mem[f], f in managed)
        invariant forall f: nat | f < mem.Length :: mem[f].refcount == 0
        invariant forall f: nat | pfn <= f < mem.Length :: mem[f].flags == if f in managed then {Free} else {Reserved}
      {
        if Free in mem[pfn].flags {
          mem[pfn] := mem[pfn].(order := 0);
          mem[pfn] := mem[pfn].(flags := mem[pfn].flags - {Free});
          mem[pfn] := mem[pfn].(flags := mem[pfn].flags + {Used});
        }
      }
    }

    /** The second part of `pmm_init`: free the usable frames one by one. */
    method InsertAll()
      requires Core({}) && Partway(mem[..], managed, free, 0)
      requires live == map[] && freePageCount == totalPageCount == |free|
      modifies this, mem, lists
      ensures Valid() && free == managed && live == map[] && totalPageCount == |managed|
    {
      var pfn := 0;
      while pfn < mem.Length
        invariant pfn <= mem.Length && Core({}) && Partway(mem[..], managed, free, pfn)
        invariant live == map[] && freePageCount == totalPageCount == |free|
      {
        InsertIfUsable(pfn);
        pfn := pfn + 1;
      }
      NothingLive(mem[..], managed, free);
    }

    /** One turn of that loop. */
    method InsertIfUsable(pfn: nat)
      requires Core({}) && pfn < mem.Length && Partway(mem[..], managed, free, pfn)
      requires live == map[] && freePageCount == totalPageCount == |free|
      modifies this`chains, this`free, this`freePageCount, this`totalPageCount, mem, lists
      ensures Core({}) && Partway(mem[..], managed, free, pfn + 1)
      ensures live == map[] && freePageCount == totalPageCount == |free|
    {
      ghost var mem0, free0 := mem[..], free;
      if Used in mem[pfn].flags && Reserved !in mem[pfn].flags {
        assert mem[..][pfn].order == 0 && pfn !in free;
        assert Block(pfn, 0) == {pfn};
        assert Partway(mem0, managed, free0, pfn);
        hide Linked;
        hide Canonical;
        hide FreeFlags;
        hide Partway;
        ghost var head := FreeBlock(pfn);
        PartwayStep(mem0, mem[..], managed, free0, free, pfn);
        freePageCount := freePageCount + 1;
        totalPageCount := totalPageCount + 1;
      }
    }

    /** `free_list_push` */
    method FreeListPush(order: nat, page: nat)
      requires mem as object != lists
      requires Linked(mem[..], lists[..], chains)
      requires order < MAX_ORDER && page < mem.Length && InNoChain(chains, page)
      modifies mem, lists, this`chains
      ensures Linked(mem[..], lists[..], chains)
      ensures LinksOnly(old(mem[..]), mem[..], old(chains[order]), page)
      ensures chains == old(chains)[order := [page] + old(chains[order])]
    {
      PushLinked(mem[..], lists[..], chains, order, page);
      var head := lists[order].head;
      mem[page] := mem[page].(prev := NIL, next := head);
      if head != NIL {
        mem[head] := mem[head].(prev := page);
      }
      lists[order] := FreeList(page, lists[order].count + 1);
      assert mem[..] == PushMem(old(mem[..]), head, page);
      chains := chains[order := [page] + chains[order]];
    }

    /** `free_list_remove` */
    method FreeListRemove(order: nat, page: nat, ghost n: nat)
      requires mem as object != lists
      requires Linked(mem[..], lists[..], chains)
      requires order < MAX_ORDER && n < |chains[order]| && chains[order][n] == page
      modifies mem, lists, this`chains
      ensures Linked(mem[..], lists[..], chains)
      ensures LinksOnly(old(mem[..]), mem[..], old(chains[order]), page)
      ensures chains == old(chains)[order := old(chains[order])[..n] + old(chains[order])[n + 1..]]
    {
      RemoveLinked(mem[..], lists[..], chains, order, n);
      assert Chain(mem[..], lists[order].head, chains[order]);
      var next, prev := mem[page].next, mem[page].prev;
      if prev != NIL {
        mem[prev] := mem[prev].(next := next);
      } else {
        lists[order] := lists[order].(head := next);
      }
      if next != NIL {
        mem[next] := mem[next].(prev := prev);
      }
      mem[page] := mem[page].(next := NIL, prev := NIL);
      lists[order] := lists[order].(count := lists[order].count - 1);
      assert mem[..] == RemoveMem(old(mem[..]), page);
      chains := chains[order := chains[order][..n] + chains[order][n + 1..]];
    }

    /** Unlink the free block `page`: a head at position `n` of its list. */
    method TakeBlock(order: nat, page: nat, ghost held: set<nat>)
      requires Core(held)
      requires order < MAX_ORDER && page in chains[order]
      modifies this`chains, this`free, mem, lists
      ensures Core(held + Block(page, order))
      ensures IsBlock(old(free), order, Anc(page, order)) && page < mem.Length
      ensures free == old(free) - Block(page, order) && Block(page, order) <= old(free)
      ensures SameBodies(old(mem[..]), mem[..])
      ensures SameOutside(old(mem[..]), mem[..], old(free))
    {
      ghost var n: nat :| n < |chains[order]| && chains[order][n] == page;
      FreeListRemove(order, page, n);
      TakeStep(old(mem[..]), mem[..], old(lists[..]), old(chains), free, order, n);
      LinksOnlyFlags(old(mem[..]), mem[..], old(chains[order]), page, free, held);
      free := free - Block(page, order);
    }

    /** Link block `i` of order `order`, whose entry is already marked free. */
    method PutBlock(order: nat, page: nat, ghost i: nat, ghost held: set<nat>)
      requires Core(held)
      requires order < MAX_ORDER && page == Head(order, i) && page < mem.Length
      requires Frames(order, i) !! free && forall f | f in Frames(order, i) :: f < mem.Length
      requires order < TOP ==> !(Frames(order, Sibling(i)) <= free)
      requires mem[page].order == order && Free in mem[page].flags
      modifies this`chains, this`free, mem, lists
      ensures Core(held - Frames(order, i))
      ensures free == old(free) + Frames(order, i)
      ensures SameBodies(old(mem[..]), mem[..])
      ensures SameOutside(old(mem[..]), mem[..], free)
    {
      HeadInFrames(order, i);
      NotFreeInNoChain(chains, free, page);
      FreeListPush(order, page);
      AddStep(old(mem[..]), mem[..], old(chains), free, order, i);
      LinksOnlyFlags(old(mem[..]), mem[..], old(chains[order]), page, free, held);
      free := free + Frames(order, i);
    }

    /** Rewrite the entry of a frame that is not free. */
    method WriteEntry(page: nat, entry: Page, ghost held: set<nat>)
      requires Core(held) && page < mem.Length && page !in free
      requires Free in entry.flags ==> page in held
      modifies mem
      ensures Core(held) && mem[..] == old(mem[..])[page := entry]
    {
      mem[page] := entry;
      NotFreeWrite(old(mem[..]), mem[..], lists[..], chains, free);
    }

    /** The block being freed and what has been done so far: its frames are out of the free set and
        together with it make up `all`; entries outside both are as in `mem0`. */
    ghost predicate Merging(order: nat, i: nat, all: set<nat>, mem0: seq<Page>)
      reads this, mem, lists
    {
      && order < MAX_ORDER && Head(order, i) < mem.Length
      && Core(Frames(order, i))
      && Frames(order, i) !! free && free + Frames(order, i) == all
      && (forall f | f in all :: f < mem.Length)
      && SameMarks(mem0, mem[..])
      && SameOutside(mem0, mem[..], all)
      && FreeFlagsAre(mem0, mem[..], {})
    }

    /** One turn of the coalescing loop, after its two tests have passed. */
    method MergeBuddy(order: nat, pfn: nat, buddy: nat, ghost i: nat, ghost all: set<nat>, ghost mem0: seq<Page>)
      returns (merged: nat)
      requires Merging(order, i, all, mem0) && order < TOP
      requires pfn == Head(order, i) && buddy == Head(order, Sibling(i)) && buddy in chains[order]
      modifies this`chains, this`free, mem, lists
      ensures merged == Head(order + 1, i / 2) && Merging(order + 1, i / 2, all, mem0)
    {
      hide Linked;
      hide Canonical;
      hide FreeFlags;
      MergeFrames(order, i);
      TakeBlock(order, buddy, Frames(order, i));
      merged := pfn;
      if buddy < pfn {
        merged := buddy;
      }
      label taken:
      WriteEntry(merged, mem[merged].(flags := mem[merged].flags - {LargeHead}, order := order + 1),
                 Frames(order + 1, i / 2));
      assert FreeFlagsAre(mem0, mem[..], {}) by {
        SameFreeFlags(old(mem[..]), old@taken(mem[..]));
      }
    }

    lemma MergeBegins(order: nat, i: nat)
      requires Core({}) && order < MAX_ORDER && Head(order, i) < mem.Length && Frames(order, i) !! free
      requires forall f | f in Frames(order, i) :: f < mem.Length
      ensures Merging(order, i, free + Frames(order, i), mem[..])
    {
      hide Linked;
    }

    /** `FreeMap.BuddyTest` for the block at hand. */
    lemma BuddyFacts(order: nat, i: nat, all: set<nat>, mem0: seq<Page>)
      requires Merging(order, i, all, mem0) && order < TOP
      ensures BuddyPfn(Head(order, i), order) == Head(order, Sibling(i))
      ensures var b := Head(order, Sibling(i));
        && (b < mem.Length && Free in mem[b].flags && mem[b].order == order ==> b in chains[order])
        && (b >= mem.Length || Free !in mem[b].flags || mem[b].order != order ==> !(Frames(order, Sibling(i)) <= free))
    {
      BuddyTest(mem[..], chains, free, Frames(order, i), order, i);
      hide Linked;
      hide Canonical;
      hide FreeFlags;
    }

    /** When the loop ends, the merged block is maximal. */
    lemma LastMerge(order: nat, i: nat, all: set<nat>, mem0: seq<Page>)
      requires Merging(order, i, all, mem0) && (order < TOP ==> !(Frames(order, Sibling(i)) <= free))
      ensures IsBlock(all, order, i)
    {
      hide Linked;
      hide Canonical;
      hide FreeFlags;
      assert all == free + Frames(order, i);
      InsertBlock(free, order, i, order, i);
    }

    /** The loop of `free_block`. */
    method Coalesce(page: nat, ghost all: set<nat>, ghost mem0: seq<Page>) returns (pfn: nat, order: nat)
      requires page < mem.Length && Head(mem[page].order, Anc(page, mem[page].order)) == page
      requires Merging(mem[page].order, Anc(page, mem[page].order), all, mem0)
      modifies this`chains, this`free, mem, lists
      ensures Merging(order, Anc(page, order), all, mem0) && pfn == Head(order, Anc(page, order))
      ensures order < TOP ==> !(Frames(order, Sibling(Anc(page, order))) <= free)
    {
      pfn, order := page, mem[page].order;
      MergingOrder(order, Anc(page, order), all, mem0);
      hide Merging;
      hide Frames;
      hide Head;
      hide Anc;
      hide BuddyPfn;
      while order < MAX_ORDER - 1
        invariant order < MAX_ORDER && Merging(order, Anc(page, order), all, mem0) && pfn == Head(order, Anc(page, order))
        decreases MAX_ORDER - order
      {
        ghost var i := Anc(page, order);
        var buddy := BuddyPfn(pfn, order);
        BuddyFacts(order, i, all, mem0);
        if buddy > mem.Length - 1 {
          break;
        }
        if Free !in mem[buddy].flags || mem[buddy].order != order {
          break;
        }
        pfn := MergeBuddy(order, pfn, buddy, i, all, mem0);
        NextAnc(page, order);
        order := order + 1;
      }
    }

    lemma MergingOrder(order: nat, i: nat, all: set<nat>, mem0: seq<Page>)
      requires Merging(order, i, all, mem0)
      ensures order < MAX_ORDER
    {
    }

    /** `free_block`: merge with free buddies as long as possible, then link the result. */
    method FreeBlock(page: nat) returns (ghost head: nat)
      requires Core({}) && page < mem.Length && mem[page].order < MAX_ORDER
      requires Head(mem[page].order, Anc(page, mem[page].order)) == page
      requires Block(page, mem[page].order) !! free
      requires forall f | f in Block(page, mem[page].order) :: f < mem.Length
      modifies this`chains, this`free, mem, lists
      ensures Core({})
      ensures free == old(free) + Block(page, old(mem[page].order))
      ensures SameMarks(old(mem[..]), mem[..])
      ensures SameOutside(old(mem[..]), mem[..], free)
      ensures FreeFlagsAre(old(mem[..]), mem[..], {head})
      ensures head == page <==> HeadsBlock(free, page)
    {
      ghost var all, mem0 := free + Block(page, mem[page].order), mem[..];
      MergeBegins(mem[page].order, Anc(page, mem[page].order));
      hide Merging;
      hide Linked;
      hide Canonical;
      hide FreeFlags;
      hide Frames;
      hide Head;
      hide Anc;
      hide IsBlock;
      hide HeadsBlock;
      hide FreeFlagsAre;
      hide SameMarks;
      hide SameOutside;
      var pfn, order := Coalesce(page, all, mem0);
      head := pfn;
      LastMerge(order, Anc(page, order), all, mem0);
      LinkMerged(order, pfn, Anc(page, order), all, mem0);
      MergedHead(free, page, order);
    }

    /** The tail of `free_block`: mark the merged block free and link it. */
    method LinkMerged(order: nat, page: nat, ghost i: nat, ghost all: set<nat>, ghost mem0: seq<Page>)
      requires Merging(order, i, all, mem0) && page == Head(order, i)
      requires order < TOP ==> !(Frames(order, Sibling(i)) <= free)
      modifies this`chains, this`free, mem, lists
      ensures Core({}) && free == all && SameMarks(mem0, mem[..])
      ensures SameOutside(mem0, mem[..], all) && FreeFlagsAre(mem0, mem[..], {page})
    {
      hide Linked;
      hide Canonical;
      hide FreeFlags;
      ghost var held := Frames(order, i);
      HeadInFrames(order, i);
      WriteEntry(page, mem[page].(flags := mem[page].flags + {Free} - {Used, LargeHead, LargeBody}, order := order), held);
      if order > 0 {
        WriteEntry(page, mem[page].(flags := mem[page].flags + {LargeHead}), held);
      }
      label marked:
      PutBlock(order, page, i, held);
      SameFreeFlags(old@marked(mem[..]), mem[..]);
      assert held - held == {};
      assert SameMarks(mem0, mem[..]) by {
        assert forall f | 0 <= f < mem.Length :: mem[..][f].Body() == old@marked(mem[..])[f].Body();
      }
    }

    /** The block being split and what has been done so far. */
    ghost predicate Splitting(order: nat, i: nat, all: set<nat>, mem0: seq<Page>)
      reads this, mem, lists
    {
      && order < MAX_ORDER && Head(order, i) < mem.Length == |mem0|
      && Core(Frames(order, i))
      && Frames(order, i) !! free && free + Frames(order, i) == all
      && (forall f | f in all :: f < mem.Length && Unmarked(mem[f]) && mem[f].refcount == mem0[f].refcount)
      && SameOutside(mem0, mem[..], all)
    }

    /** One turn of the splitting loop: the upper half goes back to the lists. */
    method SplitBlock(order: nat, page: nat, ghost i: nat, ghost all: set<nat>, ghost mem0: seq<Page>)
      requires Splitting(order + 1, i, all, mem0) && page == Head(order + 1, i)
      modifies this`chains, this`free, mem, lists
      ensures Splitting(order, 2 * i, all, mem0) && page == Head(order, 2 * i)
    {
      hide Linked;
      hide Canonical;
      hide FreeFlags;
      var buddy := page + Pow2(order);
      SplitFrames(order, i);
      ghost var held := Frames(order + 1, i);
      WriteEntry(buddy, mem[buddy].(order := order, flags := {Free, LargeHead}), held);
      label marked:
      PutBlock(order, buddy, 2 * i + 1, held);
      assert held - Frames(order, 2 * i + 1) == Frames(order, 2 * i);
      forall f | f in all
        ensures Unmarked(mem[f]) && mem[f].refcount == mem0[f].refcount
      {
        assert mem[..][f].Body() == old@marked(mem[..])[f].Body();
      }
    }

    /** The entries of an allocated block: its head and, for larger orders, its bodies. */
    method MarkEntries(order: nat, page: nat)
      requires page + Pow2(order) <= mem.Length && Unmarked(mem[page])
      modifies mem
      ensures OnlyRun(old(mem[..]), mem[..], page, order) && MarkedUsed(mem[..], page, order)
    {
      var count := Pow2(order);
      mem[page] := mem[page].(order := order, flags := mem[page].flags + {Used} - {Free});
      if order > 0 {
        mem[page] := mem[page].(flags := mem[page].flags + {LargeHead});
        for k := 1 to count
          invariant mem[page].order == order && Free !in mem[page].flags && Unmarked(mem[page])
          invariant Used in mem[page].flags && LargeHead in mem[page].flags
          invariant forall f: nat | page < f < page + k ::
            mem[f].flags == {Used, LargeBody} && mem[f].order == order && mem[f].refcount == 1
          invariant forall f: nat | page < f < page + k :: Free !in mem[f].flags && Unmarked(mem[f])
          invariant forall f: nat | f < mem.Length && !(page <= f < page + k) :: mem[f] == old(mem[f])
        {
          mem[page + k] := mem[page + k].(order := order, flags := {Used, LargeBody}, refcount := 1);
        }
      }
      mem[page] := mem[page].(refcount := 1);
    }

    /** The tail of `pmm_alloc`: mark the block handed out. */
    method MarkAllocated(order: nat, page: nat, ghost i: nat, ghost all: set<nat>, ghost mem0: seq<Page>)
      requires Splitting(order, i, all, mem0) && page == Head(order, i)
      modifies mem
      ensures live == old(live) && free == old(free)
      ensures freePageCount == old(freePageCount) && totalPageCount == old(totalPageCount)
      ensures Core({}) && HandedOut(mem0, mem[..], all, page, order)
      ensures MarkedUsed(mem[..], page, order)
    {
      hide MarkedUsed;
      hide OnlyRun;
      hide Linked;
      hide Canonical;
      hide FreeFlags;
      FramesRun(order, i);
      assert page + Pow2(order) - 1 in Frames(order, i) && page in all;
      ghost var mem1 := mem[..];
      BeforeMarking(order, i, all, mem0);
      hide Splitting;
      hide Frames;
      hide Pow2;
      hide Head;
      hide HandedOut;
      hide SameOutside;
      hide Unmarked;
      MarkEntries(order, page);
      ghost var mem2 := mem[..];
      MarkedOnly(mem0, mem1, mem2, all, order, i);
      MarkedCore(mem1, mem2, lists[..], chains, free, order, i);
    }

    lemma BeforeMarking(order: nat, i: nat, all: set<nat>, mem0: seq<Page>)
      requires Splitting(order, i, all, mem0)
      ensures Linked(mem[..], lists[..], chains) && Canonical(mem[..], chains, free) && FreeFlags(mem[..], free, Frames(order, i))
      ensures mem as object != lists && Head(order, i) < mem.Length == |mem0| && Frames(order, i) !! free && free + Frames(order, i) == all
      ensures forall f | f in all :: f < mem.Length && Unmarked(mem[f]) && mem[f].refcount == mem0[f].refcount
      ensures SameOutside(mem0, mem[..], all)
    {
    }

    /** `pmm_alloc` */
    method Alloc(order: nat) returns (page: int)
      requires Valid()
      modifies this, mem, lists
      ensures Valid() && totalPageCount == old(totalPageCount)
      ensures page == NIL ==> free == old(free) && live == old(live) && mem[..] == old(mem[..])
      ensures page == NIL && order < MAX_ORDER ==> forall i: nat :: !(Frames(order, i) <= free)
      ensures page != NIL ==>
        && 0 <= page < mem.Length && order < MAX_ORDER && Aligned(page, order)
        && Block(page, order) <= old(free) && free == old(free) - Block(page, order)
        && page !in old(live) && live == old(live)[page := order] && mem[page].refcount == 1
        && SameOutside(old(mem[..]), mem[..], old(free))
      ensures page != NIL ==> MarkedUsed(mem[..], page, order)
      ensures page == NIL && order < MAX_ORDER ==> forall p: nat | p % Pow2(order) == 0 :: !WholeRun(free, p, order)
      ensures page != NIL ==> page % Pow2(order) == 0 && RunTaken(old(free), free, page, order)
      ensures page != NIL ==> |old(chains)| == MAX_ORDER && FirstOfLeast(old(chains), order, page)
    {
      hide MarkedUsed;
      hide WholeRun;
      hide RunTaken;
      page := NIL;
      if order >= MAX_ORDER {
        return;
      }
      var o := order;
      while o < MAX_ORDER
        invariant order <= o <= MAX_ORDER
        invariant forall o' | order <= o' < o :: chains[o'] == []
      {
        assert Chain(mem[..], lists[o].head, chains[o]);
        if lists[o].head != NIL {
          assert FirstOfLeast(chains, order, lists[o].head);
          page := AllocFrom(o, order, lists[o].head);
          return;
        }
        o := o + 1;
      }
      forall i: nat
        ensures !(Frames(order, i) <= free)
      {
        NoLargeBlock(mem[..], chains, free, order, i);
      }
      NoRun(free, order);
    }

    /** The part of `pmm_alloc` after a non-empty list `source` has been found. */
    method AllocFrom(source: nat, order: nat, head: nat) returns (page: nat)
      requires Valid() && order <= source < MAX_ORDER && head in chains[source]
      modifies this, mem, lists
      ensures Valid() && totalPageCount == old(totalPageCount)
      ensures page < mem.Length && Aligned(page, order)
      ensures Block(page, order) <= old(free) && free == old(free) - Block(page, order)
      ensures page !in old(live) && live == old(live)[page := order] && mem[page].refcount == 1
      ensures SameOutside(old(mem[..]), mem[..], old(free))
      ensures MarkedUsed(mem[..], page, order)
      ensures page == head && page % Pow2(order) == 0 && RunTaken(old(free), free, page, order)
    {
      hide MarkedUsed;
      hide RunTaken;
      page := head;
      ghost var all, mem0 := free, mem[..];
      TakeFirst(source, head);
      ghost var i := SplitDown(source, order, page, Anc(head, source), all, mem0);
      BlockFacts(order, i);
      assert LiveBlocks(mem0, live, all, managed) && Idle(mem0, all) && freePageCount == |all|;
      hide SameOutside;
      hide Idle;
      hide Frames;
      hide Anc;
      hide Head;
      hide Pow2;
      hide Aligned;
      hide LiveBlocks;
      hide Linked;
      hide Canonical;
      hide FreeFlags;
      hide Splitting;
      HandOut(order, page, i, all, mem0);
      TakenRun(all, free, order, i);
    }

    /** The tail of `pmm_alloc`: mark the block and account for it. */
    method HandOut(order: nat, page: nat, ghost i: nat, ghost all: set<nat>, ghost mem0: seq<Page>)
      requires Splitting(order, i, all, mem0) && page == Head(order, i)
      requires LiveBlocks(mem0, live, all, managed) && Idle(mem0, all) && freePageCount == |all|
      modifies this`live, this`freePageCount, mem
      ensures totalPageCount == old(totalPageCount)
      ensures Valid() && free == old(free) == all - Frames(order, i) && Frames(order, i) <= all && page < mem.Length
      ensures page !in old(live) && live == old(live)[page := order] && mem[page].refcount == 1
      ensures SameOutside(mem0, mem[..], all)
      ensures MarkedUsed(mem[..], page, order)
    {
      hide MarkedUsed;
      BlockFacts(order, i);
      assert Block(page, order) == Frames(order, i);
      assert Block(page, order) <= all && free == all - Block(page, order);
      hide LiveBlocks;
      hide Idle;
      hide Linked;
      hide Canonical;
      hide FreeFlags;
      hide Frames;
      hide Anc;
      hide Head;
      MarkAllocated(order, page, i, all, mem0);
      hide HandedOut;
      Record(order, page, all, mem0);
    }

    method Enter(order: nat, page: nat)
      requires Core({}) && LiveBlocks(mem[..], live[page := order], free, managed) && Idle(mem[..], free)
      requires freePageCount == |free| + Pow2(order)
      modifies this`live, this`freePageCount
      ensures totalPageCount == old(totalPageCount)
      ensures Valid() && live == old(live)[page := order]
    {
      hide Linked;
      hide Canonical;
      hide FreeFlags;
      hide Idle;
      hide LiveBlocks;
      live := live[page := order];
      freePageCount := freePageCount - Pow2(order);
    }

    /** The accounting at the end of `pmm_alloc`. */
    method Record(order: nat, page: nat, ghost all: set<nat>, ghost mem0: seq<Page>)
      requires Core({}) && LiveBlocks(mem0, live, all, managed) && Idle(mem0, all) && HandedOut(mem0, mem[..], all, page, order)
      requires order < MAX_ORDER && Head(order, Anc(page, order)) == page && |Block(page, order)| == Pow2(order)
      requires Block(page, order) <= all && free == all - Block(page, order) && freePageCount == |all|
      modifies this`live, this`freePageCount
      ensures totalPageCount == old(totalPageCount)
      ensures Valid() && page !in old(live) && live == old(live)[page := order] && mem[page].refcount == 1
      ensures SameOutside(mem0, mem[..], all)
    {
      HandedOutIdle(mem0, mem[..], all, page, order);
      AllocLive(mem0, mem[..], live, all, managed, page, order);
      assert mem[page].refcount == 1 && page < mem.Length && SameOutside(mem0, mem[..], all);
      assert all == free + Block(page, order);
      DisjointUnion(free, Block(page, order));
      hide LiveBlocks;
      hide Frames;
      hide Anc;
      hide Head;
      hide Linked;
      hide Canonical;
      hide FreeFlags;
      hide HandedOut;
      hide Idle;
      Enter(order, page);
    }

    /** Unlink the head found by `pmm_alloc`, ready to be split. */
    method TakeFirst(source: nat, head: nat)
      requires Valid() && source < MAX_ORDER && head in chains[source]
      modifies this`chains, this`free, mem, lists
      ensures Splitting(source, Anc(head, source), old(free), old(mem[..])) && head == Head(source, Anc(head, source))
      ensures live == old(live)
      ensures freePageCount == old(freePageCount) && totalPageCount == old(totalPageCount)
    {
      ghost var all, mem0, i := free, mem[..], Anc(head, source);
      ChainInFree(chains, free, source, head);
      TakeBlock(source, head, {});
      TakenIsSplitting(mem0, mem[..], all, managed, live);
      assert {} + Frames(source, i) == Frames(source, i);
    }

    /** The splitting loop of `pmm_alloc`. */
    method SplitDown(source: nat, order: nat, page: nat, ghost i0: nat, ghost all: set<nat>, ghost mem0: seq<Page>)
      returns (ghost i: nat)
      requires order <= source && Splitting(source, i0, all, mem0) && page == Head(source, i0)
      modifies this`chains, this`free, mem, lists
      ensures Splitting(order, i, all, mem0) && page == Head(order, i)
      ensures live == old(live)
      ensures freePageCount == old(freePageCount) && totalPageCount == old(totalPageCount)
    {
      hide Linked;
      hide Canonical;
      hide FreeFlags;
      i := i0;
      var o := source;
      while o > order
        invariant order <= o && Splitting(o, i, all, mem0) && page == Head(o, i)
        invariant live == old(live)
        invariant freePageCount == old(freePageCount) && totalPageCount == old(totalPageCount)
      {
        o := o - 1;
        SplitBlock(o, page, i, all, mem0);
        i := 2 * i;
      }
    }

    /** A live page is not free, not marked, and heads its block. */
    lemma LivePage(page: nat)
      requires Valid() && page in live
      ensures page < mem.Length && page !in free && page in managed && live[page] < MAX_ORDER
      ensures Free !in mem[page].flags && Unmarked(mem[page]) && mem[page].refcount >= 1
      ensures mem[page].order == live[page] && Head(live[page], Anc(page, live[page])) == page
      ensures Block(page, live[page]) !! free && forall f | f in Block(page, live[page]) :: f < mem.Length && Unmarked(mem[f])
    {
      hide Linked;
      hide Canonical;
      hide Frames;
      hide Anc;
      hide Head;
      InOwnBlock(page, live[page]);
      assert Owns(live, page, page) && LiveBlock(mem[..], live, page);
      assert forall f | f in Block(page, live[page]) :: Owns(live, page, f);
    }

    lemma LiveIsNotFree()
      requires Valid()
      ensures forall f | f in live :: f !in free && f < mem.Length && mem[f].refcount >= 1 && f in managed && Unmarked(mem[f])
    {
      forall f | f in live
        ensures f !in free && f < mem.Length && mem[f].refcount >= 1 && f in managed && Unmarked(mem[f])
      {
        LivePage(f);
      }
    }

    /** Change the reference count or the flags of a live page, as `page_ref_inc`, `page_ref_dec_and_test`
        and the flag macros do. */
    method UpdateLive(page: nat, entry: Page)
      requires Valid() && page in live
      requires entry.refcount >= 1 && entry.order == mem[page].order && Unmarked(entry) && Free !in entry.flags
      modifies mem
      ensures Valid() && mem[..] == old(mem[..])[page := entry]
      ensures free == old(free) && live == old(live)
      ensures totalPageCount == old(totalPageCount) && freePageCount == old(freePageCount)
    {
      LivePage(page);
      ghost var mem0 := mem[..];
      hide Linked;
      hide Canonical;
      hide FreeFlags;
      hide Frames;
      hide Anc;
      hide Head;
      WriteEntry(page, entry, {});
      LiveEntry(mem0, mem[..], live, free, managed, page);
    }

    /** The body entries of a block given back: no flags and no references. */
    method ClearBodies(page: nat, count: nat)
      requires page + count <= mem.Length && count >= 1
      modifies mem
      ensures forall f: nat | page < f < page + count :: mem[f].flags == {} && mem[f].refcount == 0
      ensures forall f: nat | f < mem.Length && !(page < f < page + count) :: mem[f] == old(mem[f])
    {
      for k := 1 to count
        invariant forall f: nat | page < f < page + k :: mem[f].flags == {} && mem[f].refcount == 0
        invariant forall f: nat | f < mem.Length && !(page < f < page + k) :: mem[f] == old(mem[f])
      {
        mem[page + k] := mem[page + k].(flags := {}, refcount := 0);
      }
    }

    /** Drop the last reference and clear the body entries. */
    method EmptyBlock(page: nat, order: nat)
      requires Valid() && page in live && order == mem[page].order && mem[page].refcount == 1
      modifies mem
      ensures Core({}) && Emptied(old(mem[..]), mem[..], Block(page, order), page)
      ensures free == old(free) && live == old(live)
      ensures totalPageCount == old(totalPageCount) && freePageCount == old(freePageCount)
    {
      LivePage(page);
      var count := Pow2(order);
      ghost var mem0, held := mem[..], Block(page, order);
      FramesRun(order, Anc(page, order));
      assert page + count - 1 in held;
      hide Frames;
      hide Anc;
      hide Head;
      mem[page] := mem[page].(refcount := mem[page].refcount - 1);
      if order > 0 {
        ClearBodies(page, count);
      }
      assert Emptied(mem0, mem[..], held, page);
      EmptiedKeeps(mem0, mem[..], lists[..], chains, free, held, page);
    }

    /** The part of `pmm_free` after the last reference has gone. */
    method ReleaseBlock(page: nat)
      requires Valid() && page in live && mem[page].refcount == 1
      modifies this, mem, lists
      ensures Valid() && totalPageCount == old(totalPageCount)
      ensures live == old(live) - {page} && free == old(free) + Block(page, old(live)[page])
      ensures SameOutside(old(mem[..]), mem[..], free)
      ensures Free in mem[page].flags <==> HeadsBlock(free, page)
    {
      LivePage(page);
      var order := mem[page].order;
      ghost var mem0, held, free0 := mem[..], Block(page, order), free;
      assert LiveBlocks(mem0, live, free, managed) && freePageCount == |free|;
      BlockFacts(order, Anc(page, order));
      EmptyBlock(page, order);
      freePageCount := freePageCount + Pow2(order);
      EmptiedIdle(mem0, mem[..], free, held, page);
      EmptiedUnmarked(mem0, mem[..], live, free, managed, page);
      FinishRelease(page, order, mem0);
    }

    /** The tail of `pmm_free`: put the block back and drop it from the live blocks. */
    method FinishRelease(page: nat, order: nat, ghost mem0: seq<Page>)
      requires Core({}) && LiveBlocks(mem0, live, free, managed)
      requires page in live && page < mem.Length && live[page] == order == mem[page].order && order < MAX_ORDER
      requires SameOutside(mem0, mem[..], Block(page, order)) && Block(page, order) !! free
      requires Head(order, Anc(page, order)) == page && freePageCount == |free| + |Block(page, order)|
      requires forall f | f in free + Block(page, order) :: f < mem.Length && Unmarked(mem[..][f])
      requires Idle(mem[..], free + Block(page, order)) && Free !in mem[page].flags
      modifies this`chains, this`free, this`live, mem, lists
      ensures Valid() && totalPageCount == old(totalPageCount)
      ensures live == old(live) - {page} && free == old(free) + Block(page, order)
      ensures SameOutside(mem0, mem[..], free)
      ensures Free in mem[page].flags <==> HeadsBlock(free, page)
    {
      ghost var free0, held := free, Block(page, order);
      hide Linked;
      hide Canonical;
      hide FreeFlags;
      hide Frames;
      hide Anc;
      hide Head;
      hide LiveBlocks;
      hide Idle;
      hide HeadsBlock;
      ghost var head := FreeBlock(page);
      IdleKept(old(mem[..]), mem[..], free);
      MarksKept(old(mem[..]), mem[..], free);
      DisjointUnion(free0, held);
      FreeLive(mem0, mem[..], live, free0, managed, page);
      live := live - {page};
    }

    /** `pmm_free` of a block's head, or of a frame that is free or marked.  A free frame is only known by its
        flag: without it the count goes below zero. */
    method FreePage(page: int) returns (r: Outcome)
      requires Valid()
      requires page == NIL || (0 <= page < mem.Length && (page in live || page in free || !Unmarked(mem[page])))
      modifies this, mem, lists
      ensures Valid() && totalPageCount == old(totalPageCount)
      ensures r == Panic <==> page != NIL && (!Unmarked(old(mem[page])) || Free in old(mem[page]).flags)
      ensures page in old(live) ==> r == Done && Released(old(State()), State(), page)
      ensures page in old(live) && old(mem[page]).refcount == 1 ==>
        (Free in mem[page].flags <==> HeadsBlock(free, page))
      ensures page in old(live) && old(mem[page]).refcount > 1 ==>
        && free == old(free) && live == old(live)
        && mem[..] == old(mem[..])[page := old(mem[page]).(refcount := old(mem[page]).refcount - 1)]
      ensures page in old(live) && old(mem[page]).refcount == 1 ==>
        live == old(live) - {page} && RunGiven(old(free), free, page, old(live)[page])
      ensures page == NIL || r == Panic ==> State() == old(State())
      ensures page != NIL && page !in old(live) && r == Done ==>
        State() == old(State()).(mem := old(mem[..])[page := old(mem[page]).(refcount := old(mem[page]).refcount - 1)])
    {
      if page == NIL {
        return Done;
      }
      if page in live {
        LivePage(page);
      }
      hide RunGiven;
      if Reserved in mem[page].flags || Poison in mem[page].flags {
        return Panic;
      }
      if Free in mem[page].flags {
        return Panic;
      }
      if mem[page].refcount == 1 {
        ghost var before, order := free, live[page];
        ReleaseBlock(page);
        GivenRun(before, free, page, order);
      } else {
        CountDown(page);
      }
      return Done;
    }

    /** `page_ref_dec_and_test` of a block with other references, or of a free frame. */
    method CountDown(page: nat)
      requires Valid() && page < mem.Length && Free !in mem[page].flags
      requires if page in live then mem[page].refcount > 1 else page in free
      modifies mem
      ensures Valid() && mem[..] == old(mem[..])[page := old(mem[page]).(refcount := old(mem[page]).refcount - 1)]
      ensures free == old(free) && live == old(live)
      ensures totalPageCount == old(totalPageCount) && freePageCount == old(freePageCount)
    {
      ghost var mem0 := mem[..];
      if page in live {
        LivePage(page);
        NotFreeWrite(mem0, mem0[page := mem0[page].(refcount := mem0[page].refcount - 1)], lists[..], chains, free);
        LiveEntry(mem0, mem0[page := mem0[page].(refcount := mem0[page].refcount - 1)], live, free, managed, page);
      } else {
        CountedDown(mem0, mem0[page := mem0[page].(refcount := mem0[page].refcount - 1)], lists[..], chains, free,
                    live, managed, page);
      }
      mem[page] := mem[page].(refcount := mem[page].refcount - 1);
      assert mem[..] == mem0[page := mem0[page].(refcount := mem0[page].refcount - 1)];
    }

    /** Freeing a block twice: the second time is noticed unless the block has been merged into one that begins
        below it. */
    method FreeTwice(page: nat) returns (r: Outcome)
      requires Valid() && page in live && page < mem.Length && mem[page].refcount == 1
      modifies this, mem, lists
      ensures Valid()
      ensures r == Panic <==> HeadsBlock(old(free) + Block(page, old(live)[page]), page)
    {
      InOwnBlock(page, live[page]);
      var done := FreePage(page);
      LiveAreMarkless(page);
      r := FreePage(page);
    }

    lemma LiveAreMarkless(page: nat)
      requires Valid() && page in free
      ensures page < mem.Length && Unmarked(mem[page]) && page !in live
    {
      if page in live {
        LivePage(page);
      }
    }

    /** `pmm_alloc_page` */
    method AllocPage() returns (page: int)
      requires Valid()
      modifies this, mem, lists
      ensures Valid() && totalPageCount == old(totalPageCount)
      ensures page == NIL ==> free == {} && State() == old(State())
      ensures page != NIL ==> page in managed && Took(old(State()), State(), {page})
    {
      hide WholeRun;
      hide RunTaken;
      hide FirstOfLeast;
      hide MarkedUsed;
      hide Valid;
      hide Frames;
      hide SameOutside;
      FreeIsManaged();
      ghost var a := State();
      page := Alloc(0);
      if page == NIL {
        NoFrames(free);
      } else {
        SingleTaken(a, State(), page);
      }
    }

    lemma FreeIsManaged()
      requires Valid()
      ensures free <= managed
    {
    }

    /** Dropping the only reference. */
    method GiveBack(page: nat)
      requires Valid() && page in live && page < mem.Length && mem[page].refcount == 1
      modifies this, mem, lists
      ensures Valid() && free == old(free) + Block(page, old(live)[page]) && live == old(live) - {page}
    {
      assert State().mem[page].refcount == 1;
      hide Valid;
      hide SameOutside;
      hide HeadsBlock;
      hide Frames;
      var r := FreePage(page);
    }

    /** Allocating and giving back: every list holds the same blocks again. */
    method AllocThenFree(order: nat) returns (page: int)
      requires Valid()
      modifies this, mem, lists
      ensures Valid() && free == old(free) && live == old(live)
      ensures forall o: nat, p: nat :: o < MAX_ORDER ==> (p in chains[o] <==> p in old(chains)[o])
    {
      ghost var live0, free0, chains0 := live, free, chains;
      ListsAreFree();
      hide Valid;
      hide SameOutside;
      hide HeadsBlock;
      hide Block;
      hide Frames;
      hide Aligned;
      hide Decomposed;
      page := Alloc(order);
      if page != NIL {
        TakenAndPut(live0, free0, page, order);
        GiveBack(page);
      }
      ListsAreFree();
      forall o: nat, p: nat | o < MAX_ORDER
        ensures p in chains[o] <==> p in chains0[o]
      {
        ListsDetermined(chains, chains0, free, o, p);
      }
    }

    lemma ListsAreFree()
      requires Valid()
      ensures Decomposed(chains, free) && |chains| == MAX_ORDER
    {
    }
  }

  lemma TakenAndPut(live: map<nat, nat>, free: set<nat>, p: nat, o: nat)
    requires p !in live && Block(p, o) <= free
    ensures live[p := o] - {p} == live && free - Block(p, o) + Block(p, o) == free
  {
  }

  lemma BlockFacts(o: nat, i: nat)
    ensures Anc(Head(o, i), o) == i && Aligned(Head(o, i), o)
    ensures |Frames(o, i)| == Pow2(o)
  {
    HeadInFrames(o, i);
    HeadIsAligned(o, i);
    FramesCount(o, i);
  }

  /** Block `p` of order `o` has just been marked as allocated, and only entries of `all` were written. */
  ghost predicate HandedOut(mem0: seq<Page>, mem: seq<Page>, all: set<nat>, p: nat, o: nat) {
    && |mem| == |mem0| && p < |mem|
    && mem[p].order == o && mem[p].refcount == 1
    && (forall f | f in all :: f < |mem| && Unmarked(mem[f]))
    && (forall f | f in all && f !in Block(p, o) :: mem[f].refcount == mem0[f].refcount)
    && SameOutside(mem0, mem, all)
  }

  /** The entries of the run, and no others, have been rewritten for one reference to a block. */
  ghost predicate OnlyRun(mem: seq<Page>, mem': seq<Page>, p: nat, o: nat) {
    && |mem'| == |mem| && p + Pow2(o) <= |mem| && mem'[p].order == o && mem'[p].refcount == 1
    && (forall f: nat | p <= f < p + Pow2(o) :: Free !in mem'[f].flags && Unmarked(mem'[f]))
    && (forall f: nat | f < |mem| && !(p <= f < p + Pow2(o)) :: mem'[f] == mem[f])
  }

  lemma MarkedOnly(mem0: seq<Page>, mem1: seq<Page>, mem2: seq<Page>, all: set<nat>, o: nat, i: nat)
    requires OnlyRun(mem1, mem2, Head(o, i), o) && SameOutside(mem0, mem1, all) && Frames(o, i) <= all
    requires forall f | f in all :: f < |mem1| && Unmarked(mem1[f]) && mem1[f].refcount == mem0[f].refcount
    ensures HandedOut(mem0, mem2, all, Head(o, i), o)
  {
    FramesRun(o, i);
    BlockFacts(o, i);
    hide Frames;
    hide Anc;
    hide Head;
    hide Unmarked;
  }

  lemma MarkedCore(mem1: seq<Page>, mem2: seq<Page>, fl: seq<FreeList>, chains: Chains, F: set<nat>, o: nat, i: nat)
    requires OnlyRun(mem1, mem2, Head(o, i), o) && Frames(o, i) !! F
    requires Linked(mem1, fl, chains) && Canonical(mem1, chains, F) && FreeFlags(mem1, F, Frames(o, i))
    ensures Linked(mem2, fl, chains) && Canonical(mem2, chains, F) && FreeFlags(mem2, F, {})
  {
    FramesRun(o, i);
    hide Frames;
    hide Linked;
    hide Canonical;
    hide FreeFlags;
    NotFreeWrite(mem1, mem2, fl, chains, F);
    HeldCleared(mem1, mem2, F, Frames(o, i));
  }

  lemma HandedOutIdle(mem0: seq<Page>, mem: seq<Page>, all: set<nat>, p: nat, o: nat)
    requires HandedOut(mem0, mem, all, p, o) && Idle(mem0, all)
    ensures Idle(mem, all - Block(p, o))
  {
  }

  /** The entries of a block about to be given back carry no flag but the head's own. */
  ghost predicate Emptied(mem0: seq<Page>, mem: seq<Page>, held: set<nat>, p: nat) {
    && SameOutside(mem0, mem, held) && p < |mem|
    && mem[p].order == mem0[p].order && mem[p].flags == mem0[p].flags
    && (forall f | f in held :: f < |mem| && (f == p || mem[f].flags == {}) && mem[f].refcount == 0)
  }

  lemma EmptiedKeeps(mem0: seq<Page>, mem: seq<Page>, fl: seq<FreeList>, chains: Chains, F: set<nat>,
                     held: set<nat>, p: nat)
    requires Linked(mem0, fl, chains) && Canonical(mem0, chains, F) && FreeFlags(mem0, F, {})
    requires Emptied(mem0, mem, held, p) && held !! F && p !in F
    ensures Linked(mem, fl, chains) && Canonical(mem, chains, F) && FreeFlags(mem, F, {})
  {
    NotFreeWrite(mem0, mem, fl, chains, F);
  }

  lemma LiveOutside(mem: seq<Page>, live: map<nat, nat>, F: set<nat>, managed: set<nat>)
    requires LiveBlocks(mem, live, F, managed)
    ensures forall p | p in live :: p !in F
  {
    forall p | p in live
      ensures p !in F
    {
      InOwnBlock(p, live[p]);
      assert Owns(live, p, p);
    }
  }

  lemma CountedDown(mem0: seq<Page>, mem: seq<Page>, fl: seq<FreeList>, chains: Chains, F: set<nat>,
                    live: map<nat, nat>, managed: set<nat>, p: nat)
    requires Linked(mem0, fl, chains) && Canonical(mem0, chains, F) && FreeFlags(mem0, F, {})
    requires LiveBlocks(mem0, live, F, managed) && Idle(mem0, F) && p in F && p < |mem0|
    requires mem == mem0[p := mem0[p].(refcount := mem0[p].refcount - 1)]
    ensures Linked(mem, fl, chains) && Canonical(mem, chains, F) && FreeFlags(mem, F, {})
    ensures LiveBlocks(mem, live, F, managed) && Idle(mem, F)
  {
    ChainsFramed(mem0, mem, fl, chains);
    hide Linked;
    hide Frames;
    hide Anc;
    hide Head;
    assert forall q | q in live :: LiveBlock(mem0, live, q);
    LiveOutside(mem0, live, F, managed);
    forall q | q in live
      ensures LiveBlock(mem, live, q)
    {
      assert LiveBlock(mem0, live, q);
    }
  }

  /** Frame 3 freed beside the free frame 2: freeing it once more is not noticed. */
  lemma DoubleFreeMissed()
    ensures HeadsBlock({2, 3}, 2) && !HeadsBlock({2, 3}, 3)
  {
    assert Anc(2, 1) == 1 && Anc(3, 1) == 1 && Anc(3, 0) == 3 && Anc(2, 0) == 2 && Head(1, 1) == 2;
    assert Frames(1, 1) == {2, 3};
    assert IsBlock({2, 3}, 1, 1) by {
      assert 0 in Frames(2, 0);
    }
    MergedHead({2, 3}, 3, 1);
  }

  lemma EmptiedIdle(mem0: seq<Page>, mem: seq<Page>, F: set<nat>, held: set<nat>, p: nat)
    requires Emptied(mem0, mem, held, p) && Idle(mem0, F) && held !! F
    ensures Idle(mem, F + held)
  {
  }

  lemma EmptiedUnmarked(mem0: seq<Page>, mem: seq<Page>, live: map<nat, nat>, F: set<nat>, managed: set<nat>, p: nat)
    requires LiveBlocks(mem0, live, F, managed) && p in live
    requires Emptied(mem0, mem, Block(p, live[p]), p)
    ensures forall f | f in F + Block(p, live[p]) :: f < |mem| && Unmarked(mem[f])
  {
    hide Frames;
    hide Anc;
    hide Head;
    InOwnBlock(p, live[p]);
    assert forall f | f in Block(p, live[p]) :: Owns(live, p, f);
  }

  lemma EmptyIsCore(mem: seq<Page>, fl: seq<FreeList>, chains: Chains)
    requires |fl| == |chains| == MAX_ORDER
    requires forall o | 0 <= o < MAX_ORDER :: fl[o] == FreeList(NIL, 0) && chains[o] == []
    requires forall f | 0 <= f < |mem| :: Free !in mem[f].flags
    ensures Linked(mem, fl, chains) && Canonical(mem, chains, {}) && FreeFlags(mem, {}, {})
  {
    EmptyWeight(chains, MAX_ORDER);
    forall o: nat, i: nat
      ensures !IsBlock({}, o, i)
    {
      HeadInFrames(o, i);
      assert Head(o, i) in Frames(o, i);
    }
  }

  /** `pmm_init` has freed the usable frames below `n`. */
  ghost predicate Partway(mem: seq<Page>, managed: set<nat>, F: set<nat>, n: nat) {
    && (forall f | f in managed :: f < |mem| && Unmarked(mem[f]))
    && Idle(mem, managed)
    && (forall f :: f in F <==> f in managed && f < n)
    && (forall f: nat | f < |mem| && f !in F :: Waiting(mem[f], f in managed))
  }

  lemma PartwayStep(mem0: seq<Page>, mem: seq<Page>, managed: set<nat>, F0: set<nat>, F: set<nat>, n: nat)
    requires Partway(mem0, managed, F0, n) && n in managed
    requires F == F0 + {n} && SameMarks(mem0, mem) && SameOutside(mem0, mem, F)
    ensures Partway(mem, managed, F, n + 1)
  {
    MarksKept(mem0, mem, managed);
    IdleKept(mem0, mem, managed);
  }

  lemma NothingLive(mem: seq<Page>, managed: set<nat>, F: set<nat>)
    requires Partway(mem, managed, F, |mem|)
    ensures F == managed && LiveBlocks(mem, map[], F, managed) && Idle(mem, F)
  {
  }

  lemma EmptyWeight(chains: Chains, n: nat)
    requires n <= |chains| && forall o | 0 <= o < |chains| :: chains[o] == []
    ensures Weight(chains, n) == 0
  {
  }

  lemma IdleKept(mem0: seq<Page>, mem: seq<Page>, F: set<nat>)
    requires SameMarks(mem0, mem) && Idle(mem0, F)
    ensures Idle(mem, F)
  {
  }

  lemma MarksKept(mem0: seq<Page>, mem: seq<Page>, F: set<nat>)
    requires SameMarks(mem0, mem)
    requires forall f | f in F :: f < |mem0| && Unmarked(mem0[f])
    ensures forall f | f in F :: f < |mem| && Unmarked(mem[f])
  {
  }

  /** Rewriting the entry of a live page. */
  lemma LiveEntry(mem0: seq<Page>, mem: seq<Page>, live: map<nat, nat>, F: set<nat>, managed: set<nat>, p: nat)
    requires LiveBlocks(mem0, live, F, managed) && p in live && p < |mem0| == |mem|
    requires mem == mem0[p := mem[p]]
    requires mem[p].refcount >= 1 && mem[p].order == mem0[p].order && Unmarked(mem[p])
    ensures LiveBlocks(mem, live, F, managed)
  {
    hide Frames;
    hide Anc;
    hide Head;
    forall q | q in live
      ensures LiveBlock(mem, live, q)
    {
      assert LiveBlock(mem0, live, q);
    }
  }

  /** Neither reserved nor poisoned. */
  predicate Unmarked(page: Page) {
    Reserved !in page.flags && Poison !in page.flags
  }

  lemma SplitFrames(o: nat, i: nat)
    ensures Frames(o + 1, i) == Frames(o, 2 * i) + Frames(o, 2 * i + 1) && Frames(o, 2 * i) !! Frames(o, 2 * i + 1)
    ensures Head(o + 1, i) == Head(o, 2 * i) && Head(o, 2 * i + 1) == Head(o, 2 * i) + Pow2(o)
    ensures Head(o, 2 * i) in Frames(o, 2 * i) && Head(o, 2 * i + 1) in Frames(o, 2 * i + 1)
    ensures Sibling(2 * i + 1) == 2 * i
  {
    ParentIsBothHalves(o, 2 * i);
    HeadInFrames(o, 2 * i);
    HeadInFrames(o, 2 * i + 1);
    UpperHead(o, 2 * i);
  }

  lemma UpperHead(o: nat, i: nat)
    ensures Head(o, i + 1) == Head(o, i) + Pow2(o)
  {
    HeadIsMultiple(o, i);
    HeadIsMultiple(o, i + 1);
    Successor(i, Pow2(o));
  }

  lemma TakenIsSplitting(mem0: seq<Page>, mem: seq<Page>, all: set<nat>, managed: set<nat>, live: map<nat, nat>)
    requires LiveBlocks(mem0, live, all, managed) && SameBodies(mem0, mem)
    ensures forall f | f in all :: f < |mem| && Unmarked(mem[f]) && mem[f].refcount == mem0[f].refcount
  {
    forall f | f in all
      ensures f < |mem| && Unmarked(mem[f]) && mem[f].refcount == mem0[f].refcount
    {
      assert mem[f].Body() == mem0[f].Body();
    }
  }

  lemma FramesRun(o: nat, i: nat)
    ensures forall f: nat :: f in Frames(o, i) <==> Head(o, i) <= f < Head(o, i) + Pow2(o)
  {
    forall f: nat
      ensures f in Frames(o, i) <==> Head(o, i) <= f < Head(o, i) + Pow2(o)
    {
      FramesAreRun(o, i, f);
    }
  }

  lemma HeldCleared(mem0: seq<Page>, mem: seq<Page>, F: set<nat>, held: set<nat>)
    requires FreeFlags(mem0, F, held) && |mem| == |mem0|
    requires forall f: nat | f < |mem| && f in held :: Free !in mem[f].flags
    requires forall f: nat | f < |mem| && f !in held :: mem[f] == mem0[f]
    ensures FreeFlags(mem, F, {})
  {
  }

  /** Handing out part of the free set adds one live block. */
  lemma AllocLive(mem0: seq<Page>, mem: seq<Page>, live: map<nat, nat>, F: set<nat>, managed: set<nat>, p: nat, o: nat)
    requires LiveBlocks(mem0, live, F, managed)
    requires o < MAX_ORDER && Head(o, Anc(p, o)) == p && Block(p, o) <= F
    requires HandedOut(mem0, mem, F, p, o)
    ensures p !in live && LiveBlocks(mem, live[p := o], F - Block(p, o), managed)
  {
    hide Frames;
    hide Anc;
    hide Head;
    var live' := live[p := o];
    InOwnBlock(p, o);
    LiveUntouched(mem0, mem, live, F, managed);
    forall q, f
      ensures Owns(live', q, f) <==> Owns(live, q, f) || (q == p && f in Block(p, o))
    {
    }
    forall f | f in managed && f !in F - Block(p, o)
      ensures exists q :: Owns(live', q, f)
    {
      if f in Block(p, o) {
        assert Owns(live', p, f);
      } else {
        var q :| Owns(live, q, f);
        assert Owns(live', q, f);
      }
    }
  }

  /** Giving a live block back removes exactly that block. */
  lemma FreeLive(mem0: seq<Page>, mem: seq<Page>, live: map<nat, nat>, F: set<nat>, managed: set<nat>, p: nat)
    requires LiveBlocks(mem0, live, F, managed) && |mem| == |mem0| && p in live
    requires forall f | f in F + Block(p, live[p]) :: f < |mem| && Unmarked(mem[f])
    requires SameOutside(mem0, mem, F + Block(p, live[p]))
    ensures LiveBlocks(mem, live - {p}, F + Block(p, live[p]), managed)
  {
    hide Frames;
    hide Anc;
    hide Head;
    var live' := live - {p};
    forall q, f
      ensures Owns(live', q, f) <==> Owns(live, q, f) && q != p
    {
    }
    var F' := F + Block(p, live[p]);
    assert forall f | f in Block(p, live[p]) :: Owns(live, p, f);
    forall f | f in managed && f !in F'
      ensures exists q :: Owns(live', q, f)
    {
      var q :| Owns(live, q, f);
      assert Owns(live', q, f);
    }
    forall q, f | Owns(live', q, f)
      ensures f in managed && f !in F'
    {
      assert Owns(live, q, f);
    }
    forall f | f in managed
      ensures f < |mem| && Unmarked(mem[f])
    {
      assert f !in F' ==> mem[f] == mem0[f];
    }
    forall q | q in live'
      ensures LiveBlock(mem, live', q)
    {
      InOwnBlock(q, live[q]);
      assert Owns(live, q, q) && LiveBlock(mem0, live, q);
      assert q in Block(p, live[p]) ==> Owns(live, p, q);
    }
  }

  lemma LiveUntouched(mem0: seq<Page>, mem: seq<Page>, live: map<nat, nat>, F: set<nat>, managed: set<nat>)
    requires LiveBlocks(mem0, live, F, managed) && |mem| == |mem0|
    requires SameOutside(mem0, mem, F)
    ensures forall q | q in live :: q !in F && LiveBlock(mem, live, q)
  {
    forall q | q in live
      ensures q !in F && LiveBlock(mem, live, q)
    {
      InOwnBlock(q, live[q]);
      assert Owns(live, q, q) && LiveBlock(mem0, live, q);
    }
  }

  /** The merged block is the two halves, and its head is the lower of their heads. */
  lemma MergeFrames(o: nat, i: nat)
    ensures Block(Head(o, Sibling(i)), o) == Frames(o, Sibling(i))
    ensures Frames(o + 1, i / 2) == Frames(o, i) + Frames(o, Sibling(i)) && Frames(o, i) !! Frames(o, Sibling(i))
    ensures Head(o + 1, i / 2) == if Head(o, Sibling(i)) < Head(o, i) then Head(o, Sibling(i)) else Head(o, i)
    ensures Head(o + 1, i / 2) in Frames(o + 1, i / 2)
  {
    ParentIsBothHalves(o, i);
    HeadInFrames(o, Sibling(i));
    HeadInFrames(o + 1, i / 2);
    HeadIsMultiple(o, i);
    HeadIsMultiple(o, Sibling(i));
    MulMonotone(i, i + 1, Pow2(o));
    if i % 2 == 0 {
      Successor(i, Pow2(o));
    } else {
      Successor(i - 1, Pow2(o));
    }
  }
}
