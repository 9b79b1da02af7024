/** Page tables in memory (kernel/src/mm/paging.c), built from the frames of the page allocator. */
module Paging {
  import opened Common
  import opened PageTree
  import opened PageTreePrune
  import opened Pmm
  import opened BlockTree
  import FreeLists

  const NIL: int := FreeLists.NIL
  const FRAME_MASK: nat := 0x100_0000_0000  // PAGE_ADDR_MASK keeps 40 bits of the frame number

  lemma TookNothing(a: Database)
    ensures Took(a, a, {})
  {
  }

  lemma TookTwice(a: Database, b: Database, c: Database, N: set<nat>, M: set<nat>)
    requires Took(a, b, N) && Took(b, c, M)
    ensures Took(a, c, N + M)
  {
  }

  datatype Snapshot = Snapshot(frames: Database, tables: Tables, at: Layout)

  /** Tables may have been added, each from a free frame; the map they stand for is the same. */
  ghost predicate Changed(a: Snapshot, b: Snapshot) {
    && Extends(a.at, b.at) && a.tables.Keys <= b.tables.Keys
    && Took(a.frames, b.frames, b.tables.Keys - a.tables.Keys)
    && SameLeaves(a.tables, a.at, b.tables, b.at)
  }

  /** As `Changed`, and page `v` of space `r` has the leaf entry `e`. */
  ghost predicate Mapped(a: Snapshot, b: Snapshot, r: nat, v: nat, e: Entry) {
    && Extends(a.at, b.at) && a.tables.Keys <= b.tables.Keys
    && Took(a.frames, b.frames, b.tables.Keys - a.tables.Keys)
    && LeafSet(a.tables, a.at, b.tables, b.at, r, v, e)
  }

  /** As `Changed`, and the `n` pages from `v` on are mapped to the frames from `f` on; this is what
      mapping the pages one by one leads to. */
  ghost predicate RangeMapped(a: Snapshot, b: Snapshot, r: nat, v: nat, n: nat, f: nat, flags: set<PFlag>) {
    && Extends(a.at, b.at) && a.tables.Keys <= b.tables.Keys
    && Took(a.frames, b.frames, b.tables.Keys - a.tables.Keys)
    && forall r': nat, v': nat ::
         Leaf(b.tables, b.at, r', v') ==
         if r' == r && v <= v' < v + n then Present((f + v' - v) % FRAME_MASK, flags) else Leaf(a.tables, a.at, r', v')
  }

  /** Interior entries have appeared only as `Opened` says. */
  ghost predicate OpenedFor(a: Snapshot, b: Snapshot, flags: set<PFlag>) {
    Opened(a.tables, a.at, b.tables, b.at, flags)
  }

  lemma NoneOpened(s: Snapshot, flags: set<PFlag>)
    ensures OpenedFor(s, s, flags)
  {
    NothingOpened(s.tables, s.at, flags);
  }

  lemma OpenedOn(a: Snapshot, b: Snapshot, c: Snapshot, flags: set<PFlag>)
    requires OpenedFor(a, b, flags) && OpenedFor(b, c, flags)
    ensures OpenedFor(a, c, flags)
  {
    OpenedTwice(a.tables, a.at, b.tables, b.at, c.tables, c.at, flags);
  }

  /** What the hardware lets through to page `v`, which has been mapped with `flags`: writes exactly if they say
      so, user mode exactly if they and all tables on the way that were there in `a` do. */
  ghost predicate Admits(a: Snapshot, b: Snapshot, r: nat, v: nat, flags: set<PFlag>) {
    && (Permits(b.tables, r, 4, v, Write) <==> Write in flags)
    && (Permits(b.tables, r, 4, v, User) <==> User in flags && UserPath(a.tables, a.at, r, v))
  }

  lemma MappedAdmits(a: Snapshot, b: Snapshot, kroot: nat, r: nat, v: nat, e: Entry)
    requires Tree(b.tables, b.at, kroot) && v < USER_PAGES && e.Present? && OpenedFor(a, b, e.flags)
    requires Mapped(a, b, r, v, e)
    ensures Admits(a, b, r, v, e.flags)
  {
    MappedPermits(a.tables, a.at, b.tables, b.at, kroot, r, v, e.flags);
  }

  lemma RangeAdmits(a: Snapshot, b: Snapshot, kroot: nat, r: nat, v: nat, n: nat, f: nat, flags: set<PFlag>)
    requires Tree(b.tables, b.at, kroot) && OpenedFor(a, b, flags) && RangeMapped(a, b, r, v, n, f, flags)
    ensures forall w: nat | v <= w < v + n && w < USER_PAGES :: Admits(a, b, r, w, flags)
  {
    forall w: nat | v <= w < v + n && w < USER_PAGES
      ensures Admits(a, b, r, w, flags)
    {
      assert Leaf(b.tables, b.at, r, w) == Present((f + w - v) % FRAME_MASK, flags);
      MappedPermits(a.tables, a.at, b.tables, b.at, kroot, r, w, flags);
    }
  }

  lemma NoneMapped(s: Snapshot, r: nat, v: nat, f: nat, flags: set<PFlag>)
    ensures RangeMapped(s, s, r, v, 0, f, flags)
  {
    Unchanged(s);
  }

  lemma RangeThenChanged(a: Snapshot, b: Snapshot, c: Snapshot, r: nat, v: nat, n: nat, f: nat, flags: set<PFlag>)
    requires RangeMapped(a, b, r, v, n, f, flags) && Changed(b, c)
    ensures RangeMapped(a, c, r, v, n, f, flags)
  {
    hide Leaf;
    var N, M := b.tables.Keys - a.tables.Keys, c.tables.Keys - b.tables.Keys;
    TookTwice(a.frames, b.frames, c.frames, N, M);
    assert c.tables.Keys - a.tables.Keys == N + M;
  }

  /** Mapping page after page adds up to mapping the range. */
  lemma RangeStep(a: Snapshot, b: Snapshot, c: Snapshot, r: nat, v: nat, n: nat, f: nat, flags: set<PFlag>)
    requires RangeMapped(a, b, r, v, n, f, flags) && Mapped(b, c, r, v + n, Present((f + n) % FRAME_MASK, flags))
    ensures RangeMapped(a, c, r, v, n + 1, f, flags)
  {
    hide Leaf;
    var N, M := b.tables.Keys - a.tables.Keys, c.tables.Keys - b.tables.Keys;
    TookTwice(a.frames, b.frames, c.frames, N, M);
    assert c.tables.Keys - a.tables.Keys == N + M;
  }

  lemma RootStays(a: Snapshot, b: Snapshot, r: nat)
    requires Changed(a, b) && RootOf(r) in a.at
    ensures RootOf(r) in b.at
  {
  }

  /** Pages whose entries lie in one table. */
  lemma SameTable(r: nat, v: nat, i: nat)
    requires Index(v, 1) + i < 512
    ensures PosOf(r, 1, v + i) == PosOf(r, 1, v) && Index(v + i, 1) == Index(v, 1) + i
  {
    assert Up(v, 0) == v && Up(v + i, 0) == v + i;
    assert Up(v, 1) == v / 512 && Up(v + i, 1) == (v + i) / 512;
  }

  /** The positions in `R` and their tables are gone, and the frames of those tables are free again. */
  ghost predicate Pruned(a: Snapshot, b: Snapshot, R: set<Pos>) {
    && R <= a.at.Keys && b.at == a.at - R
    && b.tables == a.tables - FramesAt(a.at, R)
    && Gave(a.frames, b.frames, FramesAt(a.at, R))
  }

  ghost function BelowSet(at: Layout, p: Pos, n: nat): set<Pos> {
    set q | q in at && Below(p, n, q)
  }

  lemma OthersStay(a: Snapshot, b: Snapshot, R: set<Pos>, p: Pos)
    requires Pruned(a, b, R) && p in a.at && p !in R
    ensures p in b.at
  {
  }

  lemma PrunedFree(a: Snapshot, b: Snapshot, R: set<Pos>)
    requires Pruned(a, b, R)
    ensures |b.frames.free| <= |a.frames.free| + |R|
  {
    FramesAtMost(a.at, R);
  }

  lemma PrunedTwice(a: Snapshot, b: Snapshot, c: Snapshot, R: set<Pos>, S: set<Pos>)
    requires Pruned(a, b, R) && Pruned(b, c, S)
    ensures Pruned(a, c, R + S)
  {
    var N, M := FramesAt(a.at, R), FramesAt(b.at, S);
    assert FramesAt(a.at, R + S) == N + M by {
      assert FramesAt(a.at, S) == M;
    }
    assert c.at == a.at - (R + S);
    assert c.tables == a.tables - (N + M);
    assert c.frames.live == a.frames.live - (N + M);
  }

  lemma NothingPruned(s: Snapshot, p: Pos)
    ensures BelowSet(s.at, p, 0) == {} && Pruned(s, s, {})
  {
    assert FramesAt(s.at, {}) == {};
    assert s.at - {} == s.at && s.tables - {} == s.tables && s.frames.live - {} == s.frames.live;
  }

  lemma NothingBelow(s: Snapshot, kroot: nat, hurt: set<Pos>, p: Pos)
    requires Wounded(s.tables, s.at, kroot, hurt) && p.level <= 1
    ensures BelowSet(s.at, p, 512) == {} && Pruned(s, s, BelowSet(s.at, p, 512))
  {
    forall q | q in s.at
      ensures q.level >= 1
    {
      assert Stored(s.tables, s.at, q);
    }
    NothingPruned(s, p);
  }

  lemma MoreHurt(tables: Tables, at: Layout, kroot: nat, hurt: set<Pos>, p: Pos)
    requires Wounded(tables, at, kroot, hurt)
    ensures Wounded(tables, at, kroot, hurt + {p})
  {
  }

  lemma TreeIsWounded(tables: Tables, at: Layout, kroot: nat, p: Pos)
    requires Tree(tables, at, kroot) && p in at
    ensures Wounded(tables, at, kroot, {}) && Stored(tables, at, p)
  {
  }

  /** The entry looked at by the destroying loop is still the original one. */
  lemma EntryStill(s0: Snapshot, s1: Snapshot, kroot: nat, hurt: set<Pos>, p: Pos, i: nat)
    requires Wounded(s0.tables, s0.at, kroot, hurt) && Wounded(s1.tables, s1.at, kroot, hurt + {p})
    requires p in s0.at && p !in hurt && p.level > 1 && i < 512 && !KernelShared(p, i, kroot)
    requires Pruned(s0, s1, BelowSet(s0.at, p, i))
    ensures p in s1.at && s1.at[p] == s0.at[p] && s1.at[p] in s1.tables && |s1.tables[s1.at[p]]| == 512
    ensures var e := s1.tables[s1.at[p]][i];
      var c := Child(p, i);
      && (e.Present? ==> c in s1.at && s1.at[c] == e.frame)
      && (e.Absent? ==> BelowSet(s0.at, p, i + 1) == BelowSet(s0.at, p, i))
  {
    assert Stored(s0.tables, s0.at, p) && Stored(s1.tables, s1.at, p) by {
      assert p !in BelowSet(s0.at, p, i);
    }
    var e := EntryAt(s0.tables, s0.at, p, i);
    assert e == s1.tables[s1.at[p]][i];
    assert DownOk(s0.tables, s0.at, kroot, p);
    hide Wounded;
    hide Gave;
    if e.Present? {
      assert LeadsTo(s0.at, kroot, p, i, e.frame);
      assert !Below(p, i, Child(p, i)) by {
        assert Up(Child(p, i).prefix, 0) == Child(p, i).prefix;
      }
    } else {
      NoneBelowAbsent(s0, kroot, hurt, p, i);
    }
  }

  lemma NoneBelowAbsent(s0: Snapshot, kroot: nat, hurt: set<Pos>, p: Pos, i: nat)
    requires Wounded(s0.tables, s0.at, kroot, hurt)
    requires p in s0.at && p.level > 1 && i < 512 && EntryAt(s0.tables, s0.at, p, i).Absent?
    ensures BelowSet(s0.at, p, i + 1) == BelowSet(s0.at, p, i)
  {
    var c := Child(p, i);
    assert Stored(s0.tables, s0.at, p) && UpOk(s0.tables, s0.at, kroot, c);
    ParentOfChild(p, i);
    hide Below;
    hide Under;
    forall q | q in s0.at
      ensures Below(p, i + 1, q) <==> Below(p, i, q)
    {
      BelowNext(p, i, q);
      if Under(c, q) {
        NoneUnderMissing(s0.tables, s0.at, kroot, hurt, c, q);
      }
    }
  }

  /** All positions in `hurt` are above `level`. */
  ghost predicate Above(hurt: set<Pos>, level: nat) {
    forall d | d in hurt :: d.level > level
  }

  lemma Deeper(hurt: set<Pos>, p: Pos, level: nat)
    requires Above(hurt, level) && p.level == level > 0
    ensures p !in hurt && Above(hurt + {p}, level - 1)
  {
  }

  lemma ThenUnder(s0: Snapshot, s1: Snapshot, s2: Snapshot, s3: Snapshot, p: Pos, i: nat)
    requires p.level > 1 && Child(p, i) in s1.at
    requires Pruned(s0, s1, BelowSet(s0.at, p, i))
    requires Pruned(s1, s2, BelowSet(s1.at, Child(p, i), 512)) && Pruned(s2, s3, {Child(p, i)})
    ensures Pruned(s0, s3, BelowSet(s0.at, p, i + 1))
  {
    var c := Child(p, i);
    var R, S := BelowSet(s0.at, p, i), BelowSet(s1.at, c, 512);
    PrunedTwice(s0, s1, s2, R, S);
    PrunedTwice(s0, s2, s3, R + S, {c});
    forall q | q in s0.at
      ensures Below(p, i + 1, q) <==> q in R + S + {c}
    {
      BelowNext(p, i, q);
      BelowAll(c, q);
    }
    assert R + S + {c} == BelowSet(s0.at, p, i + 1);
  }

  lemma OnlyTop(s1: Snapshot, s2: Snapshot, c: Pos)
    requires c.level > 0 && Pruned(s1, s2, BelowSet(s1.at, c, 512))
    ensures forall q | q in s2.at && Under(c, q) :: q == c
  {
    forall q | q in s2.at && Under(c, q)
      ensures q == c
    {
      BelowAll(c, q);
    }
  }

  lemma GoneTable(a: Snapshot, b: Snapshot, c: Pos)
    requires c in a.at && b.at == a.at - {c} && b.tables == a.tables - {a.at[c]} && Gave(a.frames, b.frames, {a.at[c]})
    ensures Pruned(a, b, {c})
  {
    assert FramesAt(a.at, {c}) == {a.at[c]};
  }

  lemma GaveTables(a: Database, b: Database, tables: Tables, f: nat)
    requires TablesLive(a, tables) && Gave(a, b, {f})
    ensures TablesLive(b, tables - {f})
  {
  }

  lemma KernelRow(tables: Tables, at: Layout, kroot: nat)
    requires Tree(tables, at, kroot) && RootOf(kroot) in at
    ensures at[RootOf(kroot)] == kroot && kroot in tables && |tables[kroot]| == 512
  {
    assert Stored(tables, at, RootOf(kroot));
  }

  lemma AddedRoot(a: Snapshot, b: Snapshot, f: nat, row: seq<Entry>)
    requires f !in a.tables && b.tables == a.tables[f := row] && b.at == a.at[RootOf(f) := f] && RootOf(f) !in a.at
    requires Took(a.frames, b.frames, {f}) && SameLeaves(a.tables, a.at, b.tables, b.at)
    requires TablesLive(b.frames, a.tables[f := ZeroTable])
    ensures Changed(a, b) && TablesLive(b.frames, b.tables)
  {
    assert b.tables.Keys - a.tables.Keys == {f};
    assert b.tables.Keys == a.tables[f := ZeroTable].Keys;
    SameTables(b.frames, a.tables[f := ZeroTable], b.tables);
  }

  lemma RootAlone(s0: Snapshot, s1: Snapshot, kroot: nat, p: Pos)
    requires Tree(s0.tables, s0.at, kroot) && p == RootOf(p.root) && p.root != kroot && p in s0.at
    requires Pruned(s0, s1, BelowSet(s0.at, p, 256)) && Wounded(s1.tables, s1.at, kroot, {p})
    ensures p in s1.at && s1.at[p] == p.root && p.root in s1.tables
    ensures forall q | q in s1.at && q.root == p.root :: q == p
    ensures BelowSet(s0.at, p, 256) + {p} == set q | q in s0.at && q.root == p.root
  {
    hide Tree;
    hide Gave;
    hide Below;
    assert !Below(p, 256, p) by {
      NotBelowItself(p, 256);
    }
    assert Stored(s1.tables, s1.at, p);
    hide Wounded;
    forall q | q in s0.at
      ensures Below(p, 256, q) || q == p <==> q.root == p.root
    {
      OfSpace(s0, kroot, p, q);
    }
  }

  lemma NotBelowItself(p: Pos, n: nat)
    ensures !Below(p, n, p)
  {
  }

  /** The tables of an ordinary space are its root and those below its lower half. */
  lemma OfSpace(s0: Snapshot, kroot: nat, p: Pos, q: Pos)
    requires Tree(s0.tables, s0.at, kroot) && p == RootOf(p.root) && p.root != kroot && p in s0.at && q in s0.at
    ensures Below(p, 256, q) || q == p <==> q.root == p.root
  {
    assert Stored(s0.tables, s0.at, q);
    if q.root == p.root && q.level < 4 {
      LowerHalf(s0.tables, s0.at, kroot, q);
    }
  }

  /** Every table of an ordinary space serves lower-half pages. */
  lemma {:induction false} LowerHalf(tables: Tables, at: Layout, kroot: nat, q: Pos)
    requires Tree(tables, at, kroot) && q in at && q.level < 4 && q.root != kroot
    ensures Up(q.prefix, 3 - q.level) < 256
    decreases 4 - q.level
  {
    assert UpOk(tables, at, kroot, q) && Stored(tables, at, q);
    if q.level < 3 {
      LowerHalf(tables, at, kroot, Parent(q));
      ShiftUp(q.prefix, 2 - q.level);
    } else {
      assert Up(q.prefix, 0) == q.prefix;
    }
  }

  lemma HealedTree(s1: Snapshot, s2: Snapshot, kroot: nat, p: Pos)
    requires Wounded(s1.tables, s1.at, kroot, {p}) && p.root != kroot && p in s1.at && p.level == 4
    requires forall q | q in s1.at && q.root == p.root :: q == p
    requires s2.tables == s1.tables - {s1.at[p]} && s2.at == s1.at - {p}
    ensures Tree(s2.tables, s2.at, kroot)
  {
    assert {} + {p} == {p};
    RemoveTable(s1.tables, s1.at, kroot, {}, p);
  }

  lemma ThenSet(a: Snapshot, b: Snapshot, c: Snapshot, r: nat, v: nat, e: Entry)
    requires Changed(a, b) && c.frames == b.frames && c.at == b.at && c.tables.Keys == b.tables.Keys
    requires LeafSet(b.tables, b.at, c.tables, c.at, r, v, e)
    ensures Mapped(a, c, r, v, e)
  {
  }

  /** The frame number that a leaf entry keeps of a physical address. */
  function FrameOf(phys: nat): nat {
    (phys / PAGE_SIZE) % FRAME_MASK
  }

  lemma Unchanged(s: Snapshot)
    ensures Changed(s, s)
  {
    assert s.tables.Keys - s.tables.Keys == {};
    TookNothing(s.frames);
  }

  lemma ChangedTwice(a: Snapshot, b: Snapshot, c: Snapshot)
    requires Changed(a, b) && Changed(b, c)
    ensures Changed(a, c)
  {
    var N, M := b.tables.Keys - a.tables.Keys, c.tables.Keys - b.tables.Keys;
    TookTwice(a.frames, b.frames, c.frames, N, M);
    assert c.tables.Keys - a.tables.Keys == N + M;
  }

  /** A table entry is present and writable, and carries the user flag of the page it is made for. */
  function TableFlags(flags: set<PFlag>): set<PFlag> {
    {Write} + (if User in flags then {User} else {})
  }

  lemma TableEntryOpens(f: nat, flags: set<PFlag>)
    ensures Write in TableFlags(flags) && OpenEntry(Present(f, TableFlags(flags)), flags)
  {
  }

  class PageTables {
    const pmm: PageAllocator
    var tables: Tables          // the contents of every frame used as a table
    var kernelRoot: nat         // kernel_vas->pml4
    var pageTableCount: nat
    ghost var at: Layout

    ghost predicate Valid()
      reads this, pmm, pmm.mem, pmm.lists
    {
      && pmm.Valid() && 0 !in pmm.managed
      && Tree(tables, at, kernelRoot) && RootOf(kernelRoot) in at
      && TablesLive(pmm.State(), tables)
    }

    ghost function TableState(): Snapshot
      reads this, pmm, pmm.mem
    {
      Snapshot(pmm.State(), tables, at)
    }

    /** A page number that belongs to space `r` itself and not to the half shared with the kernel. */
    ghost predicate OwnPage(r: nat, v: nat)
      reads this
    {
      v < USER_PAGES || (r == kernelRoot && v < PAGES)
    }

    constructor (pmm: PageAllocator)
      ensures this.pmm == pmm && tables == map[] && at == map[]
    {
      this.pmm := pmm;
      tables, kernelRoot, pageTableCount, at := map[], 0, 0, map[];
    }

    /** The objects are of different classes. */
    lemma Apart()
      ensures this as object != pmm && this as object != pmm.mem && this as object != pmm.lists
      ensures pmm as object != pmm.mem && pmm as object != pmm.lists
    {
    }

    /** The start of `paging_init`: the kernel's root table. */
    method InitKernelRoot() returns (ok: bool)
      requires pmm.Valid() && 0 !in pmm.managed && tables == map[] && at == map[]
      modifies this, pmm, pmm.mem, pmm.lists
      ensures ok <==> old(pmm.free) != {}
      ensures ok ==> Valid() && at.Keys == {RootOf(kernelRoot)}
      ensures ok ==> forall r: nat, v: nat :: Leaf(tables, at, r, v) == Absent
    {
      hide PageAllocator.Valid;
      var root := AllocTable();
      if root == 0 {
        return false;
      }
      kernelRoot := root;
      at := map[RootOf(root) := root];
      LoneRoot(tables, at, root);
      return true;
    }

    /** `alloc_table`: a zeroed frame, or 0. */
    method AllocTable() returns (phys: nat)
      requires pmm.Valid() && 0 !in pmm.managed && TablesLive(pmm.State(), tables)
      modifies this`tables, this`pageTableCount, pmm, pmm.mem, pmm.lists
      ensures pmm.Valid() && at == old(at) && kernelRoot == old(kernelRoot)
      ensures phys == 0 ==> pmm.free == {} && pmm.State() == old(pmm.State()) && tables == old(tables)
      ensures phys != 0 ==>
        && phys !in old(tables) && tables == old(tables)[phys := ZeroTable]
        && Took(old(pmm.State()), pmm.State(), {phys}) && TablesLive(pmm.State(), tables)
    {
      hide PageAllocator.Valid;
      hide Took;
      var page := pmm.AllocPage();
      if page == NIL {
        return 0;
      }
      TookTables(old(pmm.State()), pmm.State(), tables, {page});
      tables := tables[page := ZeroTable];
      pageTableCount := pageTableCount + 1;
      return page;
    }

    /** A frame for data: the tables stay as they are. */
    method AllocData() returns (page: int)
      requires Valid()
      modifies pmm, pmm.mem, pmm.lists
      ensures Valid() && tables == old(tables) && at == old(at) && kernelRoot == old(kernelRoot)
      ensures page == NIL ==> pmm.free == {} && TableState() == old(TableState())
      ensures page != NIL ==> page > 0 && Took(old(pmm.State()), pmm.State(), {page})
    {
      hide PageAllocator.Valid;
      hide Took;
      hide Tree;
      page := pmm.AllocPage();
      if page != NIL {
        TookTables(old(pmm.State()), pmm.State(), tables, {page});
      }
    }

    /** `pmm_alloc` for another part of the kernel. */
    method AllocBlock(order: nat) returns (page: int)
      requires Valid()
      modifies pmm, pmm.mem, pmm.lists
      ensures Valid() && tables == old(tables) && at == old(at) && kernelRoot == old(kernelRoot)
      ensures page == NIL ==> TableState() == old(TableState())
      ensures page == NIL && order < MAX_ORDER ==> forall i: nat :: !(Frames(order, i) <= pmm.free)
      ensures page != NIL ==> page >= 0 && TookBlock(old(pmm.State()), pmm.State(), page, order)
    {
      pmm.LiveIsNotFree();
      ghost var d := pmm.State();
      hide PageAllocator.Valid;
      hide Tree;
      hide Frames;
      hide Aligned;
      page := pmm.Alloc(order);
      if page != NIL {
        BlockTables(d, pmm.State(), tables, page, order);
      }
    }

    /** `pmm_free` of a frame that is no table. */
    method FreeData(page: nat)
      requires Valid() && page in pmm.live && page !in tables
      modifies pmm, pmm.mem, pmm.lists
      ensures Valid() && tables == old(tables) && at == old(at) && kernelRoot == old(kernelRoot)
      ensures Released(old(pmm.State()), pmm.State(), page)
    {
      ghost var d := pmm.State();
      pmm.LivePage(page);
      pmm.LiveIsNotFree();
      hide PageAllocator.Valid;
      hide Tree;
      var r := pmm.FreePage(page);
      pmm.LiveIsNotFree();
      ReleasedTables(d, pmm.State(), tables, page);
    }

    /** A change of the references or the flags of a frame that is no table. */
    method UpdateData(page: nat, entry: FreeLists.Page)
      requires Valid() && page in pmm.live && page !in tables && page < pmm.mem.Length
      requires entry.refcount >= pmm.mem[page].refcount && entry.order == pmm.mem[page].order
      requires entry.flags in {pmm.mem[page].flags, pmm.mem[page].flags + {FreeLists.Cow}, pmm.mem[page].flags - {FreeLists.Cow}}
      modifies pmm.mem
      ensures Valid() && tables == old(tables) && at == old(at) && kernelRoot == old(kernelRoot)
      ensures pmm.State() == old(pmm.State()).(mem := old(pmm.mem[..])[page := entry])
    {
      hide PageAllocator.Valid;
      hide Tree;
      pmm.LivePage(page);
      hide Unmarked;
      assert Unmarked(entry) by {
        CowIsNoMark(pmm.mem[page], entry);
      }
      pmm.UpdateLive(page, entry);
    }

    /** `next_table`: the table below entry `index`, created on demand. */
    method NextTable(table: nat, index: nat, flags: set<PFlag>, create: bool, ghost p: Pos) returns (next: int)
      requires Valid() && p in at && at[p] == table && p.level > 1 && index < 512
      requires !KernelShared(p, index, kernelRoot)
      modifies this`tables, this`at, this`pageTableCount, pmm, pmm.mem, pmm.lists
      ensures Valid() && kernelRoot == old(kernelRoot)
      ensures Changed(old(TableState()), TableState())
      ensures next != NIL ==> Child(p, index) in at && at[Child(p, index)] == next
      ensures next == NIL ==> TableState() == old(TableState()) && Child(p, index) !in at && (create ==> pmm.free == {})
      ensures !create || Child(p, index) in old(at) ==> TableState() == old(TableState())
      ensures GrewBy(old(at), at, {Child(p, index)})
      ensures OpenedFor(old(TableState()), TableState(), flags)
    {
      EntryMeansTable(tables, at, kernelRoot, p, index);
      Unchanged(TableState());
      NoneOpened(TableState(), flags);
      hide OpenedFor;
      NotGrownBy(at, {Child(p, index)});
      hide GrewBy;
      hide PageAllocator.Valid;
      hide Tree;
      hide Changed;
      hide TablesLive;
      var entry := tables[table][index];
      if entry.Present? {
        return entry.frame;
      }
      if !create {
        return NIL;
      }
      next := MakeTable(table, index, flags, p);
    }

    /** Store one entry. */
    method WriteTables(ghost before: Tables, table: nat, index: nat, entry: Entry, ghost layout: Layout)
      requires pmm.Valid() && tables == before && table in tables && index < |tables[table]|
      modifies this`tables, this`at
      ensures tables == WithEntry(before, table, index, entry) && at == layout && kernelRoot == old(kernelRoot)
      ensures pmm.Valid() && pmm.State() == old(pmm.State())
    {
      hide PageAllocator.Valid;
      tables := tables[table := tables[table][index := entry]];
      at := layout;
    }

    /** The creating part of `next_table`. */
    method MakeTable(table: nat, index: nat, flags: set<PFlag>, ghost p: Pos) returns (next: int)
      requires Valid() && p in at && at[p] == table && p.level > 1 && index < 512
      requires !KernelShared(p, index, kernelRoot) && Child(p, index) !in at
      modifies this`tables, this`at, this`pageTableCount, pmm, pmm.mem, pmm.lists
      ensures Valid() && kernelRoot == old(kernelRoot)
      ensures Changed(old(TableState()), TableState())
      ensures next != NIL ==> Child(p, index) in at && at[Child(p, index)] == next
      ensures next == NIL ==> TableState() == old(TableState()) && pmm.free == {}
      ensures GrewBy(old(at), at, {Child(p, index)})
      ensures OpenedFor(old(TableState()), TableState(), flags)
    {
      ghost var s0 := TableState();
      EntryMeansTable(tables, at, kernelRoot, p, index);
      Unchanged(s0);
      NoneOpened(s0, flags);
      hide OpenedFor;
      hide OpenEntry;
      hide TableFlags;
      NotGrownBy(at, {Child(p, index)});
      hide GrewBy;
      hide PageAllocator.Valid;
      hide Tree;
      hide Took;
      hide TablesLive;
      hide SameLeaves;
      var phys := AllocTable();
      if phys == 0 {
        return NIL;
      }
      OneMore(at, Child(p, index), phys);
      TableEntryOpens(phys, flags);
      WriteTables(s0.tables[phys := ZeroTable], table, index, Present(phys, TableFlags(flags)), at[Child(p, index) := phys]);
      Linking(s0, TableState(), kernelRoot, table, p, index, phys, TableFlags(flags), flags);
      return phys;
    }

    /** `lookup_pt`: the table that holds the leaf entry of page `v`. */
    method LookupPt(root: nat, v: nat, create: bool, flags: set<PFlag>) returns (pt: int)
      requires Valid() && RootOf(root) in at && OwnPage(root, v)
      modifies this`tables, this`at, this`pageTableCount, pmm, pmm.mem, pmm.lists
      ensures Valid() && kernelRoot == old(kernelRoot)
      ensures Changed(old(TableState()), TableState())
      ensures pt != NIL ==> PosOf(root, 1, v) in at && at[PosOf(root, 1, v)] == pt
      ensures pt == NIL ==> PosOf(root, 1, v) !in at && (create ==> pmm.free == {})
      ensures !create || PosOf(root, 1, v) in old(at) ==> TableState() == old(TableState())
      ensures GrewBy(old(at), at, PathTo(root, v))
      ensures OpenedFor(old(TableState()), TableState(), flags)
    {
      Apart();
      ghost var s0 := TableState();
      hide OpenedFor;
      LookupFacts(tables, at, kernelRoot, root, v);
      hide GrewBy;
      ghost var p3, p2, p1, path := {PosOf(root, 3, v)}, {PosOf(root, 2, v)}, {PosOf(root, 1, v)}, PathTo(root, v);
      assert p3 <= path && p2 <= path && p1 <= path;
      hide PathTo;
      NotGrownBy(at, path);
      hide PageAllocator.Valid;
      hide Tree;
      hide Changed;
      hide TablesLive;
      hide Up;
      hide Index;
      var pdpt := NextTable(root, Index(v, 4), flags, create, PosOf(root, 4, v));
      ghost var s1 := TableState();
      GrewTwice(s0.at, s0.at, s1.at, path, p3, path);
      LookupFacts(tables, at, kernelRoot, root, v);
      if pdpt == NIL {
        return NIL;
      }
      var pd := NextTable(pdpt, Index(v, 3), flags, create, PosOf(root, 3, v));
      ghost var s2 := TableState();
      LookupFacts(tables, at, kernelRoot, root, v);
      ChangedTwice(s0, s1, s2);
      OpenedOn(s0, s1, s2, flags);
      GrewTwice(s0.at, s1.at, s2.at, path, p2, path);
      if pd == NIL {
        return NIL;
      }
      pt := NextTable(pd, Index(v, 2), flags, create, PosOf(root, 2, v));
      ChangedTwice(s0, s2, TableState());
      OpenedOn(s0, s2, TableState(), flags);
      GrewTwice(s0.at, s2.at, at, path, p1, path);
    }

    /** `paging_map_page` */
    method MapPage(root: nat, virt: nat, phys: nat, flags: set<PFlag>) returns (rc: int)
      requires Valid() && RootOf(root) in at && OwnPage(root, PageNo(virt))
      modifies this`tables, this`at, this`pageTableCount, pmm, pmm.mem, pmm.lists
      ensures Valid() && kernelRoot == old(kernelRoot) && (rc == 0 || rc == -1)
      ensures !PageAligned(virt) || !PageAligned(phys) ==> rc == -1 && TableState() == old(TableState())
      ensures rc == 0 ==> PosOf(root, 1, PageNo(virt)) in at
      ensures rc == 0 ==> Mapped(old(TableState()), TableState(), root, PageNo(virt), Present(FrameOf(phys), flags))
      ensures rc != 0 ==> Changed(old(TableState()), TableState())
      ensures rc != 0 && PageAligned(virt) && PageAligned(phys) ==> pmm.free == {}
      ensures PosOf(root, 1, PageNo(virt)) in old(at) && PageAligned(virt) && PageAligned(phys) ==>
        rc == 0 && pmm.State() == old(pmm.State()) && at == old(at)
      ensures GrewBy(old(at), at, PathTo(root, PageNo(virt)))
      ensures OpenedFor(old(TableState()), TableState(), flags)
      ensures rc == 0 && PageNo(virt) < USER_PAGES ==> Admits(old(TableState()), TableState(), root, PageNo(virt), flags)
    {
      ghost var s0 := TableState();
      Unchanged(s0);
      NoneOpened(s0, flags);
      hide OpenedFor;
      hide Admits;
      NotGrownBy(at, PathTo(root, PageNo(virt)));
      hide GrewBy;
      hide PathTo;
      if virt % PAGE_SIZE != 0 || phys % PAGE_SIZE != 0 {
        return -1;
      }
      hide PageAllocator.Valid;
      hide Tree;
      hide Took;
      hide TablesLive;
      hide SameLeaves;
      hide LeafSet;
      hide PosOf;
      hide Index;
      var v := PageNo(virt);
      var pt := LookupPt(root, v, true, flags);
      if pt == NIL {
        return -1;
      }
      ghost var s1 := TableState();
      PutLeaf(root, v, pt, Present(FrameOf(phys), flags), s0);
      OpenedOn(s0, s1, TableState(), flags);
      if v < USER_PAGES {
        MappedAdmits(s0, TableState(), kernelRoot, root, v, Present(FrameOf(phys), flags));
      }
      return 0;
    }

    /** Write the leaf entry of page `v` in its table. */
    method PutLeaf(root: nat, v: nat, pt: nat, e: Entry, ghost s0: Snapshot)
      requires Valid() && PosOf(root, 1, v) in at && at[PosOf(root, 1, v)] == pt && Changed(s0, TableState())
      modifies this`tables, this`at
      ensures Valid() && kernelRoot == old(kernelRoot) && at == old(at) && pmm.State() == old(pmm.State())
      ensures tables.Keys == old(tables.Keys)
      ensures LeafSet(old(tables), old(at), tables, at, root, v, e)
      ensures Mapped(s0, TableState(), root, v, e)
      ensures forall flags :: OpenedFor(old(TableState()), TableState(), flags)
    {
      hide PageAllocator.Valid;
      hide Tree;
      hide Took;
      hide TablesLive;
      hide PosOf;
      hide Index;
      ghost var s1 := TableState();
      SetLeafOpensNone(tables, at, kernelRoot, root, v, e);
      SameTables(pmm.State(), tables, WithEntry(tables, pt, Index(v, 1), e));
      hide LeafSet;
      hide SameLeaves;
      hide Opened;
      WriteTables(tables, pt, Index(v, 1), e, at);
      ThenSet(s0, s1, TableState(), root, v, e);
    }

    /** `paging_unmap_page` */
    method UnmapPage(root: nat, virt: nat)
      requires Valid() && RootOf(root) in at && OwnPage(root, PageNo(virt))
      modifies this`tables, this`at, this`pageTableCount, pmm, pmm.mem, pmm.lists
      ensures Valid() && kernelRoot == old(kernelRoot) && pmm.State() == old(pmm.State()) && at == old(at)
      ensures tables.Keys == old(tables.Keys)
      ensures !PageAligned(virt) ==> tables == old(tables)
      ensures PageAligned(virt) ==> LeafSet(old(tables), old(at), tables, at, root, PageNo(virt), Absent)
    {
      if virt % PAGE_SIZE != 0 {
        return;
      }
      hide PageAllocator.Valid;
      hide Tree;
      hide Took;
      hide TablesLive;
      hide SameLeaves;
      hide Index;
      var v := PageNo(virt);
      var pt := LookupPt(root, v, false, {});
      if pt == NIL {
        return;
      }
      hide LeafSet;
      Unchanged(TableState());
      PutLeaf(root, v, pt, Absent, TableState());
    }

    /** `paging_virt_to_phys` */
    method VirtToPhys(root: nat, virt: nat) returns (phys: nat)
      requires Valid() && RootOf(root) in at && OwnPage(root, PageNo(virt))
      modifies this`tables, this`at, this`pageTableCount, pmm, pmm.mem, pmm.lists
      ensures Valid() && kernelRoot == old(kernelRoot) && TableState() == old(TableState())
      ensures phys == match Leaf(tables, at, root, PageNo(virt))
                      case Absent => 0
                      case Present(f, _) => f * PAGE_SIZE + virt % PAGE_SIZE
    {
      var leaf := ReadLeaf(root, PageNo(virt));
      match leaf
      case Absent => return 0;
      case Present(f, _) => return f * PAGE_SIZE + virt % PAGE_SIZE;
    }

    /** `paging_get_flags`: the flags of a present leaf. */
    method GetFlags(root: nat, virt: nat) returns (present: bool, flags: set<PFlag>)
      requires Valid() && RootOf(root) in at && OwnPage(root, PageNo(virt))
      modifies this`tables, this`at, this`pageTableCount, pmm, pmm.mem, pmm.lists
      ensures Valid() && kernelRoot == old(kernelRoot) && TableState() == old(TableState())
      ensures present <==> Leaf(tables, at, root, PageNo(virt)).Present?
      ensures flags == if present then Leaf(tables, at, root, PageNo(virt)).flags else {}
    {
      var leaf := ReadLeaf(root, PageNo(virt));
      match leaf
      case Absent => return false, {};
      case Present(_, fl) => return true, fl;
    }

    /** `lookup_leaf` without creation, and the read through it. */
    method ReadLeaf(root: nat, v: nat) returns (e: Entry)
      requires Valid() && RootOf(root) in at && OwnPage(root, v)
      modifies this`tables, this`at, this`pageTableCount, pmm, pmm.mem, pmm.lists
      ensures Valid() && kernelRoot == old(kernelRoot) && TableState() == old(TableState())
      ensures e == Leaf(tables, at, root, v)
    {
      hide PageAllocator.Valid;
      hide Took;
      hide TablesLive;
      hide SameLeaves;
      hide Up;
      hide Changed;
      var pt := LookupPt(root, v, false, {});
      if pt == NIL {
        return Absent;
      }
      assert Stored(tables, at, PosOf(root, 1, v));
      return tables[pt][Index(v, 1)];
    }

    /** `paging_map_range`: whole runs of a table at a time.  `done` pages have been mapped when it returns. */
    method MapRange(root: nat, virt: nat, phys: nat, size: nat, flags: set<PFlag>) returns (rc: int, ghost done: nat)
      requires Valid() && RootOf(root) in at
      requires size > 0 ==> OwnPage(root, PageNo(virt) + (size + PAGE_SIZE - 1) / PAGE_SIZE - 1)
      modifies this`tables, this`at, this`pageTableCount, pmm, pmm.mem, pmm.lists
      ensures Valid() && kernelRoot == old(kernelRoot)
      ensures RangeMapped(old(TableState()), TableState(), root, PageNo(virt), done, phys / PAGE_SIZE, flags)
      ensures rc == 0 ==> done == (size + PAGE_SIZE - 1) / PAGE_SIZE
      ensures rc != 0 ==> rc == -1 && done < (size + PAGE_SIZE - 1) / PAGE_SIZE
      ensures rc != 0 ==> pmm.free == {} || !PageAligned(virt) || !PageAligned(phys)
      ensures OpenedFor(old(TableState()), TableState(), flags)
      ensures forall v: nat | PageNo(virt) <= v < PageNo(virt) + done && v < USER_PAGES ::
        Admits(old(TableState()), TableState(), root, v, flags)
    {
      hide OpenedFor;
      hide Admits;
      NoneOpened(TableState(), flags);
      var pages := (size + PAGE_SIZE - 1) / PAGE_SIZE;
      NoneMapped(TableState(), root, PageNo(virt), phys / PAGE_SIZE, flags);
      if size == 0 {
        return 0, 0;
      }
      if virt % PAGE_SIZE != 0 || phys % PAGE_SIZE != 0 {
        return -1, 0;
      }
      ghost var s0 := TableState();
      rc, done := MapRuns(root, PageNo(virt), phys / PAGE_SIZE, pages, flags);
      RangeAdmits(s0, TableState(), kernelRoot, root, PageNo(virt), done, phys / PAGE_SIZE, flags);
    }

    /** The loop of `paging_map_range`. */
    method MapRuns(root: nat, v0: nat, frame0: nat, total: nat, flags: set<PFlag>) returns (rc: int, ghost done: nat)
      requires Valid() && RootOf(root) in at && total > 0 && OwnPage(root, v0 + total - 1)
      modifies this`tables, this`at, this`pageTableCount, pmm, pmm.mem, pmm.lists
      ensures Valid() && kernelRoot == old(kernelRoot)
      ensures RangeMapped(old(TableState()), TableState(), root, v0, done, frame0, flags)
      ensures (rc == 0 && done == total) || (rc == -1 && done < total && pmm.free == {})
      ensures OpenedFor(old(TableState()), TableState(), flags)
    {
      ghost var s0 := TableState();
      NoneOpened(s0, flags);
      hide OpenedFor;
      NoneMapped(s0, root, v0, frame0, flags);
      hide PageAllocator.Valid;
      hide Tree;
      hide TablesLive;
      hide RangeMapped;
      var v, frame, pages := v0, frame0, total;
      while pages > 0
        invariant 0 <= pages <= total && v == v0 + total - pages && frame == frame0 + total - pages
        invariant Valid() && kernelRoot == old(kernelRoot) && RootOf(root) in at
        invariant RangeMapped(s0, TableState(), root, v0, total - pages, frame0, flags)
        invariant OpenedFor(s0, TableState(), flags)
        decreases pages
      {
        var run := MapRun(root, v, frame, pages, flags, s0, v0, total - pages, frame0);
        if run == 0 {
          return -1, total - pages;
        }
        v, frame, pages := v + run, frame + run, pages - run;
      }
      return 0, total;
    }

    /** One turn of that loop: the entries up to the end of one table, or 0 without a table. */
    method MapRun(root: nat, v: nat, frame: nat, pages: nat, flags: set<PFlag>,
                  ghost s0: Snapshot, ghost v0: nat, ghost done: nat, ghost frame0: nat) returns (run: nat)
      requires Valid() && RootOf(root) in at && pages > 0 && OwnPage(root, v + pages - 1)
      requires v == v0 + done && frame == frame0 + done
      requires RangeMapped(s0, TableState(), root, v0, done, frame0, flags) && OpenedFor(s0, TableState(), flags)
      modifies this`tables, this`at, this`pageTableCount, pmm, pmm.mem, pmm.lists
      ensures OpenedFor(s0, TableState(), flags)
      ensures Valid() && kernelRoot == old(kernelRoot) && RootOf(root) in at
      ensures run <= pages && (run == 0 ==> pmm.free == {})
      ensures RangeMapped(s0, TableState(), root, v0, done + run, frame0, flags)
    {
      hide PageAllocator.Valid;
      hide Tree;
      hide TablesLive;
      hide RangeMapped;
      hide Changed;
      hide PosOf;
      hide Index;
      hide OpenedFor;
      ghost var s1 := TableState();
      var pt := LookupPt(root, v, true, flags);
      OpenedOn(s0, s1, TableState(), flags);
      RangeThenChanged(s0, s1, TableState(), root, v0, done, frame0, flags);
      RootStays(s1, TableState(), root);
      if pt == NIL {
        return 0;
      }
      run := 512 - Index(v, 1);
      if run > pages {
        run := pages;
      }
      FillRun(root, v, pt, run, frame, flags, s0, v0, done, frame0);
    }

    /** The inner loop of `paging_map_range`: `run` neighbouring entries of one table. */
    method FillRun(root: nat, v: nat, pt: nat, run: nat, frame: nat, flags: set<PFlag>,
                   ghost s0: Snapshot, ghost v0: nat, ghost done: nat, ghost frame0: nat)
      requires Valid() && PosOf(root, 1, v) in at && at[PosOf(root, 1, v)] == pt && Index(v, 1) + run <= 512
      requires v == v0 + done && frame == frame0 + done
      requires RangeMapped(s0, TableState(), root, v0, done, frame0, flags) && OpenedFor(s0, TableState(), flags)
      modifies this`tables, this`at
      ensures OpenedFor(s0, TableState(), flags)
      ensures Valid() && kernelRoot == old(kernelRoot) && at == old(at) && pmm.State() == old(pmm.State())
      ensures RangeMapped(s0, TableState(), root, v0, done + run, frame0, flags)
    {
      hide PageAllocator.Valid;
      hide Tree;
      hide TablesLive;
      hide RangeMapped;
      hide Changed;
      hide PosOf;
      hide Index;
      hide LeafSet;
      hide OpenedFor;
      var i := 0;
      while i < run
        invariant i <= run && Valid() && kernelRoot == old(kernelRoot) && at == old(at) && pmm.State() == old(pmm.State())
        invariant RangeMapped(s0, TableState(), root, v0, done + i, frame0, flags) && OpenedFor(s0, TableState(), flags)
      {
        ghost var s1 := TableState();
        SameTable(root, v, i);
        Unchanged(s1);
        PutLeaf(root, v + i, pt, Present((frame + i) % FRAME_MASK, flags), s1);
        OpenedOn(s0, s1, TableState(), flags);
        RangeStep(s0, s1, TableState(), root, v0, done + i, frame0, flags);
        i := i + 1;
      }
    }

    /** `ptable_create`: the root of a new space, or 0. */
    method PtableCreate() returns (root: nat)
      requires Valid()
      modifies this`tables, this`at, this`pageTableCount, pmm, pmm.mem, pmm.lists
      ensures Valid() && kernelRoot == old(kernelRoot)
      ensures root == 0 ==> pmm.free == {} && TableState() == old(TableState())
      ensures root != 0 ==> RootOf(root) !in old(at) && RootOf(root) in at && root != kernelRoot
      ensures Changed(old(TableState()), TableState())
      ensures GrewBy(old(at), at, {RootOf(root)})
      ensures root != 0 ==> root in tables && kernelRoot in old(tables) && RootRow(tables[root], old(tables)[kernelRoot])
      ensures root != 0 ==>
        && |tables[root]| == |old(tables)[kernelRoot]| == 512
        && (forall k: nat | k < 256 :: tables[root][k] == Absent)
        && (forall k: nat | 256 <= k < 512 :: tables[root][k] == old(tables)[kernelRoot][k])
    {
      ghost var s0 := TableState();
      Unchanged(s0);
      NotGrownBy(at, {RootOf(0)});
      hide GrewBy;
      KernelRow(tables, at, kernelRoot);
      hide PageAllocator.Valid;
      hide Tree;
      hide Took;
      hide TablesLive;
      hide SameLeaves;
      root := AllocTable();
      if root == 0 {
        return;
      }
      OneMore(at, RootOf(root), root);
      ghost var row := FillRoot(root, s0);
      NewRoot(s0.tables, s0.at, kernelRoot, root, row);
      AddedRoot(s0, TableState(), root, row);
    }

    /** The new root's entries: zeroes, then the kernel's upper half. */
    method FillRoot(root: nat, ghost s0: Snapshot) returns (row: seq<Entry>)
      requires pmm.Valid() && tables == s0.tables[root := ZeroTable] && at == s0.at
      requires root !in s0.tables && kernelRoot in s0.tables && |s0.tables[kernelRoot]| == 512
      modifies this`tables, this`at
      ensures RootRow(row, s0.tables[kernelRoot])
      ensures tables == s0.tables[root := row] && at == s0.at[RootOf(root) := root] && kernelRoot == old(kernelRoot)
      ensures pmm.Valid() && pmm.State() == old(pmm.State())
    {
      hide PageAllocator.Valid;
      row := tables[root];
      var kernelRow := tables[kernelRoot];
      var i := 256;
      while i < 512
        invariant 256 <= i <= 512 && |row| == 512
        invariant forall k: nat | k < 512 :: row[k] == if 256 <= k < i then kernelRow[k] else Absent
        modifies {}
      {
        row := row[i := kernelRow[i]];
        i := i + 1;
      }
      tables := tables[root := row];
      at := at[RootOf(root) := root];
    }

    /** A consistent state in which the entries of the tables in `hurt` may lead to freed tables. */
    ghost predicate Hurt(hurt: set<Pos>)
      reads this, pmm, pmm.mem, pmm.lists
    {
      && pmm.Valid() && 0 !in pmm.managed
      && Wounded(tables, at, kernelRoot, hurt)
      && TablesLive(pmm.State(), tables)
    }

    /** `destroy_level`: free the tables below `table`. */
    method DestroyLevel(table: nat, level: nat, ghost p: Pos, ghost hurt: set<Pos>)
      requires Hurt(hurt) && p in at && at[p] == table && p.level == level && p.root != kernelRoot
      requires Above(hurt, level)
      requires level < 4
      modifies this`tables, this`at, pmm, pmm.mem, pmm.lists
      ensures Hurt(hurt + {p}) && kernelRoot == old(kernelRoot)
      ensures Pruned(old(TableState()), TableState(), BelowSet(old(at), p, 512))
      decreases level, 2
    {
      if level <= 1 {
        NothingBelow(TableState(), kernelRoot, hurt, p);
        MoreHurt(tables, at, kernelRoot, hurt, p);
        return;
      }
      hide PageAllocator.Valid;
      hide Pruned;
      hide TablesLive;
      hide Wounded;
      DestroyEntries(table, level, 512, p, hurt);
    }

    /** The loop of `destroy_level` and `ptable_destroy` over the first `n` entries. */
    method DestroyEntries(table: nat, level: nat, n: nat, ghost p: Pos, ghost hurt: set<Pos>)
      requires Hurt(hurt) && p in at && at[p] == table && p.level == level > 1 && p.root != kernelRoot
      requires n == 512 || (n == 256 && level == 4)
      requires level <= 4 && (level == 4 ==> n == 256)
      requires Above(hurt, level)
      modifies this`tables, this`at, pmm, pmm.mem, pmm.lists
      ensures Hurt(hurt + {p}) && kernelRoot == old(kernelRoot)
      ensures Pruned(old(TableState()), TableState(), BelowSet(old(at), p, n))
      decreases level, 1
    {
      ghost var s0 := TableState();
      MoreHurt(tables, at, kernelRoot, hurt, p);
      NothingPruned(s0, p);
      var i := 0;
      while i < n
        invariant i <= n && Hurt(hurt + {p}) && kernelRoot == old(kernelRoot)
        invariant Pruned(s0, TableState(), BelowSet(s0.at, p, i))
      {
        DestroyEntry(table, level, i, p, hurt, s0);
        i := i + 1;
      }
    }

    /** One turn of that loop. */
    method DestroyEntry(table: nat, level: nat, i: nat, ghost p: Pos, ghost hurt: set<Pos>, ghost s0: Snapshot)
      requires Hurt(hurt + {p}) && Wounded(s0.tables, s0.at, kernelRoot, hurt)
      requires p in s0.at && s0.at[p] == table && p.level == level > 1 && p.root != kernelRoot
      requires i < 512 && level <= 4 && (level == 4 ==> i < 256) && Above(hurt, level)
      requires Pruned(s0, TableState(), BelowSet(s0.at, p, i))
      modifies this`tables, this`at, pmm, pmm.mem, pmm.lists
      ensures Hurt(hurt + {p}) && kernelRoot == old(kernelRoot)
      ensures Pruned(s0, TableState(), BelowSet(s0.at, p, i + 1))
      decreases level, 0
    {
      ghost var s1 := TableState();
      Deeper(hurt, p, level);
      EntryStill(s0, s1, kernelRoot, hurt, p, i);
      hide PageAllocator.Valid;
      hide Wounded;
      hide Pruned;
      hide TablesLive;
      var entry := tables[table][i];
      if entry.Present? {
        DestroyLevel(entry.frame, level - 1, Child(p, i), hurt + {p});
        ghost var s2 := TableState();
        FreeTable(entry.frame, p, i, hurt, s1);
        ThenUnder(s0, s1, s2, TableState(), p, i);
      }
    }

    /** Give the frame of a table back whose descendants are gone. */
    method FreeTable(child: nat, ghost p: Pos, ghost i: nat, ghost hurt: set<Pos>, ghost s1: Snapshot)
      requires p.level > 1 && i < 512 && p.root != kernelRoot
      requires Hurt(hurt + {p} + {Child(p, i)}) && Child(p, i) in at && at[Child(p, i)] == child
      requires Pruned(s1, TableState(), BelowSet(s1.at, Child(p, i), 512))
      modifies this`tables, this`at, pmm, pmm.mem, pmm.lists
      ensures Hurt(hurt + {p}) && kernelRoot == old(kernelRoot)
      ensures Pruned(old(TableState()), TableState(), {Child(p, i)})
    {
      ghost var c, s2 := Child(p, i), TableState();
      OnlyTop(s1, s2, c);
      RemoveLeafTable(tables, at, kernelRoot, hurt + {p}, p, i);
      ReleaseTable(child, c);
      GoneTable(s2, TableState(), c);
    }

    /** The release of one table frame. */
    method ReleaseTable(child: nat, ghost c: Pos)
      requires pmm.Valid() && 0 !in pmm.managed && TablesLive(pmm.State(), tables)
      requires c in at && at[c] == child && child in tables
      modifies this`tables, this`at, pmm, pmm.mem, pmm.lists
      ensures pmm.Valid() && kernelRoot == old(kernelRoot) && TablesLive(pmm.State(), tables)
      ensures tables == old(tables) - {child} && at == old(at) - {c}
      ensures Gave(old(pmm.State()), pmm.State(), {child})
    {
      Apart();
      pmm.LivePage(child);
      ghost var d0, t0, a0 := pmm.State(), tables, at;
      hide PageAllocator.Valid;
      if child < pmm.mem.Length && FreeLists.Reserved !in pmm.mem[child].flags {
        var r := pmm.FreePage(child);
      }
      ReleasedSingle(d0, pmm.State(), child);
      GaveTables(d0, pmm.State(), t0, child);
      hide TablesLive;
      hide Gave;
      DropTable(child, c, t0, a0);
    }

    method DropTable(child: nat, ghost c: Pos, ghost t0: Tables, ghost a0: Layout)
      requires pmm.Valid() && tables == t0 && at == a0
      modifies this`tables, this`at
      ensures tables == t0 - {child} && at == a0 - {c} && kernelRoot == old(kernelRoot)
      ensures pmm.Valid() && pmm.State() == old(pmm.State())
    {
      hide PageAllocator.Valid;
      tables := tables - {child};
      at := at - {c};
    }

    /** `ptable_destroy`: every table of the space's lower half and its root go back, and no other. */
    method PtableDestroy(root: nat)
      requires Valid() && RootOf(root) in at && root != kernelRoot
      modifies this`tables, this`at, pmm, pmm.mem, pmm.lists
      ensures Valid() && kernelRoot == old(kernelRoot)
      ensures Pruned(old(TableState()), TableState(), set q | q in old(at) && q.root == root)
    {
      ghost var s0, p := TableState(), RootOf(root);
      NothingHurt(p);
      hide PageAllocator.Valid;
      hide Pruned;
      hide Tree;
      hide BelowSet;
      hide Hurt;
      DestroyEntries(root, 4, 256, p, {});
      DropRoot(root, s0, p);
    }

    lemma NothingHurt(p: Pos)
      requires Valid() && p == RootOf(p.root) && p in at
      ensures Hurt({}) && Above({}, 4) && Tree(tables, at, kernelRoot) && at[p] == p.root
      ensures RootOf(kernelRoot) in at && {} + {p} == {p}
    {
      TreeIsWounded(tables, at, kernelRoot, p);
      hide PageAllocator.Valid;
      hide TablesLive;
      hide Wounded;
    }

    /** The end of `ptable_destroy`: the root itself goes. */
    method DropRoot(root: nat, ghost s0: Snapshot, ghost p: Pos)
      requires Hurt({p}) && p == RootOf(root) && p in s0.at && RootOf(kernelRoot) in s0.at && root != kernelRoot && Tree(s0.tables, s0.at, kernelRoot)
      requires Pruned(s0, TableState(), BelowSet(s0.at, p, 256))
      modifies this`tables, this`at, pmm, pmm.mem, pmm.lists
      ensures Valid() && kernelRoot == old(kernelRoot)
      ensures Pruned(s0, TableState(), set q | q in s0.at && q.root == root)
    {
      hide PageAllocator.Valid;
      hide Pruned;
      hide TablesLive;
      hide Wounded;
      hide Tree;
      hide BelowSet;
      ghost var s1 := TableState();
      RootAlone(s0, s1, kernelRoot, p);
      ReleaseTable(root, p);
      GoneTable(s1, TableState(), p);
      PrunedTwice(s0, s1, TableState(), BelowSet(s0.at, p, 256), {p});
      HealedTree(s1, TableState(), kernelRoot, p);
      OthersStay(s0, TableState(), (set q | q in s0.at && q.root == root), RootOf(kernelRoot));
    }
  }

  /** Every table is a single-frame allocation with one reference. */
  ghost predicate TablesLive(d: Database, tables: Tables) {
    forall t | t in tables :: t in d.live && d.live[t] == 0 && t < |d.mem| && d.mem[t].refcount == 1 && t !in d.free
  }

  /** The two writes of `next_table` amount to growing the tree. */
  lemma Linking(a: Snapshot, b: Snapshot, kroot: nat, t: nat, p: Pos, k: nat, f: nat, flags: set<PFlag>, asked: set<PFlag>)
    requires Tree(a.tables, a.at, kroot) && p in a.at && a.at[p] == t && p.level > 1 && k < 512
    requires !KernelShared(p, k, kroot) && Child(p, k) !in a.at
    requires f !in a.tables && t in a.tables && k < |a.tables[t]|
    requires b.tables == a.tables[f := ZeroTable][t := a.tables[t][k := Present(f, flags)]] && b.at == a.at[Child(p, k) := f]
    requires Took(a.frames, b.frames, {f}) && TablesLive(b.frames, a.tables[f := ZeroTable])
    requires OpenEntry(Present(f, flags), asked)
    ensures Tree(b.tables, b.at, kroot) && Changed(a, b) && TablesLive(b.frames, b.tables)
    ensures OpenedFor(a, b, asked)
  {
    hide Tree;
    hide Took;
    EntryMeansTable(a.tables, a.at, kroot, p, k);
    GrowTree(a.tables, a.at, kroot, p, k, f, flags);
    assert b.tables == WithEntry(a.tables, t, k, Present(f, flags))[f := ZeroTable];
    GrowOpens(a.tables, a.at, b.tables, b.at, p, k, f, flags, asked);
    hide Grown;
    hide OpenEntry;
    assert b.tables.Keys - a.tables.Keys == {f};
    assert forall x | x in b.tables :: x in a.tables[f := ZeroTable].Keys;
  }

  /** Writing a leaf entry opens no table. */
  lemma SetLeafOpensNone(tables: Tables, at: Layout, kroot: nat, r: nat, v: nat, e: Entry)
    requires Tree(tables, at, kroot) && PosOf(r, 1, v) in at
    ensures Stored(tables, at, PosOf(r, 1, v))
    ensures var tables' := WithEntry(tables, at[PosOf(r, 1, v)], Index(v, 1), e);
      && tables'.Keys == tables.Keys && Tree(tables', at, kroot) && LeafSet(tables, at, tables', at, r, v, e)
      && forall flags :: Opened(tables, at, tables', at, flags)
  {
    SetLeaf(tables, at, kroot, r, v, e);
  }

  lemma SameTables(d: Database, a: Tables, b: Tables)
    requires TablesLive(d, a) && a.Keys == b.Keys
    ensures TablesLive(d, b)
  {
    assert forall t | t in b :: t in a.Keys;
  }

  /** The chain of tables that serves page `v`. */
  lemma LookupFacts(tables: Tables, at: Layout, kroot: nat, r: nat, v: nat)
    requires Tree(tables, at, kroot) && v < PAGES && (v < USER_PAGES || r == kroot)
    ensures PosOf(r, 4, v) == RootOf(r) && !KernelShared(RootOf(r), Index(v, 4), kroot)
    ensures RootOf(r) in at ==> at[RootOf(r)] == r
    ensures Child(PosOf(r, 4, v), Index(v, 4)) == PosOf(r, 3, v)
    ensures Child(PosOf(r, 3, v), Index(v, 3)) == PosOf(r, 2, v)
    ensures Child(PosOf(r, 2, v), Index(v, 2)) == PosOf(r, 1, v)
    ensures PosOf(r, 1, v) in at ==> PosOf(r, 2, v) in at
    ensures PosOf(r, 2, v) in at ==> PosOf(r, 3, v) in at
    ensures PosOf(r, 3, v) in at ==> PosOf(r, 4, v) in at
  {
    UpBound(v);
    if RootOf(r) in at {
      assert Stored(tables, at, RootOf(r));
    }
    PosOfChild(r, 4, v);
    PosOfChild(r, 3, v);
    PosOfChild(r, 2, v);
    hide Up;
    hide Index;
    assert UpOk(tables, at, kroot, PosOf(r, 1, v));
    assert UpOk(tables, at, kroot, PosOf(r, 2, v));
    assert UpOk(tables, at, kroot, PosOf(r, 3, v));
  }

  lemma LoneRoot(tables: Tables, at: Layout, root: nat)
    requires tables == map[root := ZeroTable] && at == map[RootOf(root) := root]
    ensures Tree(tables, at, root) && forall r: nat, v: nat :: Leaf(tables, at, r, v) == Absent
  {
    assert at[RootOf(root)] == root;
  }

  lemma CowIsNoMark(page: FreeLists.Page, entry: FreeLists.Page)
    requires Unmarked(page)
    requires entry.flags in {page.flags, page.flags + {FreeLists.Cow}, page.flags - {FreeLists.Cow}}
    ensures Unmarked(entry)
  {
  }

  lemma BlockTables(a: Database, b: Database, tables: Tables, p: nat, o: nat)
    requires TablesLive(a, tables) && TookBlock(a, b, p, o) && forall f | f in a.live :: f !in a.free
    ensures TablesLive(b, tables)
  {
  }

  lemma ReleasedTables(a: Database, b: Database, tables: Tables, p: nat)
    requires TablesLive(a, tables) && Released(a, b, p) && p !in tables
    requires forall f | f in b.live :: f !in b.free
    ensures TablesLive(b, tables)
  {
  }

  lemma TookTables(a: Database, b: Database, tables: Tables, N: set<nat>)
    requires TablesLive(a, tables) && Took(a, b, N)
    ensures TablesLive(b, tables) && N !! tables.Keys
    ensures forall t | t in N :: t in b.live && b.live[t] == 0 && t < |b.mem| && b.mem[t].refcount == 1 && t !in b.free
  {
  }
}
