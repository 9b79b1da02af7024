/** The four-level page-table tree on values (kernel/src/mm/paging.c:18-118, 223-282; the split of a
    linear address is that of the Intel SDM, Volume 3A, section 4.5).
    Tables are named by the frame that stores them; a page is named by its 36-bit page number.  */
module PageTree {
  datatype PFlag = Write | User | Global | Nx

  datatype Entry = Absent | Present(frame: nat, flags: set<PFlag>)

  /** What a table is for: its space, its level (4 is the root) and the page-number prefix it serves. */
  datatype Pos = Pos(root: nat, level: nat, prefix: nat)

  type Tables = map<nat, seq<Entry>>

  /** Where the table of each position is stored. */
  type Layout = map<Pos, nat>

  const PAGES: nat := 0x10_0000_0000      // 2^36 page numbers
  const USER_PAGES: nat := 0x8_0000_0000  // page numbers below 2^35 are the lower half

  /** The page number of a 64-bit address: the four nine-bit fields, without the sign extension. */
  function PageNo(virt: nat): nat {
    (virt / 0x1000) % PAGES
  }

  /** The page number without its lowest `l` nine-bit fields. */
  function Up(v: nat, l: nat): nat {
    if l == 0 then v else Up(v, l - 1) / 512
  }

  /** `pml4_index`, `pdpt_index`, `pd_index` and `pt_index` for levels 4, 3, 2 and 1. */
  function Index(v: nat, l: nat): (k: nat)
    requires l >= 1
    ensures k < 512
  {
    Up(v, l - 1) % 512
  }

  function RootOf(r: nat): Pos {
    Pos(r, 4, 0)
  }

  function Child(p: Pos, k: nat): Pos
    requires p.level > 0
  {
    Pos(p.root, p.level - 1, p.prefix * 512 + k)
  }

  function Parent(p: Pos): Pos {
    Pos(p.root, p.level + 1, p.prefix / 512)
  }

  /** The position of the level-`l` table that serves page `v` of space `r`. */
  function PosOf(r: nat, l: nat, v: nat): Pos {
    Pos(r, l, Up(v, l))
  }

  /** The positions of the tables below the root that serve page `v`. */
  ghost function PathTo(r: nat, v: nat): set<Pos> {
    {PosOf(r, 3, v), PosOf(r, 2, v), PosOf(r, 1, v)}
  }

  /** No table has gone, and new ones are only at positions in `P`. */
  ghost predicate GrewBy(at: Layout, at': Layout, P: set<Pos>) {
    at.Keys <= at'.Keys && forall p | p in at' :: p in at || p in P
  }

  lemma NotGrownBy(at: Layout, P: set<Pos>)
    ensures GrewBy(at, at, P)
  {
  }

  lemma OneMore(at: Layout, p: Pos, f: nat)
    ensures p !in at ==> GrewBy(at, at[p := f], {p})
  {
  }

  lemma GrewTwice(at: Layout, at1: Layout, at2: Layout, P: set<Pos>, Q: set<Pos>, R: set<Pos>)
    requires GrewBy(at, at1, P) && GrewBy(at1, at2, Q) && P <= R && Q <= R
    ensures GrewBy(at, at2, R)
  {
  }

  const ZeroTable: seq<Entry> := seq(512, _ => Absent)

  /** A root entry in the upper half that a space shares with the kernel. */
  predicate KernelShared(p: Pos, k: nat, kroot: nat) {
    p.level == 4 && p.root != kroot && k >= 256
  }

  /** What a present entry of an interior table leads to. */
  ghost predicate LeadsTo(at: Layout, kroot: nat, p: Pos, k: nat, f: nat) {
    if p.level <= 1 then true
    else if KernelShared(p, k, kroot) then Pos(kroot, 3, k) in at && at[Pos(kroot, 3, k)] == f
    else Child(p, k) in at && at[Child(p, k)] == f
  }

  ghost predicate Stored(tables: Tables, at: Layout, p: Pos) {
    && p in at && at[p] in tables && |tables[at[p]]| == 512
    && 1 <= p.level <= 4 && (p.level == 4 ==> p == RootOf(at[p]))
  }

  /** Entry `k` of the table at `p`. */
  function EntryAt(tables: Tables, at: Layout, p: Pos, k: nat): Entry {
    if p in at && at[p] in tables && k < |tables[at[p]]| then tables[at[p]][k] else Absent
  }

  /** Present entries lead to the tables below, and do not forbid writing there. */
  ghost predicate DownOk(tables: Tables, at: Layout, kroot: nat, p: Pos) {
    forall k: nat | k < 512 && EntryAt(tables, at, p, k).Present? ::
      && LeadsTo(at, kroot, p, k, EntryAt(tables, at, p, k).frame)
      && (p.level > 1 ==> Write in EntryAt(tables, at, p, k).flags)
  }

  /** A table below the root hangs on the entry of its parent that serves it. */
  ghost predicate UpOk(tables: Tables, at: Layout, kroot: nat, p: Pos) {
    p in at && p.level < 4 ==>
      && Parent(p) in at
      && EntryAt(tables, at, Parent(p), p.prefix % 512).Present?
      && EntryAt(tables, at, Parent(p), p.prefix % 512).frame == at[p]
      && (p.level == 3 ==> p.prefix < 512 && (p.root != kroot ==> p.prefix < 256))
  }

  ghost predicate Injective(at: Layout) {
    forall p, q | p in at && q in at && at[p] == at[q] :: p == q
  }

  /** The tables form one tree per root, no table is in two places, and there are no others. */
  ghost predicate Tree(tables: Tables, at: Layout, kroot: nat) {
    && (forall p | p in at :: Stored(tables, at, p))
    && (forall p | p in at :: DownOk(tables, at, kroot, p))
    && (forall p | p in at :: UpOk(tables, at, kroot, p))
    && Injective(at)
    && (forall t | t in tables :: t in at.Values)
  }

  /** The positions keep their tables. */
  ghost predicate Extends(at: Layout, at': Layout) {
    forall p | p in at :: p in at' && at'[p] == at[p]
  }

  /** The leaf entry of page `v` in space `r`: the map that the tree stands for. */
  ghost function Leaf(tables: Tables, at: Layout, r: nat, v: nat): Entry {
    EntryAt(tables, at, PosOf(r, 1, v), Index(v, 1))
  }

  /** The translation that the hardware makes: four table lookups from the root, knowing nothing of positions. */
  function Walk(tables: Tables, t: nat, l: nat, v: nat): Entry
    decreases l
  {
    if l == 0 || t !in tables || |tables[t]| != 512 then Absent
    else if l == 1 then tables[t][Index(v, 1)]
    else
      match tables[t][Index(v, l)]
      case Absent => Absent
      case Present(f, _) => Walk(tables, f, l - 1, v)
  }

  /** Whether the hardware lets an access through that needs flag `x` (Intel SDM, Volume 3A, section 4.6):
      every entry that the walk uses must have it. */
  predicate Permits(tables: Tables, t: nat, l: nat, v: nat, x: PFlag)
    decreases l
  {
    if l == 0 || t !in tables || |tables[t]| != 512 then false
    else
      match tables[t][Index(v, l)]
      case Absent => false
      case Present(f, flags) => x in flags && (l > 1 ==> Permits(tables, f, l - 1, v, x))
  }

  /** The entry at level `l` that serves page `v`. */
  ghost function PathEntry(tables: Tables, at: Layout, r: nat, v: nat, l: nat): Entry
    requires l >= 1
  {
    EntryAt(tables, at, PosOf(r, l, v), Index(v, l))
  }

  lemma PosOfChild(r: nat, l: nat, v: nat)
    requires l >= 1
    ensures Child(PosOf(r, l, v), Index(v, l)) == PosOf(r, l - 1, v)
    ensures Parent(PosOf(r, l - 1, v)) == PosOf(r, l, v) && PosOf(r, l - 1, v).prefix % 512 == Index(v, l)
  {
  }

  lemma ParentOfChild(p: Pos, k: nat)
    requires p.level > 0 && k < 512
    ensures Parent(Child(p, k)) == p && Child(p, k).prefix % 512 == k
  {
  }

  lemma UpBound(v: nat)
    ensures v < PAGES ==> Up(v, 4) == 0
    ensures v < USER_PAGES ==> Index(v, 4) < 256
  {
    assert Up(v, 1) == v / 512;
    assert Up(v, 2) == v / 512 / 512;
    assert Up(v, 3) == v / 512 / 512 / 512;
  }

  /** The index helpers shift the whole address; the page number keeps all that they look at. */
  lemma IndexOfAddress(virt: nat)
    ensures Index(PageNo(virt), 4) == (virt / 0x80_0000_0000) % 512
    ensures Index(PageNo(virt), 3) == (virt / 0x4000_0000) % 512
    ensures Index(PageNo(virt), 2) == (virt / 0x20_0000) % 512
    ensures Index(PageNo(virt), 1) == (virt / 0x1000) % 512
  {
    var v := PageNo(virt);
    var w := virt / 0x1000;
    assert Up(v, 0) == v && Up(v, 1) == v / 512 && Up(v, 2) == Up(v, 1) / 512 && Up(v, 3) == Up(v, 2) / 512;
    Drop36(w);
    Drop27(w / 512);
    Drop18(w / 512 / 512);
    assert virt / 0x20_0000 == w / 512;
    assert virt / 0x4000_0000 == virt / 0x20_0000 / 512;
    assert virt / 0x80_0000_0000 == virt / 0x4000_0000 / 512;
  }

  lemma Drop36(w: nat)
    ensures (w % 0x10_0000_0000) / 512 == (w / 512) % 0x800_0000
    ensures (w % 0x10_0000_0000) % 512 == w % 512
  {
  }

  lemma Drop27(w: nat)
    ensures (w % 0x800_0000) / 512 == (w / 512) % 0x4_0000
    ensures (w % 0x800_0000) % 512 == w % 512
  {
  }

  lemma Drop18(w: nat)
    ensures (w % 0x4_0000) / 512 == (w / 512) % 512
    ensures (w % 0x4_0000) % 512 == w % 512
  {
  }

  /** On the lower half the hardware's walk and the map agree, for every root. */
  lemma {:induction false} WalkIsLeaf(tables: Tables, at: Layout, kroot: nat, r: nat, l: nat, v: nat)
    requires Tree(tables, at, kroot) && 1 <= l <= 4 && v < USER_PAGES
    requires PosOf(r, l, v) in at
    ensures Walk(tables, at[PosOf(r, l, v)], l, v) == Leaf(tables, at, r, v)
  {
    var p := PosOf(r, l, v);
    UpBound(v);
    assert Stored(tables, at, p);
    hide Up;
    hide Index;
    if l > 1 {
      PosOfChild(r, l, v);
      var e := EntryAt(tables, at, p, Index(v, l));
      assert DownOk(tables, at, kroot, p);
      hide Tree;
      if e.Present? {
        assert LeadsTo(at, kroot, p, Index(v, l), e.frame);
        WalkIsLeaf(tables, at, kroot, r, l - 1, v);
      } else {
        NoTableBelow(tables, at, kroot, r, l - 1, v);
      }
    }
  }

  ghost predicate Allows(tables: Tables, at: Layout, r: nat, v: nat, l: nat, x: PFlag)
    requires l >= 1
  {
    PathEntry(tables, at, r, v, l).Present? && x in PathEntry(tables, at, r, v, l).flags
  }

  lemma PermitsStep(tables: Tables, at: Layout, kroot: nat, r: nat, l: nat, v: nat, x: PFlag)
    requires Tree(tables, at, kroot) && 1 <= l <= 4 && v < USER_PAGES && PosOf(r, l, v) in at
    ensures l == 1 || !Allows(tables, at, r, v, l, x) ==>
      Permits(tables, at[PosOf(r, l, v)], l, v, x) == Allows(tables, at, r, v, l, x)
    ensures l > 1 && Allows(tables, at, r, v, l, x) ==>
      && PosOf(r, l - 1, v) in at
      && Permits(tables, at[PosOf(r, l, v)], l, v, x) == Permits(tables, at[PosOf(r, l - 1, v)], l - 1, v, x)
  {
    var p := PosOf(r, l, v);
    UpBound(v);
    assert Stored(tables, at, p) && DownOk(tables, at, kroot, p);
    hide Tree;
    PosOfChild(r, l, v);
    hide Up;
    hide Index;
    var e := PathEntry(tables, at, r, v, l);
    assert e == tables[at[p]][Index(v, l)];
    assert e.Present? ==> LeadsTo(at, kroot, p, Index(v, l), e.frame);
    hide EntryAt;
    hide DownOk;
  }

  /** The hardware permits what the entries of all four levels permit. */
  lemma PermitsIsPath(tables: Tables, at: Layout, kroot: nat, r: nat, v: nat, x: PFlag)
    requires Tree(tables, at, kroot) && v < USER_PAGES && RootOf(r) in at
    ensures Permits(tables, r, 4, v, x) <==>
      && Allows(tables, at, r, v, 4, x) && Allows(tables, at, r, v, 3, x)
      && Allows(tables, at, r, v, 2, x) && Allows(tables, at, r, v, 1, x)
  {
    RootStored(tables, at, kroot, r, v);
    hide *;
    PermitsStep(tables, at, kroot, r, 4, v, x);
    if Allows(tables, at, r, v, 4, x) {
      PermitsStep(tables, at, kroot, r, 3, v, x);
      if Allows(tables, at, r, v, 3, x) {
        PermitsStep(tables, at, kroot, r, 2, v, x);
        if Allows(tables, at, r, v, 2, x) {
          PermitsStep(tables, at, kroot, r, 1, v, x);
        }
      }
    }
  }

  /** Above a present leaf every entry is present and lets writes through. */
  lemma {:induction false} AboveLeaf(tables: Tables, at: Layout, kroot: nat, r: nat, v: nat, l: nat)
    requires Tree(tables, at, kroot) && Leaf(tables, at, r, v).Present? && 1 <= l <= 4
    ensures PosOf(r, l, v) in at
    ensures PathEntry(tables, at, r, v, l).Present? && (l > 1 ==> Write in PathEntry(tables, at, r, v, l).flags)
  {
    TableAbove(tables, at, kroot, r, 1, l, v);
    if l > 1 {
      TableAbove(tables, at, kroot, r, 1, l - 1, v);
      PosOfChild(r, l, v);
      assert UpOk(tables, at, kroot, PosOf(r, l - 1, v)) && DownOk(tables, at, kroot, PosOf(r, l, v));
    }
  }

  /** All entries above the leaf of page `v` that are present let user mode through. */
  ghost predicate UserPath(tables: Tables, at: Layout, r: nat, v: nat) {
    forall l: nat | 2 <= l <= 4 && PathEntry(tables, at, r, v, l).Present? :: User in PathEntry(tables, at, r, v, l).flags
  }

  /** What a present leaf permits in the end: writes if it says so itself, user mode only if all above agree. */
  lemma LeafPermits(tables: Tables, at: Layout, kroot: nat, r: nat, v: nat)
    requires Tree(tables, at, kroot) && v < USER_PAGES && Leaf(tables, at, r, v).Present?
    ensures RootOf(r) in at
    ensures Permits(tables, r, 4, v, Write) <==> Write in Leaf(tables, at, r, v).flags
    ensures Permits(tables, r, 4, v, User) <==> User in Leaf(tables, at, r, v).flags && UserPath(tables, at, r, v)
  {
    AboveLeaf(tables, at, kroot, r, v, 2);
    AboveLeaf(tables, at, kroot, r, v, 3);
    AboveLeaf(tables, at, kroot, r, v, 4);
    RootAbove(tables, at, kroot, PosOf(r, 4, v));
    PathAllows(tables, at, r, v);
    hide *;
    PermitsIsPath(tables, at, kroot, r, v, Write);
    PermitsIsPath(tables, at, kroot, r, v, User);
  }

  lemma PathAllows(tables: Tables, at: Layout, r: nat, v: nat)
    requires forall l: nat | l == 2 || l == 3 || l == 4 :: PathEntry(tables, at, r, v, l).Present?
    requires Leaf(tables, at, r, v).Present?
    ensures UserPath(tables, at, r, v) <==>
      Allows(tables, at, r, v, 4, User) && Allows(tables, at, r, v, 3, User) && Allows(tables, at, r, v, 2, User)
    ensures forall x :: Allows(tables, at, r, v, 1, x) <==> x in Leaf(tables, at, r, v).flags
    ensures forall l: nat | l == 2 || l == 3 || l == 4 ::
      Allows(tables, at, r, v, l, Write) <==> Write in PathEntry(tables, at, r, v, l).flags
  {
    hide EntryAt;
    hide Index;
    hide Up;
  }

  /** Interior entries keep what they are; those that have appeared let writes through, and user mode
      exactly if `flags` does. */
  ghost predicate Opened(tables: Tables, at: Layout, tables': Tables, at': Layout, flags: set<PFlag>) {
    forall q: Pos, j: nat | q.level > 1 ::
      || EntryAt(tables', at', q, j) == EntryAt(tables, at, q, j)
      || (EntryAt(tables, at, q, j).Absent? && OpenEntry(EntryAt(tables', at', q, j), flags))
  }

  predicate OpenEntry(e: Entry, flags: set<PFlag>) {
    e.Present? && Write in e.flags && (User in e.flags <==> User in flags) && e.flags <= {Write, User}
  }

  lemma NothingOpened(tables: Tables, at: Layout, flags: set<PFlag>)
    ensures Opened(tables, at, tables, at, flags)
  {
  }

  lemma OpenedTwice(tables: Tables, at: Layout, tables1: Tables, at1: Layout, tables2: Tables, at2: Layout, flags: set<PFlag>)
    requires Opened(tables, at, tables1, at1, flags) && Opened(tables1, at1, tables2, at2, flags)
    ensures Opened(tables, at, tables2, at2, flags)
  {
    hide EntryAt;
  }

  /** What a page that has just been mapped permits: writes exactly if asked for, and user mode exactly if
      asked for and not forbidden by a table that was there before. */
  lemma MappedPermits(tables: Tables, at: Layout, tables': Tables, at': Layout, kroot: nat, r: nat, v: nat, flags: set<PFlag>)
    requires Tree(tables', at', kroot) && v < USER_PAGES && Opened(tables, at, tables', at', flags)
    requires Leaf(tables', at', r, v).Present? && Leaf(tables', at', r, v).flags == flags
    ensures Permits(tables', r, 4, v, Write) <==> Write in flags
    ensures Permits(tables', r, 4, v, User) <==> User in flags && UserPath(tables, at, r, v)
  {
    hide Tree;
    hide Permits;
    hide Opened;
    hide PathEntry;
    hide Leaf;
    LeafPermits(tables', at', kroot, r, v);
    OpenedAt(tables, at, tables', at', kroot, r, v, flags, 2);
    OpenedAt(tables, at, tables', at', kroot, r, v, flags, 3);
    OpenedAt(tables, at, tables', at', kroot, r, v, flags, 4);
  }

  lemma OpenedAt(tables: Tables, at: Layout, tables': Tables, at': Layout, kroot: nat, r: nat, v: nat, flags: set<PFlag>, l: nat)
    requires Tree(tables', at', kroot) && Opened(tables, at, tables', at', flags) && 2 <= l <= 4
    requires Leaf(tables', at', r, v).Present?
    ensures PathEntry(tables', at', r, v, l).Present?
    ensures PathEntry(tables, at, r, v, l).Present? ==> PathEntry(tables', at', r, v, l) == PathEntry(tables, at, r, v, l)
    ensures PathEntry(tables, at, r, v, l).Absent? ==> (User in PathEntry(tables', at', r, v, l).flags <==> User in flags)
  {
    AboveLeaf(tables', at', kroot, r, v, l);
    hide Tree;
    hide EntryAt;
    hide Up;
    hide Index;
  }

  /** It happens that it is forbidden: page 0 is mapped first, for the kernel only, where there were no tables,
      then its neighbour for user mode; the walk finds the neighbour and does not let user mode through. */
  lemma SupervisorFirst(tables: Tables, at: Layout, tables1: Tables, at1: Layout, tables2: Tables, at2: Layout, kroot: nat, r: nat)
    requires Tree(tables1, at1, kroot) && Tree(tables2, at2, kroot)
    requires EntryAt(tables, at, RootOf(r), 0).Absent?
    requires Opened(tables, at, tables1, at1, {Write}) && Leaf(tables1, at1, r, 0).Present?
    requires Opened(tables1, at1, tables2, at2, {Write, User})
    requires Leaf(tables2, at2, r, 1).Present? && Leaf(tables2, at2, r, 1).flags == {Write, User}
    ensures Walk(tables2, r, 4, 1) == Leaf(tables2, at2, r, 1) && !Permits(tables2, r, 4, 1, User)
  {
    FirstEntry(r);
    AboveLeaf(tables1, at1, kroot, r, 0, 4);
    assert PathEntry(tables1, at1, r, 1, 4) == PathEntry(tables1, at1, r, 0, 4) == EntryAt(tables1, at1, RootOf(r), 0);
    assert RootOf(r).level > 1;
    assert User !in PathEntry(tables1, at1, r, 1, 4).flags && !UserPath(tables1, at1, r, 1);
    hide *;
    MappedPermits(tables1, at1, tables2, at2, kroot, r, 1, {Write, User});
    RootStored(tables2, at2, kroot, r, 1);
    WalkIsLeaf(tables2, at2, kroot, r, 4, 1);
  }

  /** Pages 0 and 1 have the same entry of the root. */
  lemma FirstEntry(r: nat)
    ensures PosOf(r, 4, 0) == PosOf(r, 4, 1) == RootOf(r) && Index(0, 4) == Index(1, 4) == 0
  {
    UpBound(0);
    UpBound(1);
    assert Up(0, 0) == 0 && Up(1, 0) == 1 && Up(0, 3) == 0 && Up(1, 1) == 0 && Up(1, 2) == 0 && Up(1, 3) == 0;
  }

  /** Mapping other pages changes nothing in what a page permits that keeps its leaf. */
  lemma OthersPermit(tables: Tables, at: Layout, tables': Tables, at': Layout, kroot: nat, r: nat, v: nat, flags: set<PFlag>, x: PFlag)
    requires Tree(tables, at, kroot) && Tree(tables', at', kroot) && v < USER_PAGES && Opened(tables, at, tables', at', flags)
    requires RootOf(r) in at && RootOf(r) in at' && Leaf(tables', at', r, v) == Leaf(tables, at, r, v)
    ensures Permits(tables', r, 4, v, x) == Permits(tables, r, 4, v, x)
  {
    assert PathEntry(tables, at, r, v, 1) == Leaf(tables, at, r, v);
    assert PathEntry(tables', at', r, v, 1) == Leaf(tables', at', r, v);
    hide *;
    PermitsIsPath(tables, at, kroot, r, v, x);
    PermitsIsPath(tables', at', kroot, r, v, x);
    if Leaf(tables, at, r, v).Present? {
      StaysOpen(tables, at, tables', at', kroot, r, v, flags, 2, x);
      StaysOpen(tables, at, tables', at', kroot, r, v, flags, 3, x);
      StaysOpen(tables, at, tables', at', kroot, r, v, flags, 4, x);
    }
    SameAllows(tables, at, tables', at', r, v, x);
  }

  lemma StaysOpen(tables: Tables, at: Layout, tables': Tables, at': Layout, kroot: nat, r: nat, v: nat, flags: set<PFlag>, l: nat, x: PFlag)
    requires Tree(tables, at, kroot) && Opened(tables, at, tables', at', flags) && 2 <= l <= 4
    requires Leaf(tables, at, r, v).Present?
    ensures Allows(tables', at', r, v, l, x) == Allows(tables, at, r, v, l, x)
  {
    AboveLeaf(tables, at, kroot, r, v, l);
  }

  lemma SameAllows(tables: Tables, at: Layout, tables': Tables, at': Layout, r: nat, v: nat, x: PFlag)
    requires PathEntry(tables, at, r, v, 1) == PathEntry(tables', at', r, v, 1)
    ensures Allows(tables', at', r, v, 1, x) == Allows(tables, at, r, v, 1, x)
    ensures Allows(tables, at, r, v, 1, x) ==> PathEntry(tables, at, r, v, 1).Present?
  {
  }

  lemma RootStored(tables: Tables, at: Layout, kroot: nat, r: nat, v: nat)
    requires Tree(tables, at, kroot) && v < PAGES && RootOf(r) in at
    ensures PosOf(r, 4, v) == RootOf(r) && at[RootOf(r)] == r
  {
    UpBound(v);
    assert Stored(tables, at, RootOf(r));
  }

  lemma OneAbove(tables: Tables, at: Layout, kroot: nat, r: nat, l: nat, v: nat)
    requires Tree(tables, at, kroot) && 1 <= l < 4 && PosOf(r, l, v) in at
    ensures PosOf(r, l + 1, v) in at
  {
    PosOfChild(r, l + 1, v);
    assert UpOk(tables, at, kroot, PosOf(r, l, v));
  }

  /** Without a table at some level there is none at any lower level. */
  lemma {:induction false} TableAbove(tables: Tables, at: Layout, kroot: nat, r: nat, l: nat, l': nat, v: nat)
    requires Tree(tables, at, kroot) && 1 <= l <= l' <= 4
    requires PosOf(r, l, v) in at
    ensures PosOf(r, l', v) in at
    decreases l' - l
  {
    hide *;
    if l < l' {
      OneAbove(tables, at, kroot, r, l, v);
      TableAbove(tables, at, kroot, r, l + 1, l', v);
    }
  }

  /** No table is without its root. */
  lemma {:induction false} RootAbove(tables: Tables, at: Layout, kroot: nat, p: Pos)
    requires Tree(tables, at, kroot) && p in at
    ensures RootOf(p.root) in at
    decreases 4 - p.level
  {
    assert Stored(tables, at, p) && UpOk(tables, at, kroot, p);
    if p.level < 4 {
      RootAbove(tables, at, kroot, Parent(p));
    }
  }

  lemma NoTableBelow(tables: Tables, at: Layout, kroot: nat, r: nat, l: nat, v: nat)
    requires Tree(tables, at, kroot) && 1 <= l < 4
    requires EntryAt(tables, at, PosOf(r, l + 1, v), Index(v, l + 1)).Absent?
    ensures PosOf(r, 1, v) !in at && PosOf(r, l, v) !in at
  {
    PosOfChild(r, l + 1, v);
    assert UpOk(tables, at, kroot, PosOf(r, l, v));
    if PosOf(r, 1, v) in at {
      TableAbove(tables, at, kroot, r, 1, l, v);
    }
  }

  /** An interior entry is present exactly when the table below exists, and then leads to it. */
  lemma EntryMeansTable(tables: Tables, at: Layout, kroot: nat, p: Pos, k: nat)
    requires Tree(tables, at, kroot) && p in at && p.level > 1 && k < 512 && !KernelShared(p, k, kroot)
    ensures Stored(tables, at, p) && EntryAt(tables, at, p, k) == tables[at[p]][k]
    ensures EntryAt(tables, at, p, k).Present? <==> Child(p, k) in at
    ensures EntryAt(tables, at, p, k).Present? ==> EntryAt(tables, at, p, k).frame == at[Child(p, k)]
  {
    ParentOfChild(p, k);
    assert Stored(tables, at, p) && DownOk(tables, at, kroot, p) && UpOk(tables, at, kroot, Child(p, k));
    assert EntryAt(tables, at, p, k).Present? ==> LeadsTo(at, kroot, p, k, EntryAt(tables, at, p, k).frame);
  }

  // ---- the ways in which tables are written ----

  function WithEntry(tables: Tables, t: nat, k: nat, e: Entry): Tables
    requires t in tables && k < |tables[t]|
  {
    tables[t := tables[t][k := e]]
  }

  /** Two states of the tables stand for the same map. */
  ghost predicate SameLeaves(tables: Tables, at: Layout, tables': Tables, at': Layout) {
    forall r: nat, v: nat :: Leaf(tables', at', r, v) == Leaf(tables, at, r, v)
  }

  /** The second state's map differs from the first's at page `v` of space `r` only, where it has `e`. */
  ghost predicate LeafSet(tables: Tables, at: Layout, tables': Tables, at': Layout, r: nat, v: nat, e: Entry) {
    forall r': nat, v': nat ::
      Leaf(tables', at', r', v') == if r' == r && v' == v then e else Leaf(tables, at, r', v')
  }

  /** Writing an entry of a table leaves every other entry as it was. */
  lemma EntryWritten(tables: Tables, at: Layout, kroot: nat, p: Pos, k: nat, e: Entry)
    requires Tree(tables, at, kroot) && p in at && k < 512
    ensures Stored(tables, at, p)
    ensures var tables' := WithEntry(tables, at[p], k, e);
      && tables'.Keys == tables.Keys
      && (forall q | q in at :: Stored(tables', at, q))
      && (forall q: Pos, j: nat :: EntryAt(tables', at, q, j) == if q == p && j == k then e else EntryAt(tables, at, q, j))
  {
    TreeStored(tables, at, kroot);
    hide Tree;
  }

  lemma TreeStored(tables: Tables, at: Layout, kroot: nat)
    requires Tree(tables, at, kroot)
    ensures forall q | q in at :: Stored(tables, at, q)
    ensures forall q, q' | q in at && q' in at && at[q] == at[q'] :: q == q'
  {
  }

  /** Writing one leaf entry changes the map at exactly that page. */
  lemma SetLeaf(tables: Tables, at: Layout, kroot: nat, r: nat, v: nat, e: Entry)
    requires Tree(tables, at, kroot) && PosOf(r, 1, v) in at
    ensures Stored(tables, at, PosOf(r, 1, v))
    ensures var tables' := WithEntry(tables, at[PosOf(r, 1, v)], Index(v, 1), e);
      && tables'.Keys == tables.Keys && Tree(tables', at, kroot)
      && LeafSet(tables, at, tables', at, r, v, e)
      && forall q: Pos, j: nat | q.level > 1 :: EntryAt(tables', at, q, j) == EntryAt(tables, at, q, j)
  {
    var p, k := PosOf(r, 1, v), Index(v, 1);
    EntryWritten(tables, at, kroot, p, k, e);
    var tables' := WithEntry(tables, at[p], k, e);
    forall q | q in at
      ensures DownOk(tables', at, kroot, q) && UpOk(tables', at, kroot, q)
    {
      assert DownOk(tables, at, kroot, q) && UpOk(tables, at, kroot, q);
    }
    forall r': nat, v': nat
      ensures Leaf(tables', at, r', v') == if r' == r && v' == v then e else Leaf(tables, at, r', v')
    {
      SamePage(r, v, r', v');
    }
  }

  lemma SamePage(r: nat, v: nat, r': nat, v': nat)
    ensures PosOf(r, 1, v) == PosOf(r', 1, v') && Index(v, 1) == Index(v', 1) <==> r == r' && v == v'
  {
    assert Up(v, 1) == v / 512 && Up(v', 1) == v' / 512;
    assert Up(v, 0) == v && Up(v', 0) == v';
  }

  lemma TreeParts(tables: Tables, at: Layout, kroot: nat, p: Pos)
    requires Tree(tables, at, kroot) && p in at
    ensures Injective(at) && (forall t | t in tables :: t in at.Values) && 1 <= p.level <= 4 && (p.level == 4 ==> p.prefix == 0)
    ensures (forall q | q in at :: DownOk(tables, at, kroot, q)) && (forall q | q in at :: UpOk(tables, at, kroot, q))
  {
    assert Stored(tables, at, p);
  }

  lemma TreeWhole(tables: Tables, at: Layout, kroot: nat)
    requires Injective(at) && (forall t | t in tables :: t in at.Values) && forall q | q in at :: Stored(tables, at, q)
    requires (forall q | q in at :: DownOk(tables, at, kroot, q)) && (forall q | q in at :: UpOk(tables, at, kroot, q))
    ensures Tree(tables, at, kroot)
  {
  }

  /** `next_table` with `create`: hang a zeroed table on an absent entry. */
  lemma GrowTree(tables: Tables, at: Layout, kroot: nat, p: Pos, k: nat, f: nat, flags: set<PFlag>)
    requires Tree(tables, at, kroot) && p in at && p.level > 1 && k < 512 && f !in tables && Write in flags
    requires EntryAt(tables, at, p, k).Absent? && !KernelShared(p, k, kroot)
    ensures Child(p, k) !in at && Stored(tables, at, p)
    ensures var tables' := WithEntry(tables, at[p], k, Present(f, flags))[f := ZeroTable];
      var at' := at[Child(p, k) := f];
      && Tree(tables', at', kroot) && SameLeaves(tables, at, tables', at')
      && Grown(tables, at, tables', at', p, k, f, flags)
  {
    NoChildYet(tables, at, kroot, p, k);
    TreeParts(tables, at, kroot, p);
    TreeStored(tables, at, kroot);
    GrowTables(tables, at, kroot, p, k, f, flags);
    hide Tree;
    hide UpOk;
    hide DownOk;
    hide Grown;
    hide EntryAt;
    hide Stored;
    hide Injective;
    hide KernelShared;
    var tables' := WithEntry(tables, at[p], k, Present(f, flags))[f := ZeroTable];
    var at' := at[Child(p, k) := f];
    GrowLinks(tables, at, tables', at', kroot, p, k, f, flags);
    TreeWhole(tables', at', kroot);
    assert SameLeaves(tables, at, tables', at') by {
      assert p.level > 1 && Child(p, k).level >= 1;
      GrowLeaves(tables, at, tables', at', p, k, f, flags);
    }
  }

  /** Growing the tree opens one entry. */
  lemma GrowOpens(tables: Tables, at: Layout, tables': Tables, at': Layout, p: Pos, k: nat, f: nat, flags: set<PFlag>, asked: set<PFlag>)
    requires p.level > 1 && Child(p, k) !in at && Grown(tables, at, tables', at', p, k, f, flags)
    requires EntryAt(tables, at, p, k).Absent? && OpenEntry(Present(f, flags), asked)
    ensures Opened(tables, at, tables', at', asked)
  {
  }

  /** Nothing hangs on an absent entry. */
  lemma NoChildYet(tables: Tables, at: Layout, kroot: nat, p: Pos, k: nat)
    requires Tree(tables, at, kroot) && p in at && p.level > 1 && k < 512 && EntryAt(tables, at, p, k).Absent?
    ensures Child(p, k) !in at
  {
    ParentOfChild(p, k);
    assert UpOk(tables, at, kroot, Child(p, k));
  }

  lemma GrowTables(tables: Tables, at: Layout, kroot: nat, p: Pos, k: nat, f: nat, flags: set<PFlag>)
    requires Tree(tables, at, kroot) && p in at && p.level > 1 && k < 512 && f !in tables && Child(p, k) !in at
    ensures Stored(tables, at, p)
    ensures var tables' := WithEntry(tables, at[p], k, Present(f, flags))[f := ZeroTable];
      var at' := at[Child(p, k) := f];
      && (forall q | q in at' :: Stored(tables', at', q)) && Injective(at') && (forall t | t in tables' :: t in at'.Values)
      && Grown(tables, at, tables', at', p, k, f, flags)
  {
    TreeParts(tables, at, kroot, p);
    EntryWritten(tables, at, kroot, p, k, Present(f, flags));
    hide Tree;
    hide UpOk;
    hide DownOk;
    hide EntryAt;
    TableAdded(WithEntry(tables, at[p], k, Present(f, flags)), at, Child(p, k), f, ZeroTable);
    hide Injective;
  }

  /** What growing the tree does to the entries. */
  ghost predicate Grown(tables: Tables, at: Layout, tables': Tables, at': Layout, p: Pos, k: nat, f: nat, flags: set<PFlag>)
    requires p.level > 0
  {
    && at' == at[Child(p, k) := f]
    && forall q: Pos, j: nat :: EntryAt(tables', at', q, j) ==
         if q == Child(p, k) then Absent else if q == p && j == k then Present(f, flags) else EntryAt(tables, at, q, j)
  }

  lemma GrowLinks(tables: Tables, at: Layout, tables': Tables, at': Layout, kroot: nat, p: Pos, k: nat, f: nat, flags: set<PFlag>)
    requires forall q | q in at :: DownOk(tables, at, kroot, q)
    requires forall q | q in at :: UpOk(tables, at, kroot, q)
    requires p in at && 1 < p.level <= 4 && k < 512 && Child(p, k) !in at && !KernelShared(p, k, kroot) && Write in flags
    requires p.level == 4 ==> p.prefix == 0
    requires EntryAt(tables, at, p, k).Absent? && Grown(tables, at, tables', at', p, k, f, flags)
    ensures forall q | q in at' :: DownOk(tables', at', kroot, q)
    ensures forall q | q in at' :: UpOk(tables', at', kroot, q)
  {
    hide EntryAt;
    forall q | q in at'
      ensures DownOk(tables', at', kroot, q) && UpOk(tables', at', kroot, q)
    {
      if q in at {
        GrowDown(tables, at, tables', at', kroot, p, k, f, flags, q);
        GrowUp(tables, at, tables', at', kroot, p, k, f, flags, q);
      } else {
        ParentOfChild(p, k);
      }
    }
  }

  lemma GrowDown(tables: Tables, at: Layout, tables': Tables, at': Layout, kroot: nat, p: Pos, k: nat, f: nat, flags: set<PFlag>, q: Pos)
    requires p in at && p.level > 1 && Child(p, k) !in at && !KernelShared(p, k, kroot) && Write in flags
    requires Grown(tables, at, tables', at', p, k, f, flags)
    requires q in at && DownOk(tables, at, kroot, q)
    ensures DownOk(tables', at', kroot, q)
  {
    hide EntryAt;
    forall j: nat | j < 512 && EntryAt(tables', at', q, j).Present?
      ensures LeadsTo(at', kroot, q, j, EntryAt(tables', at', q, j).frame)
      ensures q.level > 1 ==> Write in EntryAt(tables', at', q, j).flags
    {
      if !(q == p && j == k) {
        assert EntryAt(tables', at', q, j) == EntryAt(tables, at, q, j);
        assert LeadsTo(at, kroot, q, j, EntryAt(tables, at, q, j).frame);
      }
    }
  }

  lemma GrowUp(tables: Tables, at: Layout, tables': Tables, at': Layout, kroot: nat, p: Pos, k: nat, f: nat, flags: set<PFlag>, q: Pos)
    requires p in at && p.level > 1 && Child(p, k) !in at
    requires EntryAt(tables, at, p, k).Absent? && Grown(tables, at, tables', at', p, k, f, flags)
    requires q in at && UpOk(tables, at, kroot, q)
    ensures UpOk(tables', at', kroot, q)
  {
    hide EntryAt;
  }

  lemma GrowLeaves(tables: Tables, at: Layout, tables': Tables, at': Layout, p: Pos, k: nat, f: nat, flags: set<PFlag>)
    requires p.level > 1 && Child(p, k) !in at && Grown(tables, at, tables', at', p, k, f, flags)
    ensures SameLeaves(tables, at, tables', at')
  {
  }

  /** Storing a new table changes no entry of the others. */
  lemma TableAdded(tables: Tables, at: Layout, c: Pos, f: nat, row: seq<Entry>)
    requires (forall q | q in at :: Stored(tables, at, q)) && Injective(at)
    requires c !in at && f !in tables && |row| == 512 && (1 <= c.level < 4 || c == RootOf(f))
    requires forall t | t in tables :: t in at.Values
    ensures var tables' := tables[f := row];
      var at' := at[c := f];
      && (forall q | q in at' :: Stored(tables', at', q)) && Injective(at')
      && (forall t | t in tables' :: t in at'.Values)
      && (forall q: Pos, j: nat | q != c :: EntryAt(tables', at', q, j) == EntryAt(tables, at, q, j))
      && (forall j: nat :: EntryAt(tables', at', c, j) == if j < 512 then row[j] else Absent)
  {
    var tables' := tables[f := row];
    var at' := at[c := f];
    forall q | q in at'
      ensures Stored(tables', at', q) && (q != c ==> at'[q] != f)
    {
      assert q in at ==> Stored(tables, at, q);
    }
    forall t | t in tables'
      ensures t in at'.Values
    {
      if t == f {
        assert c in at' && at'[c] == f;
      } else {
        var q :| q in at && at[q] == t;
        assert q in at' && at'[q] == t;
      }
    }
  }
}
