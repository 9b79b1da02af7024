/** Page tables, reference counts and address spaces together, as values (kernel/src/mm/vmm.c). */
module SpaceState {
  import opened Common
  import opened PageTree
  import opened PageTreePrune
  import opened Pmm
  import opened Paging
  import opened CowMemory
  import FreeLists
  import V = Vad

  /** The page tables of the spaces hold exactly `leaves`. */
  ghost predicate Tie(tables: Tables, at: Layout, roots: set<nat>, leaves: map<Key, Entry>) {
    && (forall r, v: nat | r in roots && v < USER_PAGES ::
         Leaf(tables, at, r, v) == if (r, v) in leaves then leaves[(r, v)] else Absent)
    && (forall k | k in leaves :: k.0 in roots && k.1 < USER_PAGES && leaves[k].Present?)
  }

  ghost predicate RootsOk(at: Layout, kroot: nat, roots: set<nat>) {
    forall r | r in roots :: RootOf(r) in at && r != kroot
  }

  /** Allocated frames that hold no user data: page tables, and those of other parts of the kernel. */
  ghost function Rest(tables: Tables, others: set<nat>): set<nat> {
    tables.Keys + others
  }

  /** Everything that the operations keep, while the references in `held` are in their hands. */
  ghost predicate Consistent(s: Snapshot, kroot: nat, roots: set<nat>, others: set<nat>, c: View, held: multiset<nat>) {
    && Tie(s.tables, s.at, roots, c.leaves)
    && RootsOk(s.at, kroot, roots)
    && others !! s.tables.Keys
    && CowInv(c, s.frames, Rest(s.tables, others), held)
  }

  /** Only the page database differs. */
  predicate SameTables(s: Snapshot, s': Snapshot) {
    s'.tables == s.tables && s'.at == s.at
  }

  lemma NoSpaces(s: Snapshot, kroot: nat, others: set<nat>, c: View)
    requires TablesLive(s.frames, s.tables) && others == s.frames.live.Keys - s.tables.Keys
    requires c == View(map[], map[], seq(|s.frames.mem|, _ => Zeros()), Eager(map[], map[], 0))
    ensures Consistent(s, kroot, {}, others, c, multiset{})
  {
    assert Rest(s.tables, others) == s.frames.live.Keys;
  }

  lemma AfterTake(s: Snapshot, s': Snapshot, kroot: nat, roots: set<nat>, others: set<nat>, c: View, held: multiset<nat>, f: nat)
    requires Consistent(s, kroot, roots, others, c, held) && SameTables(s, s')
    requires LiveNotFree(s.frames) && Took(s.frames, s'.frames, {f})
    ensures Consistent(s', kroot, roots, others, c, held + multiset{f})
    ensures f !in Rest(s.tables, others) && Users(c.leaves, f) == {} && f < |s'.frames.mem|
  {
    hide Tie;
    hide CowInv;
    TookHeld(c, s.frames, s'.frames, Rest(s.tables, others), held, f);
    assert f !in Rest(s.tables, others) by {
      RestIsLive(c, s.frames, Rest(s.tables, others), held);
    }
  }

  lemma AfterKernelTake(s: Snapshot, s': Snapshot, kroot: nat, roots: set<nat>, others: set<nat>, c: View,
                        held: multiset<nat>, p: nat, o: nat)
    requires Consistent(s, kroot, roots, others, c, held) && SameTables(s, s')
    requires LiveNotFree(s.frames) && TookBlock(s.frames, s'.frames, p, o)
    ensures Consistent(s', kroot, roots, others + {p}, c, held)
  {
    hide Tie;
    BlockTaken(c, s.frames, s'.frames, Rest(s.tables, others), held, p, o);
    assert Rest(s.tables, others) + {p} == Rest(s.tables, others + {p});
    RestIsLive(c, s.frames, Rest(s.tables, others), held);
    hide CowInv;
  }

  lemma AfterKernelGive(s: Snapshot, s': Snapshot, kroot: nat, roots: set<nat>, others: set<nat>, c: View,
                        held: multiset<nat>, p: nat)
    requires Consistent(s, kroot, roots, others, c, held) && SameTables(s, s') && p in others
    requires LiveNotFree(s'.frames) && Released(s.frames, s'.frames, p)
    ensures Consistent(s', kroot, roots, if p in s'.frames.live then others else others - {p}, c, held)
    ensures p in s'.frames.live <==> s.frames.mem[p].refcount > 1
  {
    hide Tie;
    BlockGiven(c, s.frames, s'.frames, Rest(s.tables, others), held, p);
    assert Rest(s.tables, others) - {p} == Rest(s.tables, others - {p});
    hide CowInv;
  }

  lemma RestIsLive(c: View, d: Database, rest: set<nat>, held: multiset<nat>)
    requires CowInv(c, d, rest, held)
    ensures rest <= d.live.Keys
    ensures forall f | f in held :: f in d.live && f !in rest && f < |d.mem| == |c.ram| && |c.ram[f]| == PAGE_SIZE
    ensures forall k | k in c.leaves :: k in c.perm && k in c.eager.obj
    ensures c.leaves.Keys == c.perm.Keys == c.eager.obj.Keys
  {
  }

  lemma PageFacts(s: Snapshot, kroot: nat, roots: set<nat>, others: set<nat>, c: View, held: multiset<nat>, k: Key)
    requires Consistent(s, kroot, roots, others, c, held) && k in c.leaves
    ensures c.leaves[k].Present? && k.0 in roots && k.1 < USER_PAGES && Leaf(s.tables, s.at, k.0, k.1) == c.leaves[k]
    ensures c.leaves[k].frame in s.frames.live && c.leaves[k].frame !in Rest(s.tables, others)
    ensures c.leaves[k].frame < |s.frames.mem| && c.leaves[k].frame < |c.ram|
    ensures k in c.perm && k in c.eager.obj && c.eager.obj[k] in c.eager.store
    ensures c.eager.store[c.eager.obj[k]] == c.ram[c.leaves[k].frame] && |c.ram[c.leaves[k].frame]| == PAGE_SIZE
    ensures LeafFlags(c.leaves[k].flags, c.perm[k], FreeLists.Cow in s.frames.mem[c.leaves[k].frame].flags)
  {
    assert PageOk(c, s.frames, Rest(s.tables, others), k);
  }

  lemma AfterDrop(s: Snapshot, s': Snapshot, kroot: nat, roots: set<nat>, others: set<nat>, c: View, held: multiset<nat>, f: nat)
    requires Consistent(s, kroot, roots, others, c, held) && SameTables(s, s')
    requires f in held && Released(s.frames, s'.frames, f) && LiveNotFree(s'.frames) && s.frames.mem[f].refcount >= 1
    ensures Consistent(s', kroot, roots, others, c, held - multiset{f})
    ensures |s'.frames.free| <= |s.frames.free| + 1
  {
    OneFreed(c, s.frames, s'.frames, Rest(s.tables, others), held, f);
    hide Tie;
    Dropped(c, s.frames, s'.frames, Rest(s.tables, others), held, f);
  }

  lemma AfterEntry(s: Snapshot, s': Snapshot, kroot: nat, roots: set<nat>, others: set<nat>, c: View, held: multiset<nat>, f: nat, n: nat)
    requires Consistent(s, kroot, roots, others, c, held) && SameTables(s, s')
    requires f in s.frames.live && f !in Rest(s.tables, others)
    requires s'.frames == s.frames.(mem := s'.frames.mem) && |s'.frames.mem| == |s.frames.mem|
    requires f < |s.frames.mem| && s'.frames.mem == s.frames.mem[f := s'.frames.mem[f]]
    requires s'.frames.mem[f].refcount == s.frames.mem[f].refcount + n
    requires Users(c.leaves, f) == {} || (FreeLists.Cow in s.frames.mem[f].flags ==> FreeLists.Cow in s'.frames.mem[f].flags)
    ensures Consistent(s', kroot, roots, others, c, held[f := held[f] + n])
  {
    hide Tie;
    EntryChanged(c, s.frames, s'.frames, Rest(s.tables, others), held, f, n);
  }

  lemma TieMapped(s: Snapshot, s': Snapshot, roots: set<nat>, leaves: map<Key, Entry>, k: Key, e: Entry)
    requires Tie(s.tables, s.at, roots, leaves) && LeafSet(s.tables, s.at, s'.tables, s'.at, k.0, k.1, e)
    requires k.0 in roots && k.1 < USER_PAGES && e.Present?
    ensures Tie(s'.tables, s'.at, roots, leaves[k := e])
  {
    hide Leaf;
  }

  lemma TieCleared(s: Snapshot, s': Snapshot, roots: set<nat>, leaves: map<Key, Entry>, k: Key)
    requires Tie(s.tables, s.at, roots, leaves) && LeafSet(s.tables, s.at, s'.tables, s'.at, k.0, k.1, Absent)
    ensures Tie(s'.tables, s'.at, roots, leaves - {k})
  {
    hide Leaf;
  }

  /** New tables are taken from the free frames. */
  lemma GrownRest(s: Snapshot, s': Snapshot, kroot: nat, roots: set<nat>, others: set<nat>, c: View, held: multiset<nat>, N: set<nat>)
    requires Consistent(s, kroot, roots, others, c, held) && LiveNotFree(s.frames) && Extends(s.at, s'.at)
    requires s.tables.Keys <= s'.tables.Keys && N == s'.tables.Keys - s.tables.Keys && Took(s.frames, s'.frames, N)
    ensures RootsOk(s'.at, kroot, roots) && others !! s'.tables.Keys
    ensures CowInv(c, s'.frames, Rest(s'.tables, others), held)
    ensures forall f | f in held && f < |s.frames.mem| :: f < |s'.frames.mem| && s'.frames.mem[f] == s.frames.mem[f]
  {
    hide Tie;
    RestIsLive(c, s.frames, Rest(s.tables, others), held);
    assert Rest(s'.tables, others) == Rest(s.tables, others) + N;
    TookRest(c, s.frames, s'.frames, Rest(s.tables, others), held, N);
    hide CowInv;
  }

  /** `paging_map_page` has set a leaf. */
  lemma AfterMap(s: Snapshot, s': Snapshot, kroot: nat, roots: set<nat>, others: set<nat>, c: View, held: multiset<nat>,
                 k: Key, e: Entry, p: Prot, o: nat)
    requires Consistent(s, kroot, roots, others, c, held) && LiveNotFree(s.frames)
    requires Mapped(s, s', k.0, k.1, e) && k !in c.leaves && k.0 in roots && k.1 < USER_PAGES
    requires e.Present? && e.frame in held && e.frame < |s.frames.mem|
    requires LeafFlags(e.flags, p, FreeLists.Cow in s.frames.mem[e.frame].flags)
    requires o in c.eager.store && e.frame < |c.ram| && c.eager.store[o] == c.ram[e.frame]
    requires c.leaves.Keys == c.perm.Keys == c.eager.obj.Keys && FitsWith(c, e, p, o)
    ensures Consistent(s', kroot, roots, others, WithPage(c, k, e, p, o), held - multiset{e.frame})
  {
    TieMapped(s, s', roots, c.leaves, k, e);
    GrownRest(s, s', kroot, roots, others, c, held, s'.tables.Keys - s.tables.Keys);
    hide Tie;
    hide Mapped;
    hide Consistent;
    LeafSetFromHand(c, s'.frames, Rest(s'.tables, others), held, k, e, p, o);
    hide CowInv;
    Conclude(s', kroot, roots, others, WithPage(c, k, e, p, o), held - multiset{e.frame});
  }

  lemma Conclude(s: Snapshot, kroot: nat, roots: set<nat>, others: set<nat>, c: View, held: multiset<nat>)
    requires Tie(s.tables, s.at, roots, c.leaves) && RootsOk(s.at, kroot, roots) && others !! s.tables.Keys
    requires CowInv(c, s.frames, Rest(s.tables, others), held)
    ensures Consistent(s, kroot, roots, others, c, held)
  {
  }

  /** `paging_map_page` has failed, or tables have been made for something else. */
  lemma AfterGrowth(s: Snapshot, s': Snapshot, kroot: nat, roots: set<nat>, others: set<nat>, c: View, held: multiset<nat>)
    requires Consistent(s, kroot, roots, others, c, held) && LiveNotFree(s.frames) && Changed(s, s')
    ensures Consistent(s', kroot, roots, others, c, held)
  {
    RestIsLive(c, s.frames, Rest(s.tables, others), held);
    var N := s'.tables.Keys - s.tables.Keys;
    assert Rest(s'.tables, others) == Rest(s.tables, others) + N;
    TookRest(c, s.frames, s'.frames, Rest(s.tables, others), held, N);
    hide CowInv;
    hide Leaf;
  }

  /** `paging_unmap_page` has cleared a leaf. */
  lemma AfterUnmap(s: Snapshot, s': Snapshot, kroot: nat, roots: set<nat>, others: set<nat>, c: View, held: multiset<nat>, k: Key)
    requires Consistent(s, kroot, roots, others, c, held) && k.0 in roots && k.1 < USER_PAGES
    requires s'.frames == s.frames && s'.at == s.at && s'.tables.Keys == s.tables.Keys
    requires LeafSet(s.tables, s.at, s'.tables, s'.at, k.0, k.1, Absent)
    ensures k !in c.leaves ==> Consistent(s', kroot, roots, others, c, held)
    ensures k in c.leaves ==>
      c.leaves[k].Present? && Consistent(s', kroot, roots, others, WithoutPage(c, k), held + multiset{c.leaves[k].frame})
  {
    var rest := Rest(s.tables, others);
    hide CowInv;
    hide LeafSet;
    assert Rest(s'.tables, others) == rest && RootsOk(s'.at, kroot, roots) && others !! s'.tables.Keys;
    TieCleared(s, s', roots, c.leaves, k);
    hide Tie;
    if k in c.leaves {
      LeafCleared(c, s.frames, rest, held, k);
    } else {
      assert c.leaves - {k} == c.leaves;
    }
  }

  /** The mark of a page has been cleared, and then its leaf: nobody else maps the frame. */
  lemma AfterReclaim(s: Snapshot, s1: Snapshot, s2: Snapshot, kroot: nat, roots: set<nat>, others: set<nat>, c: View,
                     held: multiset<nat>, k: Key)
    requires Consistent(s, kroot, roots, others, c, held) && k in c.leaves && c.leaves[k].Present?
    requires c.leaves[k].frame < |s.frames.mem| && Users(c.leaves, c.leaves[k].frame) == {k}
    requires SameTables(s, s1)
    requires s1.frames == s.frames.(mem := s1.frames.mem) && |s1.frames.mem| == |s.frames.mem|
    requires var f := c.leaves[k].frame;
      s1.frames.mem == s.frames.mem[f := s1.frames.mem[f]] && s1.frames.mem[f].refcount == s.frames.mem[f].refcount
    requires s2.frames == s1.frames && s2.at == s1.at && s2.tables.Keys == s1.tables.Keys
    requires LeafSet(s1.tables, s1.at, s2.tables, s2.at, k.0, k.1, Absent)
    ensures Consistent(s2, kroot, roots, others, WithoutPage(c, k), held + multiset{c.leaves[k].frame})
  {
    var f := c.leaves[k].frame;
    var t := Snapshot(s.frames, s2.tables, s2.at);
    PageFacts(s, kroot, roots, others, c, held, k);
    hide Consistent;
    AfterUnmap(s, t, kroot, roots, others, c, held, k);
    var held' := held + multiset{f};
    assert Users(c.leaves - {k}, f) == Users(c.leaves, f) - {k} == {};
    AfterEntry(t, s2, kroot, roots, others, WithoutPage(c, k), held', f, 0);
    assert held'[f := held'[f] + 0] == held';
  }

  /** A frame with one reference has one user. */
  lemma SoleUser(s: Snapshot, kroot: nat, roots: set<nat>, others: set<nat>, c: View, k: Key)
    requires Consistent(s, kroot, roots, others, c, multiset{}) && k in c.leaves
    requires c.leaves[k].Present? && c.leaves[k].frame < |s.frames.mem|
    ensures s.frames.mem[c.leaves[k].frame].refcount <= 1 ==> Users(c.leaves, c.leaves[k].frame) == {k}
  {
    PageFacts(s, kroot, roots, others, c, multiset{}, k);
    var f := c.leaves[k].frame;
    CountsAreUsers(c, s.frames, Rest(s.tables, others), f);
    hide Consistent;
    if s.frames.mem[f].refcount <= 1 {
      var U := Users(c.leaves, f);
      assert k in U;
      assert |U - {k}| == |U| - 1;
    }
  }

  /** Clearing a leaf and setting it again. */
  lemma Remapped(c: View, k: Key, e: Entry)
    requires k in c.leaves && k in c.perm && k in c.eager.obj
    ensures WithPage(WithoutPage(c, k), k, e, c.perm[k], c.eager.obj[k]) == c.(leaves := c.leaves[k := e])
  {
    var c' := WithPage(WithoutPage(c, k), k, e, c.perm[k], c.eager.obj[k]);
    assert c'.leaves == c.leaves[k := e];
    assert c'.perm == c.perm;
    assert c'.eager.obj == c.eager.obj;
  }

  /** The tables of a space without pages have been given back. */
  lemma AfterDestroy(s: Snapshot, s': Snapshot, kroot: nat, roots: set<nat>, others: set<nat>, c: View, held: multiset<nat>, r: nat)
    requires Consistent(s, kroot, roots, others, c, held) && LiveNotFree(s'.frames) && Tree(s.tables, s.at, kroot)
    requires r in roots && Pruned(s, s', set q | q in s.at && q.root == r)
    requires forall k | k in c.leaves :: k.0 != r
    ensures Consistent(s', kroot, roots - {r}, others, c, held)
  {
    var R := set q | q in s.at && q.root == r;
    var N := FramesAt(s.at, R);
    FramesAreTables(s, kroot, R);
    hide CowInv;
    hide Tie;
    hide Gave;
    hide Tree;
    hide FramesAt;
    hide LiveNotFree;
    hide Rest;
    hide RootsOk;
    RootsLeft(s, s', kroot, roots, others, r);
    GaveRest(c, s.frames, s'.frames, Rest(s.tables, others), held, N);
    TieDestroyed(s, s', kroot, roots, c.leaves, r);
  }

  lemma RootsLeft(s: Snapshot, s': Snapshot, kroot: nat, roots: set<nat>, others: set<nat>, r: nat)
    requires RootsOk(s.at, kroot, roots) && others !! s.tables.Keys
    requires Pruned(s, s', set q | q in s.at && q.root == r)
    requires FramesAt(s.at, set q | q in s.at && q.root == r) <= s.tables.Keys
    ensures RootsOk(s'.at, kroot, roots - {r}) && others !! s'.tables.Keys
    ensures var N := FramesAt(s.at, set q | q in s.at && q.root == r);
      Rest(s'.tables, others) == Rest(s.tables, others) - N && N <= Rest(s.tables, others)
  {
    hide FramesAt;
    var N := FramesAt(s.at, set q | q in s.at && q.root == r);
    assert Rest(s'.tables, others) == Rest(s.tables, others) - N;
  }

  lemma FramesAreTables(s: Snapshot, kroot: nat, R: set<Pos>)
    requires Tree(s.tables, s.at, kroot)
    ensures FramesAt(s.at, R) <= s.tables.Keys
  {
    forall q | q in R && q in s.at
      ensures s.at[q] in s.tables
    {
      assert Stored(s.tables, s.at, q);
    }
  }

  lemma TieDestroyed(s: Snapshot, s': Snapshot, kroot: nat, roots: set<nat>, leaves: map<Key, Entry>, r: nat)
    requires Tree(s.tables, s.at, kroot) && Pruned(s, s', set q | q in s.at && q.root == r)
    requires Tie(s.tables, s.at, roots, leaves) && forall k | k in leaves :: k.0 != r
    ensures Tie(s'.tables, s'.at, roots - {r}, leaves)
  {
    forall r', v: nat | r' in roots && r' != r && v < USER_PAGES
      ensures Leaf(s'.tables, s'.at, r', v) == Leaf(s.tables, s.at, r', v)
    {
      LeafOfOther(s, s', kroot, r, r', v);
    }
    hide Tree;
    hide Pruned;
    hide Leaf;
  }

  lemma LeafOfOther(s: Snapshot, s': Snapshot, kroot: nat, r: nat, r': nat, v: nat)
    requires Tree(s.tables, s.at, kroot) && Pruned(s, s', set q | q in s.at && q.root == r) && r' != r
    ensures Leaf(s'.tables, s'.at, r', v) == Leaf(s.tables, s.at, r', v)
  {
    var p := PosOf(r', 1, v);
    if p in s.at {
      forall q | q in s.at && q.root == r
        ensures s.at[q] != s.at[p]
      {
      }
    }
  }

  /** A new root has no pages. */
  lemma AfterCreate(s: Snapshot, s': Snapshot, kroot: nat, roots: set<nat>, others: set<nat>, c: View, held: multiset<nat>, r: nat)
    requires Consistent(s, kroot, roots, others, c, held) && LiveNotFree(s.frames) && Tree(s.tables, s.at, kroot)
    requires Changed(s, s') && RootOf(r) !in s.at && RootOf(r) in s'.at && r != kroot
    ensures Consistent(s', kroot, roots + {r}, others, c, held) && r !in roots
  {
    hide CowInv;
    AfterGrowth(s, s', kroot, roots, others, c, held);
    forall v: nat | v < USER_PAGES
      ensures Leaf(s.tables, s.at, r, v) == Absent
    {
      if PosOf(r, 1, v) in s.at {
        TableAbove(s.tables, s.at, kroot, r, 1, 4, v);
        UpBound(v);
      }
    }
    hide Leaf;
    hide CowInv;
    hide Took;
    hide Tree;
    assert SameLeaves(s.tables, s.at, s'.tables, s'.at);
  }

  // ---- VAD lists and what they grant ----

  /** The protection that a VAD with these flags grants. */
  function ProtOf(flags: set<V.VFlag>): Prot {
    Prot(V.ProtBits(flags), V.Shared in flags)
  }

  /** Every mapped page lies in a VAD that grants what the page has. */
  ghost predicate Granted(lists: map<nat, seq<V.Vad>>, perm: map<Key, Prot>) {
    forall k | k in perm :: k.0 in lists && GrantedBy(lists[k.0], k.1, perm[k])
  }

  predicate GrantedBy(list: seq<V.Vad>, v: nat, p: Prot) {
    var flags := V.FlagsAt(list, v * PAGE_SIZE);
    flags.Some? && p == ProtOf(flags.value)
  }

  /** A list that only user spaces have. */
  predicate UserList(list: seq<V.Vad>) {
    && V.Sorted(list) && V.AllAligned(list)
    && forall i | 0 <= i < |list| :: list[i].end <= V.USER_END
  }

  ghost predicate UserLists(lists: map<nat, seq<V.Vad>>) {
    forall r | r in lists :: UserList(lists[r])
  }

  /** A described address is a user address, and its page has the same description. */
  lemma UserAddress(list: seq<V.Vad>, a: nat)
    requires UserList(list) && V.FlagsAt(list, a).Some?
    ensures PageNo(a) < USER_PAGES && a < V.USER_END
    ensures a % PAGE_SIZE == 0 ==> PageNo(a) * PAGE_SIZE == a && PageAligned(a)
  {
    V.SomeIsContained(list, a);
  }

  /** The first address of the kernel's half. */
  const USER_TOP: nat := USER_PAGES * PAGE_SIZE

  // ---- many pages at once ----

  function PageSet(lo: nat, hi: nat): (S: set<nat>)
    ensures forall v: nat :: v in S <==> lo <= v < hi
  {
    if hi <= lo then {} else PageSet(lo, hi - 1) + {hi - 1}
  }

  /** Pages `lo` to `hi - 1` of space `r`. */
  function KeysOf(r: nat, lo: nat, hi: nat): set<Key> {
    PagesOf(r, PageSet(lo, hi))
  }

  function WithoutPages(c: View, S: set<Key>): View {
    View(c.leaves - S, c.perm - S, c.ram, c.eager.(obj := c.eager.obj - S))
  }

  lemma WithoutNone(c: View, r: nat, lo: nat)
    ensures WithoutPages(c, {}) == c && KeysOf(r, lo, lo) == {}
  {
    assert PageSet(lo, lo) == {};
    assert c.leaves - {} == c.leaves && c.perm - {} == c.perm && c.eager.obj - {} == c.eager.obj;
  }

  /** Only the pages that exist matter. */
  lemma WithoutSame(c: View, S: set<Key>, T: set<Key>)
    requires c.leaves.Keys == c.perm.Keys == c.eager.obj.Keys
    requires forall k | k in c.leaves :: k in S <==> k in T
    ensures WithoutPages(c, S) == WithoutPages(c, T)
  {
    assert c.leaves - S == c.leaves - T;
    assert c.perm - S == c.perm - T;
    assert c.eager.obj - S == c.eager.obj - T;
  }

  lemma WithoutSingle(c: View, k: Key)
    requires c.leaves.Keys == c.perm.Keys == c.eager.obj.Keys
    ensures WithoutPages(c, {k}) == if k in c.leaves then WithoutPage(c, k) else c
  {
    if k !in c.leaves {
      WithoutSame(c, {k}, {});
      WithoutNone(c, 0, 0);
    }
  }

  lemma WithoutTwice(c: View, S: set<Key>, T: set<Key>)
    ensures WithoutPages(WithoutPages(c, S), T) == WithoutPages(c, S + T)
  {
    assert c.leaves - S - T == c.leaves - (S + T);
    assert c.perm - S - T == c.perm - (S + T);
    assert c.eager.obj - S - T == c.eager.obj - (S + T);
  }

  lemma NextKey(r: nat, lo: nat, v: nat)
    requires lo <= v
    ensures KeysOf(r, lo, v + 1) == KeysOf(r, lo, v) + {(r, v)}
  {
    assert PageSet(lo, v + 1) == PageSet(lo, v) + {v};
  }

  lemma IsKey(r: nat, lo: nat, hi: nat, k: Key)
    ensures k in KeysOf(r, lo, hi) <==> k.0 == r && lo <= k.1 < hi
  {
    if k.0 == r && lo <= k.1 < hi {
      assert k == (r, k.1);
    }
  }

  /** A page-aligned user address and its page number. */
  lemma UserPage(va: nat)
    requires PageAligned(va) && va < V.USER_END
    ensures PageNo(va) == va / PAGE_SIZE && PageNo(va) < USER_PAGES && PageNo(va) * PAGE_SIZE == va
    ensures (va + PAGE_SIZE) / PAGE_SIZE == va / PAGE_SIZE + 1 && PageAligned(va + PAGE_SIZE)
  {
  }

  // ---- committing zeroed pages ----

  /** Pages `lo` to `hi - 1` of space `r` have been added, zeroed and with protection `p`; nothing else changed. */
  ghost predicate Grew(a: View, b: View, r: nat, lo: nat, hi: nat, p: Prot) {
    && PagesGrew(a, b, KeysOf(r, lo, hi), p)
    && Committed(a.eager, b.eager, r, PageSet(lo, hi))
  }

  ghost predicate PagesGrew(a: View, b: View, K: set<Key>, p: Prot) {
    && b.leaves.Keys == a.leaves.Keys + K && a.leaves.Keys !! K
    && a.perm.Keys == a.leaves.Keys && b.perm.Keys == b.leaves.Keys
    && (forall k | k in a.leaves :: b.leaves[k] == a.leaves[k])
    && (forall k | k in a.perm :: b.perm[k] == a.perm[k])
    && (forall k | k in K :: b.perm[k] == p && b.leaves[k].Present? && b.leaves[k].flags == p.flags)
  }

  lemma PageGrew(a: View, b: View, b': View, K: set<Key>, p: Prot, k: Key, f: nat)
    requires PagesGrew(a, b, K, p) && k !in b.leaves
    requires b'.leaves == b.leaves[k := Present(f, p.flags)] && b'.perm == b.perm[k := p]
    ensures PagesGrew(a, b', K + {k}, p)
  {
  }

  lemma NotGrown(c: View, r: nat, lo: nat, p: Prot)
    requires c.leaves.Keys == c.perm.Keys
    ensures Grew(c, c, r, lo, lo, p)
  {
    WithoutNone(c, r, lo);
    assert PageSet(lo, lo) == {};
    NothingCommitted(c.eager, r);
  }

  lemma GrewStep(a: View, b: View, b': View, r: nat, lo: nat, v: nat, p: Prot, f: nat)
    requires Grew(a, b, r, lo, v, p) && lo <= v && (r, v) !in b.leaves && EagerOk(b.eager)
    requires b.leaves.Keys == b.perm.Keys == b.eager.obj.Keys
    requires b'.leaves == b.leaves[(r, v) := Present(f, p.flags)] && b'.perm == b.perm[(r, v) := p]
    requires b'.eager == EagerBind(EagerNew(b.eager, Zeros()), (r, v), b.eager.next)
    ensures Grew(a, b', r, lo, v + 1, p)
  {
    assert PageSet(lo, v + 1) == PageSet(lo, v) + {v};
    hide PageSet;
    hide KeysOf;
    NextKey(r, lo, v);
    CommitStep(a.eager, b.eager, r, PageSet(lo, v), v);
    hide Committed;
    hide EagerNew;
    hide EagerBind;
    PageGrew(a, b, b', KeysOf(r, lo, v), p, (r, v), f);
    hide PagesGrew;
  }

  /** The next page is not there yet. */
  lemma NotYet(a: View, b: View, r: nat, lo: nat, v: nat, hi: nat, p: Prot)
    requires Grew(a, b, r, lo, v, p) && lo <= v < hi && a.perm.Keys !! KeysOf(r, lo, hi)
    ensures (r, v) !in b.leaves
  {
    IsKey(r, lo, v, (r, v));
    IsKey(r, lo, hi, (r, v));
    hide KeysOf;
  }

  lemma SameGrown(a: View, b: View, b': View, r: nat, lo: nat, hi: nat, p: Prot)
    requires Grew(a, b, r, lo, hi, p) && b' == b.(ram := b'.ram)
    ensures Grew(a, b', r, lo, hi, p)
  {
  }

  /** Removing the pages again leads back to the same pages, and to an equivalent eager memory. */
  lemma GrewUndone(a: View, b: View, r: nat, lo: nat, hi: nat, hi': nat, p: Prot)
    requires Grew(a, b, r, lo, hi, p) && lo <= hi <= hi'
    requires a.leaves.Keys == a.perm.Keys == a.eager.obj.Keys && EagerOk(a.eager)
    requires a.leaves.Keys !! KeysOf(r, lo, hi')
    ensures var c := WithoutPages(b, KeysOf(r, lo, hi'));
      && c.leaves == a.leaves && c.perm == a.perm && c.eager.obj == a.eager.obj
      && forall k | k in a.eager.obj :: Visible(c.eager, k) == Visible(a.eager, k)
  {
    var c := WithoutPages(b, KeysOf(r, lo, hi'));
    forall k
      ensures k in KeysOf(r, lo, hi) ==> k in KeysOf(r, lo, hi')
    {
      IsKey(r, lo, hi, k);
      IsKey(r, lo, hi', k);
    }
    assert c.leaves == a.leaves;
    assert c.perm == a.perm;
    assert c.eager.obj == a.eager.obj;
  }

  /** Objects that no page has may be forgotten. */
  lemma AfterForget(s: Snapshot, kroot: nat, roots: set<nat>, others: set<nat>, c: View, held: multiset<nat>, e: Eager)
    requires Consistent(s, kroot, roots, others, c, held) && e.obj == c.eager.obj && EagerOk(e)
    requires forall k | k in e.obj :: Visible(e, k) == Visible(c.eager, k)
    ensures Consistent(s, kroot, roots, others, c.(eager := e), held)
  {
    hide Tie;
    ObjectsForgotten(c, s.frames, Rest(s.tables, others), held, e);
  }

  // ---- what list operations do to the grants ----

  /** A list with part of its descriptions removed is still a user list. */
  lemma RemovedUserList(list: seq<V.Vad>, list': seq<V.Vad>, start: nat, end: nat)
    requires UserList(list) && V.Sorted(list') && V.AllAligned(list') && V.Removed(list, list', start, end)
    ensures UserList(list')
  {
    forall i | 0 <= i < |list'|
      ensures list'[i].end <= V.USER_END
    {
      var a := list'[i].end - 1;
      V.FlagsMeanVad(list', a);
      assert V.Contains(list'[i], a);
      assert V.FlagsAt(list', a).Some?;
      V.SomeIsContained(list, a);
    }
  }

  /** Pages in `K` have protection `p`, the others what they had. */
  ghost predicate PermGrew(perm: map<Key, Prot>, perm': map<Key, Prot>, K: set<Key>, p: Prot) {
    forall k | k in perm' :: if k in K then perm'[k] == p else k in perm && perm'[k] == perm[k]
  }

  lemma InsertedUserList(list: seq<V.Vad>, list': seq<V.Vad>, vad: V.Vad)
    requires UserList(list) && V.Sorted(list') && V.AllAligned(list') && vad.end <= V.USER_END
    requires multiset(list') == multiset(list) + multiset{vad}
    ensures UserList(list')
  {
    forall i | 0 <= i < |list'|
      ensures list'[i].end <= V.USER_END
    {
      assert list'[i] in multiset(list');
      assert list'[i] == vad || list'[i] in list;
    }
  }

  lemma SameList(lists: map<nat, seq<V.Vad>>, r: nat)
    requires r in lists
    ensures lists[r := lists[r]] == lists
  {
  }

  lemma UserListOf(lists: map<nat, seq<V.Vad>>, r: nat)
    requires UserLists(lists) && r in lists
    ensures UserList(lists[r])
  {
  }

  lemma NewSpace(lists: map<nat, seq<V.Vad>>, perm: map<Key, Prot>, r: nat)
    requires UserLists(lists) && Granted(lists, perm) && r !in lists
    ensures UserLists(lists[r := []]) && Granted(lists[r := []], perm)
  {
    assert V.Sorted([]) && V.AllAligned([]);
    forall k | k in perm
      ensures k.0 in lists && GrantedBy(lists[r := []][k.0], k.1, perm[k])
    {
      assert GrantedBy(lists[k.0], k.1, perm[k]);
    }
  }

  lemma OneList(lists: map<nat, seq<V.Vad>>, r: nat, list': seq<V.Vad>)
    requires UserLists(lists) && UserList(list')
    ensures UserLists(lists[r := list'])
  {
  }

  lemma GrownPerm(a: View, b: View, r: nat, lo: nat, hi: nat, p: Prot)
    requires Grew(a, b, r, lo, hi, p)
    ensures PermGrew(a.perm, b.perm, KeysOf(r, lo, hi), p)
  {
    hide KeysOf;
  }

  lemma GrantedAfterRemove(lists: map<nat, seq<V.Vad>>, r: nat, list': seq<V.Vad>, start: nat, end: nat,
                           perm: map<Key, Prot>, perm': map<Key, Prot>)
    requires Granted(lists, perm) && r in lists && V.Removed(lists[r], list', start, end)
    requires perm' == perm - KeysOf(r, start / PAGE_SIZE, end / PAGE_SIZE)
    requires PageAligned(start) && PageAligned(end)
    ensures Granted(lists[r := list'], perm')
  {
    forall k | k in perm'
      ensures k.0 in lists && GrantedBy(lists[r := list'][k.0], k.1, perm'[k])
    {
      IsKey(r, start / PAGE_SIZE, end / PAGE_SIZE, k);
      assert GrantedBy(lists[k.0], k.1, perm[k]);
    }
  }

  lemma GrantedAfterInsert(lists: map<nat, seq<V.Vad>>, r: nat, list': seq<V.Vad>, vad: V.Vad,
                           perm: map<Key, Prot>, perm': map<Key, Prot>)
    requires Granted(lists, perm) && r in lists && PageAligned(vad.start) && PageAligned(vad.end)
    requires V.FreeRange(lists[r], vad.start, vad.end)
    requires V.Added(lists[r], list', vad)
    requires PermGrew(perm, perm', KeysOf(r, vad.start / PAGE_SIZE, vad.end / PAGE_SIZE), ProtOf(vad.flags))
    ensures Granted(lists[r := list'], perm')
  {
    forall k | k in perm'
      ensures k.0 in lists && GrantedBy(lists[r := list'][k.0], k.1, perm'[k])
    {
      IsKey(r, vad.start / PAGE_SIZE, vad.end / PAGE_SIZE, k);
      if k in perm && perm'[k] == perm[k] {
        assert GrantedBy(lists[k.0], k.1, perm[k]);
        V.SomeIsContained(lists[k.0], k.1 * PAGE_SIZE);
      }
    }
  }

  /** Nothing is mapped where nothing is described. */
  lemma NothingMapped(lists: map<nat, seq<V.Vad>>, perm: map<Key, Prot>, r: nat, start: nat, end: nat)
    requires Granted(lists, perm) && r in lists && V.FreeRange(lists[r], start, end)
    requires PageAligned(start) && PageAligned(end)
    ensures perm.Keys !! KeysOf(r, start / PAGE_SIZE, end / PAGE_SIZE)
  {
    forall k | k in perm
      ensures k !in KeysOf(r, start / PAGE_SIZE, end / PAGE_SIZE)
    {
      IsKey(r, start / PAGE_SIZE, end / PAGE_SIZE, k);
      assert GrantedBy(lists[k.0], k.1, perm[k]);
      V.SomeIsContained(lists[k.0], k.1 * PAGE_SIZE);
    }
  }

  /** `S` are the pages of the range that the list describes. */
  ghost predicate Uncommitted(list: seq<V.Vad>, r: nat, start: nat, end: nat, S: set<Key>) {
    forall k: Key :: k in S <==>
      k.0 == r && start <= k.1 * PAGE_SIZE < end && V.FlagsAt(list, k.1 * PAGE_SIZE).Some?
  }

  lemma PartOfVad(list: seq<V.Vad>, i: nat, start: nat, end: nat)
    requires UserList(list) && i < |list| && PageAligned(start) && PageAligned(end) && start <= end
    requires list[i].start < end && list[i].end > start
    ensures var lo := if list[i].start > start then list[i].start else start;
      var hi := if list[i].end < end then list[i].end else end;
      PageAligned(lo) && PageAligned(hi) && lo <= hi <= V.USER_END
  {
  }

  lemma UncommittedNext(list: seq<V.Vad>, i: nat, r: nat, start: nat, end: nat, lo: nat, hi: nat, S: set<Key>)
    requires UserList(list) && i < |list| && Uncommitted(list[..i], r, start, end, S)
    requires lo == (if list[i].start > start then list[i].start else start)
    requires hi == (if list[i].end < end then list[i].end else end)
    requires PageAligned(lo) && PageAligned(hi)
    ensures Uncommitted(list[..i + 1], r, start, end, S + KeysOf(r, lo / PAGE_SIZE, hi / PAGE_SIZE))
  {
    forall k: Key
      ensures k in S + KeysOf(r, lo / PAGE_SIZE, hi / PAGE_SIZE) <==>
        k.0 == r && start <= k.1 * PAGE_SIZE < end && V.FlagsAt(list[..i + 1], k.1 * PAGE_SIZE).Some?
    {
      IsKey(r, lo / PAGE_SIZE, hi / PAGE_SIZE, k);
      assert list[..i + 1] == list[..i] + [list[i]];
      V.FlagsOfConcat(list[..i], [list[i]], k.1 * PAGE_SIZE);
      V.FlagsOfOne(list[i], k.1 * PAGE_SIZE);
    }
  }

  lemma UncommittedSkip(list: seq<V.Vad>, i: nat, r: nat, start: nat, end: nat, S: set<Key>)
    requires i < |list| && Uncommitted(list[..i], r, start, end, S) && list[i].end <= start
    ensures Uncommitted(list[..i + 1], r, start, end, S)
  {
    forall k: Key
      ensures k in S <==>
        k.0 == r && start <= k.1 * PAGE_SIZE < end && V.FlagsAt(list[..i + 1], k.1 * PAGE_SIZE).Some?
    {
      assert list[..i + 1] == list[..i] + [list[i]];
      V.FlagsOfConcat(list[..i], [list[i]], k.1 * PAGE_SIZE);
      V.FlagsOfOne(list[i], k.1 * PAGE_SIZE);
    }
  }

  lemma AllUncommitted(lists: map<nat, seq<V.Vad>>, c: View, r: nat, start: nat, end: nat, i: nat, S: set<Key>)
    requires Granted(lists, c.perm) && r in lists && UserList(lists[r]) && i <= |lists[r]|
    requires c.leaves.Keys == c.perm.Keys == c.eager.obj.Keys && PageAligned(start) && PageAligned(end)
    requires Uncommitted(lists[r][..i], r, start, end, S)
    requires i < |lists[r]| ==> lists[r][i].start >= end
    ensures WithoutPages(c, S) == WithoutPages(c, KeysOf(r, start / PAGE_SIZE, end / PAGE_SIZE))
  {
    var list := lists[r];
    forall k: Key | k in c.leaves
      ensures k in S <==> k in KeysOf(r, start / PAGE_SIZE, end / PAGE_SIZE)
    {
      IsKey(r, start / PAGE_SIZE, end / PAGE_SIZE, k);
      assert k in c.perm && GrantedBy(lists[k.0], k.1, c.perm[k]);
      var a := k.1 * PAGE_SIZE;
      assert list == list[..i] + list[i..];
      V.FlagsOfConcat(list[..i], list[i..], a);
      V.SomeIsContained(list[i..], a);
    }
    WithoutSame(c, S, KeysOf(r, start / PAGE_SIZE, end / PAGE_SIZE));
  }

  // ---- forks ----

  /** The leaf that both sides of a fork have for a page. */
  function ForkLeaf(e: Entry, p: Prot): Entry {
    if e.Present? && Write in p.flags && !p.shared then Present(e.frame, p.flags - {Write}) else e
  }

  /** The leaves of the forked space: as they were, or read-only and recoverable by a write fault. */
  ghost predicate Protected(a: View, b: View, src: nat) {
    && (forall k | k in a.leaves :: k in b.leaves && k in a.perm)
    && forall k | k in a.leaves ::
         b.leaves[k] == a.leaves[k] || (k.0 == src && b.leaves[k] == ForkLeaf(a.leaves[k], a.perm[k]))
  }

  /** Pages `S` of space `src` have the same leaves in space `dst`. */
  ghost predicate LeavesForked(a: View, b: View, src: nat, dst: nat, S: set<nat>) {
    && Protected(a, b, src)
    && b.leaves.Keys == a.leaves.Keys + PagesOf(dst, S) && a.leaves.Keys !! PagesOf(dst, S)
    && forall v | v in S :: SameLeaf(a, b, (src, v), (dst, v))
  }

  ghost predicate SameLeaf(a: View, b: View, k: Key, k': Key) {
    && k in a.leaves && k in a.perm && k in b.leaves && k' in b.leaves
    && b.leaves[k'] == b.leaves[k] == ForkLeaf(a.leaves[k], a.perm[k])
  }

  ghost predicate PermForked(perm: map<Key, Prot>, perm': map<Key, Prot>, src: nat, dst: nat, S: set<nat>) {
    && perm'.Keys == perm.Keys + PagesOf(dst, S) && perm.Keys !! PagesOf(dst, S)
    && (forall k | k in perm :: perm'[k] == perm[k])
    && forall v | v in S :: (src, v) in perm && (dst, v) in perm' && perm'[(dst, v)] == perm[(src, v)]
  }

  /** Pages `S` of space `src` have been forked to space `dst`. */
  ghost predicate ForkedSome(a: View, b: View, src: nat, dst: nat, S: set<nat>) {
    && LeavesForked(a, b, src, dst, S)
    && PermForked(a.perm, b.perm, src, dst, S)
    && Forked(a.eager, b.eager, a.perm, src, dst, S)
  }

  lemma ForkedNone(c: View, src: nat, dst: nat)
    requires c.leaves.Keys == c.perm.Keys
    ensures ForkedSome(c, c, src, dst, {})
  {
    assert PagesOf(dst, {}) == {};
    NothingForked(c.eager, c.perm, src, dst);
  }

  /** One more page: both sides have the same leaf, and the eager memory has a copy or a second name. */
  ghost predicate ForkedPageNow(b: View, b': View, k: Key, k': Key) {
    && k in b.leaves && k in b.perm && k in b.eager.obj && b.eager.obj[k] in b.eager.store && k' !in b.leaves
    && var e := ForkLeaf(b.leaves[k], b.perm[k]);
      && b'.leaves == b.leaves[k := e][k' := e] && b'.perm == b.perm[k' := b.perm[k]]
      && b'.eager == ForkPage(b.eager, k, k', b.perm[k].shared)
  }

  lemma OnlyOfSpace(dst: nat, S: set<nat>, v: nat)
    ensures PagesOf(dst, S + {v}) == PagesOf(dst, S) + {(dst, v)}
    ensures forall k :: k in PagesOf(dst, S) ==> k.0 == dst && k.1 in S
  {
  }

  lemma ForkedMore(a: View, b: View, b': View, src: nat, dst: nat, S: set<nat>, v: nat)
    requires ForkedSome(a, b, src, dst, S) && src != dst && ForkedPageNow(b, b', (src, v), (dst, v))
    requires EagerOk(a.eager) && EagerOk(b.eager)
    requires a.leaves.Keys == a.perm.Keys == a.eager.obj.Keys && b.leaves.Keys == b.perm.Keys == b.eager.obj.Keys
    ensures ForkedSome(a, b', src, dst, S + {v})
  {
    hide Forked;
    hide EagerOk;
    hide ForkPage;
    hide PagesOf;
    hide ForkLeaf;
    hide Protected;
    OldPage(a, b, src, dst, S, v);
    LeavesForkedMore(a, b, b', src, dst, S, v);
    PermForkedMore(a, b, b', src, dst, S, v);
    hide LeavesForked;
    hide PermForked;
    ForkStep(a.eager, b.eager, a.perm, src, dst, S, v);
  }

  /** The source page was there from the beginning. */
  lemma OldPage(a: View, b: View, src: nat, dst: nat, S: set<nat>, v: nat)
    requires ForkedSome(a, b, src, dst, S) && src != dst && (src, v) in b.leaves
    requires a.leaves.Keys == a.perm.Keys == a.eager.obj.Keys && b.leaves.Keys == b.perm.Keys
    ensures (src, v) in a.leaves && (src, v) in a.perm && (src, v) in a.eager.obj
    ensures b.perm[(src, v)] == a.perm[(src, v)]
    ensures (src, v) in b.eager.obj && b.eager.obj[(src, v)] == a.eager.obj[(src, v)]
  {
    OnlyOfSpace(dst, S, v);
    hide PagesOf;
    hide Protected;
  }

  lemma LeavesForkedMore(a: View, b: View, b': View, src: nat, dst: nat, S: set<nat>, v: nat)
    requires LeavesForked(a, b, src, dst, S) && src != dst && ForkedPageNow(b, b', (src, v), (dst, v))
    requires (src, v) in a.leaves && (src, v) in a.perm && a.perm[(src, v)] == b.perm[(src, v)]
    ensures LeavesForked(a, b', src, dst, S + {v})
  {
    hide Forked;
    hide ForkPage;
    OnlyOfSpace(dst, S, v);
    hide PagesOf;
    forall w | w in S + {v}
      ensures SameLeaf(a, b', (src, w), (dst, w))
    {
      assert w in S ==> SameLeaf(a, b, (src, w), (dst, w));
    }
  }

  lemma PermForkedMore(a: View, b: View, b': View, src: nat, dst: nat, S: set<nat>, v: nat)
    requires PermForked(a.perm, b.perm, src, dst, S) && src != dst && ForkedPageNow(b, b', (src, v), (dst, v))
    requires b.leaves.Keys == b.perm.Keys && (src, v) in a.perm && a.perm[(src, v)] == b.perm[(src, v)]
    ensures PermForked(a.perm, b'.perm, src, dst, S + {v})
  {
    hide ForkPage;
    hide ForkLeaf;
    OnlyOfSpace(dst, S, v);
    hide PagesOf;
  }

  /** A page whose fork failed may be read-only in the source. */
  ghost predicate ForkFailed(b: View, b': View, k: Key) {
    && b'.perm == b.perm && b'.eager == b.eager && k in b.leaves && k in b.perm
    && (b'.leaves == b.leaves || b'.leaves == b.leaves[k := ForkLeaf(b.leaves[k], b.perm[k])])
  }

  /** Without the pages of the new space the old pages are left, some of them read-only. */
  lemma ForkUndone(a: View, b: View, b': View, src: nat, dst: nat, S: set<nat>, v: nat, hi: nat)
    requires ForkedSome(a, b, src, dst, S) && src != dst && (b' == b || ForkFailed(b, b', (src, v)))
    requires a.leaves.Keys == a.perm.Keys == a.eager.obj.Keys && EagerOk(a.eager)
    requires forall k | k in a.leaves :: k.0 != dst
    requires forall w | w in S :: w < hi
    ensures var c := WithoutPages(b', KeysOf(dst, 0, hi));
      && c.leaves.Keys == a.leaves.Keys && c.perm == a.perm && Protected(a, c, src)
      && c.eager.obj == a.eager.obj && forall k | k in a.eager.obj :: Visible(c.eager, k) == Visible(a.eager, k)
  {
    hide Protected;
    hide ForkLeaf;
    var K := KeysOf(dst, 0, hi);
    OnlyOfSpace(dst, S, 0);
    forall k: Key
      ensures k in K ==> k.0 == dst
      ensures k in PagesOf(dst, S) ==> k in K
    {
      IsKey(dst, 0, hi, k);
    }
    hide KeysOf;
    UndonePerm(a, b, src, dst, S, K);
    assert b'.eager == b.eager && b'.perm == b.perm;
    hide PagesOf;
    hide LeavesForked;
    hide PermForked;
    UndoneEager(a.eager, b.eager, a.perm, src, dst, S, K);
    hide Forked;
    UndoneLeaves(a, b, b', src, dst, S, v, K);
  }

  lemma UndonePerm(a: View, b: View, src: nat, dst: nat, S: set<nat>, K: set<Key>)
    requires LeavesForked(a, b, src, dst, S) && PermForked(a.perm, b.perm, src, dst, S) && a.leaves.Keys == a.perm.Keys
    requires PagesOf(dst, S) <= K && a.perm.Keys !! K
    ensures b.perm - K == a.perm && b.perm.Keys == b.leaves.Keys
    ensures forall k | k in a.leaves :: k in b.perm && b.perm[k] == a.perm[k]
  {
    hide PagesOf;
    hide Protected;
  }

  lemma UndoneEager(e: Eager, e': Eager, perm: map<Key, Prot>, src: nat, dst: nat, S: set<nat>, K: set<Key>)
    requires Forked(e, e', perm, src, dst, S) && EagerOk(e) && PagesOf(dst, S) <= K && e.obj.Keys !! K
    ensures e'.obj - K == e.obj
    ensures forall k | k in e.obj :: Visible(e'.(obj := e'.obj - K), k) == Visible(e, k)
  {
    hide PagesOf;
    assert e'.obj - K == e.obj;
  }

  lemma UndoneLeaves(a: View, b: View, b': View, src: nat, dst: nat, S: set<nat>, v: nat, K: set<Key>)
    requires LeavesForked(a, b, src, dst, S) && src != dst && (b' == b || ForkFailed(b, b', (src, v)))
    requires b.perm.Keys == b.leaves.Keys && forall k | k in a.leaves :: k in b.perm && k in a.perm && b.perm[k] == a.perm[k]
    requires PagesOf(dst, S) <= K && a.leaves.Keys !! K && forall k | k in K :: k.0 == dst
    ensures (b'.leaves - K).Keys == a.leaves.Keys
    ensures Protected(a, WithoutPages(b', K), src)
  {
    hide PagesOf;
  }

  /** `S` are the pages of space `r` that the first `i` VADs describe, and those of VAD `i` below page `cur`. */
  ghost predicate PagesDone(c: View, r: nat, list: seq<V.Vad>, i: nat, cur: nat, S: set<nat>)
    requires i <= |list|
  {
    forall v: nat :: v in S <==> (r, v) in c.leaves && PageDone(list, i, cur, v)
  }

  predicate PageDone(list: seq<V.Vad>, i: nat, cur: nat, v: nat)
    requires i <= |list|
  {
    || V.FlagsAt(list[..i], v * PAGE_SIZE).Some?
    || (i < |list| && list[i].start / PAGE_SIZE <= v < cur)
  }

  lemma NoneDone(c: View, r: nat, list: seq<V.Vad>)
    ensures PagesDone(c, r, list, 0, 0, {})
  {
  }

  lemma PageDoneNext(c: View, r: nat, list: seq<V.Vad>, i: nat, v: nat, S: set<nat>)
    requires i < |list| && list[i].start / PAGE_SIZE <= v && PagesDone(c, r, list, i, v, S)
    ensures PagesDone(c, r, list, i, v + 1, if (r, v) in c.leaves then S + {v} else S)
  {
    hide V.FlagsAt;
  }

  lemma VadDone(c: View, r: nat, list: seq<V.Vad>, i: nat, S: set<nat>)
    requires UserList(list) && i < |list| && PagesDone(c, r, list, i, list[i].end / PAGE_SIZE, S)
    ensures PagesDone(c, r, list, i + 1, 0, S)
  {
    forall v: nat
      ensures PageDone(list, i, list[i].end / PAGE_SIZE, v) <==> PageDone(list, i + 1, 0, v)
    {
      assert list[..i + 1] == list[..i] + [list[i]];
      V.FlagsOfConcat(list[..i], [list[i]], v * PAGE_SIZE);
      V.FlagsOfOne(list[i], v * PAGE_SIZE);
      hide V.FlagsAt;
    }
  }

  lemma VadBegins(c: View, r: nat, list: seq<V.Vad>, i: nat, S: set<nat>)
    requires i < |list| && PagesDone(c, r, list, i, 0, S)
    ensures PagesDone(c, r, list, i, list[i].start / PAGE_SIZE, S)
  {
    hide V.FlagsAt;
    forall v: nat
      ensures PageDone(list, i, 0, v) <==> PageDone(list, i, list[i].start / PAGE_SIZE, v)
    {
    }
  }

  /** The page at hand is described by its VAD and has not been forked. */
  lemma PageAtHand(lists: map<nat, seq<V.Vad>>, a: View, b: View, r: nat, r': nat, i: nat, v: nat, S: set<nat>)
    requires r in lists && UserList(lists[r]) && i < |lists[r]| && Granted(lists, a.perm) && r' != r
    requires lists[r][i].start / PAGE_SIZE <= v < lists[r][i].end / PAGE_SIZE
    requires PagesDone(a, r, lists[r], i, v, S) && ForkedSome(a, b, r, r', S)
    requires a.leaves.Keys == a.perm.Keys && b.leaves.Keys == b.perm.Keys && forall k | k in a.leaves :: k.0 != r'
    ensures (r', v) !in b.leaves && v !in S
    ensures (r, v) in b.leaves <==> (r, v) in a.leaves
    ensures (r, v) in b.leaves ==> (r, v) in b.perm && b.perm[(r, v)] == ProtOf(lists[r][i].flags)
  {
    var list := lists[r];
    V.SomeIsContained(list[..i], v * PAGE_SIZE);
    assert V.FlagsAt(list[..i], v * PAGE_SIZE).None?;
    assert v !in S;
    OnlyOfSpace(r', S, v);
    V.FlagsMeanVad(list, v * PAGE_SIZE);
    assert V.Contains(list[i], v * PAGE_SIZE);
    hide PagesOf;
    hide Forked;
    hide Protected;
    if (r, v) in a.perm {
      assert GrantedBy(lists[r], v, a.perm[(r, v)]);
    }
  }

  /** When all VADs are done, all pages are. */
  lemma AllDone(lists: map<nat, seq<V.Vad>>, c: View, r: nat, S: set<nat>)
    requires r in lists && Granted(lists, c.perm) && c.leaves.Keys == c.perm.Keys
    requires PagesDone(c, r, lists[r], |lists[r]|, 0, S)
    ensures forall v: nat :: v in S <==> (r, v) in c.leaves
  {
    var list := lists[r];
    assert list[..|list|] == list;
    forall v: nat | (r, v) in c.leaves
      ensures PageDone(list, |list|, 0, v)
    {
      assert GrantedBy(lists[r], v, c.perm[(r, v)]);
    }
  }

  /** The new space's VADs, those done and the one at hand, grant what its pages have. */
  lemma GrantedFork(lists: map<nat, seq<V.Vad>>, a: View, b: View, r: nat, r': nat, i: nat, n: nat, cur: nat, S: set<nat>)
    requires r in lists && Granted(lists, a.perm) && PermForked(a.perm, b.perm, r, r', S)
    requires UserList(lists[r]) && i <= n <= |lists[r]| && n <= i + 1
    requires PagesDone(a, r, lists[r], i, cur, S)
    requires if n == i then cur == 0 else cur <= lists[r][i].end / PAGE_SIZE
    requires forall k | k in a.perm :: k.0 != r'
    ensures Granted(lists[r' := lists[r][..n]], b.perm)
  {
    var list := lists[r];
    var lists' := lists[r' := list[..n]];
    OnlyOfSpace(r', S, 0);
    hide PagesOf;
    forall k | k in b.perm
      ensures k.0 in lists' && GrantedBy(lists'[k.0], k.1, b.perm[k])
    {
      if k in a.perm {
        assert GrantedBy(lists[k.0], k.1, a.perm[k]);
      } else {
        var v := k.1;
        assert k == (r', v) && v in S;
        assert (r, v) in a.perm && GrantedBy(list, v, a.perm[(r, v)]);
        DescribedBy(list, i, n, cur, v);
      }
    }
  }

  lemma DescribedBy(list: seq<V.Vad>, i: nat, n: nat, cur: nat, v: nat)
    requires UserList(list) && i <= n <= |list| && n <= i + 1 && PageDone(list, i, cur, v)
    requires if n == i then cur == 0 else cur <= list[i].end / PAGE_SIZE
    ensures V.FlagsAt(list[..n], v * PAGE_SIZE).Some?
    ensures V.FlagsAt(list[..n], v * PAGE_SIZE) == V.FlagsAt(list, v * PAGE_SIZE)
  {
    var x := v * PAGE_SIZE;
    assert list == list[..n] + list[n..];
    V.FlagsOfConcat(list[..n], list[n..], x);
    if n == i + 1 {
      assert list[..n] == list[..i] + [list[i]];
      V.FlagsOfConcat(list[..i], [list[i]], x);
      V.FlagsOfOne(list[i], x);
    }
    hide V.FlagsAt;
  }

  lemma NoneUncommitted(r: nat)
    ensures forall list: seq<V.Vad> :: Uncommitted(list[..0], r, 0, USER_TOP, {})
  {
  }

  lemma TopPage()
    ensures PageAligned(0) && PageAligned(USER_TOP) && USER_TOP / PAGE_SIZE == USER_PAGES
  {
  }

  lemma WholeVad(list: seq<V.Vad>, i: nat)
    requires UserList(list) && i < |list|
    ensures PageAligned(list[i].start) && PageAligned(list[i].end) && list[i].start <= list[i].end <= V.USER_END
    ensures list[i].end < USER_TOP && PageAligned(USER_TOP) && USER_TOP / PAGE_SIZE == USER_PAGES
  {
  }

  lemma NoneLeft(c: View, r: nat)
    requires forall k | k in c.leaves :: k.1 < USER_PAGES
    ensures forall k | k in WithoutPages(c, KeysOf(r, 0, USER_PAGES)).leaves :: k.0 != r
  {
    forall k | k in WithoutPages(c, KeysOf(r, 0, USER_PAGES)).leaves
      ensures k.0 != r
    {
      IsKey(r, 0, USER_PAGES, k);
    }
  }

  lemma DestroyedLists(lists: map<nat, seq<V.Vad>>, c: View, r: nat)
    requires UserLists(lists) && Granted(lists, c.perm)
    requires forall k | k in c.perm :: k.1 < USER_PAGES
    ensures UserLists(lists - {r}) && Granted(lists - {r}, WithoutPages(c, KeysOf(r, 0, USER_PAGES)).perm)
  {
    var lists' := lists - {r};
    var perm' := WithoutPages(c, KeysOf(r, 0, USER_PAGES)).perm;
    forall k | k in perm'
      ensures k.0 in lists' && GrantedBy(lists'[k.0], k.1, perm'[k])
    {
      IsKey(r, 0, USER_PAGES, k);
      assert GrantedBy(lists[k.0], k.1, c.perm[k]);
    }
  }

  /** The state that a fork started from. */
  ghost predicate ForkStart(lists: map<nat, seq<V.Vad>>, a: View, r: nat, r': nat) {
    && r in lists && r' !in lists && UserLists(lists) && Granted(lists, a.perm)
    && a.leaves.Keys == a.perm.Keys == a.eager.obj.Keys && EagerOk(a.eager)
    && forall k | k in a.leaves :: k.0 in lists
  }

  /** A fork under way: the first `i` VADs have been copied, and VAD `i` up to page `cur`. */
  ghost predicate Forking(lists: map<nat, seq<V.Vad>>, a: View, b: View, r: nat, r': nat, i: nat, cur: nat, S: set<nat>) {
    && ForkStart(lists, a, r, r') && i <= |lists[r]|
    && ForkedSome(a, b, r, r', S) && PagesDone(a, r, lists[r], i, cur, S)
  }

  lemma ForkBegins(lists: map<nat, seq<V.Vad>>, a: View, r: nat, r': nat)
    requires ForkStart(lists, a, r, r')
    ensures Forking(lists, a, a, r, r', 0, 0, {})
  {
    ForkedNone(a, r, r');
    NoneDone(a, r, lists[r]);
  }

  lemma ForkAtHand(lists: map<nat, seq<V.Vad>>, a: View, b: View, r: nat, r': nat, i: nat, v: nat, S: set<nat>)
    requires Forking(lists, a, b, r, r', i, v, S) && b.leaves.Keys == b.perm.Keys
    requires i < |lists[r]| && lists[r][i].start / PAGE_SIZE <= v < lists[r][i].end / PAGE_SIZE
    ensures (r', v) !in b.leaves && r != r'
    ensures (r, v) in b.leaves ==> (r, v) in b.perm && b.perm[(r, v)] == ProtOf(lists[r][i].flags)
  {
    hide ForkedSome;
    hide PagesDone;
    hide Granted;
    UserListOf(lists, r);
    PageAtHand(lists, a, b, r, r', i, v, S);
  }

  lemma ForkNext(lists: map<nat, seq<V.Vad>>, a: View, b: View, b': View, r: nat, r': nat, i: nat, v: nat, S: set<nat>)
    requires Forking(lists, a, b, r, r', i, v, S)
    requires i < |lists[r]| && lists[r][i].start / PAGE_SIZE <= v < lists[r][i].end / PAGE_SIZE
    requires b.leaves.Keys == b.perm.Keys == b.eager.obj.Keys && EagerOk(b.eager)
    requires if (r, v) in b.leaves then ForkedPageNow(b, b', (r, v), (r', v)) else b' == b
    ensures Forking(lists, a, b', r, r', i, v + 1, if (r, v) in b.leaves then S + {v} else S)
  {
    hide ForkedSome;
    hide PagesDone;
    hide Granted;
    hide ForkedPageNow;
    hide EagerOk;
    UserListOf(lists, r);
    PageAtHand(lists, a, b, r, r', i, v, S);
    PageDoneNext(a, r, lists[r], i, v, S);
    if (r, v) in b.leaves {
      ForkedMore(a, b, b', r, r', S, v);
    }
  }

  lemma ForkVadBegins(lists: map<nat, seq<V.Vad>>, a: View, b: View, r: nat, r': nat, i: nat, S: set<nat>)
    requires r in lists && i < |lists[r]| && Forking(lists, a, b, r, r', i, 0, S)
    ensures Forking(lists, a, b, r, r', i, lists[r][i].start / PAGE_SIZE, S)
  {
    hide ForkedSome;
    hide Granted;
    VadBegins(a, r, lists[r], i, S);
    hide PagesDone;
  }

  lemma ForkVadEnds(lists: map<nat, seq<V.Vad>>, a: View, b: View, r: nat, r': nat, i: nat, S: set<nat>)
    requires r in lists && i < |lists[r]| && Forking(lists, a, b, r, r', i, lists[r][i].end / PAGE_SIZE, S)
    ensures Forking(lists, a, b, r, r', i + 1, 0, S)
  {
    hide ForkedSome;
    hide Granted;
    UserListOf(lists, r);
    VadDone(a, r, lists[r], i, S);
    hide PagesDone;
  }

  /** The lists of a fork under way grant what the pages have. */
  lemma ForkGranted(lists: map<nat, seq<V.Vad>>, a: View, b: View, b': View, r: nat, r': nat, i: nat, cur: nat, n: nat, S: set<nat>)
    requires Forking(lists, a, b, r, r', i, cur, S) && b'.perm == b.perm && i <= n <= |lists[r]| && n <= i + 1
    requires if n == i then cur == 0 else cur <= lists[r][i].end / PAGE_SIZE
    ensures UserLists(lists[r' := lists[r][..n]]) && Granted(lists[r' := lists[r][..n]], b'.perm)
  {
    hide LeavesForked;
    hide Forked;
    hide PagesDone;
    hide PermForked;
    UserListOf(lists, r);
    hide Granted;
    GrantedFork(lists, a, b, r, r', i, n, cur, S);
  }

  /** The copy of the next VAD fits behind those of the others. */
  lemma NextVad(list: seq<V.Vad>, i: nat)
    requires UserList(list) && i < |list|
    ensures V.FreeRange(list[..i], list[i].start, list[i].end)
    ensures forall j | 0 <= j < i :: list[..i][j].start < list[i].start
    ensures list[i].start < list[i].end <= V.USER_END && PageAligned(list[i].start) && PageAligned(list[i].end)
    ensures list[..i] + [list[i]] == list[..i + 1]
  {
  }

  lemma NoNewPages(lists: map<nat, seq<V.Vad>>, perm: map<Key, Prot>, r: nat, vad: V.Vad)
    requires Granted(lists, perm) && r in lists && V.FreeRange(lists[r], vad.start, vad.end)
    requires PageAligned(vad.start) && PageAligned(vad.end)
    ensures PermGrew(perm, perm, KeysOf(r, vad.start / PAGE_SIZE, vad.end / PAGE_SIZE), ProtOf(vad.flags))
  {
    NothingMapped(lists, perm, r, vad.start, vad.end);
  }

  /** After a failed fork the old pages are left, and the eager memory can be what it was. */
  lemma ForkingUndone(lists: map<nat, seq<V.Vad>>, a: View, b: View, b': View, r: nat, r': nat, i: nat, cur: nat, v: nat, S: set<nat>)
    requires Forking(lists, a, b, r, r', i, cur, S) && (b' == b || ForkFailed(b, b', (r, v)))
    requires forall k | k in b.leaves :: k.1 < USER_PAGES
    ensures var c := WithoutPages(b', KeysOf(r', 0, USER_PAGES));
      && c.leaves.Keys == a.leaves.Keys && c.perm == a.perm && Protected(a, c, r) && EagerOk(a.eager)
      && a.eager.obj == c.eager.obj && forall k | k in a.eager.obj :: Visible(a.eager, k) == Visible(c.eager, k)
  {
    hide PagesDone;
    hide Granted;
    hide UserLists;
    assert r != r';
    ForkPages(a, b, r, r', S);
    hide ForkedSome;
    ForkUndone(a, b, b', r, r', S, v, USER_PAGES);
  }

  lemma ForkPages(a: View, b: View, r: nat, r': nat, S: set<nat>)
    requires ForkedSome(a, b, r, r', S) && forall k | k in b.leaves :: k.1 < USER_PAGES
    ensures forall w | w in S :: w < USER_PAGES
  {
    hide Forked;
    hide PermForked;
    forall w | w in S
      ensures w < USER_PAGES
    {
      assert SameLeaf(a, b, (r, w), (r', w));
    }
  }

  lemma ForkEnds(lists: map<nat, seq<V.Vad>>, a: View, b: View, r: nat, r': nat, S: set<nat>)
    requires r in lists && Forking(lists, a, b, r, r', |lists[r]|, 0, S)
    ensures forall v: nat :: v in S <==> (r, v) in a.leaves
  {
    hide ForkedSome;
    AllDone(lists, a, r, S);
  }

  lemma SameProtected(a: View, b: View, b': View, r: nat)
    requires b'.leaves == b.leaves && Protected(a, b, r)
    ensures Protected(a, b', r)
  {
  }

  lemma NotProtected(c: View, r: nat)
    requires c.leaves.Keys == c.perm.Keys
    ensures Protected(c, c, r)
  {
  }

  lemma ForkingMeans(lists: map<nat, seq<V.Vad>>, a: View, b: View, r: nat, r': nat, i: nat, S: set<nat>)
    requires Forking(lists, a, b, r, r', i, 0, S)
    ensures ForkedSome(a, b, r, r', S)
  {
  }
}
