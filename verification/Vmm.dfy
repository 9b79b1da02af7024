/** Address spaces (kernel/src/mm/vmm.c): anonymous memory, unmapping, copy-on-write forks and write faults,
    over the page tables and the page allocator.  */
module Vmm {
  import opened Common
  import opened PageTree
  import opened PageTreePrune
  import opened Pmm
  import opened Paging
  import opened CowMemory
  import opened SpaceState
  import opened SpaceMeaning
  import FreeLists
  import EagerMemory
  import V = Vad

  class Memory {
    const pt: PageTables
    const pmm: PageAllocator
    var ram: seq<Bytes>                    // the contents of the frames that hold user data

    ghost var lists: map<nat, seq<V.Vad>>  // the VAD list of every space
    ghost var others: set<nat>             // frames of other parts of the kernel
    ghost var view: View                   // leaf entries, what VADs grant, and the memory that programs should see

    /** What holds between the steps of an operation that has the references in `held`. */
    ghost predicate Mid(held: multiset<nat>)
      reads this, pt, pmm, pmm.mem, pmm.lists
    {
      && pt.pmm == pmm && pt.Valid() && pmm.mem.Length <= FRAME_MASK && view.ram == ram
      && Consistent(pt.TableState(), pt.kernelRoot, lists.Keys, others, view, held)
    }

    /** No spaces yet: every allocated frame is a page table or belongs to another part of the kernel. */
    constructor (pt: PageTables)
      requires pt.Valid() && pt.pmm.mem.Length <= FRAME_MASK
      ensures this.pt == pt && Valid() && lists == map[] && view.leaves == map[]
    {
      assert TablesLive(pt.pmm.State(), pt.tables);
      hide PageTables.Valid;
      ghost var o := pt.pmm.live.Keys - pt.tables.Keys;
      ghost var s0 := pt.TableState();
      var memory := seq(pt.pmm.mem.Length, _ => Zeros());
      NoSpaces(pt.TableState(), pt.kernelRoot, o, View(map[], map[], memory, Eager(map[], map[], 0)));
      hide Consistent;
      this.pt, this.pmm := pt, pt.pmm;
      ram := memory;
      lists := map[];
      view := View(map[], map[], memory, Eager(map[], map[], 0));
      others := o;
      new;
      assert lists.Keys == {};
      assert pt.TableState() == s0;
      assert pt.Valid();
      assert Consistent(pt.TableState(), pt.kernelRoot, lists.Keys, others, view, multiset{});
      Between(multiset{});
      hide Mid;
    }

    lemma Between(held: multiset<nat>)
      requires pt.pmm == pmm && pt.Valid() && pmm.mem.Length <= FRAME_MASK && view.ram == ram
      requires Consistent(pt.TableState(), pt.kernelRoot, lists.Keys, others, view, held)
      ensures Mid(held)
    {
    }

    /** Address spaces, page tables, reference counts and memory agree. */
    ghost predicate Valid()
      reads this, pt, pmm, pmm.mem, pmm.lists
    {
      Mid(multiset{}) && UserLists(lists) && Granted(lists, view.perm)
    }

    /** `vas` is one of the spaces. */
    ghost predicate Has(vas: V.Vas)
      reads this`lists, vas
    {
      vas.root in lists && lists[vas.root] == vas.list && vas.userStart > 0
    }

    /** The objects are of different classes. */
    lemma Apart()
      ensures this as object != pt && this as object != pmm && this as object != pmm.mem && this as object != pmm.lists
      ensures pt as object != pmm && pt as object != pmm.mem && pt as object != pmm.lists
      ensures pmm as object != pmm.mem && pmm as object != pmm.lists
    {
    }

    lemma ApartFrom(vas: V.Vas)
      ensures vas as object != this && vas as object != pt && vas as object != pmm
      ensures vas as object != pmm.mem && vas as object != pmm.lists
    {
    }

    lemma Live()
      requires pt.pmm == pmm && pt.Valid()
      ensures LiveNotFree(pmm.State())
      ensures forall f | f in pmm.live :: f < pmm.mem.Length && pmm.mem[f].refcount >= 1 && f != 0 && Unmarked(pmm.mem[f])
    {
      pmm.LiveIsNotFree();
    }

    // ---- the rest of the kernel ----

    /** Another part of the kernel, such as the heap, allocates a block: no space notices. */
    method KernelAlloc(order: nat) returns (page: int)
      requires Valid()
      modifies this`others, pmm, pmm.mem, pmm.lists
      ensures Valid() && view == old(view) && lists == old(lists)
      ensures others == if page == NIL then old(others) else old(others) + {page}
      ensures page != NIL ==> TookBlock(old(pmm.State()), pmm.State(), page, order)
      ensures page == NIL ==> pmm.State() == old(pmm.State())
    {
      Apart();
      Live();
      ghost var s0 := pt.TableState();
      hide PageTables.Valid;
      hide Consistent;
      hide UserLists;
      hide Granted;
      hide TookBlock;
      page := pt.AllocBlock(order);
      if page != NIL {
        AfterKernelTake(s0, pt.TableState(), pt.kernelRoot, lists.Keys, others, view, multiset{}, page, order);
        SetOthers(others + {page});
      } else {
        SetOthers(others);
      }
    }

    ghost method SetOthers(o: set<nat>)
      requires pt.pmm == pmm && pt.Valid() && pmm.mem.Length <= FRAME_MASK && view.ram == ram
      requires Consistent(pt.TableState(), pt.kernelRoot, lists.Keys, o, view, multiset{})
      modifies this`others
      ensures Mid(multiset{}) && others == o && view == old(view) && lists == old(lists)
    {
      Apart();
      hide PageTables.Valid;
      hide Consistent;
      others := o;
      Between(multiset{});
    }

    /** And gives back a reference to one. */
    method KernelFree(page: nat)
      requires Valid() && page in others
      modifies this`others, pmm, pmm.mem, pmm.lists
      ensures Valid() && view == old(view) && lists == old(lists)
      ensures Released(old(pmm.State()), pmm.State(), page)
      ensures others == if page in pmm.live then old(others) else old(others) - {page}
    {
      Apart();
      Live();
      ghost var s0 := pt.TableState();
      OthersAreLive(page);
      hide PageTables.Valid;
      hide Consistent;
      hide UserLists;
      hide Granted;
      hide Released;
      pt.FreeData(page);
      Live();
      AfterKernelGive(s0, pt.TableState(), pt.kernelRoot, lists.Keys, others, view, multiset{}, page);
      SetOthers(if page in pmm.live then others else others - {page});
    }

    lemma OthersAreLive(page: nat)
      requires Mid(multiset{}) && page in others
      ensures page in pmm.live && page !in pt.tables
    {
      RestIsLive(view, pmm.State(), Rest(pt.tables, others), multiset{});
    }

    // ---- single steps ----

    ghost method Record(s: Snapshot, c: View)
      requires pt.Valid() && pt.TableState() == s
      modifies this`view
      ensures view == c && pt.Valid() && pt.TableState() == s
      ensures lists == old(lists) && others == old(others) && pt.kernelRoot == old(pt.kernelRoot)
    {
      Apart();
      hide PageTables.Valid;
      view := c;
    }

    /** `pmm_alloc_page` */
    method TakeFrame(ghost held: multiset<nat>) returns (f: int)
      requires Mid(held)
      modifies pmm, pmm.mem, pmm.lists
      ensures f == NIL ==> Mid(held) && pmm.free == {}
      ensures f != NIL ==>
        && f > 0 && Mid(held + multiset{f}) && Users(view.leaves, f) == {} && f < pmm.mem.Length == |ram|
      ensures view == old(view) && lists == old(lists) && others == old(others)
    {
      Apart();
      Live();
      ghost var s0 := pt.TableState();
      hide PageTables.Valid;
      hide Consistent;
      hide Took;
      f := pt.AllocData();
      if f != NIL {
        AfterTake(s0, pt.TableState(), pt.kernelRoot, lists.Keys, others, view, held, f);
      }
    }

    /** `memset` or `memcpy` of a whole frame that backs no page. */
    method FillFrame(f: nat, bytes: Bytes, ghost held: multiset<nat>)
      requires Mid(held) && f < |ram| && Users(view.leaves, f) == {} && |bytes| == PAGE_SIZE
      modifies this`ram, this`view
      ensures Mid(held) && ram == old(ram)[f := bytes] && view == old(view).(ram := ram)
      ensures lists == old(lists)
    {
      Apart();
      hide PageTables.Valid;
      FrameWritten(view, pmm.State(), Rest(pt.tables, others), held, f, bytes);
      hide CowInv;
      hide Tie;
      ram := ram[f := bytes];
      view := view.(ram := ram);
    }

    /** `pmm_free` of a reference in hand. */
    method DropFrame(f: nat, ghost held: multiset<nat>)
      requires Mid(held) && f in held
      modifies pmm, pmm.mem, pmm.lists
      ensures Mid(held - multiset{f}) && pt.at == old(pt.at) && view == old(view)
      ensures lists == old(lists) && others == old(others)
      ensures |pmm.free| <= |old(pmm.free)| + 1
    {
      Apart();
      Live();
      ghost var s0 := pt.TableState();
      RestIsLive(view, pmm.State(), Rest(pt.tables, others), held);
      hide PageTables.Valid;
      hide Consistent;
      pt.FreeData(f);
      Live();
      AfterDrop(s0, pt.TableState(), pt.kernelRoot, lists.Keys, others, view, held, f);
    }

    /** The frame of a mapped page or of a reference in hand is allocated, for data. */
    ghost predicate IsData(f: nat)
      reads pt, pmm, pmm.mem, this
    {
      f in pmm.live && f !in Rest(pt.tables, others) && f < pmm.mem.Length && f < |ram|
    }

    lemma LeafIsData(held: multiset<nat>, k: Key)
      requires Mid(held) && k in view.leaves
      ensures view.leaves[k].Present? && IsData(view.leaves[k].frame) && k.0 in lists && k.1 < USER_PAGES
      ensures view.leaves[k].frame != 0 && pmm.mem[view.leaves[k].frame].refcount >= 1
      ensures Leaf(pt.tables, pt.at, k.0, k.1) == view.leaves[k] && PosOf(k.0, 1, k.1) in pt.at
      ensures view.leaves.Keys == view.perm.Keys == view.eager.obj.Keys
      ensures k in view.perm && k in view.eager.obj && view.eager.obj[k] in view.eager.store
      ensures view.eager.store[view.eager.obj[k]] == ram[view.leaves[k].frame] && |ram[view.leaves[k].frame]| == PAGE_SIZE
      ensures LeafFlags(view.leaves[k].flags, view.perm[k], FreeLists.Cow in pmm.mem[view.leaves[k].frame].flags)
    {
      PageFacts(pt.TableState(), pt.kernelRoot, lists.Keys, others, view, held, k);
      Live();
      hide PageTables.Valid;
      hide Consistent;
    }

    /** `page_ref_inc` of a data frame, which puts a reference in hand. */
    method AddRef(f: nat, ghost held: multiset<nat>)
      requires Mid(held) && IsData(f)
      modifies pmm.mem
      ensures Mid(held + multiset{f}) && IsData(f)
      ensures view == old(view) && lists == old(lists) && others == old(others)
      ensures f < pmm.mem.Length && pmm.mem[f] == old(pmm.mem[f]).(refcount := old(pmm.mem[f]).refcount + 1)
    {
      Apart();
      ghost var s0 := pt.TableState();
      hide PageTables.Valid;
      hide Consistent;
      pt.UpdateData(f, pmm.mem[f].(refcount := pmm.mem[f].refcount + 1));
      AfterEntry(s0, pt.TableState(), pt.kernelRoot, lists.Keys, others, view, held, f, 1);
      assert held[f := held[f] + 1] == held + multiset{f};
      assert Mid(held + multiset{f}) && IsData(f);
      hide Mid;
      hide IsData;
    }

    /** `SetPageFlag(page, PAGE_COW)` */
    method SetCow(f: nat, ghost held: multiset<nat>)
      requires Mid(held) && IsData(f)
      modifies pmm.mem
      ensures Mid(held) && IsData(f)
      ensures f < pmm.mem.Length && FreeLists.Cow in pmm.mem[f].flags
      ensures view == old(view) && lists == old(lists) && others == old(others)
    {
      Apart();
      ghost var s0 := pt.TableState();
      hide PageTables.Valid;
      hide Consistent;
      pt.UpdateData(f, pmm.mem[f].(flags := pmm.mem[f].flags + {FreeLists.Cow}));
      AfterEntry(s0, pt.TableState(), pt.kernelRoot, lists.Keys, others, view, held, f, 0);
      assert held[f := held[f] + 0] == held;
    }

    /** `paging_unmap_page`: the reference of the leaf, if there was one, is in hand. */
    method UnmapLeaf(r: nat, va: nat, ghost held: multiset<nat>)
      requires Mid(held) && r in lists && PageAligned(va) && PageNo(va) < USER_PAGES
      modifies this`view, pt, pmm, pmm.mem, pmm.lists
      ensures var k := (r, PageNo(va));
        if k in old(view).leaves then
          old(view).leaves[k].Present? && Mid(held + multiset{old(view).leaves[k].frame}) && view == WithoutPage(old(view), k)
        else Mid(held) && view == old(view)
      ensures pmm.State() == old(pmm.State()) && pt.at == old(pt.at) && pt.tables.Keys == old(pt.tables.Keys)
      ensures lists == old(lists) && others == old(others)
    {
      Apart();
      ghost var s0, k, c := pt.TableState(), (r, PageNo(va)), view;
      assert RootOf(r) in pt.at;
      hide PageTables.Valid;
      hide Consistent;
      pt.UnmapPage(r, va);
      AfterUnmap(s0, pt.TableState(), pt.kernelRoot, lists.Keys, others, c, held, k);
      if k in view.leaves {
        Record(pt.TableState(), WithoutPage(view, k));
      }
    }

    /** `paging_map_page` of a reference in hand at a page that has no leaf. */
    method MapLeaf(r: nat, va: nat, f: nat, flags: set<PFlag>, ghost p: Prot, ghost o: nat, ghost held: multiset<nat>)
      returns (rc: int)
      requires Mid(held) && r in lists && PageAligned(va) && PageNo(va) < USER_PAGES && (r, PageNo(va)) !in view.leaves
      requires f in held && IsData(f) && LeafFlags(flags, p, FreeLists.Cow in pmm.mem[f].flags)
      requires o in view.eager.store && view.eager.store[o] == ram[f]
      requires view.leaves.Keys == view.perm.Keys == view.eager.obj.Keys && FitsWith(view, Present(f, flags), p, o)
      modifies this`view, pt, pmm, pmm.mem, pmm.lists
      ensures rc == 0 ==>
        Mid(held - multiset{f}) && view == WithPage(old(view), (r, PageNo(va)), Present(f, flags), p, o)
      ensures rc != 0 ==> Mid(held) && view == old(view) && pmm.free == {}
      ensures PosOf(r, 1, PageNo(va)) in old(pt.at) ==> rc == 0
      ensures lists == old(lists) && others == old(others)
      ensures GrewBy(old(pt.at), pt.at, PathTo(r, PageNo(va)))
      ensures PosOf(r, 1, PageNo(va)) in old(pt.at) ==> pt.at == old(pt.at)
    {
      Apart();
      Live();
      ghost var s0, k, e, c := pt.TableState(), (r, PageNo(va)), Present(f, flags), view;
      assert RootOf(r) in pt.at;
      assert f < FRAME_MASK;
      hide GrewBy;
      hide PageTables.Valid;
      hide Consistent;
      hide FitsWith;
      hide Mapped;
      hide Changed;
      hide LiveNotFree;
      FrameOfPhys(f);
      rc := pt.MapPage(r, va, f * PAGE_SIZE, flags);
      assert view == c;
      if rc == 0 {
        ghost var s1, c1, held1 := pt.TableState(), WithPage(c, k, e, p, o), held - multiset{f};
        AfterMap(s0, s1, pt.kernelRoot, lists.Keys, others, c, held, k, e, p, o);
        assert Consistent(s1, pt.kernelRoot, lists.Keys, others, c1, held1);
        hide WithPage;
        Record(s1, c1);
      } else {
        AfterGrowth(s0, pt.TableState(), pt.kernelRoot, lists.Keys, others, c, held);
      }
    }

    lemma HeldIsData(held: multiset<nat>, f: nat)
      requires Mid(held) && f in held
      ensures IsData(f) && f != 0 && f < pmm.mem.Length && |ram[f]| == PAGE_SIZE && Unmarked(pmm.mem[f])
    {
      RestIsLive(view, pmm.State(), Rest(pt.tables, others), held);
      Live();
      hide PageTables.Valid;
      hide Consistent;
    }

    /** `remap_page_flags` for a private page whose frame carries the copy-on-write mark. */
    method Remap(r: nat, va: nat, flags: set<PFlag>, ghost held: multiset<nat>) returns (rc: int)
      requires Mid(held) && r in lists && PageAligned(va) && PageNo(va) < USER_PAGES
      requires (r, PageNo(va)) in view.leaves && (r, PageNo(va)) in view.perm && !view.perm[(r, PageNo(va))].shared
      requires flags == view.perm[(r, PageNo(va))].flags - {Write} && Write in view.perm[(r, PageNo(va))].flags
      requires view.leaves[(r, PageNo(va))].Present? && view.leaves[(r, PageNo(va))].frame < pmm.mem.Length
      requires FreeLists.Cow in pmm.mem[view.leaves[(r, PageNo(va))].frame].flags
      modifies this`view, pt, pmm, pmm.mem, pmm.lists
      ensures rc == 0 && Mid(held)
      ensures var k := (r, PageNo(va));
        view == old(view).(leaves := old(view).leaves[k := Present(old(view).leaves[k].frame, flags)])
      ensures pt.at == old(pt.at)
    {
      ghost var k, c := (r, PageNo(va)), view;
      hide Mid;
      LeafIsData(held, k);
      hide IsData;
      hide Leaf;
      hide PosOf;
      hide PhysOf;
      var phys := Phys(r, va, held);
      PhysOfPage(c.leaves[k], va);
      if phys == 0 {
        return 0;
      }
      var f := phys / PAGE_SIZE;
      ghost var e := Present(f, flags);
      Rebind(held, k, e);
      Remapped(c, k, e);
      assert FreeLists.Cow in pmm.mem[..][f].flags;
      rc := Again(r, va, f, flags, c, held);
    }

    /** Clear a leaf and set it again. */
    method Again(r: nat, va: nat, f: nat, flags: set<PFlag>, ghost c: View, ghost held: multiset<nat>) returns (rc: int)
      requires Mid(held) && r in lists && PageAligned(va) && PageNo(va) < USER_PAGES && view == c
      requires var k := (r, PageNo(va));
        && k in c.leaves && c.leaves[k].Present? && c.leaves[k].frame == f && k in c.perm && k in c.eager.obj
        && WithoutPage(c, k).leaves.Keys == WithoutPage(c, k).perm.Keys == WithoutPage(c, k).eager.obj.Keys
        && FitsWith(WithoutPage(c, k), Present(f, flags), c.perm[k], c.eager.obj[k])
        && f < |pmm.State().mem| && LeafFlags(flags, c.perm[k], FreeLists.Cow in pmm.State().mem[f].flags)
      modifies this`view, pt, pmm, pmm.mem, pmm.lists
      ensures rc == 0 && Mid(held)
      ensures view == c.(leaves := c.leaves[(r, PageNo(va)) := Present(f, flags)])
      ensures pt.at == old(pt.at)
    {
      ghost var k, e := (r, PageNo(va)), Present(f, flags);
      hide Mid;
      LeafIsData(held, k);
      Remapped(c, k, e);
      hide IsData;
      hide Leaf;
      hide PosOf;
      hide WithPage;
      hide FitsWith;
      UnmapLeaf(r, va, held);
      assert pmm.State().mem[f] == pmm.mem[f];
      HeldIsData(held + multiset{f}, f);
      rc := MapLeaf(r, va, f, flags, c.perm[k], c.eager.obj[k], held + multiset{f});
      assert held + multiset{f} - multiset{f} == held;
    }

    /** `ClearPageFlag(page, PAGE_COW)` for the only user of the frame, and the unmapping half of `remap_page_flags`. */
    method Unmark(r: nat, va: nat, f: nat)
      requires Mid(multiset{}) && r in lists && PageAligned(va) && PageNo(va) < USER_PAGES && IsData(f)
      requires (r, PageNo(va)) in view.leaves && view.leaves[(r, PageNo(va))].Present?
      requires view.leaves[(r, PageNo(va))].frame == f && pmm.mem[f].refcount <= 1
      modifies this`view, pt, pmm, pmm.mem, pmm.lists
      ensures Mid(multiset{f}) && view == WithoutPage(old(view), (r, PageNo(va)))
      ensures pt.at == old(pt.at)
      ensures lists == old(lists) && others == old(others)
    {
      Apart();
      ghost var s0, k, c := pt.TableState(), (r, PageNo(va)), view;
      assert RootOf(r) in pt.at;
      SoleUser(s0, pt.kernelRoot, lists.Keys, others, c, k);
      hide PageTables.Valid;
      hide Consistent;
      hide LeafSet;
      pt.UpdateData(f, pmm.mem[f].(flags := pmm.mem[f].flags - {FreeLists.Cow}));
      ghost var s1 := pt.TableState();
      pt.UnmapPage(r, va);
      ghost var s2, c1 := pt.TableState(), WithoutPage(c, k);
      AfterReclaim(s0, s1, s2, pt.kernelRoot, lists.Keys, others, c, multiset{}, k);
      assert multiset{} + multiset{f} == multiset{f};
      hide WithoutPage;
      Record(s2, c1);
    }

    /** The part of `vas_handle_page_fault` for a frame with one reference: the page keeps it. */
    method Reclaim(r: nat, va: nat, f: nat, flags: set<PFlag>) returns (rc: int)
      requires Mid(multiset{}) && r in lists && PageAligned(va) && PageNo(va) < USER_PAGES && IsData(f)
      requires var k := (r, PageNo(va));
        && k in view.leaves && view.leaves[k].Present? && view.leaves[k].frame == f && pmm.mem[f].refcount <= 1
        && k in view.perm && !view.perm[k].shared && flags == view.perm[k].flags
      modifies this`view, pt, pmm, pmm.mem, pmm.lists
      ensures rc == 0 && Mid(multiset{})
      ensures view == old(view).(leaves := old(view).leaves[(r, PageNo(va)) := Present(f, flags)]) && lists == old(lists)
    {
      ghost var k, c, e := (r, PageNo(va)), view, Present(f, flags);
      OwnFrame(k);
      hide Mid;
      LeafIsData(multiset{}, k);
      Rebind(multiset{}, k, e);
      Remapped(c, k, e);
      hide IsData;
      hide Leaf;
      hide PosOf;
      hide WithPage;
      hide FitsWith;
      Unmark(r, va, f);
      HeldIsData(multiset{f}, f);
      rc := MapLeaf(r, va, f, flags, c.perm[k], c.eager.obj[k], multiset{f});
      assert multiset{f} - multiset{f} == multiset{};
    }

    lemma OwnFrame(k: Key)
      requires Mid(multiset{}) && k in view.leaves
      ensures view.leaves[k].Present? && view.leaves[k].frame < pmm.mem.Length
      ensures pmm.mem[view.leaves[k].frame].refcount <= 1 ==> Users(view.leaves - {k}, view.leaves[k].frame) == {}
    {
      LeafIsData(multiset{}, k);
      SoleUser(pt.TableState(), pt.kernelRoot, lists.Keys, others, view, k);
      hide Mid;
      var f := view.leaves[k].frame;
      if pmm.mem[f].refcount <= 1 {
        assert Users(view.leaves - {k}, f) == Users(view.leaves, f) - {k};
      }
    }

    /** The part of `vas_handle_page_fault` for a frame with more references: the page gets a copy. */
    method CopyPage(r: nat, va: nat, f: nat, flags: set<PFlag>) returns (rc: int, ghost to: nat)
      requires Mid(multiset{}) && r in lists && PageAligned(va) && PageNo(va) < USER_PAGES && IsData(f)
      requires var k := (r, PageNo(va));
        && k in view.leaves && view.leaves[k].Present? && view.leaves[k].frame == f
        && k in view.perm && !view.perm[k].shared && flags == view.perm[k].flags
      modifies this`view, this`ram, pt, pmm, pmm.mem, pmm.lists
      ensures (rc == 0 || rc == -1) && Mid(multiset{}) && view.eager == old(view).eager && view.perm == old(view).perm
      ensures rc == -1 ==> view.leaves == old(view).leaves && pmm.free == {}
      ensures rc == 0 ==> view.leaves == old(view).leaves[(r, PageNo(va)) := Present(to, flags)]
      ensures lists == old(lists)
      ensures rc == 0 ==> Users(old(view).leaves, to) == {}
    {
      ghost var k := (r, PageNo(va));
      hide Mid;
      LeafIsData(multiset{}, k);
      hide IsData;
      hide Leaf;
      hide PosOf;
      hide FitsWith;
      var new_ := TakeFrame(multiset{});
      if new_ == NIL {
        return -1, 0;
      }
      assert multiset{} + multiset{new_ as nat} == multiset{new_ as nat};
      to := new_;
      rc := MoveTo(r, va, f, new_, flags);
    }

    /** Fill the new frame and swap it in. */
    method MoveTo(r: nat, va: nat, f: nat, new_: nat, flags: set<PFlag>) returns (rc: int)
      requires Mid(multiset{new_}) && r in lists && PageAligned(va) && PageNo(va) < USER_PAGES
      requires Users(view.leaves, new_) == {}
      requires var k := (r, PageNo(va));
        && k in view.leaves && view.leaves[k].Present? && view.leaves[k].frame == f
        && k in view.perm && !view.perm[k].shared && flags == view.perm[k].flags
      modifies this`view, this`ram, pt, pmm, pmm.mem, pmm.lists
      ensures rc == 0 && Mid(multiset{}) && view.eager == old(view).eager && view.perm == old(view).perm
      ensures view.leaves == old(view).leaves[(r, PageNo(va)) := Present(new_, flags)] && lists == old(lists)
    {
      ghost var k, e := (r, PageNo(va)), Present(new_, flags);
      hide Mid;
      LeafIsData(multiset{new_}, k);
      HeldIsData(multiset{new_}, new_);
      FillFrame(new_, ram[f], multiset{new_});
      ghost var c := view;
      Rebind(multiset{new_}, k, e);
      Remapped(c, k, e);
      assert Users(c.leaves - {k}, new_) <= Users(c.leaves, new_);
      hide IsData;
      hide Leaf;
      hide PosOf;
      hide WithPage;
      hide FitsWith;
      UnmapLeaf(r, va, multiset{new_});
      DropFrame(f, multiset{new_} + multiset{f});
      assert multiset{new_} + multiset{f} - multiset{f} == multiset{new_};
      HeldIsData(multiset{new_}, new_);
      rc := MapLeaf(r, va, new_, flags, c.perm[k], c.eager.obj[k], multiset{new_});
      assert multiset{new_} - multiset{new_} == multiset{};
    }

    /** `paging_virt_to_phys` */
    method Phys(r: nat, va: nat, ghost held: multiset<nat>) returns (phys: nat)
      requires Mid(held) && r in lists && PageNo(va) < USER_PAGES
      modifies pt, pmm, pmm.mem, pmm.lists
      ensures Mid(held) && pt.TableState() == old(pt.TableState())
      ensures pmm.State() == old(pmm.State()) && view == old(view) && lists == old(lists) && pt.at == old(pt.at)
      ensures phys == PhysOf(if (r, PageNo(va)) in view.leaves then view.leaves[(r, PageNo(va))] else Absent, va)
    {
      Apart();
      assert RootOf(r) in pt.at;
      ghost var s0, k := pt.TableState(), (r, PageNo(va));
      LeafOf(held, k);
      hide PageTables.Valid;
      hide Consistent;
      phys := pt.VirtToPhys(r, va);
      Live();
    }

    lemma LeafOf(held: multiset<nat>, k: Key)
      requires Mid(held) && k.0 in lists && k.1 < USER_PAGES
      ensures Leaf(pt.tables, pt.at, k.0, k.1) == if k in view.leaves then view.leaves[k] else Absent
      ensures k in view.leaves ==> view.leaves[k].Present?
    {
    }

    /** A private page may come back to its object, as `RebindFits` says. */
    lemma Rebind(held: multiset<nat>, k: Key, e: Entry)
      requires Mid(held) && k in view.leaves && e.Present?
      ensures k in view.perm && k in view.eager.obj && view.leaves.Keys == view.perm.Keys == view.eager.obj.Keys && view.leaves[k].Present?
      ensures WithoutPage(view, k).leaves.Keys == WithoutPage(view, k).perm.Keys == WithoutPage(view, k).eager.obj.Keys
      ensures !view.perm[k].shared && ((e.frame == view.leaves[k].frame && Write !in e.flags) || Users(view.leaves - {k}, e.frame) == {}) ==>
        FitsWith(WithoutPage(view, k), e, view.perm[k], view.eager.obj[k])
    {
      LeafIsData(held, k);
      hide PageTables.Valid;
      hide Tie;
      if !view.perm[k].shared && ((e.frame == view.leaves[k].frame && Write !in e.flags) || Users(view.leaves - {k}, e.frame) == {}) {
        RebindFits(view, pmm.State(), Rest(pt.tables, others), held, k, e);
      }
    }

    /** The eager memory gets an object; no page has it yet. */
    ghost method AddObject(bytes: Bytes, held: multiset<nat>)
      requires Mid(held)
      modifies this`view
      ensures Mid(held) && view == old(view).(eager := EagerNew(old(view).eager, bytes))
      ensures Unused(view.eager, old(view).eager.next)
      ensures lists == old(lists)
    {
      Apart();
      hide PageTables.Valid;
      ObjectAdded(view, pmm.State(), Rest(pt.tables, others), held, bytes);
      hide CowInv;
      hide Tie;
      view := view.(eager := EagerNew(view.eager, bytes));
    }

    /** The eager memory forgets objects that no page has. */
    ghost method Forget(e: Eager, held: multiset<nat>)
      requires Mid(held) && e.obj == view.eager.obj && EagerOk(e)
      requires forall k | k in e.obj :: Visible(e, k) == Visible(view.eager, k)
      modifies this`view
      ensures Mid(held) && view == old(view).(eager := e)
      ensures lists == old(lists)
    {
      Apart();
      hide PageTables.Valid;
      AfterForget(pt.TableState(), pt.kernelRoot, lists.Keys, others, view, held, e);
      hide Consistent;
      view := view.(eager := e);
    }

    lemma KeysAgree(held: multiset<nat>)
      requires Mid(held)
      ensures view.leaves.Keys == view.perm.Keys == view.eager.obj.Keys && EagerOk(view.eager)
    {
      EagerIsOk(view, pmm.State(), Rest(pt.tables, others), held);
    }

    lemma FreshPage(held: multiset<nat>, f: nat, flags: set<PFlag>, p: Prot, o: nat)
      requires Mid(held) && Users(view.leaves, f) == {} && Unused(view.eager, o)
      ensures view.leaves.Keys == view.perm.Keys == view.eager.obj.Keys
      ensures FitsWith(view, Present(f, flags), p, o)
    {
      FreshFits(view, pmm.State(), Rest(pt.tables, others), held, Present(f, flags), p, o);
    }

    /** One turn of the loop of `uncommit_range`. */
    method UncommitPage(r: nat, va: nat)
      requires Mid(multiset{}) && r in lists && PageAligned(va) && PageNo(va) < USER_PAGES
      modifies this`view, pt, pmm, pmm.mem, pmm.lists
      ensures Mid(multiset{}) && view == WithoutPages(old(view), {(r, PageNo(va))}) && lists == old(lists)
      ensures pt.at == old(pt.at)
      ensures |pmm.free| <= |old(pmm.free)| + 1
      ensures |pmm.free| + |view.leaves.Keys| <= old(|pmm.free| + |view.leaves.Keys|)
    {
      Apart();
      ghost var k, c := (r, PageNo(va)), view;
      KeysAgree(multiset{});
      hide Mid;
      WithoutSingle(c, k);
      if k in view.leaves {
        LeafIsData(multiset{}, k);
      }
      hide WithoutPages;
      FewerLeaves(c, k);
      hide WithoutPage;
      hide IsData;
      hide Leaf;
      hide PosOf;
      hide PageNo;
      hide PageAligned;
      hide LeafFlags;
      hide PhysOf;
      var phys := Phys(r, va, multiset{});
      PhysOfPage(if k in c.leaves then c.leaves[k] else Absent, va);
      if phys == 0 {
        UnmapLeaf(r, va, multiset{});
        return;
      }
      var f := phys / PAGE_SIZE;
      UnmapLeaf(r, va, multiset{});
      assert multiset{} + multiset{f} == multiset{f};
      Release(f);
    }

    /** The end of that turn: give the frame up unless it is none of the allocator's. */
    method Release(f: nat)
      requires Mid(multiset{f})
      modifies pmm, pmm.mem, pmm.lists
      ensures Mid(multiset{}) && view == old(view) && lists == old(lists) && pt.at == old(pt.at)
      ensures |pmm.free| <= |old(pmm.free)| + 1
    {
      hide Mid;
      HeldIsData(multiset{f}, f);
      if f < pmm.mem.Length && FreeLists.Reserved !in pmm.mem[f].flags && FreeLists.Poison !in pmm.mem[f].flags {
        DropFrame(f, multiset{f});
      }
      assert multiset{f} - multiset{f} == multiset{};
    }

    /** `uncommit_range` */
    method UncommitRange(r: nat, start: nat, end: nat)
      requires Mid(multiset{}) && r in lists && PageAligned(start) && PageAligned(end) && start <= end <= V.USER_END
      modifies this`view, pt, pmm, pmm.mem, pmm.lists
      ensures Mid(multiset{}) && lists == old(lists) && pt.at == old(pt.at)
      ensures view == WithoutPages(old(view), KeysOf(r, start / PAGE_SIZE, end / PAGE_SIZE))
      ensures |pmm.free| <= |old(pmm.free)| + (end - start) / PAGE_SIZE
      ensures |pmm.free| + |view.leaves.Keys| <= old(|pmm.free| + |view.leaves.Keys|)
    {
      hide Mid;
      hide WithoutPages;
      hide KeysOf;
      ghost var c, lo := view, start / PAGE_SIZE;
      WithoutNone(c, r, lo);
      var va := start;
      while va < end
        invariant Mid(multiset{}) && lists == old(lists) && pt.at == old(pt.at)
        invariant PageAligned(va) && start <= va <= end
        invariant view == WithoutPages(c, KeysOf(r, lo, va / PAGE_SIZE))
        invariant |pmm.free| + |view.leaves.Keys| <= old(|pmm.free| + |view.leaves.Keys|)
        invariant |pmm.free| <= |old(pmm.free)| + (va - start) / PAGE_SIZE
      {
        UserPage(va);
        UncommitPage(r, va);
        NextKey(r, lo, va / PAGE_SIZE);
        WithoutTwice(c, KeysOf(r, lo, va / PAGE_SIZE), {(r, va / PAGE_SIZE)});
        va := va + PAGE_SIZE;
      }
    }

    /** One turn of the loop of `commit_anon`: a zeroed page. */
    method CommitPage(r: nat, va: nat, ghost p: Prot, flags: set<PFlag>) returns (rc: int, ghost f: nat)
      requires Mid(multiset{}) && r in lists && PageAligned(va) && PageNo(va) < USER_PAGES
      requires (r, PageNo(va)) !in view.leaves && flags == p.flags
      modifies this`view, this`ram, pt, pmm, pmm.mem, pmm.lists
      ensures (rc == 0 || rc == -1) && Mid(multiset{}) && lists == old(lists)
      ensures rc == 0 ==>
        var k := (r, PageNo(va));
        && view.leaves == old(view).leaves[k := Present(f, flags)] && view.perm == old(view).perm[k := p]
        && view.eager == EagerBind(EagerNew(old(view).eager, Zeros()), k, old(view).eager.next)
      ensures rc != 0 ==> view == old(view).(ram := ram)
      ensures rc != 0 ==> |pmm.free| <= 1
    {
      Apart();
      ghost var c := view;
      KeysAgree(multiset{});
      hide Mid;
      var page := TakeFrame(multiset{});
      f := 0;
      if page == NIL {
        assert view.ram == ram by { RamIs(multiset{}); }
        return -1, 0;
      }
      f := page;
      assert multiset{} + multiset{f} == multiset{f};
      rc := CommitFrame(r, va, p, flags, page);
    }

    lemma RamIs(held: multiset<nat>)
      requires Mid(held)
      ensures view.ram == ram
    {
    }

    /** The part of that turn after the allocation. */
    method CommitFrame(r: nat, va: nat, ghost p: Prot, flags: set<PFlag>, f: nat) returns (rc: int)
      requires Mid(multiset{f}) && r in lists && PageAligned(va) && PageNo(va) < USER_PAGES
      requires (r, PageNo(va)) !in view.leaves && flags == p.flags && Users(view.leaves, f) == {}
      modifies this`view, this`ram, pt, pmm, pmm.mem, pmm.lists
      ensures (rc == 0 || rc == -1) && Mid(multiset{}) && lists == old(lists)
      ensures rc == 0 ==>
        var k := (r, PageNo(va));
        && view.leaves == old(view).leaves[k := Present(f, flags)] && view.perm == old(view).perm[k := p]
        && view.eager == EagerBind(EagerNew(old(view).eager, Zeros()), k, old(view).eager.next)
      ensures rc != 0 ==> view == old(view).(ram := ram)
      ensures rc != 0 ==> |pmm.free| <= 1
    {
      Apart();
      ghost var c := view;
      KeysAgree(multiset{f});
      NewUnseen(c.eager, Zeros());
      hide Mid;
      hide Visible;
      hide EagerOk;
      HeldIsData(multiset{f}, f);
      FillFrame(f, Zeros(), multiset{f});
      AddObject(Zeros(), multiset{f});
      FreshPage(multiset{f}, f, flags, p, c.eager.next);
      HeldIsData(multiset{f}, f);
      hide FitsWith;
      hide Unused;
      hide IsData;
      assert multiset{f} - multiset{f} == multiset{};
      rc := MapLeaf(r, va, f, flags, p, c.eager.next, multiset{f});
      if rc != 0 {
        DropFrame(f, multiset{f});
        RamIs(multiset{});
        Forget(c.eager, multiset{});
        return -1;
      }
    }

    /** That turn as a step of the whole: pages `lo` to `v - 1` are there. */
    method CommitNext(r: nat, va: nat, flags: set<PFlag>, ghost c: View, ghost lo: nat, ghost hi: nat, ghost p: Prot)
      returns (rc: int)
      requires Mid(multiset{}) && r in lists && PageAligned(va) && va < V.USER_END && flags == p.flags
      requires lo <= va / PAGE_SIZE < hi && c.perm.Keys !! KeysOf(r, lo, hi) && Grew(c, view, r, lo, va / PAGE_SIZE, p)
      modifies this`view, this`ram, pt, pmm, pmm.mem, pmm.lists
      ensures (rc == 0 || rc == -1) && Mid(multiset{}) && lists == old(lists)
      ensures Grew(c, view, r, lo, va / PAGE_SIZE + if rc == 0 then 1 else 0, p)
      ensures rc != 0 ==> |pmm.free| <= 1
    {
      hide Mid;
      hide Grew;
      hide KeysOf;
      ghost var v, b := va / PAGE_SIZE, view;
      UserPage(va);
      KeysAgree(multiset{});
      NotYet(c, view, r, lo, v, hi, p);
      hide PageNo;
      ghost var f;
      rc, f := CommitPage(r, va, p, flags);
      if rc == 0 {
        GrewStep(c, b, view, r, lo, v, p, f);
      } else {
        SameGrown(c, b, view, r, lo, v, p);
      }
    }

    /** `commit_anon`: the pages of a new VAD, from its start up to page `done`. */
    method CommitAnon(r: nat, vad: V.Vad) returns (rc: int, ghost done: nat)
      requires Mid(multiset{}) && r in lists && PageAligned(vad.start) && PageAligned(vad.end)
      requires vad.start <= vad.end <= V.USER_END
      requires view.perm.Keys !! KeysOf(r, vad.start / PAGE_SIZE, vad.end / PAGE_SIZE)
      modifies this`view, this`ram, pt, pmm, pmm.mem, pmm.lists
      ensures (rc == 0 || rc == -1) && Mid(multiset{}) && lists == old(lists)
      ensures vad.start / PAGE_SIZE <= done <= vad.end / PAGE_SIZE
      ensures Grew(old(view), view, r, vad.start / PAGE_SIZE, done, ProtOf(vad.flags))
      ensures rc == 0 ==> done == vad.end / PAGE_SIZE
      ensures rc != 0 ==> |pmm.free| <= 1
    {
      hide Mid;
      hide Grew;
      hide KeysOf;
      hide EagerOk;
      hide V.ProtBits;
      hide PageNo;
      Apart();
      var flags := V.ProtBits(vad.flags);
      ghost var c, lo, hi, p := view, vad.start / PAGE_SIZE, vad.end / PAGE_SIZE, ProtOf(vad.flags);
      KeysAgree(multiset{});
      NotGrown(c, r, lo, p);
      var va := vad.start;
      while va < vad.end
        invariant vad.start <= va <= vad.end && PageAligned(va) && Mid(multiset{}) && lists == old(lists)
        invariant Grew(c, view, r, lo, va / PAGE_SIZE, p)
      {
        UserPage(va);
        rc := CommitNext(r, va, flags, c, lo, hi, p);
        if rc != 0 {
          return -1, va / PAGE_SIZE;
        }
        va := va + PAGE_SIZE;
      }
      return 0, hi;
    }

    // ---- the operations ----

    lemma SpaceFacts(vas: V.Vas)
      requires Valid() && Has(vas)
      ensures vas.Valid() && UserList(vas.list)
    {
      hide Mid;
      hide Granted;
    }

    lemma GrantedPage(k: Key)
      requires Valid() && k in view.leaves
      ensures k in view.perm && k.0 in lists && GrantedBy(lists[k.0], k.1, view.perm[k])
    {
      LeafIsData(multiset{}, k);
      hide Mid;
    }

    lemma RefsAreUsers(k: Key)
      requires Mid(multiset{}) && k in view.leaves && view.leaves[k].Present?
      ensures view.leaves[k].frame < pmm.mem.Length
      ensures pmm.mem[view.leaves[k].frame].refcount == |Users(view.leaves, view.leaves[k].frame)|
    {
      LeafIsData(multiset{}, k);
      hide PageTables.Valid;
    }

    /** The part of `vas_handle_page_fault` after the checks of the VAD. */
    method BreakSharing(r: nat, va: nat, flags: set<PFlag>) returns (rc: int, ghost to: nat)
      requires Mid(multiset{}) && r in lists && PageAligned(va) && PageNo(va) < USER_PAGES
      requires Write in flags
      requires (r, PageNo(va)) in view.leaves ==>
        var k := (r, PageNo(va)); k in view.perm && !view.perm[k].shared && flags == view.perm[k].flags
      modifies this`view, this`ram, pt, pmm, pmm.mem, pmm.lists
      ensures Mid(multiset{}) && (rc == 0 || rc == -1)
      ensures view.eager == old(view).eager && view.perm == old(view).perm
      ensures rc == -1 ==> view.leaves == old(view).leaves
      ensures rc == 0 ==> (r, PageNo(va)) in old(view).leaves
      ensures rc == 0 ==> view.leaves == old(view).leaves[(r, PageNo(va)) := Present(to, flags)]
      ensures lists == old(lists)
      ensures Recoverable(old(view), (r, PageNo(va))) ==> rc == 0 || pmm.free == {}
      ensures rc == 0 ==>
        var k := (r, PageNo(va));
        && old(view).leaves[k].Present?
        && if |Users(old(view).leaves, old(view).leaves[k].frame)| <= 1 then to == old(view).leaves[k].frame
           else Users(old(view).leaves, to) == {}
    {
      ghost var k, c := (r, PageNo(va)), view;
      hide Mid;
      if k in view.leaves {
        LeafIsData(multiset{}, k);
      }
      var phys := Phys(r, va, multiset{});
      if phys == 0 {
        return -1, 0;
      }
      PhysOfPage(c.leaves[k], va);
      var f := phys / PAGE_SIZE;
      LeafIsData(multiset{}, k);
      RefsAreUsers(k);
      hide Users;
      if f >= pmm.mem.Length || FreeLists.Cow !in pmm.mem[f].flags {
        return -1, 0;
      }
      hide Leaf;
      hide PosOf;
      if pmm.mem[f].refcount <= 1 {
        to := f;
        rc := Reclaim(r, va, f, flags);
      } else {
        rc, to := CopyPage(r, va, f, flags);
      }
    }

    /** What `vas_find` tells about the page of an address. */
    lemma FaultFacts(vas: V.Vas, addr: nat)
      requires Valid() && Has(vas)
      ensures vas.root in lists && vas.Valid()
      ensures var va := V.AlignDown(addr);
        var k := (vas.root, PageNo(addr));
        var flags := V.FlagsAt(vas.list, va);
        && PageNo(va) == PageNo(addr)
        && (flags.Some? ==> PageAligned(va) && PageNo(va) < USER_PAGES)
        && (flags.Some? && k in view.leaves ==> k in view.perm && view.perm[k] == ProtOf(flags.value))
        && (flags.None? && addr < V.USER_END ==> k !in view.leaves)
    {
      SpaceFacts(vas);
      var k := (vas.root, PageNo(addr));
      var va := V.AlignDown(addr);
      PageStart(addr);
      if V.FlagsAt(vas.list, va).Some? {
        UserAddress(vas.list, va);
      }
      if k in view.leaves {
        GrantedPage(k);
      }
    }

    /** `vas_handle_page_fault`: a write to a page that is read-only because its frame is, or was, shared. */
    method HandlePageFault(vas: V.Vas, addr: nat, present: bool, write: bool) returns (rc: int, ghost to: nat)
      requires Valid() && Has(vas)
      modifies this`view, this`ram, pt, pmm, pmm.mem, pmm.lists
      ensures Valid() && (rc == 0 || rc == -1)
      ensures view.eager == old(view).eager && view.perm == old(view).perm
      ensures rc == -1 ==> view.leaves == old(view).leaves
      ensures rc == 0 ==> present && write && Breakable(old(view), (vas.root, PageNo(addr)))
      ensures rc == 0 ==>
        view.leaves == old(view).leaves[(vas.root, PageNo(addr)) := Present(to, view.perm[(vas.root, PageNo(addr))].flags)]
      ensures lists == old(lists) && Has(vas)
      ensures present && write && Recoverable(old(view), (vas.root, PageNo(addr))) && addr < V.USER_END ==>
        rc == 0 || pmm.free == {}
      ensures rc == 0 ==>
        var k := (vas.root, PageNo(addr));
        && k in old(view).leaves && old(view).leaves[k].Present?
        && if |Users(old(view).leaves, old(view).leaves[k].frame)| <= 1 then to == old(view).leaves[k].frame
           else Users(old(view).leaves, to) == {}
      ensures forall i | 0 <= i < |vas.list| && vas.list[i].start <= addr < vas.list[i].end ::
        V.Shared in vas.list[i].flags || V.Bit(Write) !in vas.list[i].flags ==> rc == -1
      ensures (forall i | 0 <= i < |vas.list| :: !(vas.list[i].start <= addr < vas.list[i].end)) ==> rc == -1
    {
      hide Mid;
      hide UserLists;
      hide Granted;
      hide PageNo;
      hide PageAligned;
      hide V.AlignDown;
      hide V.FlagsAt;
      hide UserList;
      hide V.Sorted;
      hide V.AllAligned;
      var va := V.AlignDown(addr);
      Apart();
      FaultFacts(vas, addr);
      V.PageFlags(vas.list, addr);
      ghost var list := vas.list;
      var found := vas.Find(va);
      if found.None? || !write || !present {
        return -1, 0;
      }
      var flags := found.value;
      if V.Bit(Write) !in flags || V.Shared in flags {
        return -1, 0;
      }
      rc, to := BreakSharing(vas.root, va, V.ProtBits(flags));
      assert vas.list == list;
    }

    /** The ghost copy of a space's list follows the list. */
    ghost method Listed(vas: V.Vas, held: multiset<nat>)
      requires Mid(held) && vas.root in lists
      modifies this`lists
      ensures Mid(held) && lists == old(lists)[vas.root := vas.list] && view == old(view)
    {
      Apart();
      hide PageTables.Valid;
      hide Consistent;
      ghost var roots := lists.Keys;
      lists := lists[vas.root := vas.list];
      assert lists.Keys == roots;
      Between(held);
    }

    /** `vad_insert` touches nothing but the list. */
    method InsertList(vas: V.Vas, vad: V.Vad, ghost held: multiset<nat>)
      requires Mid(held) && vas.Valid() && vad.start < vad.end && PageAligned(vad.start) && PageAligned(vad.end)
      requires V.FreeRange(vas.list, vad.start, vad.end)
      modifies vas`list
      ensures Mid(held) && view == old(view) && lists == old(lists) && vas.userStart == old(vas.userStart)
      ensures vas.Valid() && V.Added(old(vas.list), vas.list, vad)
      ensures multiset(vas.list) == multiset(old(vas.list)) + multiset{vad}
      ensures (forall j | 0 <= j < |old(vas.list)| :: old(vas.list)[j].start < vad.start) ==>
        vas.list == old(vas.list) + [vad]
    {
      hide Mid;
      hide V.Sorted;
      hide V.AllAligned;
      hide V.FreeRange;
      hide V.Added;
      Apart();
      ApartFrom(vas);
      vas.Insert(vad);
    }

    /** `vad_insert` of a VAD whose pages have been committed. */
    method InsertVad(vas: V.Vas, vad: V.Vad, ghost perm: map<Key, Prot>)
      requires Mid(multiset{}) && Has(vas) && UserLists(lists) && Granted(lists, perm)
      requires vad.start < vad.end <= V.USER_END && PageAligned(vad.start) && PageAligned(vad.end)
      requires V.FreeRange(vas.list, vad.start, vad.end)
      requires PermGrew(perm, view.perm, KeysOf(vas.root, vad.start / PAGE_SIZE, vad.end / PAGE_SIZE), ProtOf(vad.flags))
      modifies this`lists, vas`list
      ensures Valid() && Has(vas) && lists == old(lists)[vas.root := vas.list] && view == old(view)
      ensures V.Added(old(vas.list), vas.list, vad) && vas.userStart == old(vas.userStart)
      ensures (forall j | 0 <= j < |old(vas.list)| :: old(vas.list)[j].start < vad.start) ==>
        vas.list == old(vas.list) + [vad]
    {
      hide Mid;
      hide KeysOf;
      hide UserLists;
      hide UserList;
      hide Granted;
      hide PermGrew;
      hide V.Added;
      hide V.Sorted;
      hide V.AllAligned;
      hide V.FreeRange;
      ghost var lists0, r, list0 := lists, vas.root, vas.list;
      UserListOf(lists0, r);
      ListFacts(list0, vad.start, vad.end);
      InsertList(vas, vad, multiset{});
      InsertedUserList(list0, vas.list, vad);
      GrantedAfterInsert(lists0, r, vas.list, vad, perm, view.perm);
      Listed(vas, multiset{});
      OneList(lists0, r, vas.list);
    }

    /** The part of `vas_map_anon` after a place has been found. */
    method MapAt(vas: V.Vas, base: nat, length: nat, flags: set<V.VFlag>, heapOk: bool) returns (ok: bool)
      requires Valid() && Has(vas) && PageAligned(base) && PageAligned(length) && length > 0
      requires base + length <= V.USER_END && V.FreeRange(vas.list, base, base + length)
      modifies this`view, this`ram, this`lists, vas`list, vas`userStart, pt, pmm, pmm.mem, pmm.lists
      ensures Valid() && Has(vas) && lists == old(lists)[vas.root := vas.list]
      ensures ok ==> heapOk
      ensures ok ==> NowMapped(old(view), view, old(vas.list), vas.list, vas.root, base, length, flags + {V.Anonymous, V.Mapped})
      ensures ok ==> vas.userStart == base + length
      ensures !ok ==> vas.list == old(vas.list) && vas.userStart == old(vas.userStart) && view == old(view).(ram := view.ram)
      ensures !ok ==> !heapOk || |pmm.free| <= 1 + length / PAGE_SIZE
    {
      hide Mid;
      hide KeysOf;
      hide Grew;
      hide UserLists;
      hide Granted;
      hide UserList;
      hide PageAligned;
      hide V.Added;
      hide V.FreeRange;
      hide PermGrew;
      SameList(lists, vas.root);
      var vad := V.Vad(base, base + length, flags + {V.Anonymous, V.Mapped});
      NoPagesYet(vas, vad, length);
      if !heapOk {
        return false;
      }
      ghost var c := view;
      ok := CommitOrUndo(vas.root, vad);
      if ok {
        GrownPerm(c, view, vas.root, vad.start / PAGE_SIZE, vad.end / PAGE_SIZE, ProtOf(vad.flags));
        InsertVad(vas, vad, c.perm);
        SetUserStart(vas, base + length);
      }
    }

    lemma NoPagesYet(vas: V.Vas, vad: V.Vad, length: nat)
      requires Valid() && Has(vas) && PageAligned(vad.start) && PageAligned(length) && vad.end == vad.start + length
      requires V.FreeRange(vas.list, vad.start, vad.end)
      ensures PageAligned(vad.end) && view.perm.Keys !! KeysOf(vas.root, vad.start / PAGE_SIZE, vad.end / PAGE_SIZE)
    {
      hide Mid;
      assert PageAligned(vad.end);
      NothingMapped(lists, view.perm, vas.root, vad.start, vad.end);
    }

    method SetUserStart(vas: V.Vas, addr: nat)
      requires Valid() && Has(vas) && addr > 0
      modifies vas`userStart
      ensures Valid() && Has(vas) && vas.userStart == addr && view == old(view) && lists == old(lists)
    {
      hide Valid;
      Apart();
      ApartFrom(vas);
      vas.userStart := addr;
    }

    /** `commit_anon`, undone by `uncommit_range` when it fails. */
    method CommitOrUndo(r: nat, vad: V.Vad) returns (ok: bool)
      requires Mid(multiset{}) && r in lists && PageAligned(vad.start) && PageAligned(vad.end)
      requires vad.start <= vad.end <= V.USER_END
      requires view.perm.Keys !! KeysOf(r, vad.start / PAGE_SIZE, vad.end / PAGE_SIZE)
      modifies this`view, this`ram, pt, pmm, pmm.mem, pmm.lists
      ensures Mid(multiset{}) && lists == old(lists)
      ensures ok ==> Grew(old(view), view, r, vad.start / PAGE_SIZE, vad.end / PAGE_SIZE, ProtOf(vad.flags))
      ensures !ok ==> view == old(view).(ram := view.ram)
      ensures !ok ==> |pmm.free| <= 1 + (vad.end - vad.start) / PAGE_SIZE
    {
      hide Mid;
      hide KeysOf;
      hide Grew;
      hide PageAligned;
      hide EagerOk;
      ghost var c := view;
      KeysAgree(multiset{});
      var rc;
      ghost var done;
      rc, done := CommitAnon(r, vad);
      if rc != 0 {
        ghost var b := view;
        UncommitRange(r, vad.start, vad.end);
        GrewUndone(c, b, r, vad.start / PAGE_SIZE, done, vad.end / PAGE_SIZE, ProtOf(vad.flags));
        Forget(c.eager, multiset{});
      }
      return rc == 0;
    }

    /** Where `vas_map_anon` puts a mapping of whole pages. */
    method ChoosePlace(vas: V.Vas, hint: nat, length: nat, flags: set<V.VFlag>) returns (found: bool, base: nat)
      requires vas.Valid() && vas.userStart > 0 && length > 0
      ensures Chosen(vas.list, hint, vas.userStart, length, flags, found, base) && (found || base == 0)
    {
      if V.Fixed in flags {
        base := V.AlignDown(hint);
        V.AlignUpIsLeast(hint, 0);
        if base + length > V.USER_END {
          return false, 0;
        }
        var overlap := vas.Overlaps(base, base + length);
        return !overlap, if overlap then 0 else base;
      } else {
        base := vas.FindFree(if hint != 0 then hint else vas.userStart, length);
        return base != 0, base;
      }
    }

    /** `vas_map_anon`: the mapping's address, or 0; `ok` tells the two meanings of 0 apart. */
    method MapAnon(vas: V.Vas, hint: nat, length: nat, flags: set<V.VFlag>, heapOk: bool) returns (base: nat, ghost ok: bool)
      requires Valid() && Has(vas)
      modifies this`view, this`ram, this`lists, vas`list, vas`userStart, pt, pmm, pmm.mem, pmm.lists
      ensures Valid() && Has(vas) && lists == old(lists)[vas.root := vas.list]
      ensures ok ==> length > 0 && heapOk && vas.userStart == base + V.AlignUp(length)
      ensures ok ==> Chosen(old(vas.list), hint, old(vas.userStart), V.AlignUp(length), flags, true, base)
      ensures ok ==>
        NowMapped(old(view), view, old(vas.list), vas.list, vas.root, base, V.AlignUp(length), flags + {V.Anonymous, V.Mapped})
      ensures !ok ==> base == 0
      ensures !ok ==> vas.list == old(vas.list) && vas.userStart == old(vas.userStart) && view == old(view).(ram := view.ram)
      ensures ok && base == 0 <==> ok && V.Fixed in flags && hint < PAGE_SIZE
      ensures ok ==> AllNew(old(view), view, vas.root, base, length, flags) && SameOutsideOf(old(view), view, vas.root, base, length)
      ensures ok ==> WellPlaced(old(vas.list), if hint != 0 then hint else old(vas.userStart), hint, length, flags, base)
      ensures !ok ==>
        var len := V.AlignUp(length);
        || length == 0 || !heapOk || Chosen(old(vas.list), hint, old(vas.userStart), len, flags, false, 0)
        || |pmm.free| <= 1 + len / PAGE_SIZE
    {
      hide Valid;
      hide V.AlignDown;
      hide V.AlignUp;
      hide Chosen;
      hide NowMapped;
      hide PageAligned;
      hide V.Sorted;
      hide V.AllAligned;
      hide V.FreeRange;
      hide UserList;
      SpaceFacts(vas);
      WholePages(length);
      SameList(lists, vas.root);
      RamOfValid();
      if length == 0 {
        return 0, false;
      }
      var len := V.AlignUp(length);
      var found;
      found, base := ChoosePlace(vas, hint, len, flags);
      if !found {
        return 0, false;
      }
      assert vas.userStart > 0;
      AlignedPlace(vas.list, hint, vas.userStart, len, flags, base);
      ghost var a, list := view, vas.list;
      KeysAgreeHere();
      PlaceMeans(vas.list, hint, vas.userStart, length, flags, base);
      hide WellPlaced;
      hide AllNew;
      hide SameOutsideOf;
      hide EagerOk;
      var done := MapAt(vas, base, len, flags, heapOk);
      ok := done;
      if done {
        MappedMeans(a, view, list, vas.list, vas.root, base, length, flags);
      } else {
        base := 0;
      }
    }

    lemma CloneFacts()
      requires Valid()
      ensures UserLists(lists) && Granted(lists, view.perm)
    {
    }

    lemma LeavesHere(held: multiset<nat>)
      requires Mid(held)
      ensures forall k | k in view.leaves :: view.leaves[k].Present? && k.0 in lists
    {
    }

    lemma KeysAgreeHere()
      requires Valid()
      ensures view.eager.obj.Keys == view.leaves.Keys && EagerOk(view.eager)
    {
      KeysAgree(multiset{});
    }

    lemma RamOfValid()
      requires Valid()
      ensures view == view.(ram := view.ram)
    {
    }

    /** The loop of `vas_unmap`: the pages of the range that VADs describe, which are all that there are. */
    method UncommitVads(vas: V.Vas, start: nat, end: nat)
      requires Valid() && Has(vas) && PageAligned(start) && PageAligned(end) && start <= end
      modifies this`view, pt, pmm, pmm.mem, pmm.lists
      ensures Mid(multiset{}) && Has(vas) && lists == old(lists)
      ensures view == WithoutPages(old(view), KeysOf(vas.root, start / PAGE_SIZE, end / PAGE_SIZE))
    {
      hide Mid;
      SpaceFacts(vas);
      KeysAgree(multiset{});
      Apart();
      ApartFrom(vas);
      hide WithoutPages;
      hide KeysOf;
      hide EagerOk;
      hide UserLists;
      ghost var c, S, list := view, {}, vas.list;
      WithoutNone(c, 0, 0);
      assert Granted(lists, c.perm);
      hide Granted;
      hide UserList;
      var i: nat := 0;
      while i < |vas.list| && vas.list[i].start < end
        invariant i <= |vas.list| && vas.list == list && Has(vas) && lists == old(lists)
        invariant Mid(multiset{}) && view == WithoutPages(c, S) && Uncommitted(list[..i], vas.root, start, end, S)
      {
        if vas.list[i].end > start {
          var lo := if vas.list[i].start > start then vas.list[i].start else start;
          var hi := if vas.list[i].end < end then vas.list[i].end else end;
          PartOfVad(list, i, start, end);
          UncommitRange(vas.root, lo, hi);
          ghost var K := KeysOf(vas.root, lo / PAGE_SIZE, hi / PAGE_SIZE);
          WithoutTwice(c, S, K);
          UncommittedNext(list, i, vas.root, start, end, lo, hi, S);
          S := S + K;
        } else {
          UncommittedSkip(list, i, vas.root, start, end, S);
        }
        i := i + 1;
      }
      AllUncommitted(lists, c, vas.root, start, end, i, S);
    }

    /** `vad_remove_range` after the pages have gone. */
    method RemoveVads(vas: V.Vas, start: nat, end: nat, ghost c: View)
      requires Mid(multiset{}) && Has(vas) && PageAligned(start) && PageAligned(end) && start <= end
      requires UserLists(lists) && Granted(lists, c.perm)
      requires view == WithoutPages(c, KeysOf(vas.root, start / PAGE_SIZE, end / PAGE_SIZE))
      modifies this`lists, vas`list
      ensures Valid() && Has(vas) && lists == old(lists)[vas.root := vas.list] && view == old(view)
      ensures V.Removed(old(vas.list), vas.list, start, end)
    {
      hide Mid;
      hide KeysOf;
      hide PageAligned;
      hide V.Removed;
      hide Granted;
      hide UserList;
      hide WithoutPages;
      hide V.Sorted;
      hide V.AllAligned;
      ghost var lists0, list0 := lists, vas.list;
      ListFacts(list0, start, end);
      RemoveList(vas, start, end);
      RemovedUserList(list0, vas.list, start, end);
      PermWithout(c, KeysOf(vas.root, start / PAGE_SIZE, end / PAGE_SIZE));
      GrantedAfterRemove(lists0, vas.root, vas.list, start, end, c.perm, view.perm);
      Listed(vas, multiset{});
      OneList(lists0, vas.root, vas.list);
    }

    /** `vad_remove_range` touches nothing but the list. */
    method RemoveList(vas: V.Vas, start: nat, end: nat)
      requires Mid(multiset{}) && vas.Valid() && start <= end && PageAligned(start) && PageAligned(end)
      modifies vas`list
      ensures Mid(multiset{}) && view == old(view) && lists == old(lists) && vas.userStart == old(vas.userStart)
      ensures vas.Valid() && V.Removed(old(vas.list), vas.list, start, end)
    {
      hide Mid;
      hide V.Sorted;
      hide V.AllAligned;
      hide V.Removed;
      Apart();
      ApartFrom(vas);
      vas.RemoveRange(start, end);
    }

    /** `vas_unmap` */
    method Unmap(vas: V.Vas, start: nat, length: nat)
      requires Valid() && Has(vas)
      modifies this`view, this`lists, vas`list, pt, pmm, pmm.mem, pmm.lists
      ensures Valid() && Has(vas) && lists == old(lists)[vas.root := vas.list]
      ensures length == 0 ==> view == old(view) && vas.list == old(vas.list)
      ensures length > 0 ==>
        var lo, hi := V.AlignDown(start), V.AlignDown(start) + V.AlignUp(length);
        && V.Removed(old(vas.list), vas.list, lo, hi)
        && view == WithoutPages(old(view), KeysOf(vas.root, lo / PAGE_SIZE, hi / PAGE_SIZE))
        && Cleared(view, vas.root, lo, hi - lo) && SameOutsideOf(old(view), view, vas.root, lo, hi - lo)
    {
      hide Mid;
      hide KeysOf;
      hide WithoutPages;
      hide UserLists;
      hide Granted;
      hide UserList;
      hide PageAligned;
      hide V.Removed;
      hide V.AlignDown;
      hide V.AlignUp;
      SameList(lists, vas.root);
      UnmapRange(start, length);
      if length == 0 {
        return;
      }
      var lo, hi := V.AlignDown(start), V.AlignDown(start) + V.AlignUp(length);
      ghost var c := view;
      KeysAgree(multiset{});
      hide EagerOk;
      hide Cleared;
      hide SameOutsideOf;
      UncommitVads(vas, lo, hi);
      RemoveVads(vas, lo, hi, c);
      WithoutMeans(c, view, vas.root, lo, hi);
    }

    /** `vas_create` with a new page table */
    method Create(heapOk: bool) returns (vas: V.Vas?)
      requires Valid()
      modifies this`lists, pt, pmm, pmm.mem, pmm.lists
      ensures Valid() && view == old(view)
      ensures vas == null ==> lists == old(lists) && (!heapOk || pmm.free == {})
      ensures !heapOk ==> vas == null
      ensures vas != null ==>
        && fresh(vas) && Has(vas) && vas.list == [] && vas.userStart == V.USER_START
        && vas.root !in old(lists) && lists == old(lists)[vas.root := []]
      ensures vas != null ==> JustRoot(pt.at, vas.root)
    {
      hide Mid;
      hide JustRoot;
      if !heapOk {
        return null;
      }
      hide UserLists;
      hide Granted;
      ghost var lists0 := lists;
      var root := CreateRoot();
      if root == 0 {
        return null;
      }
      NewSpace(lists0, view.perm, root);
      vas := new V.Vas(root, V.USER_START);
    }

    lemma RootInTables(r: nat)
      requires Mid(multiset{}) && r in lists
      ensures RootOf(r) in pt.at
    {
    }

    lemma OnlyRoots()
      requires Mid(multiset{})
      ensures Rooted(pt.at)
    {
      forall q | q in pt.at
        ensures RootOf(q.root) in pt.at
      {
        RootAbove(pt.tables, pt.at, pt.kernelRoot, q);
      }
    }

    /** The root table of a new space. */
    method CreateRoot() returns (root: nat)
      requires Mid(multiset{})
      modifies this`lists, pt, pmm, pmm.mem, pmm.lists
      ensures Mid(multiset{}) && view == old(view)
      ensures root == 0 ==> lists == old(lists) && pmm.free == {}
      ensures root != 0 ==> root !in old(lists) && lists == old(lists)[root := []]
      ensures root != 0 ==> JustRoot(pt.at, root)
    {
      Apart();
      Live();
      ghost var s0, kroot := pt.TableState(), pt.kernelRoot;
      assert Tree(pt.tables, pt.at, pt.kernelRoot);
      OnlyRoots();
      hide Rooted;
      hide JustRoot;
      hide GrewBy;
      hide PageTables.Valid;
      hide Consistent;
      hide Tree;
      hide Changed;
      root := pt.PtableCreate();
      if root == 0 {
        Between(multiset{});
        return;
      }
      FirstTable(s0.at, pt.at, root);
      AfterCreate(s0, pt.TableState(), kroot, lists.Keys, others, view, multiset{}, root);
      AddList(root);
    }

    ghost method AddList(root: nat)
      requires pt.pmm == pmm && pt.Valid() && pmm.mem.Length <= FRAME_MASK && view.ram == ram && root !in lists
      requires Consistent(pt.TableState(), pt.kernelRoot, lists.Keys + {root}, others, view, multiset{})
      modifies this`lists
      ensures Mid(multiset{}) && lists == old(lists)[root := []] && view == old(view)
    {
      Apart();
      hide PageTables.Valid;
      hide Consistent;
      ghost var roots := lists.Keys + {root};
      lists := lists[root := []];
      assert lists.Keys == roots;
      Between(multiset{});
    }

    // ---- forks ----

    lemma SharedFit(held: multiset<nat>, k: Key)
      requires Mid(held) && k in view.leaves
      ensures k in view.perm && k in view.eager.obj && view.leaves.Keys == view.perm.Keys == view.eager.obj.Keys
      ensures view.leaves[k].Present?
      ensures view.perm[k].shared ==> view.leaves[k].flags == view.perm[k].flags
      ensures view.perm[k].shared ==> FitsWith(view, view.leaves[k], view.perm[k], view.eager.obj[k])
    {
      LeafIsData(held, k);
      hide FitsWith;
      if view.perm[k].shared {
        SharedFits(view, pmm.State(), Rest(pt.tables, others), held, k);
      }
    }

    lemma CopyFit(held: multiset<nat>, k: Key, flags: set<PFlag>, p: Prot, o: nat)
      requires Mid(held) && k in view.leaves && view.leaves[k].Present? && Write !in view.leaves[k].flags && Write !in flags
      requires k in view.perm && !view.perm[k].shared && Unused(view.eager, o)
      ensures view.leaves.Keys == view.perm.Keys == view.eager.obj.Keys
      ensures FitsWith(view, Present(view.leaves[k].frame, flags), p, o)
    {
      KeysAgree(held);
      hide FitsWith;
      CopyFits(view, pmm.State(), Rest(pt.tables, others), held, k, Present(view.leaves[k].frame, flags), p, o);
    }

    /** The copy-on-write part of the inner loop of `vas_clone`; one reference has been taken. */
    method ShareCow(r: nat, r': nat, va: nat, f: nat, flags: set<PFlag>) returns (rc: int)
      requires Mid(multiset{f}) && r in lists && r' in lists && r != r' && PageAligned(va) && PageNo(va) < USER_PAGES
      requires var k := (r, PageNo(va));
        && k in view.leaves && view.leaves[k].Present? && view.leaves[k].frame == f
        && k in view.perm && !view.perm[k].shared && Write in view.perm[k].flags && flags == view.perm[k].flags - {Write}
      requires (r', PageNo(va)) !in view.leaves
      modifies this`view, pt, pmm, pmm.mem, pmm.lists
      ensures Mid(multiset{}) && lists == old(lists)
      ensures rc == 0 ==> ForkedPageNow(old(view), view, (r, PageNo(va)), (r', PageNo(va)))
      ensures rc != 0 ==> ForkFailed(old(view), view, (r, PageNo(va)))
      ensures GrewBy(old(pt.at), pt.at, PathTo(r', PageNo(va)))
      ensures rc != 0 ==> |pmm.free| <= 1
    {
      hide Mid;
      hide GrewBy;
      hide PathTo;
      hide IsData;
      hide Leaf;
      hide PosOf;
      hide PageNo;
      hide FitsWith;
      hide EagerOk;
      hide Unused;
      hide Visible;
      hide Users;
      hide PageAligned;
      ghost var k, k', c, held := (r, PageNo(va)), (r', PageNo(va)), view, multiset{f};
      KeysAgree(held);
      LeafIsData(held, k);
      SetCow(f, held);
      rc := Remap(r, va, flags, held);
      ghost var bytes := Visible(c.eager, k);
      NewUnseen(c.eager, bytes);
      assert c.eager.obj[k] in c.eager.store;
      SeenOf(c.eager, k);
      AddObject(bytes, held);
      LeafIsData(held, k);
      CopyFit(held, k, flags, c.perm[k], c.eager.next);
      HeldIsData(held, f);
      rc := MapLeaf(r', va, f, flags, c.perm[k], c.eager.next, held);
      assert held - multiset{f} == multiset{};
      if rc != 0 {
        DropFrame(f, held);
        Forget(c.eager, multiset{});
      }
    }

    /** The other part of the inner loop of `vas_clone`: a page that is shared on purpose or never written. */
    method SharePlain(r: nat, r': nat, va: nat, f: nat, flags: set<PFlag>) returns (rc: int)
      requires Mid(multiset{f}) && r in lists && r' in lists && r != r' && PageAligned(va) && PageNo(va) < USER_PAGES
      requires var k := (r, PageNo(va));
        && k in view.leaves && view.leaves[k].Present? && view.leaves[k].frame == f
        && k in view.perm && (view.perm[k].shared || Write !in view.perm[k].flags) && flags == view.perm[k].flags
      requires (r', PageNo(va)) !in view.leaves
      modifies this`view, pt, pmm, pmm.mem, pmm.lists
      ensures Mid(multiset{}) && lists == old(lists)
      ensures rc == 0 ==> ForkedPageNow(old(view), view, (r, PageNo(va)), (r', PageNo(va)))
      ensures rc != 0 ==> ForkFailed(old(view), view, (r, PageNo(va)))
      ensures GrewBy(old(pt.at), pt.at, PathTo(r', PageNo(va)))
      ensures rc != 0 ==> |pmm.free| <= 1
    {
      hide Mid;
      hide GrewBy;
      hide PathTo;
      hide IsData;
      hide Leaf;
      hide PosOf;
      hide PageNo;
      hide FitsWith;
      hide EagerOk;
      hide Unused;
      hide Visible;
      hide Users;
      hide PageAligned;
      ghost var k, k', c, held := (r, PageNo(va)), (r', PageNo(va)), view, multiset{f};
      KeysAgree(held);
      LeafIsData(held, k);
      SharedFit(held, k);
      assert view.leaves[k] == Present(f, flags);
      assert c.eager.obj[k] in c.eager.store;
      SeenOf(c.eager, k);
      ghost var o := c.eager.obj[k];
      if !view.perm[k].shared {
        ghost var bytes := Visible(c.eager, k);
        NewUnseen(c.eager, bytes);
        AddObject(bytes, held);
        o := c.eager.next;
        CopyFit(held, k, flags, c.perm[k], o);
        LeafIsData(held, k);
      }
      HeldIsData(held, f);
      rc := MapLeaf(r', va, f, flags, c.perm[k], o, held);
      assert held - multiset{f} == multiset{};
      if rc != 0 {
        DropFrame(f, held);
        Forget(c.eager, multiset{});
      }
    }

    /** One turn of the inner loop of `vas_clone`. */
    method ClonePage(r: nat, r': nat, va: nat, vadFlags: set<V.VFlag>) returns (rc: int)
      requires Mid(multiset{}) && r in lists && r' in lists && r != r' && PageAligned(va) && PageNo(va) < USER_PAGES
      requires (r, PageNo(va)) in view.leaves ==>
        (r, PageNo(va)) in view.perm && view.perm[(r, PageNo(va))] == ProtOf(vadFlags)
      requires (r', PageNo(va)) !in view.leaves
      requires Shaped(pt.at, r', r)
      modifies this`view, pt, pmm, pmm.mem, pmm.lists
      ensures Mid(multiset{}) && lists == old(lists)
      ensures (r, PageNo(va)) !in old(view).leaves ==> rc == 0 && view == old(view)
      ensures (r, PageNo(va)) in old(view).leaves && rc == 0 ==>
        ForkedPageNow(old(view), view, (r, PageNo(va)), (r', PageNo(va)))
      ensures rc != 0 ==> ForkFailed(old(view), view, (r, PageNo(va)))
      ensures Shaped(pt.at, r', r)
      ensures rc != 0 ==> |pmm.free| <= 1
    {
      hide Mid;
      hide GrewBy;
      hide PathTo;
      hide HasPath;
      hide Shaped;
      hide Leaf;
      hide PosOf;
      hide PageNo;
      hide PageAligned;
      hide PhysOf;
      hide ForkedPageNow;
      hide ForkFailed;
      hide V.ProtBits;
      hide LeafFlags;
      ghost var k, c := (r, PageNo(va)), view;
      var prot := V.ProtBits(vadFlags);
      if k in c.leaves {
        LeafIsData(multiset{}, k);
      }
      var phys := Phys(r, va, multiset{});
      PhysOfPage(if k in c.leaves then c.leaves[k] else Absent, va);
      if phys == 0 {
        return 0;
      }
      var f := phys / PAGE_SIZE;
      LeafIsData(multiset{}, k);
      PathOfLeaf(r, PageNo(va));
      ghost var at0 := pt.at;
      AddRef(f, multiset{});
      assert multiset{} + multiset{f} == multiset{f};
      if Write in prot && V.Shared !in vadFlags {
        rc := ShareCow(r, r', va, f, prot - {Write});
      } else {
        rc := SharePlain(r, r', va, f, prot);
      }
      ShapedMore(at0, pt.at, r', r, PageNo(va));
    }

    /** The loop of `vas_destroy`: all pages of the space. */
    method UncommitAll(vas: V.Vas)
      requires Valid() && Has(vas)
      modifies this`view, pt, pmm, pmm.mem, pmm.lists
      ensures Mid(multiset{}) && Has(vas) && lists == old(lists) && pt.at == old(pt.at)
      ensures view == WithoutPages(old(view), KeysOf(vas.root, 0, USER_PAGES))
      ensures |pmm.free| + |view.leaves.Keys| <= old(|pmm.free| + |view.leaves.Keys|)
    {
      hide Mid;
      hide WithoutPages;
      hide KeysOf;
      hide EagerOk;
      hide UserLists;
      hide Granted;
      hide UserList;
      hide V.Sorted;
      hide V.AllAligned;
      hide V.FlagsAt;
      SpaceFacts(vas);
      KeysAgree(multiset{});
      Apart();
      ApartFrom(vas);
      ghost var c, S, list, lists0 := view, {}, vas.list, lists;
      WithoutNone(c, 0, 0);
      NoneUncommitted(vas.root);
      var i: nat := 0;
      while i < |vas.list|
        invariant i <= |vas.list| && vas.list == list && Has(vas) && lists == old(lists) && pt.at == old(pt.at)
        invariant |pmm.free| + |view.leaves.Keys| <= old(|pmm.free| + |view.leaves.Keys|)
        invariant Mid(multiset{}) && view == WithoutPages(c, S) && Uncommitted(list[..i], vas.root, 0, USER_TOP, S)
      {
        var lo, hi := vas.list[i].start, vas.list[i].end;
        WholeVad(list, i);
        UncommitRange(vas.root, lo, hi);
        ghost var K := KeysOf(vas.root, lo / PAGE_SIZE, hi / PAGE_SIZE);
        WithoutTwice(c, S, K);
        UncommittedNext(list, i, vas.root, 0, USER_TOP, lo, hi, S);
        S := S + K;
        i := i + 1;
      }
      AllUncommitted(lists0, c, vas.root, 0, USER_TOP, i, S);
      TopPage();
    }

    /** `vas_destroy`: pages, page tables and VADs go; every other space stays as it is. */
    method Destroy(vas: V.Vas)
      requires Valid() && Has(vas)
      modifies this`view, this`lists, pt, pmm, pmm.mem, pmm.lists
      ensures Valid() && lists == old(lists) - {vas.root}
      ensures view == WithoutPages(old(view), KeysOf(vas.root, 0, USER_PAGES))
      ensures pt.at == old(pt.at) - SpaceTables(old(pt.at), vas.root)
      ensures FramesAt(old(pt.at), SpaceTables(old(pt.at), vas.root)) <= pmm.free
      ensures |pmm.free| + |view.leaves.Keys| <= old(|pmm.free| + |view.leaves.Keys|) + |SpaceTables(old(pt.at), vas.root)|
    {
      hide Mid;
      hide KeysOf;
      hide WithoutPages;
      hide UserLists;
      hide Granted;
      hide FramesAt;
      hide SpaceTables;
      ghost var lists0, c, r := lists, view, vas.root;
      UserKeys(multiset{});
      NoneLeft(c, r);
      DestroyedLists(lists0, c, r);
      UncommitAll(vas);
      DropTables(vas.root);
    }

    lemma UserKeys(held: multiset<nat>)
      requires Mid(held)
      ensures forall k | k in view.leaves :: k.1 < USER_PAGES
      ensures view.perm.Keys == view.leaves.Keys
    {
      KeysAgree(held);
    }

    /** `ptable_destroy` of a space without pages. */
    method DropTables(r: nat)
      requires Mid(multiset{}) && r in lists && forall k | k in view.leaves :: k.0 != r
      modifies this`lists, pt, pmm, pmm.mem, pmm.lists
      ensures Mid(multiset{}) && lists == old(lists) - {r} && view == old(view)
      ensures pt.at == old(pt.at) - SpaceTables(old(pt.at), r)
      ensures FramesAt(old(pt.at), SpaceTables(old(pt.at), r)) <= pmm.free
      ensures |pmm.free| <= old(|pmm.free|) + |SpaceTables(old(pt.at), r)|
    {
      Apart();
      ghost var s0, kroot := pt.TableState(), pt.kernelRoot;
      RootFacts(r, multiset{});
      hide PageTables.Valid;
      hide Consistent;
      hide Tree;
      hide FramesAt;
      pt.PtableDestroy(r);
      PrunedFree(s0, pt.TableState(), set q | q in s0.at && q.root == r);
      Live();
      AfterDestroy(s0, pt.TableState(), kroot, lists.Keys, others, view, multiset{}, r);
      DropList(r);
    }

    lemma RootFacts(r: nat, held: multiset<nat>)
      requires Mid(held) && r in lists
      ensures RootOf(r) in pt.at && r != pt.kernelRoot && Tree(pt.tables, pt.at, pt.kernelRoot)
    {
    }

    ghost method DropList(r: nat)
      requires pt.pmm == pmm && pt.Valid() && pmm.mem.Length <= FRAME_MASK && view.ram == ram
      requires Consistent(pt.TableState(), pt.kernelRoot, lists.Keys - {r}, others, view, multiset{})
      modifies this`lists
      ensures Mid(multiset{}) && lists == old(lists) - {r} && view == old(view)
    {
      Apart();
      hide PageTables.Valid;
      hide Consistent;
      ghost var roots := lists.Keys - {r};
      lists := lists - {r};
      assert lists.Keys == roots;
      Between(multiset{});
    }

    lemma ForkStarts(vas: V.Vas, r': nat)
      requires Valid() && Has(vas) && r' !in lists
      ensures ForkStart(lists, view, vas.root, r')
    {
      KeysAgree(multiset{});
      hide Granted;
      hide UserLists;
    }

    /** A page in use has all its tables. */
    lemma PathOfLeaf(r: nat, v: nat)
      requires Mid(multiset{}) && r in lists
      ensures (r, v) in view.leaves ==> HasPath(pt.at, r, v)
    {
      if (r, v) in view.leaves {
        LeafIsData(multiset{}, (r, v));
        TableAbove(pt.tables, pt.at, pt.kernelRoot, r, 1, 2, v);
        TableAbove(pt.tables, pt.at, pt.kernelRoot, r, 1, 3, v);
      }
    }

    /** One turn of the inner loop of `vas_clone`, seen as a step of the fork. */
    method CloneNext(r: nat, r': nat, va: nat, vadFlags: set<V.VFlag>, ghost lists0: map<nat, seq<V.Vad>>, ghost a: View,
                     ghost i: nat, ghost S: set<nat>) returns (rc: int, ghost S': set<nat>)
      requires Mid(multiset{}) && r in lists && r' in lists && PageAligned(va) && va < V.USER_END
      requires Forking(lists0, a, view, r, r', i, va / PAGE_SIZE, S)
      requires i < |lists0[r]| && lists0[r][i].start / PAGE_SIZE <= va / PAGE_SIZE < lists0[r][i].end / PAGE_SIZE
      requires vadFlags == lists0[r][i].flags
      requires Shaped(pt.at, r', r)
      modifies this`view, pt, pmm, pmm.mem, pmm.lists
      ensures Mid(multiset{}) && lists == old(lists)
      ensures rc == 0 ==> Forking(lists0, a, view, r, r', i, va / PAGE_SIZE + 1, S')
      ensures rc != 0 ==> ForkFailed(old(view), view, (r, va / PAGE_SIZE))
      ensures Shaped(pt.at, r', r)
      ensures rc != 0 ==> |pmm.free| <= 1
    {
      hide Mid;
      hide Shaped;
      hide ForkFailed;
      hide ForkedPageNow;
      hide EagerOk;
      hide ForkedSome;
      hide PagesDone;
      hide Granted;
      hide UserLists;
      ghost var v, b := va / PAGE_SIZE, view;
      UserPage(va);
      KeysAgree(multiset{});
      ForkAtHand(lists0, a, b, r, r', i, v, S);
      hide PageNo;
      rc := ClonePage(r, r', va, vadFlags);
      S' := if rc == 0 && (r, v) in b.leaves then S + {v} else S;
      if rc == 0 {
        ForkNext(lists0, a, b, view, r, r', i, v, S);
      }
    }

    /** The inner loop of `vas_clone`.  When it fails at page `v`, `b` is the state before that page. */
    method CloneVad(r: nat, r': nat, vad: V.Vad, ghost lists0: map<nat, seq<V.Vad>>, ghost a: View, ghost i: nat,
                    ghost S0: set<nat>) returns (rc: int, ghost S: set<nat>, ghost b: View, ghost v: nat)
      requires Mid(multiset{}) && r in lists && r' in lists && r in lists0 && i < |lists0[r]| && vad == lists0[r][i]
      requires vad.start < vad.end <= V.USER_END && PageAligned(vad.start) && PageAligned(vad.end)
      requires Forking(lists0, a, view, r, r', i, vad.start / PAGE_SIZE, S0)
      requires Shaped(pt.at, r', r)
      modifies this`view, pt, pmm, pmm.mem, pmm.lists
      ensures Mid(multiset{}) && lists == old(lists)
      ensures rc == 0 ==> Forking(lists0, a, view, r, r', i, vad.end / PAGE_SIZE, S)
      ensures rc != 0 ==> v <= vad.end / PAGE_SIZE && Forking(lists0, a, b, r, r', i, v, S) && ForkFailed(b, view, (r, v))
      ensures Shaped(pt.at, r', r)
      ensures rc != 0 ==> |pmm.free| <= 1
    {
      hide Mid;
      hide Shaped;
      hide ForkFailed;
      hide Forking;
      hide PageNo;
      S, b, v := S0, view, 0;
      var va := vad.start;
      while va < vad.end
        invariant vad.start <= va <= vad.end && PageAligned(va) && Mid(multiset{}) && lists == old(lists)
        invariant Forking(lists0, a, view, r, r', i, va / PAGE_SIZE, S) && Shaped(pt.at, r', r)
      {
        UserPage(va);
        b, v := view, va / PAGE_SIZE;
        ghost var S';
        rc, S' := CloneNext(r, r', va, vad.flags, lists0, a, i, S);
        if rc != 0 {
          return;
        }
        S := S';
        va := va + PAGE_SIZE;
      }
      rc := 0;
    }

    /** A failed fork: the new space goes, with all that it had. */
    method CloneUndo(dst: V.Vas, ghost lists0: map<nat, seq<V.Vad>>, ghost a: View, ghost r: nat, ghost b: View,
                     ghost i: nat, ghost cur: nat, ghost n: nat, ghost v: nat, ghost S: set<nat>)
      requires Mid(multiset{}) && Has(dst) && r in lists0 && i <= n <= |lists0[r]| && n <= i + 1
      requires lists == lists0[dst.root := lists0[r][..n]]
      requires Forking(lists0, a, b, r, dst.root, i, cur, S) && (view == b || ForkFailed(b, view, (r, v)))
      requires if n == i then cur == 0 else cur <= lists0[r][i].end / PAGE_SIZE
      requires Shaped(pt.at, dst.root, r)
      modifies this`view, this`lists, pt, pmm, pmm.mem, pmm.lists
      ensures Valid() && lists == lists0
      ensures view.leaves.Keys == a.leaves.Keys && Protected(a, view, r) && view.perm == a.perm && view.eager == a.eager
      ensures old(|pmm.free|) <= 1 ==> FewLeft(pmm.free, view, pt.at, r)
    {
      hide Mid;
      hide Forking;
      hide Protected;
      hide EagerOk;
      hide UserLists;
      hide Granted;
      hide KeysOf;
      hide WithoutPages;
      hide SpaceTables;
      hide FramesAt;
      hide Shaped;
      hide FewLeft;
      hide UserList;
      hide PagesDone;
      hide ForkedSome;
      hide SpacePages;
      ghost var free0, at0 := pmm.free, pt.at;
      ghost var b', r' := view, dst.root;
      StartFacts(lists0, a, b, r, r', i, cur, S);
      PutAndTaken(lists0, r', lists0[r][..n]);
      FailedPerm(b, b', r, v);
      ForkGranted(lists0, a, b, b', r, r', i, cur, n, S);
      UserKeys(multiset{});
      ForkingUndone(lists0, a, b, b', r, r', i, cur, v, S);
      ForkSize(lists0, a, b, r, r', i, cur, S);
      hide ForkFailed;
      Destroy(dst);
      if |free0| <= 1 {
        FewAfterUndo(free0, pmm.free, at0, pt.at, a, b', view, r, r');
      }
      ghost var c := view;
      Forget(a.eager, multiset{});
      SameProtected(a, c, view, r);
      SameLeft(pmm.free, c, view, pt.at, r);
    }

    /** One turn of the outer loop of `vas_clone`: a copy of the VAD, then its pages. */
    method CloneStep(src: V.Vas, dst: V.Vas, i: nat, ghost lists0: map<nat, seq<V.Vad>>, ghost a: View, ghost S0: set<nat>)
      returns (rc: int, ghost S: set<nat>, ghost b: View, ghost v: nat)
      requires Valid() && Has(src) && Has(dst) && src.root in lists0 && i < |src.list| && src.list == lists0[src.root]
      requires src != dst && lists == lists0[dst.root := lists0[src.root][..i]]
      requires Forking(lists0, a, view, src.root, dst.root, i, 0, S0)
      requires Shaped(pt.at, dst.root, src.root)
      modifies this`view, this`lists, dst`list, pt, pmm, pmm.mem, pmm.lists
      ensures Mid(multiset{}) && Has(dst) && lists == lists0[dst.root := lists0[src.root][..i + 1]]
      ensures dst.userStart == old(dst.userStart)
      ensures rc == 0 ==> Valid() && Forking(lists0, a, view, src.root, dst.root, i + 1, 0, S)
      ensures rc != 0 ==> v <= src.list[i].end / PAGE_SIZE
      ensures rc != 0 ==> Forking(lists0, a, b, src.root, dst.root, i, v, S) && ForkFailed(b, view, (src.root, v))
      ensures Shaped(pt.at, dst.root, src.root)
      ensures rc != 0 ==> |pmm.free| <= 1
    {
      hide Mid;
      hide Shaped;
      hide Forking;
      hide ForkFailed;
      hide UserLists;
      hide UserList;
      hide Granted;
      hide KeysOf;
      hide PermGrew;
      hide V.FreeRange;
      hide V.Added;
      hide PageAligned;
      ghost var r, r' := src.root, dst.root;
      StartFacts(lists0, a, view, r, r', i, 0, S0);
      var vad := src.list[i];
      NextVad(src.list, i);
      NoNewPages(lists, view.perm, r', vad);
      InsertVad(dst, vad, view.perm);
      ForkVadBegins(lists0, a, view, r, r', i, S0);
      rc, S, b, v := CloneVad(src.root, dst.root, vad, lists0, a, i, S0);
      if rc == 0 {
        ForkGranted(lists0, a, view, view, r, r', i, vad.end / PAGE_SIZE, i + 1, S);
        ForkVadEnds(lists0, a, view, r, r', i, S);
      }
    }

    /** `vas_clone`; the first `heap` allocations of VADs and of the space itself succeed. */
    method Clone(src: V.Vas, heap: nat) returns (dst: V.Vas?, ghost S: set<nat>)
      requires Valid() && Has(src)
      modifies this`view, this`lists, pt, pmm, pmm.mem, pmm.lists
      ensures Valid() && Has(src)
      ensures dst == null ==> lists == old(lists) && view.leaves.Keys == old(view).leaves.Keys
      ensures dst == null ==> Protected(old(view), view, src.root) && view.perm == old(view).perm && view.eager == old(view).eager
      ensures dst != null ==>
        && fresh(dst) && Has(dst) && dst.root !in old(lists) && lists == old(lists)[dst.root := src.list]
        && dst.list == src.list && dst.userStart == src.userStart
        && ForkedSome(old(view), view, src.root, dst.root, S)
        && (forall v: nat :: v in S <==> (src.root, v) in old(view).leaves)
      ensures dst != null ==>
        && ForkedAsDescribed(src.list, old(view), view, src.root, dst.root)
        && SameFrames(old(view), view, src.root, dst.root)
      ensures dst == null ==> heap <= |src.list| || FewLeft(pmm.free, view, pt.at, src.root)
    {
      hide Mid;
      hide JustRoot;
      hide Shaped;
      hide FewLeft;
      hide Forking;
      hide ForkFailed;
      hide ForkedSome;
      hide Protected;
      hide UserLists;
      hide UserList;
      hide Granted;
      hide ForkStart;
      ghost var a, lists0, r := view, lists, src.root;
      KeysAgree(multiset{});
      LeavesHere(multiset{});
      CloneFacts();
      hide ForkedAsDescribed;
      hide SameFrames;
      hide EagerOk;
      NotProtected(a, r);
      forall r' | r' !in lists
        ensures ForkStart(lists, view, src.root, r')
      {
        ForkStarts(src, r');
      }
      S := {};
      dst := Create(heap > 0);
      if dst == null {
        NoneIsFew(view, pt.at, r);
        return;
      }
      SetUserStart(dst, src.userStart);
      ghost var r' := dst.root;
      RootInTables(src.root);
      JustRootIsShaped(pt.at, r', r);
      ForkBegins(lists0, a, r, r');
      dst, S := CloneAll(src, dst, heap - 1, lists0, a);
      if dst != null {
        ForkMeans(lists0, a, view, r, dst.root, S);
        ForkFrames(a, view, r, dst.root, S);
      }
    }

    /** The outer loop of `vas_clone`. */
    method CloneAll(src: V.Vas, new_: V.Vas, heap: nat, ghost lists0: map<nat, seq<V.Vad>>, ghost a: View)
      returns (dst: V.Vas?, ghost S: set<nat>)
      requires Valid() && Has(src) && Has(new_) && src != new_ && src.root in lists0 && src.list == lists0[src.root]
      requires new_.list == [] && lists == lists0[new_.root := []]
      requires Forking(lists0, a, view, src.root, new_.root, 0, 0, {})
      requires Shaped(pt.at, new_.root, src.root)
      modifies this`view, this`lists, new_`list, pt, pmm, pmm.mem, pmm.lists
      ensures Valid()
      ensures dst == null ==> lists == lists0 && view.leaves.Keys == a.leaves.Keys
      ensures dst == null ==> Protected(a, view, src.root) && view.perm == a.perm && view.eager == a.eager
      ensures dst != null ==>
        && dst == new_ && dst.userStart == old(new_.userStart)
        && lists == lists0[dst.root := src.list] && dst.list == src.list
        && ForkedSome(a, view, src.root, dst.root, S) && forall v: nat :: v in S <==> (src.root, v) in a.leaves
      ensures dst == null ==> heap < |src.list| || FewLeft(pmm.free, view, pt.at, src.root)
    {
      hide Mid;
      hide Shaped;
      hide FewLeft;
      hide Forking;
      hide ForkFailed;
      hide ForkedSome;
      hide Protected;
      hide UserLists;
      hide UserList;
      hide Granted;
      ghost var r, r', list := src.root, new_.root, src.list;
      S := {};
      var i: nat := 0;
      assert list[..0] == [];
      while i < |src.list|
        invariant i <= |src.list| && src.list == list && Valid() && Has(src) && Has(new_)
        invariant lists == lists0[r' := lists0[r][..i]] && new_.userStart == old(new_.userStart)
        invariant Forking(lists0, a, view, r, r', i, 0, S) && Shaped(pt.at, r', r)
      {
        if i >= heap {
          CloneUndo(new_, lists0, a, r, view, i, 0, i, 0, S);
          return null, S;
        }
        var rc;
        ghost var S', b, v;
        rc, S', b, v := CloneStep(src, new_, i, lists0, a, S);
        if rc != 0 {
          CloneUndo(new_, lists0, a, r, b, i, v, i + 1, v, S');
          return null, S';
        }
        S := S';
        i := i + 1;
      }
      assert list[..i] == list;
      ForkEnds(lists0, a, view, r, r', S);
      ForkingMeans(lists0, a, view, r, r', i, S);
      dst := new_;
    }

    // ---- what holds between operations ----

    /** An allocated frame is a page table, belongs to another part of the kernel, or backs as many pages as it
        has references, and at least one.  So the last unmapping gives a frame back, and no other does. */
    lemma Conservation(f: nat)
      requires Valid() && f in pmm.live
      ensures f in pt.tables || f in others || (f < pmm.mem.Length && pmm.mem[f].refcount == |Users(view.leaves, f)| >= 1)
      ensures f in pt.tables || f in others <==> Users(view.leaves, f) == {}
    {
      Live();
      if f in Rest(pt.tables, others) {
        NoUsers(view, pmm.State(), Rest(pt.tables, others), multiset{}, f);
      } else {
        CountsAreUsers(view, pmm.State(), Rest(pt.tables, others), f);
      }
    }

    /** The processor's walk of a space's tables finds exactly the leaves of that space. */
    lemma WalkFindsLeaf(r: nat, v: nat)
      requires Valid() && r in lists && v < USER_PAGES
      ensures Walk(pt.tables, r, 4, v) == if (r, v) in view.leaves then view.leaves[(r, v)] else Absent
      ensures (r, v) in view.leaves ==>
        && view.leaves[(r, v)].Present?
        && (Permits(pt.tables, r, 4, v, Write) <==> Write in view.leaves[(r, v)].flags)
        && (Permits(pt.tables, r, 4, v, User) <==> User in view.leaves[(r, v)].flags && UserPath(pt.tables, pt.at, r, v))
    {
      RootFacts(r, multiset{});
      LeafOf(multiset{}, (r, v));
      hide Mid;
      RootStored(pt.tables, pt.at, pt.kernelRoot, r, v);
      hide Tree;
      WalkIsLeaf(pt.tables, pt.at, pt.kernelRoot, r, 4, v);
      if (r, v) in view.leaves {
        LeafPermits(pt.tables, pt.at, pt.kernelRoot, r, v);
      }
    }

    /** Every page lies in an area of its space; that area alone says whether forks share the page, and the leaf
        has its bits, but for the write bit of a private page whose frame is or was shared. */
    lemma PageDescribed(k: Key)
      requires Valid() && k in view.leaves
      ensures k in view.perm && k.0 in lists && view.leaves[k].Present?
      ensures exists i :: 0 <= i < |lists[k.0]| && Covers(lists[k.0][i], k.1)
      ensures forall i | 0 <= i < |lists[k.0]| && Covers(lists[k.0][i], k.1) ::
        var flags := lists[k.0][i].flags;
        && (view.perm[k].shared <==> V.Shared in flags)
        && (forall x: PFlag :: x in view.perm[k].flags <==> V.Bit(x) in flags)
        && (forall x: PFlag | x != Write || V.Shared in flags :: x in view.leaves[k].flags <==> V.Bit(x) in flags)
        && (Write in view.leaves[k].flags ==> V.Bit(Write) in flags)
    {
      LeafBits(k);
      CloneFacts();
      hide *;
      GrantedMeans(lists, view.perm, k);
    }

    lemma LeafBits(k: Key)
      requires Valid() && k in view.leaves
      ensures view.leaves[k].Present? && k in view.perm
      ensures forall x: PFlag | x != Write || view.perm[k].shared :: x in view.leaves[k].flags <==> x in view.perm[k].flags
      ensures Write in view.leaves[k].flags ==> Write in view.perm[k].flags
    {
      hide PageTables.Valid;
      hide Consistent;
      hide Leaf;
      PageFacts(pt.TableState(), pt.kernelRoot, lists.Keys, others, view, multiset{}, k);
    }

    /** No page of a space shows what is written through another page, unless both are shared on purpose. */
    lemma PrivatePages(k: Key)
      requires Valid() && k in view.leaves && k in view.perm && !view.perm[k].shared
      ensures EagerMemory.Private(view.eager, k)
    {
      EagerMemory.UnsharedIsPrivate(view, pmm.State(), Rest(pt.tables, others), multiset{}, k);
    }

    // ---- what programs do ----

    /** `paging_get_flags` */
    method FlagsOf(r: nat, va: nat, ghost held: multiset<nat>) returns (present: bool, flags: set<PFlag>)
      requires Mid(held) && r in lists && PageNo(va) < USER_PAGES
      modifies pt, pmm, pmm.mem, pmm.lists
      ensures Mid(held) && view == old(view) && lists == old(lists)
      ensures present <==> (r, PageNo(va)) in view.leaves
      ensures present ==> view.leaves[(r, PageNo(va))].Present? && flags == view.leaves[(r, PageNo(va))].flags
    {
      Apart();
      LeafOf(held, (r, PageNo(va)));
      RootFacts(r, held);
      hide PageTables.Valid;
      hide Consistent;
      hide Leaf;
      present, flags := pt.GetFlags(r, va);
      Live();
    }

    /** The frame that the processor finds for an address. */
    method FrameAt(r: nat, addr: nat, ghost held: multiset<nat>) returns (f: nat)
      requires Mid(held) && r in lists && PageNo(addr) < USER_PAGES && (r, PageNo(addr)) in view.leaves
      modifies pt, pmm, pmm.mem, pmm.lists
      ensures Mid(held) && view == old(view) && lists == old(lists)
      ensures view.leaves[(r, PageNo(addr))].Present? && f == view.leaves[(r, PageNo(addr))].frame
    {
      hide Mid;
      hide Leaf;
      hide PosOf;
      hide PageNo;
      hide PhysOf;
      hide LeafFlags;
      ghost var k, c := (r, PageNo(addr)), view;
      LeafIsData(held, k);
      var phys := Phys(r, addr, held);
      PhysOfPage(c.leaves[k], addr);
      f := phys / PAGE_SIZE;
    }

    lemma WritableIsRecoverable(k: Key)
      requires Mid(multiset{}) && k in view.leaves
      ensures k in view.perm && view.leaves[k].Present?
      ensures Write in view.leaves[k].flags ==> Writable(view, k)
      ensures Write !in view.leaves[k].flags ==> (Writable(view, k) <==> Recoverable(view, k))
    {
      LeafIsData(multiset{}, k);
      hide Mid;
      hide Leaf;
    }

    /** A byte that a program reads is the one that eager copying would show. */
    method Load(vas: V.Vas, addr: nat) returns (b: byte)
      requires Valid() && Has(vas) && addr < V.USER_END && (vas.root, PageNo(addr)) in view.leaves
      modifies pt, pmm, pmm.mem, pmm.lists
      ensures Valid() && view == old(view) && lists == old(lists)
      ensures |Visible(view.eager, (vas.root, PageNo(addr)))| == PAGE_SIZE
      ensures b == Visible(view.eager, (vas.root, PageNo(addr)))[addr % PAGE_SIZE]
    {
      hide Mid;
      hide Leaf;
      hide PosOf;
      hide PageNo;
      hide UserLists;
      hide Granted;
      hide PhysOf;
      hide V.AlignDown;
      UserAddr(addr);
      var f := FrameAt(vas.root, addr, multiset{});
      LeafIsData(multiset{}, (vas.root, PageNo(addr)));
      SeenOf(view.eager, (vas.root, PageNo(addr)));
      b := ram[f][addr % PAGE_SIZE];
    }

    /** The write of one byte through a writable leaf. */
    method WriteByte(ghost k: Key, f: nat, off: nat, b: byte)
      requires Mid(multiset{}) && k in view.leaves && view.leaves[k].Present? && view.leaves[k].frame == f
      requires Write in view.leaves[k].flags && off < PAGE_SIZE
      modifies this`ram, this`view
      ensures Mid(multiset{}) && lists == old(lists)
      ensures k in old(view).eager.obj && old(view).eager.obj[k] in old(view).eager.store
      ensures off < |old(view).eager.store[old(view).eager.obj[k]]|
      ensures view == old(view).(ram := ram, eager := EagerStore(old(view).eager, k, off, b))
    {
      hide Mid;
      StoredView(k, off, b);
      hide EagerStore;
      SetRam(f, ram[f][off := b], EagerStore(view.eager, k, off, b));
    }

    lemma StoredView(k: Key, off: nat, b: byte)
      requires Mid(multiset{}) && k in view.leaves && view.leaves[k].Present?
      requires Write in view.leaves[k].flags && off < PAGE_SIZE
      ensures view.leaves[k].frame < |ram| && |ram[view.leaves[k].frame]| == PAGE_SIZE
      ensures k in view.eager.obj && view.eager.obj[k] in view.eager.store
      ensures off < |view.eager.store[view.eager.obj[k]]|
      ensures var f := view.leaves[k].frame;
        WouldBe(view.(ram := ram[f := ram[f][off := b]], eager := EagerStore(view.eager, k, off, b)))
    {
      hide PageTables.Valid;
      LeafIsData(multiset{}, k);
      ByteStored(view, pmm.State(), Rest(pt.tables, others), multiset{}, k, off, b);
      hide CowInv;
      hide Leaf;
      hide PosOf;
      hide EagerStore;
    }

    /** A view that would be as good as the present one. */
    ghost predicate WouldBe(c: View)
      reads this, pt, pmm, pmm.mem, pmm.lists
    {
      && pt.pmm == pmm && pt.Valid() && pmm.mem.Length <= FRAME_MASK
      && Consistent(pt.TableState(), pt.kernelRoot, lists.Keys, others, c, multiset{})
    }

    method SetRam(f: nat, bytes: Bytes, ghost e: Eager)
      requires f < |ram| && WouldBe(view.(ram := ram[f := bytes], eager := e))
      modifies this`ram, this`view
      ensures Mid(multiset{}) && lists == old(lists) && ram == old(ram)[f := bytes]
      ensures view == old(view).(ram := ram, eager := e)
    {
      Apart();
      hide PageTables.Valid;
      hide Consistent;
      ram := ram[f := bytes];
      view := view.(ram := ram, eager := e);
      Between(multiset{});
    }

    /** A program's write of one byte: straight through a writable leaf, else after the write fault has been handled. */
    method Store(vas: V.Vas, addr: nat, b: byte) returns (ok: bool)
      requires Valid() && Has(vas) && addr < V.USER_END
      modifies this`view, this`ram, pt, pmm, pmm.mem, pmm.lists
      ensures Valid() && Has(vas) && lists == old(lists) && view.perm == old(view).perm
      ensures view.leaves.Keys == old(view).leaves.Keys
      ensures ok ==>
        var k := (vas.root, PageNo(addr));
        && k in old(view).leaves && k in view.perm && Write in view.perm[k].flags
        && k in old(view).eager.obj && old(view).eager.obj[k] in old(view).eager.store
        && addr % PAGE_SIZE < |old(view).eager.store[old(view).eager.obj[k]]|
        && view.eager == EagerStore(old(view).eager, k, addr % PAGE_SIZE, b)
      ensures !ok ==> view.eager == old(view).eager
      ensures !ok ==> pmm.free == {} || !Writable(old(view), (vas.root, PageNo(addr)))
    {
      hide Mid;
      hide Leaf;
      hide PosOf;
      hide PageNo;
      hide UserLists;
      hide Granted;
      hide V.AlignDown;
      hide EagerStore;
      ghost var k, c := (vas.root, PageNo(addr)), view;
      UserAddr(addr);
      var present, flags := FlagsOf(vas.root, addr, multiset{});
      if present {
        WritableIsRecoverable(k);
      }
      if !present || Write !in flags {
        var rc;
        ghost var to;
        rc, to := HandlePageFault(vas, addr, present, true);
        if rc != 0 {
          return false;
        }
      }
      assert k in view.leaves;
      var f := FrameAt(vas.root, addr, multiset{});
      WriteByte(k, f, addr % PAGE_SIZE, b);
      ok := true;
    }

    /** One turn of the loop of `vas_user_access_ok`. */
    method PageAccessOk(vas: V.Vas, va: nat, write: bool) returns (rc: int)
      requires Valid() && Has(vas) && va < V.USER_END
      modifies this`view, this`ram, pt, pmm, pmm.mem, pmm.lists
      ensures Valid() && Has(vas) && lists == old(lists) && (rc == 0 || rc == -1)
      ensures view.perm == old(view).perm && view.eager == old(view).eager
      ensures view.leaves.Keys == old(view).leaves.Keys && KeepsWrite(old(view), view)
      ensures rc == 0 ==> Accessible(view, (vas.root, PageNo(va)), write)
      ensures rc == -1 ==> pmm.free == {} || !Allowed(view, (vas.root, PageNo(va)), write)
    {
      hide Mid;
      hide PageNo;
      hide UserLists;
      hide Granted;
      ghost var k, c := (vas.root, PageNo(va)), view;
      UserAddr(va);
      var present, flags := FlagsOf(vas.root, va, multiset{});
      if !present {
        return -1;
      }
      if write && Write !in flags {
        WritableIsRecoverable(k);
        ghost var to;
        rc, to := HandlePageFault(vas, va, true, true);
        if rc != 0 {
          return -1;
        }
        present, flags := FlagsOf(vas.root, va, multiset{});
        assert view.leaves[k] == Present(to, view.perm[k].flags);
        if !present || Write !in flags {
          return -1;
        }
      }
      return 0;
    }

    /** `vas_user_access_ok` */
    method UserAccessOk(vas: V.Vas, addr: nat, len: nat, write: bool) returns (rc: int)
      requires Valid() && Has(vas)
      modifies this`view, this`ram, pt, pmm, pmm.mem, pmm.lists
      ensures Valid() && Has(vas) && lists == old(lists) && (rc == 0 || rc == -1)
      ensures view.perm == old(view).perm && view.eager == old(view).eager
      ensures view.leaves.Keys == old(view).leaves.Keys && KeepsWrite(old(view), view)
      ensures rc == 0 ==> V.USER_START <= addr && addr + len <= V.USER_END
      ensures rc == 0 && len > 0 ==>
        forall v: nat | addr / PAGE_SIZE <= v <= (addr + len - 1) / PAGE_SIZE :: Accessible(view, (vas.root, v), write)
      ensures rc == -1 ==>
        || addr < V.USER_START || addr >= V.USER_END || addr + len > V.USER_END || pmm.free == {}
        || exists v: nat :: addr / PAGE_SIZE <= v <= (addr + len - 1) / PAGE_SIZE && !Allowed(view, (vas.root, v), write)
    {
      hide Valid;
      hide Accessible;
      hide Allowed;
      hide KeepsWrite;
      AlwaysKeepsWrite(view);
      if addr < V.USER_START || addr >= V.USER_END || len > V.USER_END - addr {
        return -1;
      }
      if len == 0 {
        return 0;
      }
      var va, end := V.AlignDown(addr), V.AlignUp(addr + len);
      AccessRange(addr, len);
      hide V.AlignDown;
      hide V.AlignUp;
      hide PageNo;
      while va < end
        invariant Valid() && Has(vas) && lists == old(lists) && PageAligned(va) && addr / PAGE_SIZE <= va / PAGE_SIZE
        invariant va <= end
        invariant view.perm == old(view).perm && view.eager == old(view).eager
        invariant view.leaves.Keys == old(view).leaves.Keys && KeepsWrite(old(view), view)
        invariant forall v: nat | addr / PAGE_SIZE <= v < va / PAGE_SIZE :: Accessible(view, (vas.root, v), write)
      {
        AccessPage(addr, len, va);
        ghost var c := view;
        rc := PageAccessOk(vas, va, write);
        KeepsWriteTwice(old(view), c, view);
        if rc != 0 {
          assert !Allowed(view, (vas.root, va / PAGE_SIZE), write) || pmm.free == {};
          return -1;
        }
        forall v: nat | addr / PAGE_SIZE <= v < va / PAGE_SIZE + 1
          ensures Accessible(view, (vas.root, v), write)
        {
          if v < va / PAGE_SIZE {
            StaysAccessible(c, view, (vas.root, v), write);
          }
        }
        va := va + PAGE_SIZE;
      }
      return 0;
    }
  }

  lemma AccessRange(addr: nat, len: nat)
    requires len > 0
    ensures V.AlignDown(addr) / PAGE_SIZE == addr / PAGE_SIZE && PageAligned(V.AlignDown(addr))
    ensures V.AlignUp(addr + len) / PAGE_SIZE == (addr + len - 1) / PAGE_SIZE + 1 && PageAligned(V.AlignUp(addr + len))
    ensures V.AlignDown(addr) <= V.AlignUp(addr + len)
  {
    var x := (addr + len - 1) / PAGE_SIZE;
    assert V.AlignUp(addr + len) == (x + 1) * PAGE_SIZE;
    assert V.AlignDown(addr) == addr / PAGE_SIZE * PAGE_SIZE;
  }

  lemma AccessPage(addr: nat, len: nat, va: nat)
    requires len > 0 && addr + len <= V.USER_END && PageAligned(va) && va < V.AlignUp(addr + len)
    ensures va < V.USER_END && PageNo(va) == va / PAGE_SIZE <= (addr + len - 1) / PAGE_SIZE
    ensures (va + PAGE_SIZE) / PAGE_SIZE == va / PAGE_SIZE + 1 && PageAligned(va + PAGE_SIZE)
    ensures va + PAGE_SIZE <= V.AlignUp(addr + len)
  {
    var x := (addr + len - 1) / PAGE_SIZE;
    assert V.AlignUp(addr + len) == (x + 1) * PAGE_SIZE;
  }

  /** The page can be read, or written, right away. */
  predicate Accessible(c: View, k: Key, write: bool) {
    k in c.leaves && c.leaves[k].Present? && (write ==> Write in c.leaves[k].flags)
  }

  /** The page may be read, or written, as far as its VAD is concerned. */
  predicate Allowed(c: View, k: Key, write: bool) {
    k in c.leaves && (write ==> Writable(c, k))
  }

  /** What was writable still is. */
  ghost predicate KeepsWrite(a: View, b: View) {
    forall k | k in a.leaves && a.leaves[k].Present? ::
      k in b.leaves && b.leaves[k].Present? && (Write in a.leaves[k].flags ==> Write in b.leaves[k].flags)
  }

  lemma AlwaysKeepsWrite(c: View)
    ensures KeepsWrite(c, c)
  {
  }

  lemma KeepsWriteTwice(a: View, b: View, c: View)
    ensures KeepsWrite(a, b) && KeepsWrite(b, c) ==> KeepsWrite(a, c)
  {
  }

  lemma StaysAccessible(a: View, b: View, k: Key, write: bool)
    requires KeepsWrite(a, b) && Accessible(a, k, write)
    ensures Accessible(b, k, write)
  {
  }

  /** A mapped page that its VAD lets programs write. */
  predicate Writable(c: View, k: Key) {
    k in c.leaves && k in c.perm && Write in c.perm[k].flags
  }

  lemma UserAddr(addr: nat)
    requires addr < V.USER_END
    ensures PageNo(addr) < USER_PAGES
  {
  }

  lemma FailedPerm(b: View, b': View, r: nat, v: nat)
    ensures b' == b || ForkFailed(b, b', (r, v)) ==> b'.perm == b.perm && b'.leaves.Keys == b.leaves.Keys
  {
  }

  lemma StartFacts(lists: map<nat, seq<V.Vad>>, a: View, b: View, r: nat, r': nat, i: nat, cur: nat, S: set<nat>)
    requires Forking(lists, a, b, r, r', i, cur, S)
    ensures r in lists && r' !in lists && UserList(lists[r]) && Granted(lists, a.perm) && UserLists(lists)
  {
  }

  /** The tables that serve space `r` alone. */
  ghost function SpaceTables(at: Layout, r: nat): set<Pos> {
    set q | q in at && q.root == r
  }

  /** Where space `r'` has a table, space `r` has one. */
  ghost predicate Shaped(at: Layout, r': nat, r: nat) {
    forall q | q in at && q.root == r' :: Pos(r, q.level, q.prefix) in at
  }

  /** No table without its root. */
  ghost predicate Rooted(at: Layout) {
    forall q | q in at :: RootOf(q.root) in at
  }

  /** Space `r` has no table but its root. */
  ghost predicate JustRoot(at: Layout, r: nat) {
    forall q | q in at && q.root == r :: q == RootOf(r)
  }

  lemma FirstTable(at: Layout, at': Layout, r: nat)
    requires Rooted(at) && RootOf(r) !in at && GrewBy(at, at', {RootOf(r)})
    ensures JustRoot(at', r)
  {
  }

  lemma JustRootIsShaped(at: Layout, r': nat, r: nat)
    requires JustRoot(at, r') && RootOf(r) in at
    ensures Shaped(at, r', r)
  {
  }

  ghost predicate HasPath(at: Layout, r: nat, v: nat) {
    PosOf(r, 1, v) in at && PosOf(r, 2, v) in at && PosOf(r, 3, v) in at
  }

  lemma ShapedMore(at: Layout, at': Layout, r': nat, r: nat, v: nat)
    requires Shaped(at, r', r) && r' != r && GrewBy(at, at', PathTo(r', v)) && HasPath(at, r, v)
    ensures Shaped(at', r', r)
  {
    hide Up;
  }

  lemma {:induction false} ShapedSize(at: Layout, r': nat, r: nat)
    requires Shaped(at, r', r) && r' != r
    ensures |SpaceTables(at, r')| <= |SpaceTables(at, r)|
  {
    Injected(SpaceTables(at, r'), SpaceTables(at, r), r', r);
  }

  lemma {:induction false} Injected(A: set<Pos>, B: set<Pos>, r': nat, r: nat)
    requires forall q | q in A :: q.root == r' && Pos(r, q.level, q.prefix) in B
    ensures |A| <= |B|
  {
    if A != {} {
      var q :| q in A;
      Injected(A - {q}, B - {Pos(r, q.level, q.prefix)}, r', r);
    }
  }

  /** The pages of space `r`. */
  ghost function SpacePages(c: View, r: nat): set<Key> {
    set k | k in c.leaves && k.0 == r
  }

  /** No more frames are free than space `r` has pages and tables, and one. */
  ghost predicate FewLeft(free: set<nat>, c: View, at: Layout, r: nat) {
    |free| <= 1 + |SpacePages(c, r)| + |SpaceTables(at, r)|
  }

  /** A fork has at most as many pages as the space it copies. */
  lemma ForkSize(lists: map<nat, seq<V.Vad>>, a: View, b: View, r: nat, r': nat, i: nat, cur: nat, S: set<nat>)
    requires Forking(lists, a, b, r, r', i, cur, S)
    ensures |b.leaves.Keys| <= |a.leaves.Keys| + |SpacePages(a, r)| && r != r'
  {
    hide PagesDone;
    hide Granted;
    hide UserLists;
    hide PermForked;
    hide Forked;
    hide Protected;
    forall v | v in S
      ensures (r, v) in SpacePages(a, r)
    {
      assert SameLeaf(a, b, (r, v), (r', v));
    }
    CopiedSize(r', S, SpacePages(a, r), r);
    assert b.leaves.Keys == a.leaves.Keys + PagesOf(r', S);
  }

  lemma {:induction false} CopiedSize(r': nat, S: set<nat>, B: set<Key>, r: nat)
    requires forall v | v in S :: (r, v) in B
    ensures |PagesOf(r', S)| <= |B|
  {
    if S != {} {
      var v :| v in S;
      CopiedSize(r', S - {v}, B - {(r, v)}, r);
      assert PagesOf(r', S) == PagesOf(r', S - {v}) + {(r', v)};
    } else {
      assert PagesOf(r', S) == {};
    }
  }

  /** What a failed fork of space `r` gives back is no more than `r` has itself. */
  lemma FewAfterUndo(free0: set<nat>, free1: set<nat>, at0: Layout, at1: Layout, a: View, b: View, c: View, r: nat, r': nat)
    requires |free0| <= 1 && |free1| + |c.leaves.Keys| <= |free0| + |b.leaves.Keys| + |SpaceTables(at0, r')|
    requires at1 == at0 - SpaceTables(at0, r') && Shaped(at0, r', r) && r != r'
    requires |b.leaves.Keys| <= |a.leaves.Keys| + |SpacePages(a, r)| && c.leaves.Keys == a.leaves.Keys
    ensures FewLeft(free1, c, at1, r)
  {
    ShapedSize(at0, r', r);
    assert SpaceTables(at1, r) == SpaceTables(at0, r);
    assert SpacePages(c, r) == SpacePages(a, r);
  }

  lemma PutAndTaken(lists: map<nat, seq<V.Vad>>, r: nat, l: seq<V.Vad>)
    requires r !in lists
    ensures lists[r := l] - {r} == lists
  {
  }

  lemma NoneIsFew(c: View, at: Layout, r: nat)
    ensures FewLeft({}, c, at, r)
  {
  }

  lemma SameLeft(free: set<nat>, c: View, c': View, at: Layout, r: nat)
    requires c'.leaves == c.leaves
    ensures FewLeft(free, c, at, r) <==> FewLeft(free, c', at, r)
  {
    assert SpacePages(c, r) == SpacePages(c', r);
  }

  lemma FewerLeaves(c: View, k: Key)
    ensures |WithoutPage(c, k).leaves.Keys| == |c.leaves.Keys| - if k in c.leaves then 1 else 0
  {
    assert WithoutPage(c, k).leaves.Keys == c.leaves.Keys - {k};
  }

  /** A fixed mapping goes to the hint's page when that is free; another to the least free place. */
  ghost predicate Chosen(list: seq<V.Vad>, hint: nat, userStart: nat, length: nat, flags: set<V.VFlag>, found: bool, base: nat) {
    if V.Fixed in flags then
      && (found ==> base == V.AlignDown(hint))
      && (found <==> V.AlignDown(hint) + length <= V.USER_END
                     && V.FreeRange(list, V.AlignDown(hint), V.AlignDown(hint) + length))
    else
      var from := if hint != 0 then hint else userStart;
      if found then V.Place(list, from, length, base) && forall b: nat | V.Place(list, from, length, b) :: base <= b
      else forall b: nat :: !V.Place(list, from, length, b)
  }

  /** Where a mapping goes: a fixed one to the page of the hint; another to an aligned place at or above `from`
      such that every aligned place between them meets some area; no area meets its own. */
  ghost predicate WellPlaced(list: seq<V.Vad>, from: nat, hint: nat, length: nat, flags: set<V.VFlag>, base: nat) {
    && PageAligned(base) && base + length <= V.USER_END
    && (forall i | 0 <= i < |list| :: !(list[i].start < base + length && base < list[i].end))
    && (V.Fixed in flags ==> base <= hint < base + PAGE_SIZE)
    && (V.Fixed !in flags ==>
          && from <= base
          && forall b: nat | PageAligned(b) && from <= b < base ::
               exists i :: 0 <= i < |list| && list[i].start < b + length && b < list[i].end)
  }

  lemma PlaceMeans(list: seq<V.Vad>, hint: nat, userStart: nat, length: nat, flags: set<V.VFlag>, base: nat)
    requires Chosen(list, hint, userStart, V.AlignUp(length), flags, true, base) && userStart > 0
    requires V.AllAligned(list)
    ensures WellPlaced(list, if hint != 0 then hint else userStart, hint, length, flags, base)
  {
    var len, from := V.AlignUp(length), if hint != 0 then hint else userStart;
    V.AlignUpIsLeast(length, 0);
    V.AlignUpIsLeast(hint, 0);
    AlignedPlace(list, hint, userStart, len, flags, base);
    forall i | 0 <= i < |list|
      ensures !(list[i].start < base + length && base < list[i].end)
    {
      assert V.Disjoint(list[i], base, base + len);
    }
    if V.Fixed !in flags {
      forall b: nat | PageAligned(b) && from <= b < base
        ensures exists i :: 0 <= i < |list| && list[i].start < b + length && b < list[i].end
      {
        assert !V.Place(list, from, len, b);
        var i :| 0 <= i < |list| && !V.Disjoint(list[i], b, b + len);
        RoundedMeets(list[i].start, b, length);
      }
    }
  }

  /** Between aligned addresses the unrounded length reaches as far as the rounded one. */
  lemma RoundedMeets(start: nat, b: nat, length: nat)
    requires PageAligned(start) && PageAligned(b) && start < b + V.AlignUp(length)
    ensures start < b + length
  {
  }

  lemma MappedMeans(a: View, b: View, list: seq<V.Vad>, list': seq<V.Vad>, r: nat, base: nat, length: nat, flags: set<V.VFlag>)
    requires NowMapped(a, b, list, list', r, base, V.AlignUp(length), flags + {V.Anonymous, V.Mapped})
    requires PageAligned(base) && EagerOk(a.eager) && a.eager.obj.Keys == a.leaves.Keys
    ensures AllNew(a, b, r, base, length, flags) && SameOutsideOf(a, b, r, base, length)
  {
    var all := flags + {V.Anonymous, V.Mapped};
    GrewMeans(a, b, r, base, length, all);
    assert forall x: PFlag :: V.Bit(x) in all <==> V.Bit(x) in flags;
    hide Grew;
    forall v: nat | base <= v * PAGE_SIZE < base + length
      ensures (r, v) !in a.leaves && NewPage(b, (r, v), flags)
    {
      assert NewPage(b, (r, v), all);
    }
  }

  lemma AlignedPlace(list: seq<V.Vad>, hint: nat, userStart: nat, length: nat, flags: set<V.VFlag>, base: nat)
    requires Chosen(list, hint, userStart, length, flags, true, base) && userStart > 0
    ensures PageAligned(base) && base + length <= V.USER_END && V.FreeRange(list, base, base + length)
    ensures base == 0 <==> V.Fixed in flags && hint < PAGE_SIZE
  {
    V.AlignUpIsLeast(hint, 0);
  }

  lemma PermWithout(c: View, S: set<Key>)
    ensures WithoutPages(c, S).perm == c.perm - S
  {
  }

  lemma ListFacts(list: seq<V.Vad>, start: nat, end: nat)
    ensures UserList(list) ==> V.Sorted(list) && V.AllAligned(list)
    ensures PageAligned(start) == PageAligned(start) && PageAligned(end) == PageAligned(end)
  {
  }

  lemma WholePages(length: nat)
    ensures PageAligned(V.AlignUp(length)) && length <= V.AlignUp(length)
  {
    V.AlignUpIsLeast(length, 0);
  }

  lemma UnmapRange(start: nat, length: nat)
    ensures PageAligned(V.AlignDown(start)) && PageAligned(V.AlignDown(start) + V.AlignUp(length))
  {
    V.AlignUpIsLeast(start, 0);
    V.AlignUpIsLeast(length, 0);
  }

  /** An anonymous mapping has been made: its addresses are described, and its pages are there and zeroed. */
  ghost predicate NowMapped(a: View, b: View, list: seq<V.Vad>, list': seq<V.Vad>, r: nat, base: nat, length: nat,
                            flags: set<V.VFlag>) {
    && Grew(a, b, r, base / PAGE_SIZE, (base + length) / PAGE_SIZE, ProtOf(flags))
    && V.Added(list, list', V.Vad(base, base + length, flags))
  }

  /** A page that a write fault may make writable. */
  predicate Breakable(c: View, k: Key) {
    && k in c.leaves && k in c.perm && Write in c.perm[k].flags && !c.perm[k].shared
  }

  /** A private page that its VAD lets programs write, but whose leaf is read-only. */
  predicate Recoverable(c: View, k: Key) {
    Breakable(c, k) && c.leaves[k].Present? && Write !in c.leaves[k].flags
  }

  lemma PageStart(addr: nat)
    ensures PageNo(V.AlignDown(addr)) == PageNo(addr) && PageAligned(V.AlignDown(addr))
    ensures addr < V.USER_END ==> PageNo(addr) * PAGE_SIZE == V.AlignDown(addr)
  {
    var x := addr / 0x1000;
    assert V.AlignDown(addr) == x * 0x1000;
  }

  /** The physical address that a leaf entry gives; 0 stands for none. */
  function PhysOf(e: Entry, va: nat): nat {
    match e
    case Absent => 0
    case Present(f, _) => f * PAGE_SIZE + va % PAGE_SIZE
  }

  lemma PhysOfPage(e: Entry, va: nat)
    ensures PhysOf(e, va) != 0 ==> e.Present? && PhysOf(e, va) / PAGE_SIZE == e.frame
    ensures e.Present? && e.frame != 0 ==> PhysOf(e, va) != 0
  {
  }

  lemma FrameOfPhys(f: nat)
    ensures PageAligned(f * PAGE_SIZE) && (f < FRAME_MASK ==> FrameOf(f * PAGE_SIZE) == f)
  {
  }
}
