/** The kernel heap (kernel/src/mm/kheap.c) over the page allocator.  The PAGE_SLAB flag and the `private` word
    of a page, which only the heap uses, are the keys of `slabs` and `large`; pointers are physical addresses.  */
module Kheap {
  import opened Common
  import opened Slabs
  import opened Pmm
  import opened BlockTree
  import FreeLists
  import FreeMap

  const NIL: int := FreeLists.NIL

  class KernelHeap {
    const pmm: PageAllocator
    var caches: seq<Cache>
    var slabs: map<nat, Slab>
    var large: map<nat, Large>
    var words: map<nat, nat>            // the links in the free objects
    var data: map<nat, seq<byte>>       // the allocated objects
    var allocs: nat                     // total_alloc_count
    var frees: nat                      // total_free_count
    ghost var chains: map<nat, seq<nat>>

    ghost function State(): Heap
      reads this
    {
      Heap(caches, slabs, large, words, chains, data)
    }

    ghost predicate Valid()
      reads this, pmm, pmm.mem, pmm.lists
    {
      && pmm.Valid() && 0 !in pmm.managed
      && Holds(State(), pmm.live, pmm.State())
      && frees + |data| == allocs
    }

    lemma Apart()
      ensures this as object != pmm && this as object != pmm.mem && this as object != pmm.lists
      ensures pmm as object != pmm.mem && pmm as object != pmm.lists
    {
    }

    /** The references of the allocator's state in the heap's invariant. */
    lemma Live()
      requires pmm.Valid()
      ensures forall f | f in pmm.live :: f < pmm.mem.Length && f !in pmm.free && f in pmm.managed && pmm.mem[f].refcount >= 1
    {
      pmm.LiveIsNotFree();
    }

    constructor (pmm: PageAllocator)
      requires pmm.Valid() && 0 !in pmm.managed
      ensures this.pmm == pmm && Valid() && data == map[]
    {
      hide PageAllocator.Valid;
      EmptyHeap(pmm.State());
      this.pmm := pmm;
      caches := seq(CLASSES, _ => Cache([], []));
      slabs, large, words, data, chains := map[], map[], map[], map[], map[];
      allocs, frees := 0, 0;
      new;
      hide Holds;
      assert State() == Heap(seq(CLASSES, _ => Cache([], [])), map[], map[], map[], map[], map[]);
    }

    /** A page for the heap. */
    method TakePage(order: nat) returns (f: int)
      requires Valid() && order < MAX_ORDER
      modifies pmm, pmm.mem, pmm.lists
      ensures pmm.Valid() && 0 !in pmm.managed && State() == old(State()) && frees == old(frees) && allocs == old(allocs)
      ensures f == NIL ==> Valid() && pmm.State() == old(pmm.State()) && forall i: nat :: !(Frames(order, i) <= pmm.free)
      ensures f != NIL ==> f > 0 && Taken(old(pmm.State()), pmm.State(), f, order)
    {
      hide PageAllocator.Valid;
      hide Holds;
      Apart();
      f := pmm.Alloc(order);
      Live();
    }

    /** `slab_create`, and its page on the partial list */
    method SlabCreate(c: nat) returns (ok: bool, ghost w: map<nat, nat>, ghost f: nat)
      requires Valid() && c < CLASSES
      modifies this`caches, this`slabs, this`words, this`chains, pmm, pmm.mem, pmm.lists
      ensures Valid() && (!ok ==> State() == old(State()) && pmm.free == {})
      ensures ok ==> |caches| == CLASSES && caches[c].partial != []
      ensures ok ==> f !in old(pmm.live) && Threaded(w, Slot(f, c, 0), SlotsFrom(f, c, 0))
      ensures ok ==> |old(caches)| == CLASSES && State() == Created(old(State()), f, c, w)
    {
      hide PageAllocator.Valid;
      hide Holds;
      hide HeapInv;
      Apart();
      ghost var h, d := State(), pmm.State();
      CachesAre(h, d);
      var page := TakePage(0);
      if page == NIL {
        NoFrames(pmm.free);
        return false, map[], 0;
      }
      f := page;
      var threaded := ThreadSlots(page, c, words);
      w := threaded;
      CreatedHolds(h, d, pmm.State(), f, c, w);
      Record(caches[c := caches[c].(partial := [page] + caches[c].partial)],
             slabs[page := Slab(c, Slot(page, c, 0), 0, TotalOf(c))], threaded, chains[f := SlotsFrom(f, c, 0)]);
      ok := true;
    }

    /** New slab pages, slab headers and links. */
    method Record(k: seq<Cache>, s: map<nat, Slab>, w: map<nat, nat>, ghost l: map<nat, seq<nat>>)
      requires pmm.Valid() && 0 !in pmm.managed && frees + |data| == allocs
      requires Holds(Heap(k, s, large, w, l, data), pmm.live, pmm.State())
      modifies this`caches, this`slabs, this`words, this`chains
      ensures Valid() && State() == Heap(k, s, large, w, l, data)
    {
      hide PageAllocator.Valid;
      hide Holds;
      Apart();
      caches, slabs, words, chains := k, s, w, l;
    }

    /** The loop of `slab_create`: every object links to the next. */
    method ThreadSlots(f: nat, c: nat, before: map<nat, nat>) returns (w: map<nat, nat>)
      requires c < CLASSES
      ensures Threaded(w, Slot(f, c, 0), SlotsFrom(f, c, 0))
      ensures forall a | a in before && a / PAGE_SIZE != f :: a in w && w[a] == before[a]
    {
      w := before;
      for i := 0 to TotalOf(c)
        invariant forall k: nat | k < i :: Slot(f, c, k) in w && w[Slot(f, c, k)] == Link(f, c, k)
        invariant forall a | a in before && a / PAGE_SIZE != f :: a in w && w[a] == before[a]
      {
        SlotInPage(f, c, i);
        forall k: nat | k < i
          ensures Slot(f, c, k) != Slot(f, c, i)
        {
          SlotsApart(f, c, k, i);
        }
        w := w[Slot(f, c, i) := if i + 1 < TotalOf(c) then Slot(f, c, i + 1) else 0];
      }
      LinksThread(w, f, c, 0);
    }

    /** `slab_alloc` */
    method SlabAlloc(c: nat) returns (ptr: nat)
      requires Valid() && c < CLASSES
      modifies this`caches, this`slabs, this`words, this`chains, this`data, this`allocs, this`frees, pmm, pmm.mem, pmm.lists
      ensures Valid() && frees == old(frees)
      ensures ptr == 0 ==> State() == old(State()) && pmm.free == {}
      ensures ptr != 0 ==> ptr !in old(data) && data == old(data)[ptr := NewBytes(SizeOf(c))]
      ensures |old(caches)| == CLASSES && (old(caches)[c].partial != [] ==> ptr != 0 && pmm.State() == old(pmm.State()))
    {
      hide PageAllocator.Valid;
      hide Holds;
      hide HeapInv;
      Apart();
      CachesAre(State(), pmm.State());
      if caches[c].partial == [] {
        var ok;
        ghost var w, f;
        ok, w, f := SlabCreate(c);
        if !ok {
          return 0;
        }
      }
      ptr := TakeObject(c);
    }

    /** The part of `slab_alloc` after there is a slab with a free object. */
    method TakeObject(c: nat) returns (obj: nat)
      requires Valid() && c < CLASSES == |caches| && caches[c].partial != []
      modifies this`caches, this`slabs, this`words, this`chains, this`data, this`allocs, this`frees
      ensures Valid() && frees == old(frees) && pmm.State() == old(pmm.State())
      ensures obj != 0 && obj !in old(data) && data == old(data)[obj := NewBytes(SizeOf(c))]
    {
      hide PageAllocator.Valid;
      hide Holds;
      hide HeapInv;
      Apart();
      ghost var h := State();
      var bytes := NewBytes(SizeOf(c));
      PoppedHolds(h, pmm.State(), c, bytes);
      var f := caches[c].partial[0];
      obj := slabs[f].freelist;
      var s := slabs[f].(freelist := words[obj], inuse := slabs[f].inuse + 1);
      var k := caches;
      if s.freelist == 0 {
        k := caches[c := Cache(caches[c].partial[1..], [f] + caches[c].full)];
      }
      Store(k, slabs[f := s], words, chains[f := chains[f][1..]], data[obj := bytes], 1, 0);
    }

    /** The new state of the heap. */
    method Store(k: seq<Cache>, s: map<nat, Slab>, w: map<nat, nat>, ghost l: map<nat, seq<nat>>, b: map<nat, seq<byte>>,
                 more: nat, less: nat)
      requires pmm.Valid() && 0 !in pmm.managed && frees + less + |b| == allocs + more
      requires Holds(Heap(k, s, large, w, l, b), pmm.live, pmm.State())
      modifies this`caches, this`slabs, this`words, this`chains, this`data, this`allocs, this`frees
      ensures Valid() && State() == Heap(k, s, large, w, l, b) && pmm.State() == old(pmm.State())
      ensures frees == old(frees) + less && allocs == old(allocs) + more
    {
      hide PageAllocator.Valid;
      hide Holds;
      Apart();
      caches, slabs, words, chains, data := k, s, w, l, b;
      allocs, frees := allocs + more, frees + less;
    }

    /** `slab_free` of an allocated object */
    method SlabFree(ptr: nat)
      requires Valid() && ptr in data && ptr / PAGE_SIZE in slabs
      modifies this`caches, this`slabs, this`words, this`chains, this`data, this`allocs, this`frees
      ensures Valid() && data == old(data) - {ptr} && frees == old(frees) + 1 && allocs == old(allocs)
    {
      hide PageAllocator.Valid;
      hide Holds;
      hide HeapInv;
      Apart();
      ghost var h := State();
      PushedHolds(h, pmm.State(), ptr);
      var f := ptr / PAGE_SIZE;
      var c := slabs[f].cls;
      var wasFull := slabs[f].freelist == 0 && slabs[f].inuse == slabs[f].total;
      var k := caches;
      if wasFull {
        k := caches[c := Cache([f] + caches[c].partial, Without(caches[c].full, f))];
      }
      var s := slabs[f].(freelist := ptr, inuse := slabs[f].inuse - 1);
      Store(k, slabs[f := s], words[ptr := slabs[f].freelist], chains[f := [ptr] + chains[f]], data - {ptr}, 0, 1);
    }

    /** `cache_for_size`: the smallest class that is large enough. */
    method CacheFor(size: nat) returns (c: nat)
      ensures c <= CLASSES && (c < CLASSES <==> size <= 2048)
      ensures c < CLASSES ==> size <= SizeOf(c) && forall b: nat | b < c :: SizeOf(b) < size
    {
      for i: nat := 0 to CLASSES
        invariant forall b: nat | b < i :: SizeOf(b) < size
      {
        if size <= SizeOf(i) {
          return i;
        }
      }
      assert SizeOf(8) == 2048;
      return CLASSES;
    }

    /** The order search of `kmalloc`: the least order whose block has room for `total` bytes. */
    method OrderFor(total: nat) returns (order: nat)
      requires total <= 0x8000_0000
      ensures total <= PAGE_SIZE * Pow2(order) && forall o: nat | o < order :: PAGE_SIZE * Pow2(o) < total
    {
      hide Pow2;
      hide Shifted;
      ShiftEnds();
      order := 0;
      while Shifted(order) < total
        invariant order <= 19 && forall o: nat | o < order :: PAGE_SIZE * Pow2(o) < total
        decreases 19 - order
      {
        ShiftedSmall(order);
        order := order + 1;
      }
      ShiftedSmall(order);
    }

    /** `kmalloc` of a size for which the order search ends. */
    method Kmalloc(size: nat) returns (ptr: nat)
      requires Valid() && size + LARGE_HEADER <= 0x8000_0000
      modifies this`caches, this`slabs, this`large, this`words, this`chains, this`data, this`allocs, this`frees,
               pmm, pmm.mem, pmm.lists
      ensures Valid() && frees == old(frees)
      ensures ptr == 0 ==> State() == old(State())
      ensures ptr == 0 && 0 < size <= 2048 ==> pmm.free == {}
      ensures ptr == 0 && size > 2048 ==> NoRoom(pmm.free, size + LARGE_HEADER)
      ensures ptr != 0 ==>
        && size > 0 && ptr !in old(data) && ptr in data && data == old(data)[ptr := data[ptr]]
        && size <= |data[ptr]| && (size > 2048 ==> |data[ptr]| == size)
      ensures ptr != 0 && size <= 8 ==> |data[ptr]| == 8 && ptr % 8 == 0
      ensures ptr != 0 && 8 < size <= 2048 ==>
        |data[ptr]| in {16, 32, 64, 128, 256, 512, 1024, 2048} && size <= |data[ptr]| < 2 * size && ptr % 16 == 0
      ensures ptr != 0 && size > 2048 ==>
        && ptr % PAGE_SIZE == LARGE_HEADER && ptr / PAGE_SIZE in pmm.live
        && var order := pmm.live[ptr / PAGE_SIZE];
          && size + LARGE_HEADER <= PAGE_SIZE * Pow2(order)
          && forall o: nat | o < order :: PAGE_SIZE * Pow2(o) < size + LARGE_HEADER
    {
      hide PageAllocator.Valid;
      hide Holds;
      hide HeapInv;
      hide Pow2;
      hide NoRoom;
      if size == 0 {
        return 0;
      }
      var c := CacheFor(size);
      if c < CLASSES {
        RoomOfClass(size, c);
        hide SizeOf;
        ptr := SlabAlloc(c);
        if ptr != 0 {
          ObjectsAligned(ptr);
        }
        return;
      }
      var order := OrderFor(size + LARGE_HEADER);
      ptr := LargeAlloc(size, order);
    }

    /** The large case of `kmalloc` */
    method LargeAlloc(size: nat, order: nat) returns (ptr: nat)
      requires Valid() && size > 2048 && size + LARGE_HEADER <= PAGE_SIZE * Pow2(order)
      requires forall o: nat | o < order :: PAGE_SIZE * Pow2(o) < size + LARGE_HEADER
      modifies this`large, this`data, this`allocs, this`frees, pmm, pmm.mem, pmm.lists
      ensures Valid() && frees == old(frees)
      ensures ptr == 0 ==> State() == old(State()) && NoRoom(pmm.free, size + LARGE_HEADER)
      ensures ptr != 0 ==> ptr !in old(data) && data == old(data)[ptr := NewBytes(size)]
      ensures ptr != 0 ==> ptr % PAGE_SIZE == LARGE_HEADER && ptr / PAGE_SIZE in pmm.live && pmm.live[ptr / PAGE_SIZE] == order
    {
      hide PageAllocator.Valid;
      hide Holds;
      hide HeapInv;
      hide Pow2;
      hide NoRoom;
      hide Frames;
      Apart();
      if order >= MAX_ORDER {
        TooLarge(pmm.free, size + LARGE_HEADER, order);
        return 0;
      }
      ghost var h, d := State(), pmm.State();
      var f := TakePage(order);
      if f == NIL {
        NoneFits(pmm.free, size + LARGE_HEADER, order);
        return 0;
      }
      LargeHolds(h, d, pmm.State(), f, size, order);
      ptr := f * PAGE_SIZE + LARGE_HEADER;
      assert ptr / PAGE_SIZE == f;
      StoreLarge(large[f := Large(size, order)], data[ptr := NewBytes(size)], 1, 0);
    }

    method StoreLarge(l: map<nat, Large>, b: map<nat, seq<byte>>, more: nat, less: nat)
      requires pmm.Valid() && 0 !in pmm.managed && frees + less + |b| == allocs + more
      requires Holds(Heap(caches, slabs, l, words, chains, b), pmm.live, pmm.State())
      modifies this`large, this`data, this`allocs, this`frees
      ensures Valid() && State() == Heap(caches, slabs, l, words, chains, b) && pmm.State() == old(pmm.State())
      ensures frees == old(frees) + less && allocs == old(allocs) + more
    {
      hide PageAllocator.Valid;
      hide Holds;
      Apart();
      large, data := l, b;
      allocs, frees := allocs + more, frees + less;
    }

    /** `kfree`: an allocated object goes; a pointer into a page that is not the heap's is a panic. */
    method Kfree(ptr: nat) returns (r: Outcome)
      requires Valid() && (ptr == 0 || ptr in data || (ptr / PAGE_SIZE !in slabs && ptr / PAGE_SIZE !in large))
      modifies this`caches, this`slabs, this`large, this`words, this`chains, this`data, this`allocs, this`frees,
               pmm, pmm.mem, pmm.lists
      ensures Valid() && allocs == old(allocs)
      ensures r == Panic <==> ptr != 0 && ptr !in old(data)
      ensures r == Panic || ptr == 0 ==> State() == old(State()) && frees == old(frees)
      ensures r == Done && ptr != 0 ==> data == old(data) - {ptr} && frees == old(frees) + 1
    {
      hide PageAllocator.Valid;
      hide Holds;
      Pointers(ptr);
      if ptr == 0 {
        return Done;
      }
      var f := ptr / PAGE_SIZE;
      if f in slabs {
        SlabFree(ptr);
      } else if f in large {
        LargeFree(ptr);
      } else {
        return Panic;
      }
      return Done;
    }

    lemma Pointers(ptr: nat)
      requires Valid()
      ensures 0 !in data && (ptr in data ==> ptr / PAGE_SIZE in slabs || ptr / PAGE_SIZE in large)
    {
      ObjectsArePlaced(State(), pmm.State(), ptr);
    }

    /** The large case of `kfree` */
    method LargeFree(ptr: nat)
      requires Valid() && ptr in data && ptr / PAGE_SIZE in large
      modifies this`large, this`data, this`allocs, this`frees, pmm, pmm.mem, pmm.lists
      ensures Valid() && allocs == old(allocs)
      ensures data == old(data) - {ptr} && frees == old(frees) + 1
    {
      hide PageAllocator.Valid;
      hide Holds;
      hide HeapInv;
      Apart();
      ghost var h, d := State(), pmm.State();
      var f := ptr / PAGE_SIZE;
      HeldPage(h, d, f);
      GivePage(f);
      Live();
      RemovedHolds(h, d, pmm.State(), ptr);
      StoreLarge(large - {f}, data - {ptr}, 0, 1);
    }

    /** `pmm_free` of a page of the heap */
    method GivePage(f: nat)
      requires pmm.Valid() && f in pmm.live && f < pmm.mem.Length && pmm.mem[f].refcount == 1 && 0 !in pmm.managed
      modifies pmm, pmm.mem, pmm.lists
      ensures pmm.Valid() && 0 !in pmm.managed && State() == old(State()) && frees == old(frees) && allocs == old(allocs)
      ensures Released(old(pmm.State()), pmm.State(), f)
    {
      hide PageAllocator.Valid;
      Apart();
      var r := pmm.FreePage(f);
    }

    /** `krealloc`: the bytes that both sizes have room for move with the object. */
    method Krealloc(ptr: nat, newSize: nat) returns (new_: nat)
      requires Valid() && newSize + LARGE_HEADER <= 0x8000_0000 && (ptr == 0 || ptr in data)
      modifies this`caches, this`slabs, this`large, this`words, this`chains, this`data, this`allocs, this`frees,
               pmm, pmm.mem, pmm.lists
      ensures Valid()
      ensures new_ != 0 ==> new_ in data && newSize <= |data[new_]| && new_ !in old(data)
      ensures new_ == 0 && newSize > 0 ==> data == old(data)
      ensures ptr != 0 && newSize == 0 ==> new_ == 0 && data == old(data) - {ptr}
      ensures new_ != 0 && ptr != 0 ==>
        var n := if |old(data)[ptr]| < newSize then |old(data)[ptr]| else newSize;
        n <= |data[new_]| && data[new_][..n] == old(data)[ptr][..n]
      ensures new_ != 0 ==> data.Keys == old(data).Keys + {new_} - (if ptr == 0 then {} else {ptr})
      ensures forall q | q in old(data) && q in data && q != new_ :: data[q] == old(data)[q]
    {
      hide PageAllocator.Valid;
      hide Holds;
      hide HeapInv;
      Pointers(ptr);
      if ptr == 0 {
        new_ := Kmalloc(newSize);
        return;
      }
      if newSize == 0 {
        var r := Kfree(ptr);
        return 0;
      }
      new_ := MoveObject(ptr, newSize);
    }

    /** The case of `krealloc` in which there is an object and there is to be one. */
    method MoveObject(ptr: nat, newSize: nat) returns (new_: nat)
      requires Valid() && 0 < newSize <= 0x8000_0000 - LARGE_HEADER && ptr in data
      modifies this`caches, this`slabs, this`large, this`words, this`chains, this`data, this`allocs, this`frees,
               pmm, pmm.mem, pmm.lists
      ensures Valid()
      ensures new_ == 0 ==> data == old(data)
      ensures new_ != 0 ==> new_ !in old(data) && data.Keys == old(data).Keys + {new_} - {ptr}
      ensures new_ != 0 ==>
        var n := if |old(data)[ptr]| < newSize then |old(data)[ptr]| else newSize;
        newSize <= |data[new_]| && n <= |data[new_]| && data[new_][..n] == old(data)[ptr][..n]
      ensures forall q | q in old(data) && q in data && q != new_ :: data[q] == old(data)[q]
    {
      hide PageAllocator.Valid;
      hide Holds;
      hide HeapInv;
      Pointers(ptr);
      new_ := Kmalloc(newSize);
      if new_ == 0 {
        return;
      }
      var oldSize := SizeOfObject(ptr);
      var n := if oldSize < newSize then oldSize else newSize;
      CopyObject(new_, ptr, n);
      var r := Kfree(ptr);
    }

    /** The object's size as `krealloc` finds it: its class's size, or that in its header. */
    method SizeOfObject(ptr: nat) returns (size: nat)
      requires Valid() && ptr in data
      ensures size == |data[ptr]|
    {
      hide PageAllocator.Valid;
      ObjectsArePlaced(State(), pmm.State(), ptr);
      hide HeapInv;
      var f := ptr / PAGE_SIZE;
      if f in slabs {
        size := SizeOf(slabs[f].cls);
      } else {
        size := large[f].size;
      }
    }

    /** The `memcpy` of `krealloc` */
    method CopyObject(d: nat, s: nat, n: nat)
      requires Valid() && d in data && s in data && n <= |data[d]| && n <= |data[s]|
      modifies this`data
      ensures Valid() && data == old(data)[d := old(data)[s][..n] + old(data)[d][n..]]
      ensures frees == old(frees) && allocs == old(allocs)
    {
      hide PageAllocator.Valid;
      hide HeapInv;
      Apart();
      WrittenHolds(State(), pmm.State(), d, data[s][..n] + data[d][n..]);
      hide Holds;
      data := data[d := data[s][..n] + data[d][n..]];
    }

    // ---- what callers rely on ----

    lemma Apartness()
      requires Valid()
      ensures BlocksApart(pmm.live)
    {
      hide FreeLists.Linked;
      hide FreeMap.Canonical;
      hide FreeMap.FreeFlags;
      hide HeapInv;
      forall f, g | OwnsFrame(pmm.live, f, g)
        ensures Owns(pmm.live, f, g)
      {
        pmm.LivePage(f);
        FramesRun(pmm.live[f], BlockTree.Anc(f, pmm.live[f]));
      }
    }

    /** Allocated objects do not overlap, and keep clear of the links between free objects. */
    lemma ObjectsDisjoint(p: nat, q: nat)
      requires Valid() && p in data && q in data && p < q
      ensures p + |data[p]| <= q
    {
      Apartness();
      ObjectsArePlaced(State(), pmm.State(), p);
      hide PageAllocator.Valid;
      ObjectsApart(State(), pmm.live, p, q);
    }

    /** Small objects are aligned by 8 or 16, and a large one follows its block's header. */
    lemma ObjectsAligned(p: nat)
      requires Valid() && p in data
      ensures |data[p]| < 16 ==> p % 8 == 0
      ensures 16 <= |data[p]| <= 2048 ==> p % 16 == 0
      ensures |data[p]| > 2048 ==> p % PAGE_SIZE == LARGE_HEADER
    {
      hide PageAllocator.Valid;
      ObjectAligned(State(), pmm.live, p);
    }

    lemma ObjectsClearOfLinks(p: nat, f: nat, a: nat)
      requires Valid() && p in data && f in slabs && f in chains && a in chains[f]
      ensures p + |data[p]| <= a || a + 8 <= p
    {
      Apartness();
      ObjectsArePlaced(State(), pmm.State(), p);
      hide PageAllocator.Valid;
      ObjectApartFromFree(State(), pmm.live, p, f, a);
    }

    /** An object lies in its own page or block, behind the header. */
    lemma ObjectsBehindHeaders(p: nat)
      requires Valid() && p in data
      ensures p / PAGE_SIZE in pmm.live
      ensures p >= p / PAGE_SIZE * PAGE_SIZE + (if p / PAGE_SIZE in slabs then SLAB_HEADER else LARGE_HEADER)
      ensures p + |data[p]| <= (p / PAGE_SIZE + Pow2(pmm.live[p / PAGE_SIZE])) * PAGE_SIZE
    {
      ObjectsArePlaced(State(), pmm.State(), p);
      hide PageAllocator.Valid;
      ObjectInBlock(State(), pmm.live, p);
    }
  }

  /** What object `k` of a fresh slab links to. */
  function Link(f: nat, c: nat, k: nat): nat
    requires c < CLASSES
  {
    if k + 1 < TotalOf(c) then Slot(f, c, k + 1) else 0
  }

  lemma {:induction false} LinksThread(w: map<nat, nat>, f: nat, c: nat, i: nat)
    requires c < CLASSES && i <= TotalOf(c)
    requires forall k: nat | k < TotalOf(c) :: Slot(f, c, k) in w && w[Slot(f, c, k)] == Link(f, c, k)
    ensures Threaded(w, if i < TotalOf(c) then Slot(f, c, i) else 0, SlotsFrom(f, c, i))
    decreases TotalOf(c) - i
  {
    if i < TotalOf(c) {
      LinksThread(w, f, c, i + 1);
      assert w[Slot(f, c, i)] == Link(f, c, i);
    }
  }

  /** A block has been allocated: it is new, has one reference, and nothing else has changed. */
  ghost predicate Taken(a: Database, b: Database, f: nat, order: nat) {
    && f !in a.live && b.live == a.live[f := order] && f < |b.mem| && b.mem[f].refcount == 1 && f !in b.free
    && b.free <= a.free && SameOutside(a.mem, b.mem, a.free)
  }

  /** The least class with room wastes less than half of an object. */
  lemma RoomOfClass(size: nat, c: nat)
    requires 0 < size <= 2048 && c < CLASSES && size <= SizeOf(c) && forall b: nat | b < c :: SizeOf(b) < size
    ensures size <= 8 ==> SizeOf(c) == 8
    ensures size > 8 ==> SizeOf(c) in {16, 32, 64, 128, 256, 512, 1024, 2048} && SizeOf(c) < 2 * size
  {
    assert c > 0 ==> SizeOf(c - 1) < size && SizeOf(c) == 2 * SizeOf(c - 1);
  }

  lemma EmptyHeap(d: Database)
    ensures Holds(Heap(seq(CLASSES, _ => Cache([], [])), map[], map[], map[], map[], map[]), d.live, d)
  {
    var h := Heap(seq(CLASSES, _ => Cache([], [])), map[], map[], map[], map[], map[]);
    forall c | 0 <= c < CLASSES
      ensures CacheOk(h, c)
    {
    }
  }

  /** A new object's bytes: nothing is known of them; zeroes stand for whatever there is. */
  function NewBytes(n: nat): (b: seq<byte>)
    ensures |b| == n
  {
    seq(n, _ => 0)
  }

  /** No free block has room for `total` bytes. */
  ghost predicate NoRoom(free: set<nat>, total: nat) {
    forall o: nat, i: nat :: o < MAX_ORDER && total <= PAGE_SIZE * Pow2(o) ==> !(Frames(o, i) <= free)
  }

  lemma TooLarge(free: set<nat>, total: nat, order: nat)
    requires order >= MAX_ORDER && forall o: nat | o < order :: PAGE_SIZE * Pow2(o) < total
    ensures NoRoom(free, total)
  {
  }

  lemma NoneFits(free: set<nat>, total: nat, order: nat)
    requires forall o: nat | o < order :: PAGE_SIZE * Pow2(o) < total
    requires forall i: nat :: !(Frames(order, i) <= free)
    ensures NoRoom(free, total)
  {
    forall o: nat, i: nat | o < MAX_ORDER && total <= PAGE_SIZE * Pow2(o)
      ensures !(Frames(o, i) <= free)
    {
      assert order <= o;
      SmallerInside(order, o, i);
    }
  }

  /** A block contains blocks of every smaller order. */
  lemma {:induction false} SmallerInside(o: nat, o': nat, i: nat)
    requires o <= o'
    ensures exists j: nat :: Frames(o, j) <= Frames(o', i)
    decreases o' - o
  {
    if o < o' {
      SmallerInside(o, o' - 1, 2 * i);
      var j: nat :| Frames(o, j) <= Frames(o' - 1, 2 * i);
      SplitFrames(o' - 1, i);
      assert Frames(o, j) <= Frames(o', i);
    } else {
      assert Frames(o, i) <= Frames(o', i);
    }
  }

  lemma PoppedHolds(h: Heap, d: Database, c: nat, bytes: seq<byte>)
    requires Holds(h, d.live, d) && c < CLASSES == |h.caches| && h.caches[c].partial != [] && |bytes| == SizeOf(c)
    ensures var f := h.caches[c].partial[0];
      && f in h.slabs && f in h.chains && h.chains[f] != [] && h.slabs[f].freelist == h.chains[f][0]
      && h.chains[f][0] in h.words && h.chains[f][0] != 0 && h.chains[f][0] !in h.data
      && (h.words[h.chains[f][0]] == 0 <==> |h.chains[f]| == 1)
    ensures Holds(Popped(h, c, bytes), d.live, d) && |Popped(h, c, bytes).data| == |h.data| + 1
  {
    CachesAre(h, d);
    hide HeapInv;
    FirstPartial(h, d.live, c);
    PoppedKeeps(h, d.live, c, bytes);
  }

  lemma PushedHolds(h: Heap, d: Database, p: nat)
    requires Holds(h, d.live, d) && p in h.data && p / PAGE_SIZE in h.slabs
    ensures var f: nat := p / PAGE_SIZE;
      && f in h.chains && h.slabs[f].cls < CLASSES == |h.caches| && h.slabs[f].inuse > 0
      && (h.slabs[f].freelist == 0 && h.slabs[f].inuse == h.slabs[f].total <==> h.chains[f] == [])
    ensures Holds(Pushed(h, p), d.live, d) && |Pushed(h, p).data| == |h.data| - 1
  {
    hide SlabOk;
    hide CacheOk;
    hide IsSlot;
    hide Without;
    CachesAre(h, d);
    hide HeapInv;
    SlabObject(h, d.live, p);
    PushedKeeps(h, d.live, p);
  }

  lemma LargeHolds(h: Heap, d: Database, d': Database, f: nat, size: nat, order: nat)
    requires Holds(h, d.live, d) && Taken(d, d', f, order) && f > 0 && size > 2048
    requires size + LARGE_HEADER <= PAGE_SIZE * Pow2(order)
    ensures f * PAGE_SIZE + LARGE_HEADER !in h.data
    ensures Holds(LargeAdded(h, f, size, order, NewBytes(size)), d'.live, d')
    ensures |LargeAdded(h, f, size, order, NewBytes(size)).data| == |h.data| + 1
  {
    hide Pow2;
    hide HeapInv;
    LargeParts(h, d, f);
    LargeAddedKeeps(h, d.live, d'.live, f, size, order, NewBytes(size));
    hide LargeAdded;
    LargeFields(h, f, size, order, NewBytes(size));
  }

  lemma LargeParts(h: Heap, d: Database, f: nat)
    requires Holds(h, d.live, d) && f !in d.live
    ensures f * PAGE_SIZE + LARGE_HEADER !in h.data && f !in h.slabs && f !in h.large
  {
    assert (f * PAGE_SIZE + LARGE_HEADER) / PAGE_SIZE == f;
    FreshPage(h, d.live, f);
  }

  lemma LargeFields(h: Heap, f: nat, size: nat, order: nat, bytes: seq<byte>)
    requires f * PAGE_SIZE + LARGE_HEADER !in h.data
    ensures var h' := LargeAdded(h, f, size, order, bytes);
      h'.slabs == h.slabs && h'.large == h.large[f := Large(size, order)] && |h'.data| == |h.data| + 1
  {
  }

  lemma HeldPage(h: Heap, d: Database, f: nat)
    requires Holds(h, d.live, d) && (f in h.slabs || f in h.large)
    ensures f in d.live && f < |d.mem| && d.mem[f].refcount == 1
  {
  }

  lemma RemovedHolds(h: Heap, d: Database, d': Database, p: nat)
    requires Holds(h, d.live, d) && p in h.data && p / PAGE_SIZE in h.large && Released(d, d', p / PAGE_SIZE)
    requires forall f | f in d'.live :: f !in d'.free
    ensures Holds(LargeRemoved(h, p), d'.live, d') && |LargeRemoved(h, p).data| == |h.data| - 1
  {
    hide Frames;
    hide Anc;
    hide Capacity;
    CachesAre(h, d);
    hide HeapInv;
    LargeRemovedKeeps(h, d.live, d'.live, p);
  }

  lemma ObjectsArePlaced(h: Heap, d: Database, p: nat)
    requires Holds(h, d.live, d)
    ensures 0 !in h.data
    ensures p in h.data ==> (p / PAGE_SIZE in h.slabs || p / PAGE_SIZE in h.large) && |h.data[p]| == Capacity(h, p)
    ensures p in h.data && p / PAGE_SIZE in h.slabs ==> h.slabs[p / PAGE_SIZE].cls < CLASSES
  {
    assert 0 in h.data <==> Placed(h, 0);
    assert p in h.data ==> Placed(h, p);
    forall f | f in h.slabs || f in h.large
      ensures f > 0
    {
      assert if f in h.slabs then SlabOk(h, f) else LargeOk(h, f);
    }
    assert p / PAGE_SIZE in h.slabs ==> SlabOk(h, p / PAGE_SIZE);
  }

  lemma WrittenHolds(h: Heap, d: Database, p: nat, bytes: seq<byte>)
    requires Holds(h, d.live, d) && p in h.data && |bytes| == |h.data[p]|
    ensures Holds(h.(data := h.data[p := bytes]), d.live, d) && |h.data[p := bytes]| == |h.data|
  {
    var h' := h.(data := h.data[p := bytes]);
    assert h'.data.Keys == h.data.Keys;
    SameSlabs(h, h');
    SamePlaces(h, h');
    hide SlabOk;
    hide CacheOk;
    hide LargeOk;
    hide Placed;
    hide Capacity;
  }

  /** What has been written into objects has no part in where they are. */
  lemma SamePlaces(h: Heap, h': Heap)
    requires h'.slabs == h.slabs && h'.chains == h.chains && h'.large == h.large
    ensures forall q: nat :: (Placed(h', q) <==> Placed(h, q)) && Capacity(h', q) == Capacity(h, q)
    ensures forall f | f in h.large :: LargeOk(h', f) <==> LargeOk(h, f)
  {
  }

  lemma CachesAre(h: Heap, d: Database)
    requires Holds(h, d.live, d)
    ensures |h.caches| == CLASSES
  {
  }

  lemma CreatedHolds(h: Heap, d: Database, d': Database, f: nat, c: nat, w: map<nat, nat>)
    requires Holds(h, d.live, d) && Taken(d, d', f, 0) && f > 0 && c < CLASSES
    requires Threaded(w, Slot(f, c, 0), SlotsFrom(f, c, 0))
    requires forall a | a in h.words && a / PAGE_SIZE != f :: a in w && w[a] == h.words[a]
    ensures |h.caches| == CLASSES && Holds(Created(h, f, c, w), d'.live, d')
  {
    CachesAre(h, d);
    hide HeapInv;
    CreatedKeeps(h, d.live, d'.live, f, c, w);
  }

  /** Part of the allocated blocks are the heap's, each with one reference. */
  ghost predicate Holds(h: Heap, live: map<nat, nat>, d: Database) {
    && live == d.live && HeapInv(h, live)
    && (forall f | f in h.slabs || f in h.large :: f in d.live && f < |d.mem| && d.mem[f].refcount == 1 && f !in d.free)
  }
}
