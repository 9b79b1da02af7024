/** The kernel heap on values (kernel/src/mm/kheap.c): slab pages with the free list threaded through the free
    objects, large blocks, and the allocated objects.  Addresses are physical; 0 is the null pointer.  */
module Slabs {
  import opened Common
  import opened BlockTree

  const SLAB_HEADER: nat := 40    // sizeof(slab_t)
  const LARGE_HEADER: nat := 24   // sizeof(large_hdr_t)
  const CLASSES: nat := 9

  /** The size classes 8, 16, ..., 2048. */
  function SizeOf(c: nat): (s: nat)
    requires c < CLASSES
    ensures 8 <= s <= 2048
  {
    if c == 0 then 8 else if c == 1 then 16 else if c == 2 then 32 else if c == 3 then 64 else if c == 4 then 128
    else if c == 5 then 256 else if c == 6 then 512 else if c == 7 then 1024 else 2048
  }

  /** The slab header, rounded up to the alignment of the objects: 8, or 16 for the larger classes. */
  function Header(c: nat): (h: nat)
    requires c < CLASSES
    ensures SLAB_HEADER <= h <= 48 && h % 8 == 0
  {
    if c == 0 then 40 else 48
  }

  function TotalOf(c: nat): (n: nat)
    requires c < CLASSES
    ensures n >= 1 && Header(c) + n * SizeOf(c) <= PAGE_SIZE
  {
    (PAGE_SIZE - Header(c)) / SizeOf(c)
  }

  /** The address of object `i` of the slab in frame `f`. */
  function Slot(f: nat, c: nat, i: nat): nat
    requires c < CLASSES
  {
    f * PAGE_SIZE + Header(c) + i * SizeOf(c)
  }

  predicate IsSlot(f: nat, c: nat, a: nat)
    requires c < CLASSES
  {
    exists i: nat :: i < TotalOf(c) && a == Slot(f, c, i)
  }

  datatype Slab = Slab(cls: nat, freelist: nat, inuse: nat, total: nat)

  datatype Large = Large(size: nat, order: nat)

  datatype Cache = Cache(partial: seq<nat>, full: seq<nat>)

  /** `chains` lists the free objects of every slab in order; `data` are the allocated objects and their bytes. */
  datatype Heap = Heap(caches: seq<Cache>, slabs: map<nat, Slab>, large: map<nat, Large>, words: map<nat, nat>,
                       chains: map<nat, seq<nat>>, data: map<nat, seq<byte>>)

  function First(l: seq<nat>): nat {
    if l == [] then 0 else l[0]
  }

  /** The objects of `l` are linked in this order, each by the word that it begins with. */
  predicate Threaded(words: map<nat, nat>, head: nat, l: seq<nat>)
    decreases |l|
  {
    if l == [] then head == 0 else head == l[0] && l[0] in words && Threaded(words, words[l[0]], l[1..])
  }

  // ---- the invariant ----

  ghost predicate SlabOk(h: Heap, f: nat)
    requires f in h.slabs
  {
    var s := h.slabs[f];
    && s.cls < CLASSES && f > 0 && f in h.chains
    && Distinct(h.chains[f]) && (forall a | a in h.chains[f] :: IsSlot(f, s.cls, a))
    && Threaded(h.words, s.freelist, h.chains[f])
    && s.total == TotalOf(s.cls) && s.inuse + |h.chains[f]| == s.total
  }

  predicate LargeOk(h: Heap, f: nat)
    requires f in h.large
  {
    f > 0 && h.large[f].size > 2048 && h.large[f].size + LARGE_HEADER <= PAGE_SIZE * Pow2(h.large[f].order)
  }

  /** A cache's slabs with free objects are on its partial list, the others on its full list. */
  ghost predicate CacheOk(h: Heap, c: nat)
    requires c < |h.caches|
  {
    && Distinct(h.caches[c].partial) && Distinct(h.caches[c].full)
    && (forall f: nat :: f in h.caches[c].partial <==> f in h.slabs && h.slabs[f].cls == c && f in h.chains && h.chains[f] != [])
    && (forall f: nat :: f in h.caches[c].full <==> f in h.slabs && h.slabs[f].cls == c && f in h.chains && h.chains[f] == [])
  }

  /** Where an allocated object lies. */
  ghost predicate Placed(h: Heap, p: nat) {
    var f: nat := p / PAGE_SIZE;
    || (f in h.slabs && f in h.chains && h.slabs[f].cls < CLASSES && IsSlot(f, h.slabs[f].cls, p) && p !in h.chains[f])
    || (f in h.large && p == f * PAGE_SIZE + LARGE_HEADER)
  }

  /** How many bytes an object has room for. */
  function Capacity(h: Heap, p: nat): nat {
    var f: nat := p / PAGE_SIZE;
    if f in h.slabs then (if h.slabs[f].cls < CLASSES then SizeOf(h.slabs[f].cls) else 0)
    else if f in h.large then h.large[f].size
    else 0
  }

  /** `live` are the allocated blocks of the page allocator and their orders. */
  ghost predicate HeapInv(h: Heap, live: map<nat, nat>) {
    && |h.caches| == CLASSES && h.slabs.Keys !! h.large.Keys
    && (forall f | f in h.slabs :: f in live && live[f] == 0 && SlabOk(h, f))
    && (forall f | f in h.large :: f in live && live[f] == h.large[f].order && LargeOk(h, f))
    && (forall c | 0 <= c < CLASSES :: CacheOk(h, c))
    && (forall p: nat :: p in h.data <==> Placed(h, p))
    && (forall p | p in h.data :: |h.data[p]| == Capacity(h, p))
  }

  // ---- slots ----

  lemma SlotInPage(f: nat, c: nat, i: nat)
    requires c < CLASSES && i < TotalOf(c)
    ensures Slot(f, c, i) / PAGE_SIZE == f && Slot(f, c, i) != 0
    ensures f * PAGE_SIZE + Header(c) <= Slot(f, c, i) && Slot(f, c, i) + SizeOf(c) <= f * PAGE_SIZE + PAGE_SIZE
  {
    assert (i + 1) * SizeOf(c) <= TotalOf(c) * SizeOf(c);
    assert i * SizeOf(c) + SizeOf(c) == (i + 1) * SizeOf(c);
  }

  /** Objects of one slab do not overlap. */
  lemma SlotsApart(f: nat, c: nat, i: nat, j: nat)
    requires c < CLASSES && i < j
    ensures Slot(f, c, i) + SizeOf(c) <= Slot(f, c, j)
  {
    assert (i + 1) * SizeOf(c) <= j * SizeOf(c);
    assert i * SizeOf(c) + SizeOf(c) == (i + 1) * SizeOf(c);
  }

  /** The objects of a fresh slab from number `i` on. */
  function SlotsFrom(f: nat, c: nat, i: nat): (l: seq<nat>)
    requires c < CLASSES && i <= TotalOf(c)
    ensures |l| == TotalOf(c) - i
    decreases TotalOf(c) - i
  {
    if i == TotalOf(c) then [] else [Slot(f, c, i)] + SlotsFrom(f, c, i + 1)
  }

  lemma {:induction false} SlotsFromAre(f: nat, c: nat, i: nat)
    requires c < CLASSES && i <= TotalOf(c)
    ensures forall k | 0 <= k < |SlotsFrom(f, c, i)| :: SlotsFrom(f, c, i)[k] == Slot(f, c, i + k)
    decreases TotalOf(c) - i
  {
    if i < TotalOf(c) {
      SlotsFromAre(f, c, i + 1);
    }
  }

  lemma AllSlots(f: nat, c: nat)
    requires c < CLASSES
    ensures Distinct(SlotsFrom(f, c, 0))
    ensures forall a: nat :: a in SlotsFrom(f, c, 0) <==> IsSlot(f, c, a)
  {
    var l := SlotsFrom(f, c, 0);
    SlotsFromAre(f, c, 0);
    forall i, j | 0 <= i < j < |l|
      ensures l[i] != l[j]
    {
      SlotsApart(f, c, i, j);
    }
    forall a: nat | IsSlot(f, c, a)
      ensures a in l
    {
      var i: nat :| i < TotalOf(c) && a == Slot(f, c, i);
      assert l[i] == Slot(f, c, 0 + i);
    }
  }

  /** Writing words elsewhere does not disturb a free list. */
  lemma {:induction false} ThreadedElsewhere(words: map<nat, nat>, words': map<nat, nat>, head: nat, l: seq<nat>)
    requires Threaded(words, head, l) && forall a | a in l :: a in words && a in words' && words'[a] == words[a]
    ensures Threaded(words', head, l)
    decreases |l|
  {
    if l != [] {
      ThreadedElsewhere(words, words', words[l[0]], l[1..]);
    }
  }

  lemma {:induction false} ThreadedHas(words: map<nat, nat>, head: nat, l: seq<nat>)
    requires Threaded(words, head, l)
    ensures head == First(l) && forall a | a in l :: a in words
    decreases |l|
  {
    if l != [] {
      ThreadedHas(words, words[l[0]], l[1..]);
    }
  }

  /** The alignment of the objects of a class. */
  function AlignOf(size: nat): nat {
    if size < 16 then 8 else 16
  }

  /** How a slab is laid out: sizes double from 8 to 2048, the objects begin at the first aligned place behind the
      header, and there are as many as there is room for. */
  lemma SlabLayout(c: nat)
    requires c < CLASSES
    ensures SizeOf(c) == 8 * Pow2(c)
    ensures Header(c) % AlignOf(SizeOf(c)) == 0 && SLAB_HEADER <= Header(c) < SLAB_HEADER + AlignOf(SizeOf(c))
    ensures Header(c) + TotalOf(c) * SizeOf(c) <= PAGE_SIZE < Header(c) + (TotalOf(c) + 1) * SizeOf(c)
  {
    assert Pow2(0) == 1 && Pow2(1) == 2 && Pow2(2) == 4 && Pow2(3) == 8 && Pow2(4) == 16;
    assert Pow2(5) == 32 && Pow2(6) == 64 && Pow2(7) == 128 && Pow2(8) == 256;
  }

  /** Every object of a slab is aligned. */
  lemma SlotAligned(f: nat, c: nat, a: nat)
    requires c < CLASSES && IsSlot(f, c, a)
    ensures a % AlignOf(SizeOf(c)) == 0
  {
    var i: nat :| i < TotalOf(c) && a == Slot(f, c, i);
    if c == 0 {
      PlaceOf8(f, i);
    } else {
      assert SizeOf(c) % 16 == 0;
      PlaceOf16(f, i, SizeOf(c));
    }
  }

  lemma PlaceOf8(f: nat, i: nat)
    ensures (f * PAGE_SIZE + 40 + i * 8) % 8 == 0
  {
  }

  lemma PlaceOf16(f: nat, i: nat, s: nat)
    requires s % 16 == 0
    ensures (f * PAGE_SIZE + 48 + i * s) % 16 == 0
  {
    MultipleOf16(i, s);
  }

  lemma MultipleOf16(k: nat, s: nat)
    requires s % 16 == 0
    ensures k * s % 16 == 0
  {
    var n := k * (s / 16);
    assert s == s / 16 * 16;
    assert k * s == n * 16;
  }

  /** Where an object lies, told by its size: aligned by 8 or 16 if small, behind the header of its block if large. */
  lemma ObjectAligned(h: Heap, live: map<nat, nat>, p: nat)
    requires HeapInv(h, live) && p in h.data
    ensures |h.data[p]| <= 2048 ==> p % AlignOf(|h.data[p]|) == 0
    ensures |h.data[p]| > 2048 ==> p % PAGE_SIZE == LARGE_HEADER && p / PAGE_SIZE in h.large && h.large[p / PAGE_SIZE].size == |h.data[p]|
  {
    var f: nat := p / PAGE_SIZE;
    assert Placed(h, p) && |h.data[p]| == Capacity(h, p);
    if f in h.slabs {
      assert f !in h.large && SlabOk(h, f);
      SlotAligned(f, h.slabs[f].cls, p);
    } else {
      assert LargeOk(h, f);
      assert p == f * PAGE_SIZE + LARGE_HEADER;
    }
  }

  // ---- the steps ----

  /** `slab_list_remove` */
  function Without(l: seq<nat>, f: nat): (r: seq<nat>) {
    if l == [] then [] else if l[0] == f then l[1..] else [l[0]] + Without(l[1..], f)
  }

  lemma {:induction false} WithoutMeans(l: seq<nat>, f: nat)
    requires Distinct(l)
    ensures Distinct(Without(l, f)) && forall g: nat :: g in Without(l, f) <==> g in l && g != f
  {
    if l != [] && l[0] != f {
      assert Distinct(l[1..]);
      WithoutMeans(l[1..], f);
      assert forall g: nat :: g in l <==> g == l[0] || g in l[1..];
      assert l[0] !in l[1..];
    } else if l != [] {
      assert forall g: nat :: g in l <==> g == l[0] || g in l[1..];
      assert l[0] !in l[1..];
    }
  }

  /** `slab_create`: a new page, its objects threaded in order. */
  function Created(h: Heap, f: nat, c: nat, words: map<nat, nat>): Heap
    requires c < CLASSES == |h.caches|
  {
    h.(slabs := h.slabs[f := Slab(c, Slot(f, c, 0), 0, TotalOf(c))], words := words,
       chains := h.chains[f := SlotsFrom(f, c, 0)],
       caches := h.caches[c := h.caches[c].(partial := [f] + h.caches[c].partial)])
  }

  /** The rest of `slab_alloc`: the first free object of the first slab on the partial list. */
  function Popped(h: Heap, c: nat, bytes: seq<byte>): Heap
    requires c < CLASSES == |h.caches| && h.caches[c].partial != []
    requires var f := h.caches[c].partial[0];
      f in h.slabs && f in h.chains && h.chains[f] != [] && h.chains[f][0] in h.words
  {
    var k := h.caches[c];
    var f := k.partial[0];
    var l, s := h.chains[f], h.slabs[f];
    h.(slabs := h.slabs[f := s.(freelist := h.words[l[0]], inuse := s.inuse + 1)], chains := h.chains[f := l[1..]],
       data := h.data[l[0] := bytes],
       caches := if |l| > 1 then h.caches else h.caches[c := Cache(k.partial[1..], [f] + k.full)])
  }

  /** `slab_free` */
  function Pushed(h: Heap, p: nat): Heap
    requires p / PAGE_SIZE in h.slabs && p / PAGE_SIZE in h.chains && h.slabs[p / PAGE_SIZE].cls < CLASSES == |h.caches|
    requires h.slabs[p / PAGE_SIZE].inuse > 0
  {
    var f: nat := p / PAGE_SIZE;
    var l, s := h.chains[f], h.slabs[f];
    var k := h.caches[s.cls];
    h.(slabs := h.slabs[f := s.(freelist := p, inuse := s.inuse - 1)], chains := h.chains[f := [p] + l],
       words := h.words[p := s.freelist], data := h.data - {p},
       caches := if l != [] then h.caches else h.caches[s.cls := Cache([f] + k.partial, Without(k.full, f))])
  }

  lemma FreshPage(h: Heap, live: map<nat, nat>, f: nat)
    requires HeapInv(h, live) && f !in live
    ensures f !in h.slabs && f !in h.large
    ensures forall p: nat | p in h.data :: p / PAGE_SIZE != f
  {
  }

  lemma CreatedKeeps(h: Heap, live: map<nat, nat>, live': map<nat, nat>, f: nat, c: nat, words: map<nat, nat>)
    requires HeapInv(h, live) && f > 0 && f !in live && c < CLASSES
    requires live' == live[f := 0]
    requires Threaded(words, Slot(f, c, 0), SlotsFrom(f, c, 0))
    requires forall a | a in h.words && a / PAGE_SIZE != f :: a in words && words[a] == h.words[a]
    ensures HeapInv(Created(h, f, c, words), live')
  {
    FreshPage(h, live, f);
    CreatedSlabs(h, live, f, c, words);
    CreatedObjects(h, live, f, c, words);
    CreatedCaches(h, live, f, c, words);
    hide CacheOk;
    hide SlabOk;
    hide Placed;
    hide Capacity;
    hide SlotsFrom;
    hide Slot;
    hide TotalOf;
    hide Threaded;
  }

  lemma CreatedCaches(h: Heap, live: map<nat, nat>, f: nat, c: nat, words: map<nat, nat>)
    requires HeapInv(h, live) && f !in h.slabs && c < CLASSES
    ensures forall b | 0 <= b < CLASSES :: CacheOk(Created(h, f, c, words), b)
  {
    forall b | 0 <= b < CLASSES
      ensures CacheOk(Created(h, f, c, words), b)
    {
      assert CacheOk(h, b) && CacheOk(h, c);
      CreatedCache(h, f, c, words, b);
    }
  }

  lemma CreatedSlabs(h: Heap, live: map<nat, nat>, f: nat, c: nat, words: map<nat, nat>)
    requires HeapInv(h, live) && f > 0 && f !in h.slabs && c < CLASSES
    requires Threaded(words, Slot(f, c, 0), SlotsFrom(f, c, 0))
    requires forall a | a in h.words && a / PAGE_SIZE != f :: a in words && words[a] == h.words[a]
    ensures forall g | g in Created(h, f, c, words).slabs :: SlabOk(Created(h, f, c, words), g)
  {
    var h' := Created(h, f, c, words);
    AllSlots(f, c);
    hide IsSlot;
    hide Slot;
    hide TotalOf;
    hide SizeOf;
    hide SlotsFrom;
    hide CacheOk;
    hide Placed;
    hide Capacity;
    forall g | g in h'.slabs
      ensures SlabOk(h', g)
    {
      if g != f {
        assert SlabOk(h, g);
        OtherSlab(h, h', g);
      }
    }
  }

  lemma CreatedCache(h: Heap, f: nat, c: nat, words: map<nat, nat>, b: nat)
    requires c < CLASSES == |h.caches| && b < CLASSES && CacheOk(h, b) && CacheOk(h, c) && f !in h.slabs
    ensures CacheOk(Created(h, f, c, words), b)
  {
    hide SlotsFrom;
    assert SlotsFrom(f, c, 0) != [] by {
      assert |SlotsFrom(f, c, 0)| == TotalOf(c);
    }
    hide TotalOf;
    hide Slot;
  }

  lemma CreatedObjects(h: Heap, live: map<nat, nat>, f: nat, c: nat, words: map<nat, nat>)
    requires HeapInv(h, live) && f !in live && c < CLASSES
    ensures var h' := Created(h, f, c, words);
      && (forall p: nat :: p in h'.data <==> Placed(h', p))
      && (forall p | p in h'.data :: |h'.data[p]| == Capacity(h', p))
  {
    FreshPage(h, live, f);
    AllSlots(f, c);
    hide CacheOk;
    hide SlabOk;
    hide SlotsFrom;
    hide TotalOf;
    hide Slot;
    var h' := Created(h, f, c, words);
    forall p: nat
      ensures p in h'.data <==> Placed(h', p)
    {
      assert p in h.data <==> Placed(h, p);
    }
  }

  lemma SlotFacts(f: nat, c: nat, a: nat)
    requires c < CLASSES && IsSlot(f, c, a)
    ensures a / PAGE_SIZE == f && a != 0 && f * PAGE_SIZE + Header(c) <= a && a + SizeOf(c) <= f * PAGE_SIZE + PAGE_SIZE
  {
    var i: nat :| i < TotalOf(c) && a == Slot(f, c, i);
    SlotInPage(f, c, i);
  }

  /** A slab whose own entries, and whose own words, are as before. */
  lemma OtherSlab(h: Heap, h': Heap, g: nat)
    requires g in h.slabs && SlabOk(h, g) && g in h'.slabs && h'.slabs[g] == h.slabs[g]
    requires g in h'.chains && g in h.chains && h'.chains[g] == h.chains[g]
    requires forall a | a in h.words && a / PAGE_SIZE == g :: a in h'.words && h'.words[a] == h.words[a]
    ensures SlabOk(h', g)
  {
    var s := h.slabs[g];
    ThreadedHas(h.words, s.freelist, h.chains[g]);
    forall a | a in h.chains[g]
      ensures a / PAGE_SIZE == g
    {
      SlotFacts(g, s.cls, a);
    }
    ThreadedElsewhere(h.words, h'.words, s.freelist, h.chains[g]);
  }

  lemma FirstOfChain(words: map<nat, nat>, head: nat, l: seq<nat>)
    requires Threaded(words, head, l) && l != []
    ensures head == l[0] && l[0] in words && words[l[0]] == First(l[1..])
  {
    ThreadedHas(words, words[l[0]], l[1..]);
  }

  lemma FirstPartial(h: Heap, live: map<nat, nat>, c: nat)
    requires HeapInv(h, live) && c < CLASSES && h.caches[c].partial != []
    ensures var f := h.caches[c].partial[0];
      && f in h.slabs && f in h.chains && h.chains[f] != [] && h.chains[f][0] in h.words && h.slabs[f].cls == c
      && SlabOk(h, f) && h.slabs[f].freelist == h.chains[f][0] && h.chains[f][0] != 0
      && h.chains[f][0] / PAGE_SIZE == f && h.chains[f][0] !in h.data && IsSlot(f, c, h.chains[f][0])
      && (h.words[h.chains[f][0]] == 0 <==> |h.chains[f]| == 1)
  {
    var f := h.caches[c].partial[0];
    assert CacheOk(h, c) && f in h.caches[c].partial;
    assert SlabOk(h, f);
    var l := h.chains[f];
    assert l[0] in l;
    assert l[0] in h.data <==> Placed(h, l[0]);
    SlotFacts(f, c, l[0]);
    FirstOfChain(h.words, h.slabs[f].freelist, l);
    if |l| > 1 {
      assert l[1] in l;
      SlotFacts(f, c, l[1]);
    }
    hide SlabOk;
    hide IsSlot;
    hide CacheOk;
  }

  lemma PoppedKeeps(h: Heap, live: map<nat, nat>, c: nat, bytes: seq<byte>)
    requires HeapInv(h, live) && c < CLASSES && h.caches[c].partial != [] && |bytes| == SizeOf(c)
    ensures var f := h.caches[c].partial[0];
      f in h.slabs && f in h.chains && h.chains[f] != [] && h.chains[f][0] in h.words
    ensures HeapInv(Popped(h, c, bytes), live)
  {
    FirstPartial(h, live, c);
    var h' := Popped(h, c, bytes);
    var f := h.caches[c].partial[0];
    var l := h.chains[f];
    PoppedSlabs(h, live, c, bytes);
    forall b | 0 <= b < CLASSES
      ensures CacheOk(h', b)
    {
      assert CacheOk(h, b);
      PoppedCaches(h, c, bytes, b);
    }
    PoppedObjects(h, live, c, bytes);
  }

  lemma PoppedSlabs(h: Heap, live: map<nat, nat>, c: nat, bytes: seq<byte>)
    requires HeapInv(h, live) && c < CLASSES && h.caches[c].partial != []
    requires var f := h.caches[c].partial[0];
      f in h.slabs && f in h.chains && h.chains[f] != [] && h.chains[f][0] in h.words
    ensures forall g | g in Popped(h, c, bytes).slabs :: SlabOk(Popped(h, c, bytes), g)
  {
    var h' := Popped(h, c, bytes);
    var f := h.caches[c].partial[0];
    forall g | g in h'.slabs
      ensures SlabOk(h', g)
    {
      assert SlabOk(h, g);
      if g == f {
        var l := h.chains[f];
        assert forall a | a in l[1..] :: a in l;
      } else {
        OtherSlab(h, h', g);
      }
    }
  }

  lemma RestDistinct(l: seq<nat>)
    requires Distinct(l) && l != []
    ensures Distinct(l[1..]) && forall g: nat :: g in l[1..] <==> g in l && g != l[0]
  {
    assert forall g: nat :: g in l <==> g == l[0] || g in l[1..];
  }

  lemma PoppedCaches(h: Heap, c: nat, bytes: seq<byte>, b: nat)
    requires c < CLASSES == |h.caches| && h.caches[c].partial != [] && b < CLASSES && CacheOk(h, b) && CacheOk(h, c)
    requires var f := h.caches[c].partial[0];
      f in h.slabs && f in h.chains && h.chains[f] != [] && h.chains[f][0] in h.words && h.slabs[f].cls == c
    ensures CacheOk(Popped(h, c, bytes), b)
  {
    var k := h.caches[c];
    var f := k.partial[0];
    var l := h.chains[f];
    RestDistinct(k.partial);
    var h' := Popped(h, c, bytes);
    assert forall g: nat :: g in h'.slabs <==> g in h.slabs;
    assert forall g: nat | g in h.slabs :: h'.slabs[g].cls == h.slabs[g].cls;
    if |l| > 1 {
      assert h'.caches == h.caches;
      assert forall g: nat | g in h.chains :: g in h'.chains && (h'.chains[g] == [] <==> h.chains[g] == []);
    } else {
      assert forall g: nat | g in h.chains && g != f :: g in h'.chains && h'.chains[g] == h.chains[g];
    }
  }

  lemma PoppedObjects(h: Heap, live: map<nat, nat>, c: nat, bytes: seq<byte>)
    requires HeapInv(h, live) && c < CLASSES && h.caches[c].partial != [] && |bytes| == SizeOf(c)
    requires var f := h.caches[c].partial[0];
      f in h.slabs && f in h.chains && h.chains[f] != [] && h.chains[f][0] in h.words
    ensures var h' := Popped(h, c, bytes);
      && (forall p: nat :: p in h'.data <==> Placed(h', p))
      && (forall p | p in h'.data :: |h'.data[p]| == Capacity(h', p))
  {
    FirstPartial(h, live, c);
    var h' := Popped(h, c, bytes);
    var f := h.caches[c].partial[0];
    var l := h.chains[f];
    assert SlabOk(h, f);
    forall p: nat
      ensures p in h'.data <==> Placed(h', p)
    {
      assert p in l <==> p == l[0] || p in l[1..];
      assert p in h.data <==> Placed(h, p);
    }
    forall p | p in h'.data
      ensures |h'.data[p]| == Capacity(h', p)
    {
      assert p != l[0] ==> p in h.data;
    }
  }

  lemma SlabObject(h: Heap, live: map<nat, nat>, p: nat)
    requires HeapInv(h, live) && p in h.data && p / PAGE_SIZE in h.slabs
    ensures var f: nat := p / PAGE_SIZE;
      && f in h.chains && h.slabs[f].cls < CLASSES && IsSlot(f, h.slabs[f].cls, p) && p !in h.chains[f] && p != 0
      && SlabOk(h, f) && h.slabs[f].inuse > 0 && CacheOk(h, h.slabs[f].cls)
      && (h.slabs[f].freelist == 0 && h.slabs[f].inuse == h.slabs[f].total <==> h.chains[f] == [])
  {
    var f: nat := p / PAGE_SIZE;
    assert Placed(h, p) && SlabOk(h, f);
    var s, l := h.slabs[f], h.chains[f];
    SlotFacts(f, s.cls, p);
    ThreadedHas(h.words, s.freelist, l);
    if l != [] {
      assert l[0] in l;
      SlotFacts(f, s.cls, l[0]);
    }
    if s.inuse == 0 {
      AllFree(f, s.cls, l, p);
    }
  }

  /** Not every object of a slab is free when one is not. */
  lemma AllFree(f: nat, c: nat, l: seq<nat>, p: nat)
    requires c < CLASSES && Distinct(l) && (forall a | a in l :: IsSlot(f, c, a)) && IsSlot(f, c, p) && p !in l
    ensures |l| < TotalOf(c)
  {
    AllSlots(f, c);
    var all := SlotsFrom(f, c, 0);
    var A, L := set a | a in all, set a | a in l;
    DistinctSize(all, A);
    DistinctSize(l, L);
    assert p in A && L <= A - {p};
    SubsetSize(L, A - {p});
  }

  lemma {:induction false} DistinctSize(l: seq<nat>, S: set<nat>)
    requires Distinct(l) && S == set a | a in l
    ensures |S| == |l|
  {
    if l != [] {
      var T := set a | a in l[1..];
      assert Distinct(l[1..]);
      DistinctSize(l[1..], T);
      assert l[0] !in T;
      assert S == T + {l[0]} by {
        assert forall a :: a in l <==> a == l[0] || a in l[1..];
      }
    }
  }

  lemma SubsetSize(a: set<nat>, b: set<nat>)
    requires a <= b
    ensures |a| <= |b|
  {
    assert b == a + (b - a);
  }

  lemma PushedKeeps(h: Heap, live: map<nat, nat>, p: nat)
    requires HeapInv(h, live) && p in h.data && p / PAGE_SIZE in h.slabs
    ensures var f: nat := p / PAGE_SIZE;
      f in h.chains && h.slabs[f].cls < CLASSES == |h.caches| && h.slabs[f].inuse > 0
    ensures HeapInv(Pushed(h, p), live)
  {
    SlabObject(h, live, p);
    PushedSlabs(h, live, p);
    PushedObjects(h, live, p);
    AllPushedCaches(h, live, p);
    hide CacheOk;
    hide SlabOk;
    hide Placed;
    hide Capacity;
    hide IsSlot;
    hide Distinct;
    hide Threaded;
  }

  lemma AllPushedCaches(h: Heap, live: map<nat, nat>, p: nat)
    requires HeapInv(h, live) && p in h.data && p / PAGE_SIZE in h.slabs
    ensures var f: nat := p / PAGE_SIZE;
      f in h.chains && h.slabs[f].cls < CLASSES == |h.caches| && h.slabs[f].inuse > 0
    ensures forall b | 0 <= b < CLASSES :: CacheOk(Pushed(h, p), b)
  {
    SlabObject(h, live, p);
    forall b | 0 <= b < CLASSES
      ensures CacheOk(Pushed(h, p), b)
    {
      assert CacheOk(h, b);
      PushedCaches(h, p, b);
    }
  }

  lemma PushedSlabs(h: Heap, live: map<nat, nat>, p: nat)
    requires HeapInv(h, live) && p in h.data && p / PAGE_SIZE in h.slabs
    requires var f: nat := p / PAGE_SIZE;
      f in h.chains && h.slabs[f].cls < CLASSES == |h.caches| && h.slabs[f].inuse > 0
    ensures forall g | g in Pushed(h, p).slabs :: SlabOk(Pushed(h, p), g)
  {
    SlabObject(h, live, p);
    var h' := Pushed(h, p);
    hide CacheOk;
    hide Placed;
    hide Capacity;
    hide IsSlot;
    PushedSlab(h, p);
    forall g | g in h'.slabs
      ensures SlabOk(h', g)
    {
      if g != p / PAGE_SIZE {
        assert SlabOk(h, g);
        hide SlabOk;
        OtherSlab(h, h', g);
      }
    }
  }

  /** The slab that the object goes back to. */
  lemma PushedSlab(h: Heap, p: nat)
    requires var f: nat := p / PAGE_SIZE;
      && f in h.slabs && f in h.chains && SlabOk(h, f) && h.slabs[f].cls < CLASSES == |h.caches| && h.slabs[f].inuse > 0
      && IsSlot(f, h.slabs[f].cls, p) && p !in h.chains[f]
    ensures SlabOk(Pushed(h, p), p / PAGE_SIZE)
  {
    var h' := Pushed(h, p);
    var f: nat := p / PAGE_SIZE;
    var l := h.chains[f];
    hide IsSlot;
    ThreadedHas(h.words, h.slabs[f].freelist, l);
    ThreadedElsewhere(h.words, h'.words, h.slabs[f].freelist, l);
    assert ([p] + l)[1..] == l;
  }

  lemma PushedCaches(h: Heap, p: nat, b: nat)
    requires p / PAGE_SIZE in h.slabs && p / PAGE_SIZE in h.chains && h.slabs[p / PAGE_SIZE].cls < CLASSES == |h.caches|
    requires h.slabs[p / PAGE_SIZE].inuse > 0 && b < CLASSES && CacheOk(h, b) && CacheOk(h, h.slabs[p / PAGE_SIZE].cls)
    ensures CacheOk(Pushed(h, p), b)
  {
    var f: nat := p / PAGE_SIZE;
    var c := h.slabs[f].cls;
    WithoutMeans(h.caches[c].full, f);
    var h' := Pushed(h, p);
    assert forall g: nat :: g in h'.slabs <==> g in h.slabs;
    assert forall g: nat | g in h.slabs :: h'.slabs[g].cls == h.slabs[g].cls;
    assert forall g: nat | g in h.chains && g != f :: g in h'.chains && h'.chains[g] == h.chains[g];
  }

  lemma PushedObjects(h: Heap, live: map<nat, nat>, p: nat)
    requires HeapInv(h, live) && p in h.data && p / PAGE_SIZE in h.slabs
    requires var f: nat := p / PAGE_SIZE;
      f in h.chains && h.slabs[f].cls < CLASSES == |h.caches| && h.slabs[f].inuse > 0
    ensures var h' := Pushed(h, p);
      && (forall q: nat :: q in h'.data <==> Placed(h', q))
      && (forall q | q in h'.data :: |h'.data[q]| == Capacity(h', q))
  {
    hide CacheOk;
    hide SlabOk;
    var h' := Pushed(h, p);
    var f: nat := p / PAGE_SIZE;
    forall q: nat
      ensures q in h'.data <==> Placed(h', q)
    {
      assert q in [p] + h.chains[f] <==> q == p || q in h.chains[f];
      assert q in h.data <==> Placed(h, q);
    }
  }

  // ---- large blocks ----

  function LargeAdded(h: Heap, f: nat, size: nat, order: nat, bytes: seq<byte>): Heap {
    h.(large := h.large[f := Large(size, order)], data := h.data[f * PAGE_SIZE + LARGE_HEADER := bytes])
  }

  function LargeRemoved(h: Heap, p: nat): Heap {
    h.(large := h.large - {p / PAGE_SIZE}, data := h.data - {p})
  }

  lemma LargeAddedKeeps(h: Heap, live: map<nat, nat>, live': map<nat, nat>, f: nat, size: nat, order: nat, bytes: seq<byte>)
    requires HeapInv(h, live) && f > 0 && f !in live && live' == live[f := order] && |bytes| == size > 2048
    requires size + LARGE_HEADER <= PAGE_SIZE * Pow2(order)
    ensures HeapInv(LargeAdded(h, f, size, order, bytes), live')
  {
    hide CacheOk;
    hide SlabOk;
    hide IsSlot;
    hide Pow2;
    FreshPage(h, live, f);
    SameSlabs(h, LargeAdded(h, f, size, order, bytes));
    assert (f * PAGE_SIZE + LARGE_HEADER) / PAGE_SIZE == f;
    assert forall p: nat :: p in h.data <==> Placed(h, p);
    LargeAddedObjects(h, f, size, order, bytes);
    hide Placed;
    hide Capacity;
  }

  lemma LargeAddedObjects(h: Heap, f: nat, size: nat, order: nat, bytes: seq<byte>)
    requires f !in h.slabs && f !in h.large && |bytes| == size && forall p: nat :: p in h.data <==> Placed(h, p)
    requires (f * PAGE_SIZE + LARGE_HEADER) / PAGE_SIZE == f && forall p | p in h.data :: |h.data[p]| == Capacity(h, p)
    ensures var h' := LargeAdded(h, f, size, order, bytes);
      && (forall p: nat :: p in h'.data <==> Placed(h', p)) && (forall p | p in h'.data :: |h'.data[p]| == Capacity(h', p))
  {
    hide IsSlot;
    var h' := LargeAdded(h, f, size, order, bytes);
    forall p: nat
      ensures p in h'.data <==> Placed(h', p)
    {
      assert p in h.data <==> Placed(h, p);
    }
  }

  lemma LargeRemovedKeeps(h: Heap, live: map<nat, nat>, live': map<nat, nat>, p: nat)
    requires HeapInv(h, live) && p in h.data && p / PAGE_SIZE in h.large && live' == live - {p / PAGE_SIZE}
    ensures HeapInv(LargeRemoved(h, p), live') && p == (p / PAGE_SIZE) * PAGE_SIZE + LARGE_HEADER
  {
    hide CacheOk;
    hide SlabOk;
    hide IsSlot;
    hide Pow2;
    assert Placed(h, p);
    SameSlabs(h, LargeRemoved(h, p));
    LargeRemovedObjects(h, p);
    hide Placed;
    hide Capacity;
  }

  lemma LargeRemovedObjects(h: Heap, p: nat)
    requires p / PAGE_SIZE in h.large && p / PAGE_SIZE !in h.slabs && forall q: nat :: q in h.data <==> Placed(h, q)
    requires p in h.data && forall q | q in h.data :: |h.data[q]| == Capacity(h, q)
    ensures var h' := LargeRemoved(h, p);
      && (forall q: nat :: q in h'.data <==> Placed(h', q)) && (forall q | q in h'.data :: |h'.data[q]| == Capacity(h', q))
  {
    hide IsSlot;
    assert Placed(h, p);
    var h' := LargeRemoved(h, p);
    forall q: nat
      ensures q in h'.data <==> Placed(h', q)
    {
      assert q in h.data <==> Placed(h, q);
    }
  }

  lemma SameSlabs(h: Heap, h': Heap)
    requires h'.slabs == h.slabs && h'.chains == h.chains && h'.words == h.words && h'.caches == h.caches
    ensures forall f | f in h.slabs && SlabOk(h, f) :: SlabOk(h', f)
    ensures forall c | 0 <= c < |h.caches| && CacheOk(h, c) :: CacheOk(h', c)
  {
  }

  // ---- what the invariant means ----

  /** The frames of an object's block. */
  predicate OwnsFrame(live: map<nat, nat>, f: nat, g: nat) {
    f in live && f <= g < f + Pow2(live[f])
  }

  /** No two allocated blocks of the page allocator share a frame. */
  ghost predicate BlocksApart(live: map<nat, nat>) {
    forall f, f', g :: OwnsFrame(live, f, g) && OwnsFrame(live, f', g) ==> f == f'
  }

  /** Allocated objects lie inside their blocks, behind the header. */
  lemma ObjectInBlock(h: Heap, live: map<nat, nat>, p: nat)
    requires HeapInv(h, live) && p in h.data
    ensures var f: nat := p / PAGE_SIZE;
      && f in live && p + Capacity(h, p) <= (f + Pow2(live[f])) * PAGE_SIZE
      && p >= f * PAGE_SIZE + (if f in h.slabs then SLAB_HEADER else LARGE_HEADER)
  {
    assert Placed(h, p);
    var f: nat := p / PAGE_SIZE;
    if f in h.slabs {
      SlotFacts(f, h.slabs[f].cls, p);
    } else {
      assert LargeOk(h, f);
      assert (f + Pow2(live[f])) * PAGE_SIZE == f * PAGE_SIZE + PAGE_SIZE * Pow2(live[f]);
    }
  }

  /** Allocated objects do not overlap. */
  lemma ObjectsApart(h: Heap, live: map<nat, nat>, p: nat, q: nat)
    requires HeapInv(h, live) && BlocksApart(live) && p in h.data && q in h.data && p < q
    ensures p + Capacity(h, p) <= q
  {
    var f: nat, g: nat := p / PAGE_SIZE, q / PAGE_SIZE;
    ObjectInBlock(h, live, p);
    assert Placed(h, p) && Placed(h, q);
    if f == g {
      if f in h.slabs {
        var c := h.slabs[f].cls;
        TwoSlots(f, c, p, q);
      }
    } else {
      assert f < g;
      if g < f + Pow2(live[f]) {
        ObjectInBlock(h, live, q);
        Pow2Positive(live[g]);
        assert OwnsFrame(live, f, g) && OwnsFrame(live, g, g);
      } else {
        assert (f + Pow2(live[f])) * PAGE_SIZE <= g * PAGE_SIZE;
      }
    }
  }

  lemma Pow2Positive(o: nat)
    ensures Pow2(o) >= 1
  {
  }

  lemma TwoSlots(f: nat, c: nat, p: nat, q: nat)
    requires c < CLASSES && IsSlot(f, c, p) && IsSlot(f, c, q) && p < q
    ensures p + SizeOf(c) <= q
  {
    var i: nat :| i < TotalOf(c) && p == Slot(f, c, i);
    var j: nat :| j < TotalOf(c) && q == Slot(f, c, j);
    if j <= i {
      if j < i {
        SlotsApart(f, c, j, i);
      }
      assert false;
    }
    SlotsApart(f, c, i, j);
  }

  /** Allocated objects do not overlap the words that link the free objects. */
  lemma ObjectApartFromFree(h: Heap, live: map<nat, nat>, p: nat, g: nat, a: nat)
    requires HeapInv(h, live) && BlocksApart(live) && p in h.data && g in h.slabs && g in h.chains && a in h.chains[g]
    ensures p + Capacity(h, p) <= a || a + 8 <= p
  {
    var f: nat := p / PAGE_SIZE;
    ObjectInBlock(h, live, p);
    assert Placed(h, p) && SlabOk(h, g);
    SlotFacts(g, h.slabs[g].cls, a);
    if f == g {
      var c := h.slabs[f].cls;
      if p < a {
        TwoSlots(f, c, p, a);
      } else {
        TwoSlots(f, c, a, p);
      }
    } else if f < g {
      if g < f + Pow2(live[f]) {
        Pow2Positive(live[g]);
        assert OwnsFrame(live, f, g) && OwnsFrame(live, g, g);
        assert false;
      }
      assert (f + Pow2(live[f])) * PAGE_SIZE <= g * PAGE_SIZE;
    }
  }

  // ---- the order of a large block ----

  /** `PAGE_SIZE << order` in 32 bits; the processor takes the shift count modulo 32. */
  function Shifted(order: nat): nat {
    (PAGE_SIZE * Pow2(order % 32)) % 0x1_0000_0000
  }

  lemma SmallPowers()
    ensures Pow2(0) == 1 && Pow2(10) == 0x400 && Pow2(19) == 0x8_0000 && Pow2(20) == 0x10_0000
  {
    assert Pow2(4) == 16 && Pow2(8) == 256 && Pow2(10) == 0x400;
    assert Pow2(12) == 4096 && Pow2(16) == 0x1_0000 && Pow2(19) == 0x8_0000;
  }

  lemma ShiftedSmall(o: nat)
    requires o < 20
    ensures Shifted(o) == PAGE_SIZE * Pow2(o) <= 0x8000_0000
  {
    Pow2Grows(o, 19);
    SmallPowers();
    hide Pow2;
    assert o % 32 == o;
    NoOverflow(Pow2(o));
  }

  lemma ShiftEnds()
    ensures Shifted(19) == 0x8000_0000
  {
    SmallPowers();
    ShiftedSmall(19);
  }

  lemma NoOverflow(q: nat)
    requires q <= 0x8_0000
    ensures (PAGE_SIZE * q) % 0x1_0000_0000 == PAGE_SIZE * q <= 0x8000_0000
  {
  }

  lemma ShiftedLarge(o: nat)
    requires 20 <= o < 32
    ensures Shifted(o) == 0
  {
    Pow2Sum(o - 20, 20);
    SmallPowers();
    hide Pow2;
    assert o % 32 == o;
    WholeMultiple(Pow2(o - 20));
  }

  lemma WholeMultiple(k: nat)
    ensures (k * 0x1_0000_0000) % 0x1_0000_0000 == 0 && PAGE_SIZE * (k * 0x10_0000) == k * 0x1_0000_0000
  {
  }

  lemma {:induction false} Pow2Sum(a: nat, b: nat)
    ensures Pow2(a + b) == Pow2(a) * Pow2(b)
  {
    if a > 0 {
      Pow2Sum(a - 1, b);
    }
  }

  lemma {:induction false} Pow2Grows(a: nat, b: nat)
    requires a <= b
    ensures Pow2(a) <= Pow2(b)
    decreases b - a
  {
    if a < b {
      Pow2Grows(a, b - 1);
    }
  }

  /** The search for an order ends exactly when the size and its header need no more than 2^31 bytes. */
  lemma OrderSearchEnds(total: nat)
    ensures (exists o: nat :: Shifted(o) >= total) <==> total <= 0x8000_0000
  {
    ShiftedSmall(19);
    SmallPowers();
    forall o: nat
      ensures Shifted(o) <= 0x8000_0000
    {
      ShiftRepeats(o);
      if o % 32 < 20 {
        ShiftedSmall(o % 32);
      } else {
        ShiftedLarge(o % 32);
      }
    }
    hide Shifted;
    hide Pow2;
    assert Shifted(19) == 0x8000_0000;
  }

  lemma ShiftRepeats(o: nat)
    ensures Shifted(o) == Shifted(o % 32)
  {
    assert (o % 32) % 32 == o % 32;
  }

  /** One total for which it does not end. */
  lemma OrderSearchRunsOn()
    ensures forall o: nat :: Shifted(o) < 0x8000_0001
  {
    OrderSearchEnds(0x8000_0001);
  }

  const WORDS: nat := 0x1_0000_0000_0000_0000

  /** `size + sizeof(large_hdr_t)` in 64 bits. */
  function TotalOfSize(size: nat): nat {
    (size + LARGE_HEADER) % WORDS
  }

  /** In terms of the size asked for, the search ends in two cases: the total fits in 2^31, or it has wrapped. */
  lemma OrderSearchBySize(size: nat)
    requires size < WORDS
    ensures (exists o: nat :: Shifted(o) >= TotalOfSize(size)) <==>
      size + LARGE_HEADER <= 0x8000_0000 || size >= WORDS - LARGE_HEADER
  {
    OrderSearchEnds(TotalOfSize(size));
    hide Shifted;
  }

  /** When it has wrapped, the search is content with one page, which is smaller than the object. */
  lemma OrderSearchWraps(size: nat)
    requires WORDS - LARGE_HEADER <= size < WORDS
    ensures Shifted(0) >= TotalOfSize(size) && Shifted(0) == PAGE_SIZE * Pow2(0) < size
  {
    ShiftedSmall(0);
    assert Pow2(0) == 1;
    hide Shifted;
  }
}
