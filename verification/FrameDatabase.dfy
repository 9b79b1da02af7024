/** The page database at boot (kernel/src/mm/pfndb.c:39-78, 100-130): how many frames it describes, where it is
    stored, and that the allocator gets all other usable frames and never its storage.  */
module FrameDatabase {
  import opened Common
  import opened Pmm

  /** An entry of the boot loader's memory map. */
  datatype Region = Region(usable: bool, base: nat, length: nat)

  const ENTRY_SIZE: nat := 64   // sizeof(page_t)

  /** What the boot loader promises of usable memory: whole pages, no two regions of which overlap. */
  predicate WellFormed(m: seq<Region>) {
    && (forall k | 0 <= k < |m| && m[k].usable :: PageAligned(m[k].base) && PageAligned(m[k].length))
    && forall j, k | 0 <= j < k < |m| && m[j].usable && m[k].usable :: Apart(m[j], m[k])
  }

  predicate Apart(a: Region, b: Region) {
    a.base + a.length <= b.base || b.base + b.length <= a.base || a.length == 0 || b.length == 0
  }

  /** Some usable region holds the whole frame. */
  ghost predicate Holds(m: seq<Region>, f: nat) {
    exists k :: 0 <= k < |m| && m[k].usable && Covers(m[k], f)
  }

  predicate Covers(r: Region, f: nat) {
    r.base <= f * PAGE_SIZE < r.base + r.length
  }

  function PagesFor(bytes: nat): nat {
    (bytes + PAGE_SIZE - 1) / PAGE_SIZE
  }

  /** The least number of pages with room. */
  lemma PagesForIsLeast(bytes: nat, n: nat)
    ensures bytes <= PagesFor(bytes) * PAGE_SIZE
    ensures bytes <= n * PAGE_SIZE ==> PagesFor(bytes) <= n
  {
  }

  /** `calc_max_pfn`: the least frame number such that all usable memory ends at or below that frame. */
  method CalcMaxPfn(m: seq<Region>) returns (maxPfn: nat)
    ensures forall k | 0 <= k < |m| && m[k].usable :: m[k].base + m[k].length <= maxPfn * PAGE_SIZE
    ensures maxPfn > 0 ==>
      exists k :: 0 <= k < |m| && m[k].usable && m[k].base + m[k].length > (maxPfn - 1) * PAGE_SIZE
  {
    maxPfn := 0;
    for i := 0 to |m|
      invariant forall k | 0 <= k < i && m[k].usable :: m[k].base + m[k].length <= maxPfn * PAGE_SIZE
      invariant maxPfn > 0 ==>
        exists k :: 0 <= k < |m| && m[k].usable && m[k].base + m[k].length > (maxPfn - 1) * PAGE_SIZE
    {
      if m[i].usable {
        var endPfn := PagesFor(m[i].base + m[i].length);
        PagesForIsLeast(m[i].base + m[i].length, endPfn);
        if endPfn > maxPfn {
          PagesForIsLeast(m[i].base + m[i].length, endPfn - 1);
          maxPfn := endPfn;
        }
      }
    }
  }

  /** `reserve_pfndb_storage`: whole pages from the front of the first usable region with room; a panic without one. */
  method ReserveStorage(m: seq<Region>, maxPfn: nat) returns (r: Outcome, phys: nat, pages: nat, rest: seq<Region>)
    ensures (maxPfn + 1) * 64 <= pages * PAGE_SIZE < (maxPfn + 1) * 64 + PAGE_SIZE
    ensures r == Panic <==> forall k | 0 <= k < |m| && m[k].usable :: m[k].length < pages * PAGE_SIZE
    ensures r == Done ==> exists k :: FirstFit(m, pages * PAGE_SIZE, k) && Taken(m, rest, phys, pages * PAGE_SIZE, k)
  {
    pages := PagesFor((maxPfn + 1) * ENTRY_SIZE);
    var size := pages * PAGE_SIZE;
    phys, rest := 0, m;
    for i := 0 to |m|
      invariant forall k | 0 <= k < i && m[k].usable :: m[k].length < size
    {
      if m[i].usable && m[i].length >= size {
        phys := m[i].base;
        rest := m[i := Region(true, m[i].base + size, m[i].length - size)];
        assert FirstFit(m, size, i) && Taken(m, rest, phys, size, i);
        return Done, phys, pages, rest;
      }
    }
    return Panic, phys, pages, rest;
  }

  predicate FirstFit(m: seq<Region>, size: nat, k: int) {
    && 0 <= k < |m| && m[k].usable && m[k].length >= size
    && forall j | 0 <= j < k && m[j].usable :: m[j].length < size
  }

  predicate Taken(m: seq<Region>, rest: seq<Region>, phys: nat, size: nat, k: int) {
    && 0 <= k < |m| == |rest| && phys == m[k].base && m[k].length >= size
    && rest == m[k := Region(true, m[k].base + size, m[k].length - size)]
  }

  /** The usable regions as ranges of bytes. */
  function Ranges(m: seq<Region>): seq<(nat, nat)> {
    if m == [] then []
    else Ranges(m[..|m| - 1]) + (if m[|m| - 1].usable then [(m[|m| - 1].base, m[|m| - 1].length)] else [])
  }

  lemma {:induction false} RangesAre(m: seq<Region>, x: (nat, nat))
    ensures x in Ranges(m) <==> exists k :: 0 <= k < |m| && m[k].usable && (m[k].base, m[k].length) == x
  {
    if m != [] {
      var n := |m| - 1;
      RangesAre(m[..n], x);
      if x in Ranges(m[..n]) {
        var k :| 0 <= k < n && m[..n][k].usable && (m[..n][k].base, m[..n][k].length) == x;
        assert m[k].usable;
      }
      forall k | 0 <= k < |m| && m[k].usable && (m[k].base, m[k].length) == x
        ensures x in Ranges(m)
      {
        assert k < n ==> m[..n][k] == m[k];
      }
    }
  }

  lemma TouchedAligned(base: nat, length: nat, f: nat)
    requires PageAligned(base) && PageAligned(length)
    ensures Touched(base, length, f) <==> base <= f * PAGE_SIZE < base + length
  {
    TouchedFrames(base, length, f);
    hide Touched;
    var b, n := base / PAGE_SIZE, length / PAGE_SIZE;
    assert base == b * PAGE_SIZE && length == n * PAGE_SIZE;
    assert (base + length + PAGE_SIZE - 1) / PAGE_SIZE == b + n;
  }

  /** Of whole pages, a frame is touched exactly if it is held. */
  lemma {:induction false} UsableIsHeld(m: seq<Region>, f: nat)
    requires forall k | 0 <= k < |m| && m[k].usable :: PageAligned(m[k].base) && PageAligned(m[k].length)
    ensures Usable(Ranges(m), f) <==> Holds(m, f)
  {
    if Usable(Ranges(m), f) {
      var i :| 0 <= i < |Ranges(m)| && Touched(Ranges(m)[i].0, Ranges(m)[i].1, f);
      RangesAre(m, Ranges(m)[i]);
      var k :| 0 <= k < |m| && m[k].usable && (m[k].base, m[k].length) == Ranges(m)[i];
      TouchedAligned(m[k].base, m[k].length, f);
      assert Covers(m[k], f);
    }
    if Holds(m, f) {
      var k :| 0 <= k < |m| && m[k].usable && Covers(m[k], f);
      TouchedAligned(m[k].base, m[k].length, f);
      RangesAre(m, (m[k].base, m[k].length));
      var i :| 0 <= i < |Ranges(m)| && Ranges(m)[i] == (m[k].base, m[k].length);
    }
  }

  /** What is left holds the frames that the map holds, without those of the storage. */
  lemma HeldAfter(m: seq<Region>, rest: seq<Region>, phys: nat, size: nat, k: int, f: nat)
    requires WellFormed(m) && Taken(m, rest, phys, size, k) && m[k].usable && PageAligned(size)
    ensures forall j | 0 <= j < |rest| && rest[j].usable :: PageAligned(rest[j].base) && PageAligned(rest[j].length)
    ensures Holds(rest, f) <==> Holds(m, f) && !(phys <= f * PAGE_SIZE < phys + size)
  {
    if Holds(rest, f) {
      var j :| 0 <= j < |rest| && rest[j].usable && Covers(rest[j], f);
      assert m[j].usable && Covers(m[j], f);
      if j != k {
        assert Apart(m[if j < k then j else k], m[if j < k then k else j]);
      }
    }
    if Holds(m, f) && !(phys <= f * PAGE_SIZE < phys + size) {
      var j :| 0 <= j < |m| && m[j].usable && Covers(m[j], f);
      assert rest[j].usable && Covers(rest[j], f);
    }
  }

  /** `pfndb_init` and `pmm_init`: the allocator manages exactly the frames of the usable regions that the
      database itself does not lie in; every one of them has its entry in the database. */
  method Boot(m: seq<Region>) returns (r: Outcome, pmm: PageAllocator?, phys: nat, pages: nat)
    ensures r == Done <==> pmm != null
    ensures r == Done ==>
      && fresh(pmm) && pmm.Valid() && pmm.live == map[] && pmm.mem.Length * 64 <= pages * PAGE_SIZE
      && forall f | f in pmm.free :: f < pmm.mem.Length
    ensures r == Done && WellFormed(m) ==>
      forall f: nat :: f in pmm.free <==> Holds(m, f) && !(phys <= f * PAGE_SIZE < phys + pages * PAGE_SIZE)
    ensures r == Done && WellFormed(m) ==> forall f: nat | phys <= f * PAGE_SIZE < phys + pages * PAGE_SIZE :: Holds(m, f)
  {
    hide Holds;
    hide WellFormed;
    hide FirstFit;
    hide Taken;
    hide Touched;
    hide Ranges;
    hide PageAllocator.Valid;
    var maxPfn := CalcMaxPfn(m);
    var rest;
    r, phys, pages, rest := ReserveStorage(m, maxPfn);
    if r == Panic {
      return Panic, null, phys, pages;
    }
    ghost var size := pages * PAGE_SIZE;
    ghost var k :| FirstFit(m, size, k) && Taken(m, rest, phys, size, k);
    pmm := new PageAllocator(maxPfn, Ranges(rest));
    if WellFormed(m) {
      BootFrames(m, rest, maxPfn, phys, size, k, pmm.free);
    }
  }

  lemma BootFrames(m: seq<Region>, rest: seq<Region>, maxPfn: nat, phys: nat, size: nat, k: int, free: set<nat>)
    requires WellFormed(m) && FirstFit(m, size, k) && Taken(m, rest, phys, size, k) && PageAligned(size)
    requires forall j | 0 <= j < |m| && m[j].usable :: m[j].base + m[j].length <= maxPfn * PAGE_SIZE
    requires free == UsableFrames(maxPfn, Ranges(rest))
    ensures forall f: nat :: f in free <==> Holds(m, f) && !(phys <= f * PAGE_SIZE < phys + size)
    ensures forall f: nat | phys <= f * PAGE_SIZE < phys + size :: Holds(m, f)
  {
    hide Touched;
    hide WellFormed;
    forall f: nat
      ensures f in free <==> Holds(m, f) && !(phys <= f * PAGE_SIZE < phys + size)
    {
      HeldAfter(m, rest, phys, size, k, f);
      UsableIsHeld(rest, f);
      if Holds(m, f) {
        HeldIsDescribed(m, maxPfn, f);
      }
    }
    forall f: nat | phys <= f * PAGE_SIZE < phys + size
      ensures Holds(m, f)
    {
      assert Covers(m[k], f);
    }
  }

  lemma HeldIsDescribed(m: seq<Region>, maxPfn: nat, f: nat)
    requires forall k | 0 <= k < |m| && m[k].usable :: m[k].base + m[k].length <= maxPfn * PAGE_SIZE
    requires Holds(m, f)
    ensures f < maxPfn
  {
    var k :| 0 <= k < |m| && m[k].usable && Covers(m[k], f);
    assert f * PAGE_SIZE < maxPfn * PAGE_SIZE;
  }
}
