/** The list of virtual address descriptors of a space (kernel/src/mm/vmm.c:32-115, 364-402, 578-589). */
module Vad {
  import opened Common
  import opened PageTree

  const USER_START: nat := 0x1000
  const USER_END: nat := 0x7FFF_FFFF_FFFF

  /** A page-table bit that the descriptor grants, or a property of the descriptor itself. */
  datatype VFlag = Bit(flag: PFlag) | Anonymous | Fixed | Mapped | Shared

  datatype Vad = Vad(start: nat, end: nat, flags: set<VFlag>)

  function ProtBits(flags: set<VFlag>): set<PFlag> {
    set p: PFlag | Bit(p) in flags
  }

  function AlignDown(x: nat): nat {
    x - x % PAGE_SIZE
  }

  function AlignUp(x: nat): nat {
    AlignDown(x + PAGE_SIZE - 1)
  }

  /** Rounding up gives the least aligned address that is not below. */
  lemma AlignUpIsLeast(x: nat, b: nat)
    ensures PageAligned(AlignUp(x)) && x <= AlignUp(x) < x + PAGE_SIZE
    ensures PageAligned(b) && x <= b ==> AlignUp(x) <= b
    ensures PageAligned(AlignDown(x)) && AlignDown(x) <= x < AlignDown(x) + PAGE_SIZE
  {
  }

  /** In address order, not empty and pairwise disjoint. */
  predicate Sorted(list: seq<Vad>) {
    && (forall i | 0 <= i < |list| :: list[i].start < list[i].end)
    && (forall i, j | 0 <= i < j < |list| :: list[i].end <= list[j].start)
  }

  predicate AllAligned(list: seq<Vad>) {
    forall i | 0 <= i < |list| :: PageAligned(list[i].start) && PageAligned(list[i].end)
  }

  predicate Contains(vad: Vad, a: nat) {
    vad.start <= a < vad.end
  }

  /** What the list says about address `a`: the meaning of the list. */
  function FlagsAt(list: seq<Vad>, a: nat): Option<set<VFlag>> {
    if list == [] then None
    else if Contains(list[0], a) then Some(list[0].flags)
    else FlagsAt(list[1..], a)
  }

  lemma {:induction false} FlagsOfConcat(l: seq<Vad>, m: seq<Vad>, a: nat)
    ensures FlagsAt(l + m, a) == if FlagsAt(l, a).Some? then FlagsAt(l, a) else FlagsAt(m, a)
  {
    if l == [] {
      assert l + m == m;
    } else {
      FlagsOfConcat(l[1..], m, a);
      assert (l + m)[1..] == l[1..] + m;
    }
  }

  lemma FlagsOfOne(vad: Vad, a: nat)
    ensures FlagsAt([vad], a) == if Contains(vad, a) then Some(vad.flags) else None
  {
  }

  /** An address is described exactly when a descriptor contains it, and then by that descriptor. */
  lemma {:induction false} FlagsMeanVad(list: seq<Vad>, a: nat)
    requires Sorted(list)
    ensures FlagsAt(list, a).None? ==> forall i | 0 <= i < |list| :: !Contains(list[i], a)
    ensures forall i | 0 <= i < |list| && Contains(list[i], a) :: FlagsAt(list, a) == Some(list[i].flags)
  {
    if list != [] {
      FlagsMeanVad(list[1..], a);
      forall i | 0 <= i < |list| && Contains(list[i], a)
        ensures FlagsAt(list, a) == Some(list[i].flags)
      {
        assert i > 0 ==> list[i] == list[1..][i - 1];
      }
      if FlagsAt(list, a).None? {
        forall i | 0 <= i < |list|
          ensures !Contains(list[i], a)
        {
          assert i > 0 ==> list[i] == list[1..][i - 1];
        }
      }
    }
  }

  /** What the list says about the page of an address is what the descriptor says that contains the address. */
  lemma PageFlags(list: seq<Vad>, addr: nat)
    requires Sorted(list) && AllAligned(list)
    ensures forall i | 0 <= i < |list| && list[i].start <= addr < list[i].end ::
      FlagsAt(list, AlignDown(addr)) == Some(list[i].flags)
    ensures FlagsAt(list, AlignDown(addr)).Some? ==> exists i :: 0 <= i < |list| && list[i].start <= addr < list[i].end
  {
    var a := AlignDown(addr);
    FlagsMeanVad(list, a);
    forall i | 0 <= i < |list|
      ensures Contains(list[i], a) <==> list[i].start <= addr < list[i].end
    {
      PageWithin(list[i].start, addr);
      PageWithin(list[i].end, addr);
    }
    SomeIsContained(list, a);
  }

  lemma PageWithin(b: nat, addr: nat)
    requires PageAligned(b)
    ensures b <= AlignDown(addr) <==> b <= addr
  {
    assert b == b / PAGE_SIZE * PAGE_SIZE && AlignDown(addr) == addr / PAGE_SIZE * PAGE_SIZE;
  }

  predicate Disjoint(vad: Vad, start: nat, end: nat) {
    vad.end <= start || end <= vad.start
  }

  /** No descriptor meets the interval. */
  predicate FreeRange(list: seq<Vad>, start: nat, end: nat) {
    forall i | 0 <= i < |list| :: Disjoint(list[i], start, end)
  }

  ghost predicate NoneDescribed(list: seq<Vad>, start: nat, end: nat) {
    forall a: nat | start <= a < end :: FlagsAt(list, a).None?
  }

  /** A free range is one without a described address. */
  lemma FreeRangeMeans(list: seq<Vad>, start: nat, end: nat)
    requires Sorted(list) && start < end
    ensures FreeRange(list, start, end) <==> NoneDescribed(list, start, end)
  {
    if FreeRange(list, start, end) {
      forall a: nat | start <= a < end
        ensures FlagsAt(list, a).None?
      {
        SomeIsContained(list, a);
      }
    } else {
      var i :| 0 <= i < |list| && !Disjoint(list[i], start, end);
      var a: nat := if list[i].start < start then start else list[i].start;
      FlagsMeanVad(list, a);
      assert Contains(list[i], a) && start <= a < end;
      assert NoneDescribed(list, start, end) ==> FlagsAt(list, a).None?;
    }
  }

  ghost predicate AllDescribed(list: seq<Vad>, start: nat, end: nat) {
    forall a: nat | start <= a < end :: FlagsAt(list, a).Some?
  }

  lemma {:induction false} SomeIsContained(list: seq<Vad>, a: nat)
    ensures FlagsAt(list, a).Some? ==>
      exists i :: 0 <= i < |list| && Contains(list[i], a) && FlagsAt(list, a) == Some(list[i].flags)
  {
    if list != [] && !Contains(list[0], a) {
      SomeIsContained(list[1..], a);
      if FlagsAt(list, a).Some? {
        var i :| 0 <= i < |list[1..]| && Contains(list[1..][i], a) && FlagsAt(list[1..], a) == Some(list[1..][i].flags);
        assert list[i + 1] == list[1..][i];
      }
    }
  }

  /** An aligned place of the given length at or above `hint` that ends within the user half. */
  predicate Place(list: seq<Vad>, hint: nat, length: nat, b: nat) {
    PageAligned(b) && hint <= b && b + length <= USER_END && FreeRange(list, b, b + length)
  }

  /** The parts of a descriptor outside a range. */
  function Pieces(vad: Vad, start: nat, end: nat): seq<Vad> {
    if Disjoint(vad, start, end) then [vad]
    else
      (if vad.start < start then [Vad(vad.start, start, vad.flags)] else [])
      + (if vad.end > end then [Vad(end, vad.end, vad.flags)] else [])
  }

  lemma PiecesMean(vad: Vad, start: nat, end: nat, a: nat)
    requires start <= end && vad.start < vad.end
    ensures FlagsAt(Pieces(vad, start, end), a) ==
      if Contains(vad, a) && !(start <= a < end) then Some(vad.flags) else None
  {
    FlagsOfOne(vad, a);
    if !Disjoint(vad, start, end) {
      var left, right := Vad(vad.start, start, vad.flags), Vad(end, vad.end, vad.flags);
      FlagsOfOne(left, a);
      FlagsOfOne(right, a);
      FlagsOfConcat(if vad.start < start then [left] else [], if vad.end > end then [right] else [], a);
    }
  }

  /** `out` describes what `list` does, except for the range. */
  ghost predicate Removed(list: seq<Vad>, out: seq<Vad>, start: nat, end: nat) {
    forall a: nat :: FlagsAt(out, a) == if start <= a < end then None else FlagsAt(list, a)
  }

  /** `list'` describes what `list` does, and the addresses of `vad`. */
  ghost predicate Added(list: seq<Vad>, list': seq<Vad>, vad: Vad) {
    forall a: nat :: FlagsAt(list', a) == if Contains(vad, a) then Some(vad.flags) else FlagsAt(list, a)
  }

  predicate Before(out: seq<Vad>, list: seq<Vad>, i: nat) {
    forall k, j | 0 <= k < |out| && i <= j < |list| :: out[k].end <= list[j].start
  }

  lemma RemovedFrom(out: seq<Vad>, list: seq<Vad>, i: nat, start: nat, end: nat)
    requires i < |list| && start <= end && Sorted(list) && Removed(list[..i], out, start, end)
    requires Sorted(out) && AllAligned(out) && Before(out, list, i) && AllAligned(list) && PageAligned(start) && PageAligned(end)
    ensures var out' := out + Pieces(list[i], start, end);
      && Sorted(out') && AllAligned(out') && Before(out', list, i + 1)
      && Removed(list[..i + 1], out', start, end)
  {
    forall a: nat
      ensures FlagsAt(out + Pieces(list[i], start, end), a) ==
              if start <= a < end then None else FlagsAt(list[..i + 1], a)
    {
      assert list[..i + 1] == list[..i] + [list[i]];
      FlagsOfConcat(out, Pieces(list[i], start, end), a);
      FlagsOfConcat(list[..i], [list[i]], a);
      FlagsOfOne(list[i], a);
      PiecesMean(list[i], start, end, a);
    }
  }

  /** The address space's list and the place where searches start. */
  class Vas {
    const root: nat        // pml4
    var list: seq<Vad>     // list_head
    var userStart: nat

    predicate Valid()
      reads this
    {
      Sorted(list) && AllAligned(list)
    }

    constructor (root: nat, userStart: nat)
      ensures this.root == root && list == [] && this.userStart == userStart && Valid()
    {
      this.root := root;
      list, this.userStart := [], userStart;
    }

    /** `vad_insert` */
    method Insert(vad: Vad)
      requires Valid() && vad.start < vad.end && PageAligned(vad.start) && PageAligned(vad.end)
      requires FreeRange(list, vad.start, vad.end)
      modifies this`list
      ensures Valid()
      ensures Added(old(list), list, vad)
      ensures multiset(list) == multiset(old(list)) + multiset{vad}
      ensures (forall j | 0 <= j < |old(list)| :: old(list)[j].start < vad.start) ==> list == old(list) + [vad]
    {
      var i: nat := 0;
      while i < |list| && list[i].start < vad.start
        invariant 0 <= i <= |list|
        invariant forall j | 0 <= j < i :: list[j].start < vad.start
        modifies {}
      {
        i := i + 1;
      }
      ghost var l := list;
      list := list[..i] + [vad] + list[i..];
      Inserted(l, i, vad);
    }

    /** `vad_remove_range`: exactly the addresses of the range lose their descriptor. */
    method RemoveRange(start: nat, end: nat)
      requires Valid() && start <= end && PageAligned(start) && PageAligned(end)
      modifies this`list
      ensures Valid()
      ensures Removed(old(list), list, start, end)
    {
      var out: seq<Vad> := [];
      var i: nat := 0;
      while i < |list|
        invariant 0 <= i <= |list|
        invariant Sorted(out) && AllAligned(out) && Before(out, list, i)
        invariant Removed(list[..i], out, start, end)
        modifies {}
      {
        var old_ := list[i];
        ghost var before := out;
        if old_.end <= start || old_.start >= end {
          out := out + [old_];
        } else {
          if old_.start < start {
            out := out + [Vad(old_.start, start, old_.flags)];
          }
          if old_.end > end {
            out := out + [Vad(end, old_.end, old_.flags)];
          }
        }
        assert out == before + Pieces(old_, start, end);
        RemovedFrom(before, list, i, start, end);
        i := i + 1;
      }
      assert list[..i] == list;
      list := out;
    }

    /** `vas_find_free`: the least place at or above the hint, or 0 without one. */
    method FindFree(hint: nat, length: nat) returns (base: nat)
      requires Valid() && length > 0
      ensures base != 0 ==> Place(list, hint, length, base) && forall b: nat | Place(list, hint, length, b) :: base <= b
      ensures base == 0 ==> (forall b: nat :: !Place(list, hint, length, b)) || (hint == 0 && Place(list, 0, length, 0))
    {
      base := AlignUp(hint);
      AlignUpIsLeast(hint, 0);
      assert forall b: nat | PageAligned(b) && hint <= b :: base <= b by {
        forall b: nat | PageAligned(b) && hint <= b
          ensures base <= b
        {
          AlignUpIsLeast(hint, b);
        }
      }
      var end := base + length;
      var i: nat := 0;
      while i < |list|
        invariant 0 <= i <= |list| && end == base + length && PageAligned(base) && hint <= base
        invariant forall j | 0 <= j < i :: list[j].end <= base
        invariant forall b: nat | Place(list, hint, length, b) :: base <= b
      {
        if end <= list[i].start {
          break;
        }
        if base < list[i].end {
          forall b: nat | Place(list, hint, length, b)
            ensures AlignUp(list[i].end) <= b
          {
            assert Disjoint(list[i], b, b + length);
            AlignUpIsLeast(list[i].end, b);
          }
          AlignUpIsLeast(list[i].end, 0);
          base := AlignUp(list[i].end);
          end := base + length;
        }
        i := i + 1;
      }
      if end > USER_END {
        return 0;
      }
      assert Place(list, hint, length, base);
    }

    /** `vas_overlaps` */
    method Overlaps(start: nat, end: nat) returns (r: bool)
      requires Valid()
      ensures r <==> exists i :: 0 <= i < |list| && list[i].start < end && start < list[i].end
    {
      for i := 0 to |list|
        invariant forall j | 0 <= j < i :: !(list[j].start < end && start < list[j].end)
      {
        if list[i].start >= end {
          assert forall j | i <= j < |list| :: list[i].start <= list[j].start;
          return false;
        }
        if list[i].end > start {
          return true;
        }
      }
      return false;
    }

    /** `vas_find`: the flags of the descriptor that contains the address. */
    method Find(addr: nat) returns (found: Option<set<VFlag>>)
      requires Valid()
      ensures found == FlagsAt(list, addr)
    {
      assert list[0..] == list;
      for i := 0 to |list|
        invariant FlagsAt(list, addr) == FlagsAt(list[i..], addr)
      {
        assert list[i..][1..] == list[i + 1..];
        if list[i].start <= addr < list[i].end {
          return Some(list[i].flags);
        }
      }
      return None;
    }

    /** `vas_range_mapped`: is every address of the rounded range described? */
    method RangeMapped(start: nat, length: nat) returns (r: bool)
      requires Valid()
      ensures r <==> (length > 0 && AllDescribed(list, AlignDown(start), AlignDown(start) + AlignUp(length)))
    {
      if length == 0 {
        return false;
      }
      var lo := AlignDown(start);
      var end := lo + AlignUp(length);
      AlignUpIsLeast(length, 0);
      AlignUpIsLeast(start, 0);
      var pos := lo;
      var i: nat := 0;
      while i < |list| && pos < end
        invariant 0 <= i <= |list| && lo <= pos
        invariant forall j | 0 <= j < i :: list[j].end <= pos
        invariant forall a: nat | lo <= a < pos :: FlagsAt(list, a).Some?
      {
        if list[i].end > pos {
          if list[i].start > pos {
            NoneBetween(list, i, pos);
            return false;
          }
          Described(list, i, pos);
          pos := list[i].end;
        }
        i := i + 1;
      }
      if pos < end {
        NoneBetween(list, i, pos);
      }
      return pos >= end;
    }

    /** `vas_add` */
    method Add(vad: Vad) returns (rc: int)
      requires Valid()
      modifies this`list
      ensures Valid() && (rc == 0 || rc == -1)
      ensures rc == 0 <==> vad.start < vad.end && PageAligned(vad.start) && PageAligned(vad.end)
                           && FreeRange(old(list), vad.start, vad.end)
      ensures rc == 0 ==> Added(old(list), list, vad)
      ensures rc != 0 ==> list == old(list)
    {
      if vad.start >= vad.end || vad.start % PAGE_SIZE != 0 || vad.end % PAGE_SIZE != 0 {
        return -1;
      }
      var overlap := Overlaps(vad.start, vad.end);
      if overlap {
        return -1;
      }
      Insert(vad);
      return 0;
    }
  }

  /** Inserting before the first descriptor that does not start below keeps the order. */
  lemma Inserted(l: seq<Vad>, i: nat, vad: Vad)
    requires Sorted(l) && i <= |l| && vad.start < vad.end && FreeRange(l, vad.start, vad.end)
    requires forall j | 0 <= j < i :: l[j].start < vad.start
    requires i < |l| ==> vad.start <= l[i].start
    ensures var l' := l[..i] + [vad] + l[i..];
      Sorted(l') && Added(l, l', vad) && multiset(l') == multiset(l) + multiset{vad}
  {
    forall j | 0 <= j < |l|
      ensures if j < i then l[j].end <= vad.start else vad.end <= l[j].start
    {
      assert Disjoint(l[j], vad.start, vad.end);
      assert j > i ==> l[i].end <= l[j].start;
    }
    InsertedSorted(l, i, vad);
    InsertedMeans(l, i, vad);
  }

  lemma InsertedSorted(l: seq<Vad>, i: nat, vad: Vad)
    requires Sorted(l) && i <= |l| && vad.start < vad.end
    requires forall j | 0 <= j < |l| :: if j < i then l[j].end <= vad.start else vad.end <= l[j].start
    ensures Sorted(l[..i] + [vad] + l[i..])
  {
  }

  lemma InsertedMeans(l: seq<Vad>, i: nat, vad: Vad)
    requires i <= |l| && FreeRange(l, vad.start, vad.end)
    ensures Added(l, l[..i] + [vad] + l[i..], vad) && multiset(l[..i] + [vad] + l[i..]) == multiset(l) + multiset{vad}
  {
    assert l == l[..i] + l[i..];
    forall a: nat
      ensures FlagsAt(l[..i] + [vad] + l[i..], a) == if Contains(vad, a) then Some(vad.flags) else FlagsAt(l, a)
    {
      hide FlagsAt;
      FlagsOfConcat(l[..i], l[i..], a);
      FlagsOfConcat(l[..i] + [vad], l[i..], a);
      FlagsOfConcat(l[..i], [vad], a);
      FlagsOfOne(vad, a);
      if Contains(vad, a) {
        FreeIsNotDescribed(l, vad, a);
      }
    }
  }

  lemma FreeIsNotDescribed(l: seq<Vad>, vad: Vad, a: nat)
    requires FreeRange(l, vad.start, vad.end) && Contains(vad, a)
    ensures FlagsAt(l, a).None?
  {
    SomeIsContained(l, a);
  }

  /** Nothing describes an address that lies between neighbours. */
  lemma NoneBetween(list: seq<Vad>, i: nat, a: nat)
    requires Sorted(list) && i <= |list| && forall j | 0 <= j < i :: list[j].end <= a
    requires i < |list| ==> a < list[i].start
    ensures FlagsAt(list, a).None?
  {
    SomeIsContained(list, a);
  }

  lemma Described(list: seq<Vad>, i: nat, pos: nat)
    requires Sorted(list) && i < |list|
    ensures forall a: nat | list[i].start <= a < list[i].end :: FlagsAt(list, a).Some?
  {
    forall a: nat | list[i].start <= a < list[i].end
      ensures FlagsAt(list, a).Some?
    {
      FlagsMeanVad(list, a);
      assert Contains(list[i], a);
    }
  }

  /** `vas_unmap` and `vas_range_mapped` round start and length separately: the rounded range reaches the end
      of the range asked for exactly when the start's offset fits in the padding of the length. */
  lemma RoundedRangeReaches(start: nat, length: nat)
    ensures start + length <= AlignDown(start) + AlignUp(length) <==> start % PAGE_SIZE <= AlignUp(length) - length
    ensures PageAligned(start) ==> start + length <= AlignDown(start) + AlignUp(length)
  {
    AlignUpIsLeast(length, 0);
  }

  /** A range whose last page they miss. */
  lemma RoundedRangeFallsShort()
    ensures AlignDown(0x1800) + AlignUp(0x1000) < 0x1800 + 0x1000
  {
  }
}
