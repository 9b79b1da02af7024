/** Buddy arithmetic (kernel/src/mm/pmm.c:40-87).
    A block is named by its order and by its index among the aligned blocks of that order, so that
    the parent of block `i` is `i / 2` and its buddy is its sibling.  On top of that the module defines
    the canonical decomposition of a set of free frames: the maximal aligned blocks inside the set.  */
module BlockTree {
  const MAX_ORDER: nat := 11  // PMM_MAX_ORDER
  const TOP: nat := MAX_ORDER - 1

  function Pow2(o: nat): (r: nat)
    ensures r >= 1
  {
    if o == 0 then 1 else 2 * Pow2(o - 1)
  }

  /** Index of the order-`o` block that contains frame `f`. */
  function Anc(f: nat, o: nat): nat {
    if o == 0 then f else Anc(f, o - 1) / 2
  }

  /** First frame of block `i` of order `o`. */
  function Head(o: nat, i: nat): nat {
    if o == 0 then i else Head(o - 1, 2 * i)
  }

  /** The frames of block `i` of order `o`. */
  function Frames(o: nat, i: nat): (fs: set<nat>)
    ensures forall f: nat {:trigger f in fs} :: f in fs <==> Anc(f, o) == i
  {
    FramesBound(o, i);
    set f: nat | f < Head(o, i + 1) && Anc(f, o) == i
  }

  lemma FramesBound(o: nat, i: nat)
    ensures forall f: nat :: Anc(f, o) == i ==> f < Head(o, i + 1)
  {
    HeadIsMultiple(o, i + 1);
    forall f: nat | Anc(f, o) == i
      ensures f < Head(o, i + 1)
    {
      AncIsQuotient(f, o);
    }
  }

  function Sibling(i: nat): (j: nat)
    ensures j != i && j / 2 == i / 2 && (j < i <==> i % 2 == 1)
  {
    if i % 2 == 0 then i + 1 else i - 1
  }

  /** Bitwise exclusive or on natural numbers, the operator of `buddy_pfn`. */
  function Xor(a: nat, b: nat): nat
    decreases a + b
  {
    if a == 0 then b
    else if b == 0 then a
    else (if a % 2 != b % 2 then 1 else 0) + 2 * Xor(a / 2, b / 2)
  }

  function BuddyPfn(pfn: nat, order: nat): nat {
    Xor(pfn, Pow2(order))
  }

  predicate Aligned(pfn: nat, order: nat) {
    pfn % Pow2(order) == 0
  }

  // ---- the block tree ----

  lemma {:induction false} HeadIsMultiple(o: nat, i: nat)
    ensures Head(o, i) == i * Pow2(o)
  {
    if o > 0 {
      HeadIsMultiple(o - 1, 2 * i);
    }
  }

  lemma {:induction false} HeadInFrames(o: nat, i: nat)
    ensures Anc(Head(o, i), o) == i
  {
    if o > 0 {
      HeadInFrames(o - 1, 2 * i);
    }
  }

  lemma {:induction false} AncIsQuotient(f: nat, o: nat)
    ensures Anc(f, o) * Pow2(o) <= f < (Anc(f, o) + 1) * Pow2(o)
  {
    if o > 0 {
      AncIsQuotient(f, o - 1);
      HalveQuotient(Anc(f, o - 1), Pow2(o - 1), f);
    }
  }

  lemma HalveQuotient(a: nat, p: nat, f: nat)
    requires a * p <= f < (a + 1) * p
    ensures (a / 2) * (2 * p) <= f < (a / 2 + 1) * (2 * p)
  {
    Doubled(a / 2, p);
    Doubled(a / 2 + 1, p);
    MulMonotone(2 * (a / 2), a, p);
    MulMonotone(a + 1, 2 * (a / 2) + 2, p);
  }

  lemma MulMonotone(a: nat, b: nat, p: nat)
    requires a <= b
    ensures a * p <= b * p
  {
  }

  /** Block `i` of order `o` is the run of `2^o` frames starting at its head. */
  lemma FramesAreRun(o: nat, i: nat, f: nat)
    ensures f in Frames(o, i) <==> Head(o, i) <= f < Head(o, i) + Pow2(o)
  {
    HeadIsMultiple(o, i);
    AncIsQuotient(f, o);
    var a, p := Anc(f, o), Pow2(o);
    if a < i {
      MulMonotone(a + 1, i, p);
    } else if i < a {
      MulMonotone(i + 1, a, p);
    }
    assert (i + 1) * p == i * p + p;
  }

  lemma Successor(a: nat, p: nat)
    ensures (a + 1) * p == a * p + p
  {
  }

  lemma HeadIsAligned(o: nat, i: nat)
    ensures Aligned(Head(o, i), o)
  {
    HeadIsMultiple(o, i);
    MulMod(i, Pow2(o));
  }

  lemma MulMod(i: nat, p: nat)
    requires p >= 1
    ensures (i * p) % p == 0
  {
    var x := i * p;
    var d, r := x / p, x % p;
    assert x == p * d + r == d * p + r;
    Successor(d, p);
    Successor(i, p);
    if d < i {
      MulMonotone(d + 1, i, p);
    } else if i < d {
      MulMonotone(i + 1, d, p);
    }
  }

  lemma {:induction false} FramesCount(o: nat, i: nat)
    ensures |Frames(o, i)| == Pow2(o)
  {
    if o == 0 {
      assert Frames(0, i) == {i};
    } else {
      FramesCount(o - 1, 2 * i);
      FramesCount(o - 1, 2 * i + 1);
      var a, b := Frames(o - 1, 2 * i), Frames(o - 1, 2 * i + 1);
      assert Frames(o, i) == a + b;
      DisjointUnion(a, b);
    }
  }

  lemma DisjointUnion(a: set<nat>, b: set<nat>)
    requires a !! b
    ensures |a + b| == |a| + |b|
  {
  }

  /** Sharing an ancestor at one order is sharing it at every larger order. */
  lemma {:induction false} AncMonotone(f: nat, g: nat, o: nat, o': nat)
    requires o <= o' && Anc(f, o) == Anc(g, o)
    ensures Anc(f, o') == Anc(g, o')
    decreases o'
  {
    if o < o' {
      AncMonotone(f, g, o, o' - 1);
    }
  }

  lemma ParentIsBothHalves(o: nat, i: nat)
    ensures Frames(o + 1, i / 2) == Frames(o, i) + Frames(o, Sibling(i))
    ensures Frames(o, i) !! Frames(o, Sibling(i))
  {
  }

  /** Exclusive or with a power of two takes a block head to the head of its sibling. */
  lemma {:induction false} BuddyIsSibling(o: nat, i: nat)
    ensures BuddyPfn(Head(o, i), o) == Head(o, Sibling(i))
  {
    HeadIsMultiple(o, i);
    HeadIsMultiple(o, Sibling(i));
    XorPow2(i, o);
  }

  lemma {:induction false} XorPow2(i: nat, o: nat)
    ensures Xor(i * Pow2(o), Pow2(o)) == Sibling(i) * Pow2(o)
  {
    if o == 0 {
      assert Xor(i / 2, 0) == i / 2;
    } else if i == 0 {
    } else {
      XorPow2(i, o - 1);
      var p := Pow2(o - 1);
      Doubled(i, p);
      Doubled(Sibling(i), p);
      MulMonotone(1, i, p);
      XorDouble(i * p, p);
    }
  }

  lemma Doubled(i: nat, p: nat)
    ensures i * (2 * p) == 2 * (i * p) == (2 * i) * p
  {
  }

  lemma XorDouble(a: nat, b: nat)
    requires a > 0 && b > 0
    ensures Xor(2 * a, 2 * b) == 2 * Xor(a, b)
  {
    assert (2 * a) / 2 == a && (2 * b) / 2 == b;
  }

  // ---- the canonical decomposition ----

  /** Block `i` of order `o` is a maximal aligned block of the free set `F`. */
  predicate IsBlock(F: set<nat>, o: nat, i: nat) {
    && o < MAX_ORDER
    && Frames(o, i) <= F
    && (o == TOP || !(Frames(o + 1, i / 2) <= F))
  }

  lemma NestedBlocks(f: nat, o: nat, o': nat)
    requires o <= o'
    ensures Frames(o, Anc(f, o)) <= Frames(o', Anc(f, o'))
  {
    forall g | g in Frames(o, Anc(f, o))
      ensures g in Frames(o', Anc(f, o'))
    {
      AncMonotone(f, g, o, o');
    }
  }

  /** A frame lies in at most one maximal block. */
  lemma BlocksAreDisjoint(F: set<nat>, o: nat, i: nat, o': nat, j: nat, f: nat)
    requires IsBlock(F, o, i) && IsBlock(F, o', j)
    requires f in Frames(o, i) && f in Frames(o', j)
    ensures o == o' && i == j
  {
    if o < o' {
      NestedBlocks(f, o + 1, o');
    } else if o' < o {
      NestedBlocks(f, o' + 1, o);
    }
  }

  /** Every free frame lies in a maximal block, and a larger free aligned block contains it there. */
  lemma {:induction false} BlockOf(F: set<nat>, f: nat, o: nat) returns (b: nat)
    requires o < MAX_ORDER && Frames(o, Anc(f, o)) <= F
    ensures o <= b < MAX_ORDER && IsBlock(F, b, Anc(f, b))
    decreases MAX_ORDER - o
  {
    if o == TOP || !(Frames(o + 1, Anc(f, o) / 2) <= F) {
      b := o;
    } else {
      b := BlockOf(F, f, o + 1);
    }
  }

  /** The maximal blocks partition the free set. */
  lemma BlocksCover(F: set<nat>, f: nat) returns (b: nat)
    requires f in F
    ensures b < MAX_ORDER && IsBlock(F, b, Anc(f, b)) && f in Frames(b, Anc(f, b))
  {
    assert Frames(0, Anc(f, 0)) == {f};
    b := BlockOf(F, f, 0);
  }

  /** Taking one maximal block away leaves every other maximal block maximal and creates none. */
  lemma RemoveBlock(F: set<nat>, o: nat, i: nat, o': nat, j: nat)
    requires IsBlock(F, o, i)
    ensures IsBlock(F - Frames(o, i), o', j) <==> IsBlock(F, o', j) && (o', j) != (o, i)
  {
    var B := Frames(o, i);
    HeadInFrames(o', j);
    var h := Head(o', j);
    if IsBlock(F, o', j) && (o', j) != (o, i) {
      forall f | f in Frames(o', j)
        ensures f in F - B
      {
        if f in B {
          BlocksAreDisjoint(F, o, i, o', j, f);
        }
      }
      assert IsBlock(F - B, o', j);
    }
    if IsBlock(F - B, o', j) {
      assert h in F - B;
      if o' < TOP && Frames(o' + 1, j / 2) <= F {
        var f :| f in Frames(o' + 1, j / 2) && f in B;
        if o' + 1 <= o {
          NestedBlocks(f, o' + 1, o);
          assert false;
        } else {
          NestedBlocks(f, o + 1, o' + 1);
          assert false;
        }
      }
    }
  }

  /** Adding a block whose buddy is not free adds exactly that maximal block. */
  lemma InsertBlock(F: set<nat>, o: nat, i: nat, o': nat, j: nat)
    requires o < MAX_ORDER && Frames(o, i) !! F
    requires o < TOP ==> !(Frames(o, Sibling(i)) <= F)
    ensures IsBlock(F + Frames(o, i), o', j) <==> IsBlock(F, o', j) || (o', j) == (o, i)
  {
    var G := F + Frames(o, i);
    ParentIsBothHalves(o, i);
    if o < TOP {
      var f :| f in Frames(o, Sibling(i)) && f !in F;
      assert f !in G && f in Frames(o + 1, i / 2);
    }
    assert IsBlock(G, o, i);
    assert G - Frames(o, i) == F;
    RemoveBlock(G, o, i, o', j);
    if (o', j) == (o, i) {
      HeadInFrames(o, i);
      assert Head(o, i) in Frames(o, i);
    }
  }

  // ---- coalescing makes the decomposition unique ----

  /** `B` is a family of pairwise disjoint blocks whose union is `F`. */
  ghost predicate Partitions(B: set<(nat, nat)>, F: set<nat>) {
    && (forall b | b in B :: b.0 < MAX_ORDER && Frames(b.0, b.1) <= F)
    && (forall f | f in F :: exists b | b in B :: f in Frames(b.0, b.1))
    && (forall b, c | b in B && c in B && b != c :: Frames(b.0, b.1) !! Frames(c.0, c.1))
  }

  /** No two buddies below the top order are both in `B`. */
  ghost predicate Coalesced(B: set<(nat, nat)>) {
    forall b | b in B && b.0 < TOP :: (b.0, Sibling(b.1)) !in B
  }

  /** A free aligned block of a coalesced partition is inside one block of the partition. */
  lemma {:induction false} CoalescedContains(B: set<(nat, nat)>, F: set<nat>, o: nat, i: nat) returns (b: nat)
    requires Partitions(B, F) && Coalesced(B)
    requires o < MAX_ORDER && Frames(o, i) <= F
    ensures o <= b < MAX_ORDER && (b, Anc(Head(o, i), b)) in B
    decreases o
  {
    HeadInFrames(o, i);
    if o == 0 {
      assert i in Frames(0, i);
      var c :| c in B && i in Frames(c.0, c.1);
      b := c.0;
    } else {
      ParentIsBothHalves(o - 1, 2 * i);
      HeadInFrames(o - 1, 2 * i);
      HeadInFrames(o - 1, 2 * i + 1);
      var l := CoalescedContains(B, F, o - 1, 2 * i);
      var r := CoalescedContains(B, F, o - 1, 2 * i + 1);
      if l == o - 1 && r == o - 1 {
        assert false;
      } else if l == o - 1 {
        assert Head(o - 1, 2 * i) in Frames(o, i) && Head(o - 1, 2 * i) in Frames(l, 2 * i);
        NestedBlocks(Head(o - 1, 2 * i + 1), o, r);
        assert false;
      } else {
        b := l;
      }
    }
  }

  /** The coalesced partitions of `F` are one and the same: the maximal blocks of `F`. */
  lemma CoalescedIsCanonical(B: set<(nat, nat)>, F: set<nat>, o: nat, i: nat)
    requires Partitions(B, F) && Coalesced(B)
    ensures (o, i) in B <==> IsBlock(F, o, i)
  {
    HeadInFrames(o, i);
    if (o, i) in B && o < TOP && Frames(o + 1, i / 2) <= F {
      var b := CoalescedContains(B, F, o + 1, i / 2);
      HeadInFrames(o + 1, i / 2);
      assert Head(o, i) in Frames(o + 1, i / 2) && Head(o, i) in Frames(o, i);
      NestedBlocks(Head(o + 1, i / 2), o + 1, b);
      assert false;
    }
    if IsBlock(F, o, i) {
      var b := CoalescedContains(B, F, o, i);
      if b > o {
        NestedBlocks(Head(o, i), o + 1, b);
      }
    }
  }

  /** Conversely the maximal blocks of any set are a coalesced partition of it. */
  lemma CanonicalIsCoalesced(B: set<(nat, nat)>, F: set<nat>)
    requires forall o: nat, i: nat :: (o, i) in B <==> IsBlock(F, o, i)
    ensures Partitions(B, F) && Coalesced(B)
  {
    forall b | b in B
      ensures b.0 < MAX_ORDER && Frames(b.0, b.1) <= F
    {
      assert IsBlock(F, b.0, b.1);
    }
    forall f | f in F
      ensures exists b | b in B :: f in Frames(b.0, b.1)
    {
      var o := BlocksCover(F, f);
      assert (o, Anc(f, o)) in B;
    }
    forall b, c | b in B && c in B && b != c
      ensures Frames(b.0, b.1) !! Frames(c.0, c.1)
    {
      assert IsBlock(F, b.0, b.1) && IsBlock(F, c.0, c.1);
      if f :| f in Frames(b.0, b.1) && f in Frames(c.0, c.1) {
        BlocksAreDisjoint(F, b.0, b.1, c.0, c.1, f);
      }
    }
    forall b | b in B && b.0 < TOP
      ensures (b.0, Sibling(b.1)) !in B
    {
      assert IsBlock(F, b.0, b.1);
      ParentIsBothHalves(b.0, b.1);
      assert !IsBlock(F, b.0, Sibling(b.1));
    }
  }
}
