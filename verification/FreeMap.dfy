/** The invariant of the page allocator on values: the free lists hold exactly the maximal aligned
    blocks of the set of free frames (kernel/src/mm/pmm.c:45-174).  */
module FreeMap {
  import opened BlockTree
  import opened FreeLists

  function Block(p: nat, o: nat): set<nat> {
    Frames(o, Anc(p, o))
  }

  /** The members of the lists are the heads of the maximal blocks of `F`. */
  ghost predicate Decomposed(chains: Chains, F: set<nat>) {
    && |chains| == MAX_ORDER
    && (forall o: nat, p: nat {:trigger p in chains[o]} :: o < MAX_ORDER && p in chains[o] ==>
          p == Head(o, Anc(p, o)) && IsBlock(F, o, Anc(p, o)))
    && (forall o: nat, i: nat {:trigger IsBlock(F, o, i)} :: IsBlock(F, o, i) ==> Head(o, i) in chains[o])
  }

  /** The head of a free block carries the order of its list and the free flag. */
  ghost predicate Heads(mem: seq<Page>, chains: Chains) {
    forall o: nat, p: nat {:trigger p in chains[o]} :: o < |chains| && p in chains[o] ==>
      p < |mem| && mem[p].order == o && Free in mem[p].flags
  }

  /** The lists are the canonical decomposition of `F`, and every frame of `F` exists. */
  ghost predicate Canonical(mem: seq<Page>, chains: Chains, F: set<nat>) {
    && Decomposed(chains, F)
    && Heads(mem, chains)
    && (forall f | f in F :: f < |mem|)
    && Weight(chains, MAX_ORDER) == |F|
  }

  /** Only frames that are free, or inside the block being worked on, carry the free flag.
      A free frame that is not a list head may carry it too, with a stale order. */
  ghost predicate FreeFlags(mem: seq<Page>, F: set<nat>, held: set<nat>) {
    forall f | 0 <= f < |mem| && Free in mem[f].flags :: f in F || f in held
  }

  lemma InOwnBlock(p: nat, o: nat)
    ensures p in Block(p, o)
  {
  }

  /** A frame aligned at a large order heads its block at every smaller order. */
  lemma {:induction false} HeadOfSmaller(o: nat, i: nat, o': nat)
    requires o' <= o
    ensures Head(o', Anc(Head(o, i), o')) == Head(o, i)
  {
    if o' == o {
      HeadInFrames(o, i);
    } else {
      HeadOfSmaller(o - 1, 2 * i, o');
    }
  }

  /** The coalescing test of `free_block` holds of exactly the real free block of the same order,
      and when it fails the buddy is not entirely free, whatever stale flags and orders there are. */
  lemma BuddyTest(mem: seq<Page>, chains: Chains, F: set<nat>, held: set<nat>, o: nat, i: nat)
    requires Canonical(mem, chains, F) && FreeFlags(mem, F, held)
    requires o < TOP && held == Frames(o, i) && held !! F
    ensures BuddyPfn(Head(o, i), o) == Head(o, Sibling(i))
    ensures var b := Head(o, Sibling(i));
      && (b < |mem| ==>
          (Free in mem[b].flags && mem[b].order == o <==> IsBlock(F, o, Sibling(i))))
      && (IsBlock(F, o, Sibling(i)) <==> Frames(o, Sibling(i)) <= F)
      && (Frames(o, Sibling(i)) <= F ==> b < |mem| && b in chains[o])
  {
    BuddyIsSibling(o, i);
    var s := Sibling(i);
    var b := Head(o, s);
    HeadInFrames(o, s);
    HeadInFrames(o, i);
    ParentIsBothHalves(o, i);
    assert b in Frames(o, s) && Head(o, i) in held;
    assert Head(o, i) in Frames(o + 1, s / 2);
    if b < |mem| && Free in mem[b].flags && mem[b].order == o {
      var bo := BlocksCover(F, b);
      if bo > o {
        NestedBlocks(b, o + 1, bo);
        assert false;
      }
      HeadOfSmaller(o, s, bo);
      assert b in chains[bo];
    }
  }

  /** Unlinking a list head is taking its block out of the free set. */
  lemma TakeHead(chains: Chains, F: set<nat>, o: nat, n: nat)
    requires Decomposed(chains, F) && o < MAX_ORDER && n < |chains[o]|
    requires forall j, k | 0 <= j < k < |chains[o]| :: chains[o][j] != chains[o][k]
    ensures Decomposed(chains[o := chains[o][..n] + chains[o][n + 1..]], F - Block(chains[o][n], o))
  {
    var p := chains[o][n];
    var i := Anc(p, o);
    var l' := chains[o][..n] + chains[o][n + 1..];
    var chains' := chains[o := l'];
    RemovedElement(chains[o], n);
    assert p in chains[o];
    forall o': nat, q: nat | o' < MAX_ORDER && q in chains'[o']
      ensures q == Head(o', Anc(q, o')) && IsBlock(F - Frames(o, i), o', Anc(q, o'))
    {
      assert q in chains[o'];
      RemoveBlock(F, o, i, o', Anc(q, o'));
    }
    forall o': nat, j: nat | IsBlock(F - Frames(o, i), o', j)
      ensures Head(o', j) in chains'[o']
    {
      RemoveBlock(F, o, i, o', j);
      HeadInFrames(o', j);
    }
  }

  lemma RemovedElement(l: seq<nat>, n: nat)
    requires n < |l|
    requires forall j, k | 0 <= j < k < |l| :: l[j] != l[k]
    ensures forall q: nat :: q in l[..n] + l[n + 1..] <==> q in l && q != l[n]
  {
    var l' := l[..n] + l[n + 1..];
    forall q: nat | q in l && q != l[n]
      ensures q in l'
    {
      var k :| 0 <= k < |l| && l[k] == q;
      assert l'[if k < n then k else k - 1] == q;
    }
  }

  lemma TakeWeight(chains: Chains, F: set<nat>, o: nat, i: nat, l: seq<nat>)
    requires o < |chains| == MAX_ORDER && Weight(chains, MAX_ORDER) == |F|
    requires Frames(o, i) <= F && |l| == |chains[o]| - 1
    ensures Weight(chains[o := l], MAX_ORDER) == |F - Frames(o, i)|
  {
    WeightUpdate(chains, o, l, MAX_ORDER);
    FramesCount(o, i);
    assert F == (F - Frames(o, i)) + Frames(o, i);
    DisjointUnion(F - Frames(o, i), Frames(o, i));
  }

  /** Pushing a block whose buddy is not free adds its frames to the free set. */
  lemma AddHead(chains: Chains, F: set<nat>, o: nat, i: nat)
    requires Decomposed(chains, F) && o < MAX_ORDER && Frames(o, i) !! F
    requires o < TOP ==> !(Frames(o, Sibling(i)) <= F)
    ensures Decomposed(chains[o := [Head(o, i)] + chains[o]], F + Frames(o, i))
  {
    hide IsBlock;
    hide Head;
    hide Anc;
    hide Frames;
    AddedMembers(chains, F, o, i);
    AddedBlocks(chains, F, o, i);
    var chains' := chains[o := [Head(o, i)] + chains[o]];
    assert Decomposed(chains', F + Frames(o, i));
  }

  lemma AddedMembers(chains: Chains, F: set<nat>, o: nat, i: nat)
    requires Decomposed(chains, F) && o < MAX_ORDER && Frames(o, i) !! F
    requires o < TOP ==> !(Frames(o, Sibling(i)) <= F)
    ensures forall o': nat, q: nat | o' < MAX_ORDER && q in chains[o := [Head(o, i)] + chains[o]][o'] ::
      q == Head(o', Anc(q, o')) && IsBlock(F + Frames(o, i), o', Anc(q, o'))
  {
    hide Frames;
    hide IsBlock;
    hide Head;
    hide Anc;
    var chains' := chains[o := [Head(o, i)] + chains[o]];
    forall o': nat, q: nat | o' < MAX_ORDER && q in chains'[o']
      ensures q == Head(o', Anc(q, o')) && IsBlock(F + Frames(o, i), o', Anc(q, o'))
    {
      assert o' == o || chains'[o'] == chains[o'];
      AddedMember(chains, F, o, i, o', q);
    }
  }

  lemma AddedBlocks(chains: Chains, F: set<nat>, o: nat, i: nat)
    requires Decomposed(chains, F) && o < MAX_ORDER && Frames(o, i) !! F
    requires o < TOP ==> !(Frames(o, Sibling(i)) <= F)
    ensures forall o': nat, j: nat | IsBlock(F + Frames(o, i), o', j) ::
      o' < MAX_ORDER && Head(o', j) in chains[o := [Head(o, i)] + chains[o]][o']
  {
    hide Frames;
    hide IsBlock;
    hide Head;
    var chains' := chains[o := [Head(o, i)] + chains[o]];
    forall o': nat, j: nat | IsBlock(F + Frames(o, i), o', j)
      ensures o' < MAX_ORDER && Head(o', j) in chains'[o']
    {
      AddedBlock(chains, F, o, i, o', j);
      assert o' == o || chains'[o'] == chains[o'];
    }
  }

  lemma AddedMember(chains: Chains, F: set<nat>, o: nat, i: nat, o': nat, q: nat)
    requires Decomposed(chains, F) && o < MAX_ORDER && Frames(o, i) !! F
    requires o < TOP ==> !(Frames(o, Sibling(i)) <= F)
    requires o' < MAX_ORDER && (q in chains[o'] || (o' == o && q == Head(o, i)))
    ensures q == Head(o', Anc(q, o')) && IsBlock(F + Frames(o, i), o', Anc(q, o'))
  {
    HeadInFrames(o, i);
    hide Frames;
    InsertBlock(F, o, i, o', Anc(q, o'));
  }

  lemma AddedBlock(chains: Chains, F: set<nat>, o: nat, i: nat, o': nat, j: nat)
    requires Decomposed(chains, F) && o < MAX_ORDER && Frames(o, i) !! F
    requires o < TOP ==> !(Frames(o, Sibling(i)) <= F)
    requires IsBlock(F + Frames(o, i), o', j)
    ensures o' < MAX_ORDER && (Head(o', j) in chains[o'] || (o' == o && j == i))
  {
    InsertBlock(F, o, i, o', j);
    hide Frames;
  }

  lemma AddWeight(chains: Chains, F: set<nat>, o: nat, i: nat, l: seq<nat>)
    requires o < |chains| == MAX_ORDER && Weight(chains, MAX_ORDER) == |F|
    requires Frames(o, i) !! F && |l| == |chains[o]| + 1
    ensures Weight(chains[o := l], MAX_ORDER) == |F + Frames(o, i)|
  {
    WeightUpdate(chains, o, l, MAX_ORDER);
    FramesCount(o, i);
    DisjointUnion(F, Frames(o, i));
  }

  /** No list has a block of order `o` or more only when no aligned run of that order is free. */
  lemma NoLargeBlock(mem: seq<Page>, chains: Chains, F: set<nat>, o: nat, i: nat)
    requires Canonical(mem, chains, F) && o < MAX_ORDER
    requires forall o' | o <= o' < MAX_ORDER :: chains[o'] == []
    ensures !(Frames(o, i) <= F)
  {
    if Frames(o, i) <= F {
      HeadInFrames(o, i);
      var b := BlockOf(F, Head(o, i), o);
      assert false;
    }
  }

  // ---- steps of the allocator ----

  lemma ChainInFree(chains: Chains, F: set<nat>, o: nat, p: nat)
    requires Decomposed(chains, F) && o < MAX_ORDER && p in chains[o]
    ensures p in F && Block(p, o) <= F && Head(o, Anc(p, o)) == p
  {
    InOwnBlock(p, o);
  }

  lemma NotFreeInNoChain(chains: Chains, F: set<nat>, p: nat)
    requires Decomposed(chains, F) && p !in F
    ensures InNoChain(chains, p)
  {
    forall o | 0 <= o < |chains|
      ensures p !in chains[o]
    {
      if p in chains[o] {
        ChainInFree(chains, F, o, p);
      }
    }
  }

  /** Writing entries of frames that are not free keeps the lists and their meaning. */
  lemma NotFreeWrite(mem: seq<Page>, mem': seq<Page>, fl: seq<FreeList>, chains: Chains, F: set<nat>)
    requires Linked(mem, fl, chains) && Canonical(mem, chains, F) && |mem'| == |mem|
    requires forall f: nat | f < |mem| && f in F :: mem'[f] == mem[f]
    ensures Linked(mem', fl, chains) && Canonical(mem', chains, F)
  {
    forall o: nat, p: nat | o < MAX_ORDER && p in chains[o]
      ensures p < |mem| && mem'[p] == mem[p]
    {
      ChainInFree(chains, F, o, p);
    }
    ChainsFramed(mem, mem', fl, chains);
  }

  lemma LinksOnlyHeads(mem: seq<Page>, mem': seq<Page>, chains: Chains, chain: seq<nat>, p: nat)
    requires Heads(mem, chains) && LinksOnly(mem, mem', chain, p)
    ensures Heads(mem', chains)
  {
    forall o: nat, q: nat | o < |chains| && q in chains[o]
      ensures q < |mem'| && mem'[q].order == o && Free in mem'[q].flags
    {
      assert mem'[q].Body() == mem[q].Body();
    }
  }

  lemma TakeStep(mem: seq<Page>, mem': seq<Page>, fl: seq<FreeList>, chains: Chains, F: set<nat>, o: nat, n: nat)
    requires Linked(mem, fl, chains) && Canonical(mem, chains, F)
    requires o < MAX_ORDER && n < |chains[o]| && LinksOnly(mem, mem', chains[o], chains[o][n])
    ensures Block(chains[o][n], o) <= F && IsBlock(F, o, Anc(chains[o][n], o))
    ensures Canonical(mem', chains[o := chains[o][..n] + chains[o][n + 1..]], F - Block(chains[o][n], o))
    ensures forall f: nat | f < |mem| && f !in F :: mem'[f] == mem[f]
  {
    var p := chains[o][n];
    ChainDistinct(mem, fl, chains, o);
    assert p in chains[o];
    ChainInFree(chains, F, o, p);
    TakeHead(chains, F, o, n);
    TakeWeight(chains, F, o, Anc(p, o), chains[o][..n] + chains[o][n + 1..]);
    TakeHeads(mem, mem', chains, o, n);
    LinksInFree(mem, mem', chains, F, o, p);
  }

  lemma ChainDistinct(mem: seq<Page>, fl: seq<FreeList>, chains: Chains, o: nat)
    requires Linked(mem, fl, chains) && o < MAX_ORDER
    ensures forall j, k | 0 <= j < k < |chains[o]| :: chains[o][j] != chains[o][k]
  {
    assert Chain(mem, fl[o].head, chains[o]);
  }

  lemma TakeHeads(mem: seq<Page>, mem': seq<Page>, chains: Chains, o: nat, n: nat)
    requires Heads(mem, chains) && o < |chains| && n < |chains[o]|
    requires LinksOnly(mem, mem', chains[o], chains[o][n])
    ensures Heads(mem', chains[o := chains[o][..n] + chains[o][n + 1..]])
  {
    var l' := chains[o][..n] + chains[o][n + 1..];
    assert forall q: nat :: q in l' ==> q in chains[o];
    LinksOnlyHeads(mem, mem', chains[o := l'], chains[o], chains[o][n]);
  }

  lemma LinksInFree(mem: seq<Page>, mem': seq<Page>, chains: Chains, F: set<nat>, o: nat, p: nat)
    requires Decomposed(chains, F) && o < MAX_ORDER && LinksOnly(mem, mem', chains[o], p)
    ensures forall f: nat | f < |mem| && f !in F && f != p :: mem'[f] == mem[f]
  {
    forall f: nat | f < |mem| && f !in F && f != p
      ensures mem'[f] == mem[f]
    {
      NotFreeInNoChain(chains, F, f);
    }
  }

  lemma AddStep(mem: seq<Page>, mem': seq<Page>, chains: Chains, F: set<nat>, o: nat, i: nat)
    requires Canonical(mem, chains, F) && o < MAX_ORDER
    requires LinksOnly(mem, mem', chains[o], Head(o, i))
    requires Frames(o, i) !! F && forall f | f in Frames(o, i) :: f < |mem|
    requires o < TOP ==> !(Frames(o, Sibling(i)) <= F)
    requires Head(o, i) < |mem| && mem[Head(o, i)].order == o && Free in mem[Head(o, i)].flags
    ensures Canonical(mem', chains[o := [Head(o, i)] + chains[o]], F + Frames(o, i))
    ensures forall f: nat | f < |mem| && f !in F + Frames(o, i) :: mem'[f] == mem[f]
  {
    hide Frames;
    hide IsBlock;
    hide Anc;
    var p := Head(o, i);
    HeadInFrames(o, i);
    hide Head;
    LinksInFree(mem, mem', chains, F, o, p);
    AddedHeads(mem, mem', chains, o, p);
    AddHead(chains, F, o, i);
    AddWeight(chains, F, o, i, [p] + chains[o]);
    hide Decomposed;
    hide Heads;
  }

  lemma AddedHeads(mem: seq<Page>, mem': seq<Page>, chains: Chains, o: nat, p: nat)
    requires Heads(mem, chains) && o < |chains| && LinksOnly(mem, mem', chains[o], p)
    requires p < |mem| && mem[p].order == o && Free in mem[p].flags
    ensures Heads(mem', chains[o := [p] + chains[o]])
  {
    var chains' := chains[o := [p] + chains[o]];
    assert Heads(mem, chains') by {
      forall o': nat, q: nat | o' < |chains'| && q in chains'[o']
        ensures q < |mem| && mem[q].order == o' && Free in mem[q].flags
      {
        assert o' == o || chains'[o'] == chains[o'];
      }
    }
    LinksOnlyHeads(mem, mem', chains', chains[o], p);
  }

  /** Links carry no flags. */
  lemma LinksOnlyFlags(mem: seq<Page>, mem': seq<Page>, chain: seq<nat>, p: nat, F: set<nat>, held: set<nat>)
    requires LinksOnly(mem, mem', chain, p) && FreeFlags(mem, F, held)
    ensures FreeFlags(mem', F, held)
  {
    forall f | 0 <= f < |mem'| && Free in mem'[f].flags
      ensures f in F || f in held
    {
      assert mem'[f].Body() == mem[f].Body();
    }
  }

  // ---- what the canonical form means for callers ----

  /** The free blocks named by the lists, as (order, index) pairs. */
  ghost function ListedBlocks(chains: Chains): set<(nat, nat)> {
    set o: nat, p: nat | o < |chains| && p in chains[o] :: (o, Anc(p, o))
  }

  /** The lists partition the free set into aligned blocks, no two of them mergeable buddies. */
  lemma ListsArePartition(chains: Chains, F: set<nat>)
    requires Decomposed(chains, F)
    ensures Partitions(ListedBlocks(chains), F) && Coalesced(ListedBlocks(chains))
  {
    forall o: nat, i: nat
      ensures (o, i) in ListedBlocks(chains) <==> IsBlock(F, o, i)
    {
      if (o, i) in ListedBlocks(chains) {
        var p: nat :| o < |chains| && p in chains[o] && i == Anc(p, o);
      }
      if IsBlock(F, o, i) {
        HeadInFrames(o, i);
        assert Head(o, i) in chains[o];
      }
    }
    CanonicalIsCoalesced(ListedBlocks(chains), F);
  }

  /** The free set alone determines which heads are on which list, so undoing every allocation
      restores the block structure whatever the history was. */
  lemma ListsDetermined(chains: Chains, chains': Chains, F: set<nat>, o: nat, p: nat)
    requires Decomposed(chains, F) && Decomposed(chains', F) && o < MAX_ORDER
    ensures p in chains[o] <==> p in chains'[o]
  {
  }
}
