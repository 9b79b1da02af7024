/** The page database entries and the intrusive free lists of the page allocator
    (kernel/include/mm/page.h:41-112, kernel/src/mm/pmm.c:9-38), as values.
    A `page_t *` is the frame number of its entry; the null pointer is `NIL`.  */
module FreeLists {
  import opened BlockTree

  const NIL: int := -1

  datatype Flag = Free | Used | Reserved | Shared | Cow | Poison | Slab | LargeHead | LargeBody

  datatype Page = Page(next: int, prev: int, refcount: int, order: nat, flags: set<Flag>)
  {
    /** Everything but the list links. */
    function Body(): Page {
      this.(next := NIL, prev := NIL)
    }
  }

  datatype FreeList = FreeList(head: int, count: nat)

  type Chains = seq<seq<nat>>

  function First(l: seq<nat>): int {
    if l == [] then NIL else l[0]
  }

  /** `l` lists, in order, the frames linked from `head`. */
  ghost predicate Chain(mem: seq<Page>, head: int, l: seq<nat>) {
    && (forall k | 0 <= k < |l| :: l[k] < |mem|)
    && (forall j, k | 0 <= j < k < |l| :: l[j] != l[k])
    && head == First(l)
    && (forall j, k | 0 <= j < k < |l| && k == j + 1 :: mem[l[j]].next == l[k] && mem[l[k]].prev == l[j])
    && (l != [] ==> mem[l[0]].prev == NIL && mem[l[|l| - 1]].next == NIL)
  }

  ghost predicate ChainsDisjoint(chains: Chains) {
    forall o, o', p | 0 <= o < |chains| && 0 <= o' < |chains| && p in chains[o] && p in chains[o'] :: o == o'
  }

  /** Every free list is well linked and its counter is its length. */
  ghost predicate Linked(mem: seq<Page>, fl: seq<FreeList>, chains: Chains) {
    && |fl| == |chains| == MAX_ORDER
    && (forall o | 0 <= o < MAX_ORDER :: Chain(mem, fl[o].head, chains[o]) && fl[o].count == |chains[o]|)
    && ChainsDisjoint(chains)
  }

  /** The two databases agree on everything but list links. */
  ghost predicate SameBodies(a: seq<Page>, b: seq<Page>) {
    |a| == |b| && forall f | 0 <= f < |a| :: a[f].Body() == b[f].Body()
  }

  ghost predicate InNoChain(chains: Chains, p: nat) {
    forall o | 0 <= o < |chains| :: p !in chains[o]
  }

  /** Writing entries that are in no list keeps the lists. */
  lemma ChainsFramed(mem: seq<Page>, mem': seq<Page>, fl: seq<FreeList>, chains: Chains)
    requires Linked(mem, fl, chains) && |mem'| == |mem|
    requires forall o, p | 0 <= o < MAX_ORDER && p in chains[o] ::
      mem'[p].next == mem[p].next && mem'[p].prev == mem[p].prev
    ensures Linked(mem', fl, chains)
  {
    forall o | 0 <= o < MAX_ORDER
      ensures Chain(mem', fl[o].head, chains[o])
    {
      assert Chain(mem, fl[o].head, chains[o]);
      assert forall k | 0 <= k < |chains[o]| :: chains[o][k] in chains[o];
    }
  }

  /** `free_list_push` on values. */
  lemma PushChain(mem: seq<Page>, mem': seq<Page>, head: int, l: seq<nat>, p: nat)
    requires Chain(mem, head, l) && p < |mem| && p !in l && |mem'| == |mem|
    requires mem'[p].prev == NIL && mem'[p].next == head
    requires forall k | 0 <= k < |l| :: mem'[l[k]].next == mem[l[k]].next
    requires forall k | 1 <= k < |l| :: mem'[l[k]].prev == mem[l[k]].prev
    requires l != [] ==> mem'[l[0]].prev == p
    ensures Chain(mem', p, [p] + l)
  {
    var l' := [p] + l;
    assert forall k | 0 < k < |l'| :: l'[k] == l[k - 1];
  }

  /** `free_list_remove` on values: the neighbours of position `n` are linked to each other. */
  lemma RemoveChain(mem: seq<Page>, mem': seq<Page>, head: int, head': int, l: seq<nat>, n: nat)
    requires Chain(mem, head, l) && n < |l| && |mem'| == |mem|
    requires head' == if n > 0 then head else mem[l[0]].next
    requires forall k | 0 <= k < |l| && k != n ::
      && mem'[l[k]].next == (if k == n - 1 then mem[l[n]].next else mem[l[k]].next)
      && mem'[l[k]].prev == (if k == n + 1 then mem[l[n]].prev else mem[l[k]].prev)
    ensures Chain(mem', head', l[..n] + l[n + 1..])
  {
    var l' := l[..n] + l[n + 1..];
    assert forall k | 0 <= k < n :: l'[k] == l[k];
    assert forall k | n <= k < |l'| :: l'[k] == l[k + 1];
  }

  function PushMem(mem: seq<Page>, head: int, p: nat): (mem': seq<Page>)
    requires p < |mem| && (head == NIL || 0 <= head < |mem|)
    ensures |mem'| == |mem|
  {
    var m := mem[p := mem[p].(prev := NIL, next := head)];
    if head == NIL then m else m[head := m[head].(prev := p)]
  }

  function RemoveMem(mem: seq<Page>, p: nat): (mem': seq<Page>)
    requires p < |mem|
    requires mem[p].prev == NIL || 0 <= mem[p].prev < |mem|
    requires mem[p].next == NIL || 0 <= mem[p].next < |mem|
    ensures |mem'| == |mem|
  {
    var nx, pv := mem[p].next, mem[p].prev;
    var m := if pv == NIL then mem else mem[pv := mem[pv].(next := nx)];
    var n := if nx == NIL then m else m[nx := m[nx].(prev := pv)];
    n[p := n[p].(next := NIL, prev := NIL)]
  }

  /** A database update that writes only links, and only of entries in `chain` or of `p`. */
  ghost predicate LinksOnly(mem: seq<Page>, mem': seq<Page>, chain: seq<nat>, p: nat) {
    && SameBodies(mem, mem')
    && (forall f: nat | f < |mem| && f != p && f !in chain :: mem'[f] == mem[f])
  }

  lemma OthersLinked(mem: seq<Page>, mem': seq<Page>, fl: seq<FreeList>, chains: Chains, o: nat, p: nat)
    requires Linked(mem, fl, chains) && o < MAX_ORDER
    requires LinksOnly(mem, mem', chains[o], p)
    requires forall o' | 0 <= o' < MAX_ORDER && o' != o :: p !in chains[o']
    ensures forall o' | 0 <= o' < MAX_ORDER && o' != o :: Chain(mem', fl[o'].head, chains[o'])
  {
    forall o' | 0 <= o' < MAX_ORDER && o' != o
      ensures Chain(mem', fl[o'].head, chains[o'])
    {
      assert Chain(mem, fl[o'].head, chains[o']);
      var l := chains[o'];
      forall k | 0 <= k < |l|
        ensures mem'[l[k]] == mem[l[k]]
      {
        assert l[k] in l;
      }
    }
  }

  lemma PushLinked(mem: seq<Page>, fl: seq<FreeList>, chains: Chains, o: nat, p: nat)
    requires Linked(mem, fl, chains) && o < MAX_ORDER && p < |mem| && InNoChain(chains, p)
    ensures var head := fl[o].head;
      && (head == NIL || 0 <= head < |mem|)
      && var mem' := PushMem(mem, head, p);
      && LinksOnly(mem, mem', chains[o], p)
      && Linked(mem', fl[o := FreeList(p, fl[o].count + 1)], chains[o := [p] + chains[o]])
  {
    var l, head := chains[o], fl[o].head;
    assert Chain(mem, head, l);
    assert head != NIL ==> l[0] in l;
    var mem' := PushMem(mem, head, p);
    assert LinksOnly(mem, mem', l, p);
    OthersLinked(mem, mem', fl, chains, o, p);
    PushChain(mem, mem', head, l, p);
    var chains' := chains[o := [p] + l];
    forall a, b, q | 0 <= a < MAX_ORDER && 0 <= b < MAX_ORDER && q in chains'[a] && q in chains'[b]
      ensures a == b
    {
      assert q == p || (q in chains[a] && q in chains[b]);
    }
  }

  lemma RemoveLinked(mem: seq<Page>, fl: seq<FreeList>, chains: Chains, o: nat, n: nat)
    requires Linked(mem, fl, chains) && o < MAX_ORDER && n < |chains[o]|
    ensures var p := chains[o][n];
      && p < |mem|
      && (mem[p].prev == NIL <==> n == 0)
      && (mem[p].prev == NIL || 0 <= mem[p].prev < |mem|) && (mem[p].next == NIL || 0 <= mem[p].next < |mem|)
      && var mem' := RemoveMem(mem, p);
      && LinksOnly(mem, mem', chains[o], p)
      && Linked(mem', fl[o := FreeList(if n == 0 then mem[p].next else fl[o].head, fl[o].count - 1)],
                chains[o := chains[o][..n] + chains[o][n + 1..]])
  {
    var l, head := chains[o], fl[o].head;
    assert Chain(mem, head, l);
    var p := l[n];
    NeighboursOf(mem, head, l, n);
    RemovedChain(mem, head, l, n);
    hide Chain;
    assert p in l;
    OthersLinked(mem, RemoveMem(mem, p), fl, chains, o, p);
    assert forall q: nat :: q in l[..n] + l[n + 1..] ==> q in l;
  }

  lemma RemovedChain(mem: seq<Page>, head: int, l: seq<nat>, n: nat)
    requires Chain(mem, head, l) && n < |l|
    ensures var p := l[n];
      && p < |mem|
      && (mem[p].prev == NIL || 0 <= mem[p].prev < |mem|) && (mem[p].next == NIL || 0 <= mem[p].next < |mem|)
      && LinksOnly(mem, RemoveMem(mem, p), l, p)
      && Chain(RemoveMem(mem, p), if n == 0 then mem[p].next else head, l[..n] + l[n + 1..])
  {
    var p := l[n];
    NeighboursOf(mem, head, l, n);
    var mem' := RemoveMem(mem, p);
    forall k | 0 <= k < |l| && k != n
      ensures mem'[l[k]].next == (if k == n - 1 then mem[p].next else mem[l[k]].next)
      ensures mem'[l[k]].prev == (if k == n + 1 then mem[p].prev else mem[l[k]].prev)
    {
      assert k == n - 1 <==> l[k] == mem[p].prev;
      assert k == n + 1 <==> l[k] == mem[p].next;
    }
    RemoveChain(mem, mem', head, if n == 0 then mem[p].next else head, l, n);
  }

  lemma NeighboursOf(mem: seq<Page>, head: int, l: seq<nat>, n: nat)
    requires Chain(mem, head, l) && n < |l|
    ensures l[n] < |mem|
    ensures mem[l[n]].next == if n + 1 < |l| then l[n + 1] else NIL
    ensures mem[l[n]].prev == if n > 0 then l[n - 1] else NIL
    ensures n > 0 ==> l[n - 1] < |mem| && l[n - 1] in l && l[n - 1] != l[n]
    ensures n + 1 < |l| ==> l[n + 1] < |mem| && l[n + 1] in l && l[n + 1] != l[n]
  {
  }

  // ---- the number of frames on the lists ----

  /** Sum over the first `n` orders of list length times block size. */
  ghost function Weight(chains: Chains, n: nat): nat
    requires n <= |chains|
  {
    if n == 0 then 0 else Weight(chains, n - 1) + |chains[n - 1]| * Pow2(n - 1)
  }

  lemma {:induction false} WeightUpdate(chains: Chains, o: nat, l: seq<nat>, n: nat)
    requires o < |chains| && n <= |chains|
    ensures Weight(chains[o := l], n) == Weight(chains, n) + if o < n then (|l| - |chains[o]|) * Pow2(o) else 0
  {
    if n > 0 {
      WeightUpdate(chains, o, l, n - 1);
      if o == n - 1 {
        assert |l| * Pow2(o) == |chains[o]| * Pow2(o) + (|l| - |chains[o]|) * Pow2(o);
      }
    }
  }
}
