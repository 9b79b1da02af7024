/** Properties of the eager-copy memory that copy-on-write stands for (kernel/src/mm/vmm.c:421-576): who sees
    a write, and what a fork keeps apart.  */
module EagerMemory {
  import opened Common
  import opened CowMemory
  import opened Pmm

  datatype Write = Write(k: Key, off: nat, b: byte)

  /** A program's writes, one after the other; those outside its memory have no effect. */
  function AfterWrites(e: Eager, ws: seq<Write>): Eager
    decreases |ws|
  {
    if ws == [] then e
    else AfterWrites(AfterWrite(e, ws[0]), ws[1..])
  }

  function AfterWrite(e: Eager, w: Write): Eager {
    if w.k in e.obj && e.obj[w.k] in e.store && w.off < |e.store[e.obj[w.k]]| then EagerStore(e, w.k, w.off, w.b) else e
  }

  /** A write shows in exactly the pages that share the written page's object. */
  lemma WriteShows(e: Eager, k: Key, off: nat, b: byte, k': Key)
    requires EagerOk(e) && k in e.obj && k' in e.obj && off < |e.store[e.obj[k]]|
    ensures EagerOk(EagerStore(e, k, off, b))
    ensures Visible(EagerStore(e, k, off, b), k') ==
      if e.obj[k'] == e.obj[k] then Visible(e, k')[off := b] else Visible(e, k')
  {
  }

  /** Page `k` shares its object with no other. */
  predicate Private(e: Eager, k: Key) {
    k in e.obj && forall k' | k' in e.obj && k' != k :: e.obj[k'] != e.obj[k]
  }

  /** Copy-on-write keeps a page that is not shared on purpose to itself. */
  lemma UnsharedIsPrivate(c: View, d: Database, rest: set<nat>, held: multiset<nat>, k: Key)
    requires CowInv(c, d, rest, held) && k in c.leaves && k in c.perm && !c.perm[k].shared
    ensures Private(c.eager, k)
  {
    assert PageOk(c, d, rest, k);
    forall k' | k' in c.eager.obj && k' != k
      ensures c.eager.obj[k'] != c.eager.obj[k]
    {
      assert PageOk(c, d, rest, k') && PairAt(c, k, k');
    }
  }

  /** Whatever is written elsewhere, a private page shows the same bytes. */
  lemma {:induction false} OthersWriteInVain(e: Eager, ws: seq<Write>, k: Key)
    requires EagerOk(e) && Private(e, k) && forall i | 0 <= i < |ws| :: ws[i].k != k
    ensures Visible(AfterWrites(e, ws), k) == Visible(e, k)
    decreases |ws|
  {
    if ws != [] {
      var e' := AfterWrite(e, ws[0]);
      assert EagerOk(e') && Private(e', k);
      OthersWriteInVain(e', ws[1..], k);
    }
  }

  /** A fork is a snapshot: a private page and its copy start with the same bytes, and neither sees what is
      written later to any other page, the other one of the two included. */
  lemma ForkIsSnapshot(e0: Eager, e: Eager, perm: map<Key, Prot>, src: nat, dst: nat, S: set<nat>, v: nat, ws: seq<Write>)
    requires EagerOk(e0) && EagerOk(e) && Forked(e0, e, perm, src, dst, S) && v in S && src != dst
    requires Private(e0, (src, v)) && (src, v) in perm && !perm[(src, v)].shared
    ensures Visible(e, (dst, v)) == Visible(e, (src, v)) == Visible(e0, (src, v))
    ensures (forall i | 0 <= i < |ws| :: ws[i].k != (dst, v)) ==>
      Visible(AfterWrites(e, ws), (dst, v)) == Visible(e0, (src, v))
    ensures (forall i | 0 <= i < |ws| :: ws[i].k != (src, v)) ==>
      Visible(AfterWrites(e, ws), (src, v)) == Visible(e0, (src, v))
  {
    assert ForkedPage(e0, e, perm, (src, v), (dst, v));
    assert e0.obj[(src, v)] in e0.store;
    CopyIsPrivate(e0, e, perm, src, dst, S, v);
    if forall i | 0 <= i < |ws| :: ws[i].k != (dst, v) {
      OthersWriteInVain(e, ws, (dst, v));
    }
    if forall i | 0 <= i < |ws| :: ws[i].k != (src, v) {
      OthersWriteInVain(e, ws, (src, v));
    }
  }

  lemma CopyIsPrivate(e0: Eager, e: Eager, perm: map<Key, Prot>, src: nat, dst: nat, S: set<nat>, v: nat)
    requires EagerOk(e0) && Forked(e0, e, perm, src, dst, S) && v in S && src != dst
    requires Private(e0, (src, v)) && (src, v) in perm && !perm[(src, v)].shared
    ensures Private(e, (dst, v)) && Private(e, (src, v))
  {
    assert ForkedPage(e0, e, perm, (src, v), (dst, v));
    forall k | k in e.obj
      ensures k != (dst, v) ==> e.obj[k] != e.obj[(dst, v)]
      ensures k != (src, v) ==> e.obj[k] != e.obj[(src, v)]
    {
      assert e0.obj[(src, v)] in e0.store;
      if k in e0.obj {
        assert e0.obj[k] in e0.store;
      } else {
        var w := k.1;
        assert k == (dst, w) && w in S && ForkedPage(e0, e, perm, (src, w), (dst, w));
        assert e0.obj[(src, w)] in e0.store;
      }
    }
  }

  /** A page that is shared on purpose stays shared: parent and child see each other's writes. */
  lemma ForkKeepsSharing(e0: Eager, e: Eager, perm: map<Key, Prot>, src: nat, dst: nat, S: set<nat>, v: nat, off: nat, b: byte)
    requires EagerOk(e0) && EagerOk(e) && Forked(e0, e, perm, src, dst, S) && v in S
    requires (src, v) in perm && perm[(src, v)].shared && (src, v) in e0.obj && off < |Visible(e0, (src, v))|
    ensures (dst, v) in e.obj && (src, v) in e.obj
    ensures e.obj[(dst, v)] in e.store && off < |e.store[e.obj[(dst, v)]]|
    ensures Visible(EagerStore(e, (dst, v), off, b), (src, v)) == Visible(e0, (src, v))[off := b]
  {
    assert ForkedPage(e0, e, perm, (src, v), (dst, v));
    assert e0.obj[(src, v)] in e0.store;
  }
}
