/** Copy-on-write memory on values (kernel/src/mm/vmm.c): what page tables, reference counts and frame
    contents have to agree on, and the eager-copy memory that they stand for.  */
module CowMemory {
  import opened Common
  import opened PageTree
  import opened Pmm
  import FreeLists

  /** A page of a space: the space's root table and the page number. */
  type Key = (nat, nat)

  type Bytes = seq<byte>

  function Zeros(): (z: Bytes)
    ensures |z| == PAGE_SIZE
  {
    seq(PAGE_SIZE, _ => 0)
  }

  /** What a VAD grants: the protection bits and whether forks share its pages. */
  datatype Prot = Prot(flags: set<PFlag>, shared: bool)

  // ---- the eager-copy memory ----

  /** Every page has an object that holds its bytes; only pages shared on purpose have a common object. */
  datatype Eager = Eager(obj: map<Key, nat>, store: map<nat, Bytes>, next: nat)

  /** The bytes that page `k` shows. */
  function Visible(e: Eager, k: Key): Bytes {
    if k in e.obj && e.obj[k] in e.store then e.store[e.obj[k]] else []
  }

  /** Every page has an object, and objects are numbered in the order of their making. */
  predicate EagerOk(e: Eager) {
    && (forall k | k in e.obj :: e.obj[k] in e.store)
    && (forall o | o in e.store :: o < e.next)
  }

  function EagerDrop(e: Eager, k: Key): Eager {
    e.(obj := e.obj - {k})
  }

  function EagerBind(e: Eager, k: Key, o: nat): Eager {
    e.(obj := e.obj[k := o])
  }

  /** A new object with the given bytes. */
  function EagerNew(e: Eager, bytes: Bytes): Eager {
    Eager(e.obj, e.store[e.next := bytes], e.next + 1)
  }

  lemma SeenOf(e: Eager, k: Key)
    requires k in e.obj && e.obj[k] in e.store
    ensures Visible(e, k) == e.store[e.obj[k]]
  {
  }

  /** An object that no page has is not seen. */
  lemma NewUnseen(e: Eager, bytes: Bytes)
    requires EagerOk(e)
    ensures EagerNew(e, bytes).obj == e.obj && forall k | k in e.obj :: Visible(EagerNew(e, bytes), k) == Visible(e, k)
  {
  }

  function EagerStore(e: Eager, k: Key, off: nat, b: byte): Eager
    requires k in e.obj && e.obj[k] in e.store && off < |e.store[e.obj[k]]|
  {
    e.(store := e.store[e.obj[k] := e.store[e.obj[k]][off := b]])
  }

  // ---- copy-on-write ----

  /** The leaf entries of all spaces, what their VADs grant, memory, and the eager memory meant. */
  datatype View = View(leaves: map<Key, Entry>, perm: map<Key, Prot>, ram: seq<Bytes>, eager: Eager)

  /** The pages that frame `f` backs. */
  function Users(leaves: map<Key, Entry>, f: nat): set<Key> {
    set k | k in leaves && leaves[k].Present? && leaves[k].frame == f
  }

  /** The protection of a leaf is its VAD's, or that without the write bit while a private page is shared. */
  predicate LeafFlags(flags: set<PFlag>, p: Prot, cow: bool) {
    flags == p.flags || (cow && !p.shared && Write in p.flags && flags == p.flags - {Write})
  }

  /** Every reference to a data frame is a leaf entry, or is in the hands of the running operation.
      `rest` are the allocated frames that hold no user data. */
  ghost predicate Counted(leaves: map<Key, Entry>, d: Database, rest: set<nat>, held: multiset<nat>) {
    && rest <= d.live.Keys
    && (forall f | f in d.live && f !in rest ::
         d.live[f] == 0 && f < |d.mem| && d.mem[f].refcount == |Users(leaves, f)| + held[f])
    && (forall f | f in held :: f in d.live && f !in rest)
  }

  /** Page `k` is backed by a data frame with the bytes meant for it. */
  ghost predicate PageOk(c: View, d: Database, rest: set<nat>, k: Key)
    requires k in c.leaves && k in c.perm && k in c.eager.obj
  {
    && c.leaves[k].Present? && c.leaves[k].frame < |d.mem| && c.leaves[k].frame < |c.ram|
    && c.leaves[k].frame in d.live && c.leaves[k].frame !in rest
    && LeafFlags(c.leaves[k].flags, c.perm[k], FreeLists.Cow in d.mem[c.leaves[k].frame].flags)
    && c.eager.obj[k] in c.eager.store && c.eager.store[c.eager.obj[k]] == c.ram[c.leaves[k].frame]
  }

  ghost predicate PagesOk(c: View, d: Database, rest: set<nat>)
    requires c.leaves.Keys == c.perm.Keys == c.eager.obj.Keys
  {
    forall k | k in c.leaves :: PageOk(c, d, rest, k)
  }

  /** When two pages may be backed by one frame, and when they have one object. */
  predicate PairOk(e: Entry, p: Prot, o: nat, e': Entry, p': Prot, o': nat)
    requires e.Present? && e'.Present?
  {
    && (e.frame == e'.frame && (Write in e.flags || Write in e'.flags) ==> o == o')
    && (o == o' ==> e.frame == e'.frame && p.shared && p'.shared)
  }

  /** A page with these parts may join the others. */
  ghost predicate FitsWith(c: View, e: Entry, p: Prot, o: nat)
    requires c.leaves.Keys == c.perm.Keys == c.eager.obj.Keys && e.Present?
  {
    forall k | k in c.leaves && c.leaves[k].Present? :: PairOk(e, p, o, c.leaves[k], c.perm[k], c.eager.obj[k])
  }

  ghost predicate SharingOk(c: View)
    requires c.leaves.Keys == c.perm.Keys == c.eager.obj.Keys
  {
    forall k, k' | k in c.leaves && k' in c.leaves && k != k' :: PairAt(c, k, k')
  }

  ghost predicate PairAt(c: View, k: Key, k': Key)
    requires c.leaves.Keys == c.perm.Keys == c.eager.obj.Keys && k in c.leaves && k' in c.leaves
  {
    c.leaves[k].Present? && c.leaves[k'].Present? ==>
      PairOk(c.leaves[k], c.perm[k], c.eager.obj[k], c.leaves[k'], c.perm[k'], c.eager.obj[k'])
  }

  /** Copy-on-write stands for the eager memory, and reference counts count references. */
  ghost predicate CowInv(c: View, d: Database, rest: set<nat>, held: multiset<nat>) {
    && c.leaves.Keys == c.perm.Keys == c.eager.obj.Keys
    && |c.ram| == |d.mem| && (forall f | 0 <= f < |c.ram| :: |c.ram[f]| == PAGE_SIZE)
    && (forall o | o in c.eager.store :: o < c.eager.next)
    && Counted(c.leaves, d, rest, held)
    && PagesOk(c, d, rest)
    && SharingOk(c)
  }

  // ---- counting ----

  lemma UsersAdded(leaves: map<Key, Entry>, k: Key, e: Entry, f: nat)
    requires k !in leaves && e.Present?
    ensures |Users(leaves[k := e], f)| == |Users(leaves, f)| + if e.frame == f then 1 else 0
  {
    if e.frame == f {
      assert Users(leaves[k := e], f) == Users(leaves, f) + {k};
    } else {
      assert Users(leaves[k := e], f) == Users(leaves, f);
    }
  }

  lemma UsersRemoved(leaves: map<Key, Entry>, k: Key, f: nat)
    requires k in leaves && leaves[k].Present?
    ensures |Users(leaves - {k}, f)| == |Users(leaves, f)| - if leaves[k].frame == f then 1 else 0
  {
    if leaves[k].frame == f {
      assert Users(leaves, f) == Users(leaves - {k}, f) + {k};
    } else {
      assert Users(leaves, f) == Users(leaves - {k}, f);
    }
  }

  /** A frame with no allocation backs no page. */
  lemma NoUsers(c: View, d: Database, rest: set<nat>, held: multiset<nat>, f: nat)
    requires CowInv(c, d, rest, held) && (f !in d.live || f in rest)
    ensures Users(c.leaves, f) == {} && held[f] == 0
  {
    forall k | k in c.leaves
      ensures c.leaves[k].frame != f
    {
      assert PageOk(c, d, rest, k);
    }
  }

  /** The last reference to a frame is the one in hand. */
  lemma OnlyHeld(c: View, d: Database, rest: set<nat>, held: multiset<nat>, f: nat)
    requires CowInv(c, d, rest, held) && f in held && d.mem[f].refcount <= held[f]
    ensures Users(c.leaves, f) == {} && d.mem[f].refcount == held[f]
  {
    assert |Users(c.leaves, f)| == 0;
  }

  // ---- the steps of the operations ----

  ghost predicate LiveNotFree(d: Database) {
    forall f | f in d.live :: f !in d.free
  }

  /** A frame has been allocated and is in hand. */
  lemma TookHeld(c: View, d: Database, d': Database, rest: set<nat>, held: multiset<nat>, f: nat)
    requires CowInv(c, d, rest, held) && LiveNotFree(d) && Took(d, d', {f})
    ensures CowInv(c, d', rest, held + multiset{f}) && f !in d.live
    ensures Users(c.leaves, f) == {} && f !in held
  {
    NoUsers(c, d, rest, held, f);
    forall k | k in c.leaves
      ensures PageOk(c, d', rest, k)
    {
      assert PageOk(c, d, rest, k);
    }
  }

  /** Frames have been allocated for page tables. */
  lemma TookRest(c: View, d: Database, d': Database, rest: set<nat>, held: multiset<nat>, N: set<nat>)
    requires CowInv(c, d, rest, held) && LiveNotFree(d) && Took(d, d', N)
    ensures CowInv(c, d', rest + N, held)
  {
    forall k | k in c.leaves
      ensures PageOk(c, d', rest + N, k)
    {
      assert PageOk(c, d, rest, k);
    }
  }

  /** Another part of the kernel takes a block. */
  lemma BlockTaken(c: View, d: Database, d': Database, rest: set<nat>, held: multiset<nat>, p: nat, o: nat)
    requires CowInv(c, d, rest, held) && LiveNotFree(d) && TookBlock(d, d', p, o)
    ensures CowInv(c, d', rest + {p}, held)
  {
    hide SharingOk;
    hide LeafFlags;
    hide Users;
    forall k | k in c.leaves
      ensures PageOk(c, d', rest + {p}, k)
    {
      assert PageOk(c, d, rest, k);
    }
  }

  /** Another part of the kernel gives a reference back, and the block with the last one. */
  lemma BlockGiven(c: View, d: Database, d': Database, rest: set<nat>, held: multiset<nat>, p: nat)
    requires CowInv(c, d, rest, held) && LiveNotFree(d') && p in rest && Released(d, d', p)
    ensures CowInv(c, d', if p in d'.live then rest else rest - {p}, held)
    ensures p in d'.live <==> d.mem[p].refcount > 1
  {
    if d.mem[p].refcount > 1 {
      EntryOfOthers(c, d, d', rest, held, p);
    } else {
      BlockGone(c, d, d', rest, held, p);
    }
    hide CowInv;
  }

  lemma EntryOfOthers(c: View, d: Database, d': Database, rest: set<nat>, held: multiset<nat>, p: nat)
    requires CowInv(c, d, rest, held) && p in rest && p < |d.mem| == |d'.mem| && d' == d.(mem := d'.mem) && d'.mem == d.mem[p := d'.mem[p]]
    ensures CowInv(c, d', rest, held)
  {
    forall k | k in c.leaves
      ensures PageOk(c, d', rest, k)
    {
      assert PageOk(c, d, rest, k);
    }
  }

  lemma BlockGone(c: View, d: Database, d': Database, rest: set<nat>, held: multiset<nat>, p: nat)
    requires CowInv(c, d, rest, held) && LiveNotFree(d') && p in rest
    requires d'.live == d.live - {p} && SameOutside(d.mem, d'.mem, d'.free)
    ensures CowInv(c, d', rest - {p}, held)
  {
    forall k | k in c.leaves
      ensures PageOk(c, d', rest - {p}, k)
    {
      assert PageOk(c, d, rest, k);
    }
  }

  /** Page tables have been freed. */
  lemma GaveRest(c: View, d: Database, d': Database, rest: set<nat>, held: multiset<nat>, N: set<nat>)
    requires CowInv(c, d, rest, held) && LiveNotFree(d') && Gave(d, d', N) && N <= rest
    ensures CowInv(c, d', rest - N, held)
  {
    forall k | k in c.leaves
      ensures PageOk(c, d', rest - N, k)
    {
      assert PageOk(c, d, rest, k);
    }
  }

  /** The entry of a data frame has been rewritten: its references, or its copy-on-write mark. */
  lemma EntryChanged(c: View, d: Database, d': Database, rest: set<nat>, held: multiset<nat>, f: nat, n: nat)
    requires CowInv(c, d, rest, held) && f in d.live && f !in rest
    requires d' == d.(mem := d'.mem) && |d'.mem| == |d.mem| && d'.mem == d.mem[f := d'.mem[f]]
    requires d'.mem[f].refcount == d.mem[f].refcount + n
    requires Users(c.leaves, f) == {} || (FreeLists.Cow in d.mem[f].flags ==> FreeLists.Cow in d'.mem[f].flags)
    ensures CowInv(c, d', rest, held[f := held[f] + n])
  {
    forall k | k in c.leaves
      ensures PageOk(c, d', rest, k)
    {
      assert PageOk(c, d, rest, k);
      assert c.leaves[k].frame == f ==> k in Users(c.leaves, f);
    }
  }

  /** A reference in hand has been dropped, and the frame freed if it was the last. */
  lemma Dropped(c: View, d: Database, d': Database, rest: set<nat>, held: multiset<nat>, f: nat)
    requires CowInv(c, d, rest, held) && f in held && Released(d, d', f) && LiveNotFree(d')
    requires d.mem[f].refcount >= 1
    ensures CowInv(c, d', rest, held - multiset{f})
    ensures f in d'.live <==> d.mem[f].refcount > 1
  {
    if d.mem[f].refcount <= 1 {
      OnlyHeld(c, d, rest, held, f);
      ReleasedSingle(d, d', f);
      DroppedLast(c, d, d', rest, held, f);
    } else {
      assert held[f := held[f] - 1] == held - multiset{f};
      forall k | k in c.leaves
        ensures PageOk(c, d', rest, k)
      {
        assert PageOk(c, d, rest, k);
      }
    }
  }

  /** Giving up a reference frees one frame at most. */
  lemma OneFreed(c: View, d: Database, d': Database, rest: set<nat>, held: multiset<nat>, f: nat)
    requires CowInv(c, d, rest, held) && f in held && Released(d, d', f)
    ensures |d'.free| <= |d.free| + 1
  {
    if d.mem[f].refcount <= 1 {
      ReleasedSingle(d, d', f);
      assert d'.free == d.free + {f};
    }
  }

  lemma DroppedLast(c: View, d: Database, d': Database, rest: set<nat>, held: multiset<nat>, f: nat)
    requires CowInv(c, d, rest, held) && Users(c.leaves, f) == {} && held[f] == 1
    requires Gave(d, d', {f}) && LiveNotFree(d')
    ensures CowInv(c, d', rest, held - multiset{f})
  {
    forall k | k in c.leaves
      ensures PageOk(c, d', rest, k)
    {
      assert PageOk(c, d, rest, k);
      assert k in Users(c.leaves, c.leaves[k].frame);
    }
  }

  function WithoutPage(c: View, k: Key): View {
    View(c.leaves - {k}, c.perm - {k}, c.ram, EagerDrop(c.eager, k))
  }

  function WithPage(c: View, k: Key, e: Entry, p: Prot, o: nat): View {
    View(c.leaves[k := e], c.perm[k := p], c.ram, EagerBind(c.eager, k, o))
  }

  /** A leaf entry has been cleared; its reference is in hand. */
  lemma LeafCleared(c: View, d: Database, rest: set<nat>, held: multiset<nat>, k: Key)
    requires CowInv(c, d, rest, held) && k in c.leaves
    ensures c.leaves[k].Present?
    ensures CowInv(WithoutPage(c, k), d, rest, held + multiset{c.leaves[k].frame})
  {
    assert PageOk(c, d, rest, k);
    ClearedCounts(c.leaves, d, rest, held, k);
    ClearedPages(c, d, rest, k);
    hide Counted;
    hide PagesOk;
    hide SharingOk;
  }

  lemma ClearedPages(c: View, d: Database, rest: set<nat>, k: Key)
    requires c.leaves.Keys == c.perm.Keys == c.eager.obj.Keys && k in c.leaves && PagesOk(c, d, rest) && SharingOk(c)
    ensures PagesOk(WithoutPage(c, k), d, rest) && SharingOk(WithoutPage(c, k))
  {
    var c' := WithoutPage(c, k);
    forall k' | k' in c'.leaves
      ensures PageOk(c', d, rest, k')
    {
      assert PageOk(c, d, rest, k');
    }
    hide PageOk;
    forall k', k'' | k' in c'.leaves && k'' in c'.leaves && k' != k''
      ensures PairAt(c', k', k'')
    {
      assert PairAt(c, k', k'');
    }
  }

  lemma ClearedCounts(leaves: map<Key, Entry>, d: Database, rest: set<nat>, held: multiset<nat>, k: Key)
    requires Counted(leaves, d, rest, held) && k in leaves && leaves[k].Present?
    requires leaves[k].frame in d.live && leaves[k].frame !in rest
    ensures Counted(leaves - {k}, d, rest, held + multiset{leaves[k].frame})
  {
    forall f
      ensures |Users(leaves - {k}, f)| == |Users(leaves, f)| - if leaves[k].frame == f then 1 else 0
    {
      UsersRemoved(leaves, k, f);
    }
    hide Users;
  }

  lemma SetCounts(leaves: map<Key, Entry>, d: Database, rest: set<nat>, held: multiset<nat>, k: Key, e: Entry)
    requires Counted(leaves, d, rest, held) && k !in leaves && e.Present? && e.frame in held
    ensures Counted(leaves[k := e], d, rest, held - multiset{e.frame})
  {
    forall f
      ensures |Users(leaves[k := e], f)| == |Users(leaves, f)| + if e.frame == f then 1 else 0
    {
      UsersAdded(leaves, k, e, f);
    }
    hide Users;
  }

  /** A leaf entry has been set from a reference in hand. */
  lemma LeafSetFromHand(c: View, d: Database, rest: set<nat>, held: multiset<nat>, k: Key, e: Entry, p: Prot, o: nat)
    requires CowInv(c, d, rest, held) && k !in c.leaves
    requires e.Present? && e.frame in held && e.frame < |d.mem|
    requires LeafFlags(e.flags, p, FreeLists.Cow in d.mem[e.frame].flags)
    requires o in c.eager.store && c.eager.store[o] == c.ram[e.frame]
    requires FitsWith(c, e, p, o)
    ensures CowInv(WithPage(c, k, e, p, o), d, rest, held - multiset{e.frame})
  {
    HeldIsCounted(c.leaves, d, rest, held, e.frame);
    hide Counted;
    hide PagesOk;
    hide SharingOk;
    hide FitsWith;
    SetCounts(c.leaves, d, rest, held, k, e);
    JoinedPages(c, d, rest, k, e, p, o);
    JoinedPairs(c, k, e, p, o);
    WithPageParts(c, k, e, p, o);
    hide WithPage;
  }

  lemma WithPageParts(c: View, k: Key, e: Entry, p: Prot, o: nat)
    requires c.leaves.Keys == c.perm.Keys == c.eager.obj.Keys
    ensures var c' := WithPage(c, k, e, p, o);
      && c'.leaves.Keys == c'.perm.Keys == c'.eager.obj.Keys && c'.leaves == c.leaves[k := e]
      && c'.ram == c.ram && c'.eager.store == c.eager.store && c'.eager.next == c.eager.next
  {
  }

  lemma HeldIsCounted(leaves: map<Key, Entry>, d: Database, rest: set<nat>, held: multiset<nat>, f: nat)
    requires Counted(leaves, d, rest, held) && f in held
    ensures f in d.live && f !in rest && f < |d.mem|
  {
  }

  lemma JoinedPages(c: View, d: Database, rest: set<nat>, k: Key, e: Entry, p: Prot, o: nat)
    requires c.leaves.Keys == c.perm.Keys == c.eager.obj.Keys && k !in c.leaves && PagesOk(c, d, rest)
    requires e.Present? && e.frame < |d.mem| && e.frame < |c.ram| && e.frame in d.live && e.frame !in rest
    requires LeafFlags(e.flags, p, FreeLists.Cow in d.mem[e.frame].flags)
    requires o in c.eager.store && c.eager.store[o] == c.ram[e.frame]
    ensures PagesOk(WithPage(c, k, e, p, o), d, rest)
  {
    var c' := WithPage(c, k, e, p, o);
    forall k' | k' in c'.leaves
      ensures PageOk(c', d, rest, k')
    {
      assert k' != k ==> PageOk(c, d, rest, k');
    }
  }

  lemma JoinedPairs(c: View, k: Key, e: Entry, p: Prot, o: nat)
    requires c.leaves.Keys == c.perm.Keys == c.eager.obj.Keys && k !in c.leaves && e.Present?
    requires SharingOk(c) && FitsWith(c, e, p, o)
    ensures SharingOk(WithPage(c, k, e, p, o))
  {
    var c' := WithPage(c, k, e, p, o);
    forall k', k'' | k' in c'.leaves && k'' in c'.leaves && k' != k''
      ensures PairAt(c', k', k'')
    {
      if k' != k && k'' != k {
        assert PairAt(c, k', k'');
      }
    }
  }

  /** The sharing rules do not look at contents. */
  lemma SamePairs(c: View, c': View)
    requires c.leaves.Keys == c.perm.Keys == c.eager.obj.Keys && SharingOk(c)
    requires c'.leaves == c.leaves && c'.perm == c.perm && c'.eager.obj == c.eager.obj
    ensures SharingOk(c')
  {
    forall k, k' | k in c'.leaves && k' in c'.leaves && k != k'
      ensures PairAt(c', k, k')
    {
      assert PairAt(c, k, k');
    }
  }

  /** A frame that backs no page has been written. */
  lemma FrameWritten(c: View, d: Database, rest: set<nat>, held: multiset<nat>, f: nat, bytes: Bytes)
    requires CowInv(c, d, rest, held) && f < |c.ram| && Users(c.leaves, f) == {} && |bytes| == PAGE_SIZE
    ensures CowInv(c.(ram := c.ram[f := bytes]), d, rest, held)
  {
    var c' := c.(ram := c.ram[f := bytes]);
    SamePairs(c, c');
    hide Counted;
    hide SharingOk;
    forall k | k in c'.leaves
      ensures PageOk(c', d, rest, k)
    {
      assert PageOk(c, d, rest, k);
      assert k in Users(c.leaves, c.leaves[k].frame);
    }
  }

  /** The eager memory gets an object that no page has yet. */
  lemma ObjectAdded(c: View, d: Database, rest: set<nat>, held: multiset<nat>, bytes: Bytes)
    requires CowInv(c, d, rest, held)
    ensures CowInv(c.(eager := EagerNew(c.eager, bytes)), d, rest, held)
    ensures forall k | k in c.leaves :: c.eager.obj[k] != c.eager.next
  {
    var c' := c.(eager := EagerNew(c.eager, bytes));
    SamePairs(c, c');
    hide Counted;
    hide SharingOk;
    forall k | k in c'.leaves
      ensures PageOk(c', d, rest, k) && c.eager.obj[k] != c.eager.next
    {
      assert PageOk(c, d, rest, k);
    }
  }

  /** Objects that no page has do not matter. */
  lemma ObjectsForgotten(c: View, d: Database, rest: set<nat>, held: multiset<nat>, e: Eager)
    requires CowInv(c, d, rest, held) && e.obj == c.eager.obj && EagerOk(e)
    requires forall k | k in e.obj :: Visible(e, k) == Visible(c.eager, k)
    ensures CowInv(c.(eager := e), d, rest, held)
  {
    var c' := c.(eager := e);
    SamePairs(c, c');
    hide Counted;
    hide SharingOk;
    forall k | k in c'.leaves
      ensures PageOk(c', d, rest, k)
    {
      assert PageOk(c, d, rest, k);
    }
  }

  /** A byte has been stored through a writable leaf: exactly the pages that share the object show it. */
  lemma ByteStored(c: View, d: Database, rest: set<nat>, held: multiset<nat>, k: Key, off: nat, b: byte)
    requires CowInv(c, d, rest, held) && k in c.leaves && off < PAGE_SIZE
    requires c.leaves[k].Present? && Write in c.leaves[k].flags
    ensures c.leaves[k].frame < |c.ram| && |c.ram[c.leaves[k].frame]| == PAGE_SIZE
    ensures c.eager.obj[k] in c.eager.store && |c.eager.store[c.eager.obj[k]]| == PAGE_SIZE
    ensures var f := c.leaves[k].frame;
      CowInv(c.(ram := c.ram[f := c.ram[f][off := b]], eager := EagerStore(c.eager, k, off, b)), d, rest, held)
  {
    assert PageOk(c, d, rest, k);
    var f := c.leaves[k].frame;
    var c' := c.(ram := c.ram[f := c.ram[f][off := b]], eager := EagerStore(c.eager, k, off, b));
    SamePairs(c, c');
    StoredPages(c, d, rest, k, off, b);
    hide Counted;
    hide SharingOk;
    hide PagesOk;
    hide PageOk;
  }

  lemma StoredPages(c: View, d: Database, rest: set<nat>, k: Key, off: nat, b: byte)
    requires c.leaves.Keys == c.perm.Keys == c.eager.obj.Keys && PagesOk(c, d, rest) && SharingOk(c)
    requires k in c.leaves && PageOk(c, d, rest, k)
    requires off < |c.ram[c.leaves[k].frame]| && Write in c.leaves[k].flags
    ensures var f := c.leaves[k].frame;
      PagesOk(c.(ram := c.ram[f := c.ram[f][off := b]], eager := EagerStore(c.eager, k, off, b)), d, rest)
  {
    var f := c.leaves[k].frame;
    var c' := c.(ram := c.ram[f := c.ram[f][off := b]], eager := EagerStore(c.eager, k, off, b));
    forall k' | k' in c'.leaves
      ensures PageOk(c', d, rest, k')
    {
      assert PageOk(c, d, rest, k');
      assert k' != k ==> PairAt(c, k, k');
    }
  }

  // ---- when a page may join ----

  predicate Unused(e: Eager, o: nat) {
    forall k | k in e.obj :: e.obj[k] != o
  }

  /** A frame of its own and an object of its own. */
  lemma FreshFits(c: View, d: Database, rest: set<nat>, held: multiset<nat>, e: Entry, p: Prot, o: nat)
    requires CowInv(c, d, rest, held) && e.Present? && Users(c.leaves, e.frame) == {} && Unused(c.eager, o)
    ensures FitsWith(c, e, p, o)
  {
    forall k | k in c.leaves && c.leaves[k].Present?
      ensures PairOk(e, p, o, c.leaves[k], c.perm[k], c.eager.obj[k])
    {
      assert k in Users(c.leaves, c.leaves[k].frame);
    }
  }

  /** A second mapping of a page that is shared on purpose. */
  lemma SharedFits(c: View, d: Database, rest: set<nat>, held: multiset<nat>, k: Key)
    requires CowInv(c, d, rest, held) && k in c.leaves && c.leaves[k].Present? && c.perm[k].shared
    ensures c.leaves[k].flags == c.perm[k].flags
    ensures FitsWith(c, c.leaves[k], c.perm[k], c.eager.obj[k])
  {
    assert PageOk(c, d, rest, k);
    hide Counted;
    hide PageOk;
    forall k' | k' in c.leaves && c.leaves[k'].Present?
      ensures PairOk(c.leaves[k], c.perm[k], c.eager.obj[k], c.leaves[k'], c.perm[k'], c.eager.obj[k'])
    {
      assert k' != k ==> PairAt(c, k, k');
    }
  }

  /** A read-only second mapping of a private page whose own leaf is read-only. */
  lemma CopyFits(c: View, d: Database, rest: set<nat>, held: multiset<nat>, k: Key, e: Entry, p: Prot, o: nat)
    requires CowInv(c, d, rest, held) && k in c.leaves && c.leaves[k].Present? && !c.perm[k].shared
    requires e.Present? && e.frame == c.leaves[k].frame && Write !in c.leaves[k].flags && Write !in e.flags
    requires Unused(c.eager, o)
    ensures FitsWith(c, e, p, o)
  {
    hide Counted;
    hide PagesOk;
    forall k' | k' in c.leaves && c.leaves[k'].Present?
      ensures PairOk(e, p, o, c.leaves[k'], c.perm[k'], c.eager.obj[k'])
    {
      assert k' != k ==> PairAt(c, k, k');
    }
  }

  /** A private page comes back to its object: read-only on its frame, or in any way on a frame of its own. */
  lemma RebindFits(c: View, d: Database, rest: set<nat>, held: multiset<nat>, k: Key, e: Entry)
    requires CowInv(c, d, rest, held) && k in c.leaves && c.leaves[k].Present? && !c.perm[k].shared && e.Present?
    requires (e.frame == c.leaves[k].frame && Write !in e.flags) || Users(c.leaves - {k}, e.frame) == {}
    ensures FitsWith(WithoutPage(c, k), e, c.perm[k], c.eager.obj[k])
  {
    hide Counted;
    hide PagesOk;
    var c' := WithoutPage(c, k);
    forall k' | k' in c'.leaves && c'.leaves[k'].Present?
      ensures PairOk(e, c.perm[k], c.eager.obj[k], c'.leaves[k'], c'.perm[k'], c'.eager.obj[k'])
    {
      assert PairAt(c, k, k') && PairAt(c, k', k);
      assert k' in Users(c.leaves - {k}, c.leaves[k'].frame);
    }
  }

  /** A data frame's count is the number of pages that it backs when no operation is running. */
  lemma CountsAreUsers(c: View, d: Database, rest: set<nat>, f: nat)
    requires CowInv(c, d, rest, multiset{}) && f in d.live && f !in rest
    ensures f < |d.mem| && d.mem[f].refcount == |Users(c.leaves, f)|
    ensures d.mem[f].refcount >= 1 ==> exists k :: k in c.leaves && c.leaves[k].Present? && c.leaves[k].frame == f
  {
    if d.mem[f].refcount >= 1 {
      var k :| k in Users(c.leaves, f);
    }
  }

  lemma EagerIsOk(c: View, d: Database, rest: set<nat>, held: multiset<nat>)
    requires CowInv(c, d, rest, held)
    ensures EagerOk(c.eager)
  {
    forall k | k in c.eager.obj
      ensures c.eager.obj[k] in c.eager.store
    {
      assert PageOk(c, d, rest, k);
    }
  }

  /** The memory that programs see is the eager one. */
  lemma SeesEager(c: View, d: Database, rest: set<nat>, held: multiset<nat>, k: Key)
    requires CowInv(c, d, rest, held) && k in c.leaves
    ensures c.leaves[k].Present? && c.leaves[k].frame < |c.ram|
    ensures Visible(c.eager, k) == c.ram[c.leaves[k].frame] && |Visible(c.eager, k)| == PAGE_SIZE
  {
    assert PageOk(c, d, rest, k);
  }

  // ---- what the operations do to the eager memory ----

  /** Pages `S` of space `r` have been added, each with a zeroed object of its own. */
  ghost predicate Committed(e0: Eager, e: Eager, r: nat, S: set<nat>) {
    && e.obj.Keys == e0.obj.Keys + PagesOf(r, S) && e0.obj.Keys !! PagesOf(r, S)
    && Keeps(e0, e)
    && (forall v | v in S :: NewObject(e0, e, (r, v)) && e.store[e.obj[(r, v)]] == Zeros())
    && (forall v, w | v in S && w in S && v != w :: e.obj[(r, v)] != e.obj[(r, w)])
  }

  function PagesOf(r: nat, S: set<nat>): set<Key> {
    set v | v in S :: (r, v)
  }

  /** Old pages have their objects, and old objects their bytes. */
  ghost predicate Keeps(e0: Eager, e: Eager) {
    && (forall k | k in e0.obj :: k in e.obj && e.obj[k] == e0.obj[k])
    && (forall o | o in e0.store :: o in e.store && e.store[o] == e0.store[o])
    && e0.next <= e.next
  }

  ghost predicate NewObject(e0: Eager, e: Eager, k: Key) {
    k in e.obj && e0.next <= e.obj[k] < e.next && e.obj[k] in e.store
  }

  /** Pages `S` of space `src` have been copied to `dst`, one by one, except for the shared ones. */
  ghost predicate Forked(e0: Eager, e: Eager, perm: map<Key, Prot>, src: nat, dst: nat, S: set<nat>) {
    && e.obj.Keys == e0.obj.Keys + PagesOf(dst, S) && e0.obj.Keys !! PagesOf(dst, S)
    && Keeps(e0, e)
    && (forall v | v in S :: ForkedPage(e0, e, perm, (src, v), (dst, v)))
    && (forall v, w | v in S && w in S && v != w && (dst, v) in e.obj && (dst, w) in e.obj &&
          e.obj[(dst, v)] == e.obj[(dst, w)] :: (src, v) in perm && perm[(src, v)].shared)
  }

  ghost predicate ForkedPage(e0: Eager, e: Eager, perm: map<Key, Prot>, k: Key, k': Key) {
    && k in e0.obj && k in perm && k' in e.obj
    && Visible(e, k') == Visible(e0, k)
    && (if perm[k].shared then e.obj[k'] == e0.obj[k] else NewObject(e0, e, k'))
  }

  lemma NothingCommitted(e: Eager, r: nat)
    ensures Committed(e, e, r, {})
  {
    assert PagesOf(r, {}) == {};
  }

  lemma CommitStep(e0: Eager, e: Eager, r: nat, S: set<nat>, v: nat)
    requires Committed(e0, e, r, S) && (r, v) !in e.obj && EagerOk(e)
    ensures Committed(e0, EagerBind(EagerNew(e, Zeros()), (r, v), e.next), r, S + {v})
  {
    assert PagesOf(r, S + {v}) == PagesOf(r, S) + {(r, v)};
    OldPages(r, S, v);
    hide PagesOf;
    hide Zeros;
    var e' := EagerBind(EagerNew(e, Zeros()), (r, v), e.next);
    assert Keeps(e0, e');
    forall w | w in S + {v}
      ensures NewObject(e0, e', (r, w)) && e'.store[e'.obj[(r, w)]] == Zeros()
      ensures w != v ==> e'.obj[(r, w)] == e.obj[(r, w)] < e.next
    {
      assert w in S ==> NewObject(e0, e, (r, w));
    }
    hide Keeps;
  }

  lemma OldPages(r: nat, S: set<nat>, v: nat)
    ensures forall w | w in S :: (r, w) in PagesOf(r, S)
  {
  }

  lemma NothingForked(e: Eager, perm: map<Key, Prot>, src: nat, dst: nat)
    ensures Forked(e, e, perm, src, dst, {})
  {
    assert PagesOf(dst, {}) == {};
  }

  /** One page of a fork. */
  function ForkPage(e: Eager, src: Key, dst: Key, shared: bool): Eager
    requires src in e.obj && e.obj[src] in e.store
  {
    if shared then EagerBind(e, dst, e.obj[src])
    else EagerBind(EagerNew(e, Visible(e, src)), dst, e.next)
  }

  lemma ForkStep(e0: Eager, e: Eager, perm: map<Key, Prot>, src: nat, dst: nat, S: set<nat>, v: nat)
    requires Forked(e0, e, perm, src, dst, S) && (dst, v) !in e.obj && src != dst
    requires (src, v) in e0.obj && (src, v) in perm && EagerOk(e0) && EagerOk(e)
    ensures (src, v) in e.obj && e.obj[(src, v)] in e.store
    ensures Forked(e0, ForkPage(e, (src, v), (dst, v), perm[(src, v)].shared), perm, src, dst, S + {v})
  {
    assert PagesOf(dst, S + {v}) == PagesOf(dst, S) + {(dst, v)};
    var e' := ForkPage(e, (src, v), (dst, v), perm[(src, v)].shared);
    forall w | w in S + {v}
      ensures ForkedPage(e0, e', perm, (src, w), (dst, w))
    {
      if w != v {
        assert ForkedPage(e0, e, perm, (src, w), (dst, w)) && (dst, w) in PagesOf(dst, S);
        assert e0.obj[(src, w)] in e0.store;
      }
    }
    forall w, w' | w in S + {v} && w' in S + {v} && w != w' && e'.obj[(dst, w)] == e'.obj[(dst, w')]
      ensures (src, w) in perm && perm[(src, w)].shared
    {
      assert ForkedPage(e0, e', perm, (src, w), (dst, w)) && ForkedPage(e0, e', perm, (src, w'), (dst, w'));
      assert e0.obj[(src, w')] in e0.store;
    }
  }
}
