/** What mapping, unmapping and forking do to the pages of a space, in terms of the descriptors that contain
    them (kernel/src/mm/vmm.c:219-256, 421-472, 506-576).  */
module SpaceMeaning {
  import opened Common
  import opened PageTree
  import opened Pmm
  import opened CowMemory
  import opened SpaceState
  import V = Vad

  /** Page `v` lies in the area that the descriptor describes. */
  predicate Covers(vad: V.Vad, v: nat) {
    vad.start <= v * PAGE_SIZE < vad.end
  }

  /** Page `k` lies in the `length` bytes from `base` on of space `r`. */
  predicate Within(k: Key, r: nat, base: nat, length: nat) {
    k.0 == r && base <= k.1 * PAGE_SIZE < base + length
  }

  /** Every page lies in an area of its space, which says whether forks share it and what may be done to it. */
  lemma GrantedMeans(lists: map<nat, seq<V.Vad>>, perm: map<Key, Prot>, k: Key)
    requires UserLists(lists) && Granted(lists, perm) && k in perm
    ensures k.0 in lists && exists i :: 0 <= i < |lists[k.0]| && Covers(lists[k.0][i], k.1)
    ensures forall i | 0 <= i < |lists[k.0]| && Covers(lists[k.0][i], k.1) ::
      && (perm[k].shared <==> V.Shared in lists[k.0][i].flags)
      && forall x: PFlag :: x in perm[k].flags <==> V.Bit(x) in lists[k.0][i].flags
  {
    var list := lists[k.0];
    assert UserList(list) && GrantedBy(list, k.1, perm[k]);
    V.FlagsMeanVad(list, k.1 * PAGE_SIZE);
    V.SomeIsContained(list, k.1 * PAGE_SIZE);
    forall i | 0 <= i < |list| && Covers(list[i], k.1)
      ensures V.FlagsAt(list, k.1 * PAGE_SIZE) == Some(list[i].flags)
    {
      assert V.Contains(list[i], k.1 * PAGE_SIZE);
    }
    var i :| 0 <= i < |list| && V.Contains(list[i], k.1 * PAGE_SIZE);
    assert Covers(list[i], k.1);
  }

  // ---- forks ----

  /** The child's page has the parent's object if the area is shared, and else a new one with the same bytes. */
  ghost predicate ForkedBy(flags: set<V.VFlag>, a: Eager, b: Eager, k: Key, k': Key) {
    && k in a.obj && k' in b.obj && Visible(b, k') == Visible(a, k)
    && if V.Shared in flags then b.obj[k'] == a.obj[k] else b.obj[k'] !in a.store
  }

  /** Each page of space `src` has been forked to space `dst` as its area says. */
  ghost predicate ForkedAsDescribed(list: seq<V.Vad>, a: View, b: View, src: nat, dst: nat) {
    forall i, v: nat | 0 <= i < |list| && Covers(list[i], v) && (src, v) in a.leaves ::
      ForkedBy(list[i].flags, a.eager, b.eager, (src, v), (dst, v))
  }

  /** Both sides have the page on the frame that it had, and an old page elsewhere is as it was. */
  ghost predicate SameFrames(a: View, b: View, src: nat, dst: nat) {
    && (forall v: nat | (src, v) in a.leaves ::
          && (src, v) in b.leaves && (dst, v) in b.leaves && b.leaves[(dst, v)] == b.leaves[(src, v)]
          && b.leaves[(src, v)].Present? && a.leaves[(src, v)].Present?
          && b.leaves[(src, v)].frame == a.leaves[(src, v)].frame)
    && (forall k | k in a.leaves && k.0 != src :: k in b.leaves && b.leaves[k] == a.leaves[k])
    && (forall v: nat | (dst, v) in b.leaves && (dst, v) !in a.leaves :: (src, v) in a.leaves)
  }

  lemma ForkMeans(lists: map<nat, seq<V.Vad>>, a: View, b: View, src: nat, dst: nat, S: set<nat>)
    requires UserLists(lists) && Granted(lists, a.perm) && src in lists && EagerOk(a.eager)
    requires a.leaves.Keys == a.perm.Keys == a.eager.obj.Keys
    requires ForkedSome(a, b, src, dst, S) && forall v: nat :: v in S <==> (src, v) in a.leaves
    ensures ForkedAsDescribed(lists[src], a, b, src, dst)
  {
    var list := lists[src];
    forall i, v: nat | 0 <= i < |list| && Covers(list[i], v) && (src, v) in a.leaves
      ensures ForkedBy(list[i].flags, a.eager, b.eager, (src, v), (dst, v))
    {
      assert v in S;
      assert ForkedPage(a.eager, b.eager, a.perm, (src, v), (dst, v));
      GrantedMeans(lists, a.perm, (src, v));
    }
  }

  lemma ForkFrames(a: View, b: View, src: nat, dst: nat, S: set<nat>)
    requires ForkedSome(a, b, src, dst, S) && src != dst && forall v: nat :: v in S <==> (src, v) in a.leaves
    requires forall k | k in a.leaves :: a.leaves[k].Present? && k.0 != dst
    ensures SameFrames(a, b, src, dst)
  {
    hide Forked;
    hide PermForked;
    forall v: nat | (src, v) in a.leaves
      ensures SameLeaf(a, b, (src, v), (dst, v))
    {
      assert v in S;
    }
    forall v: nat | (dst, v) in b.leaves && (dst, v) !in a.leaves
      ensures (src, v) in a.leaves
    {
      assert (dst, v) in PagesOf(dst, S);
    }
  }

  // ---- mapping and unmapping ----

  /** A page with the protection that was asked for, all of whose bytes are 0. */
  ghost predicate NewPage(c: View, k: Key, flags: set<V.VFlag>) {
    && k in c.leaves && c.leaves[k].Present? && (forall x: PFlag :: x in c.leaves[k].flags <==> V.Bit(x) in flags)
    && |Visible(c.eager, k)| == PAGE_SIZE && forall j | 0 <= j < PAGE_SIZE :: Visible(c.eager, k)[j] == 0
  }

  /** Outside the range there are the pages that were there, on the same frames and with the same bytes. */
  ghost predicate SameOutsideOf(a: View, b: View, r: nat, base: nat, length: nat) {
    forall k | !Within(k, r, base, length) ::
      && (k in b.leaves <==> k in a.leaves)
      && (k in a.leaves ==> b.leaves[k] == a.leaves[k] && Visible(b.eager, k) == Visible(a.eager, k))
  }

  /** In the range there were no pages, and now every one is there, new. */
  ghost predicate AllNew(a: View, b: View, r: nat, base: nat, length: nat, flags: set<V.VFlag>) {
    forall v: nat | base <= v * PAGE_SIZE < base + length :: (r, v) !in a.leaves && NewPage(b, (r, v), flags)
  }

  lemma GrewMeans(a: View, b: View, r: nat, base: nat, length: nat, flags: set<V.VFlag>)
    requires PageAligned(base) && EagerOk(a.eager) && a.eager.obj.Keys == a.leaves.Keys
    requires Grew(a, b, r, base / PAGE_SIZE, (base + V.AlignUp(length)) / PAGE_SIZE, ProtOf(flags))
    ensures AllNew(a, b, r, base, length, flags) && SameOutsideOf(a, b, r, base, length)
  {
    var lo, hi := base / PAGE_SIZE, (base + V.AlignUp(length)) / PAGE_SIZE;
    forall v: nat
      ensures base <= v * PAGE_SIZE < base + length <==> lo <= v < hi
    {
      PagesReached(base, length, v);
    }
    forall v: nat | base <= v * PAGE_SIZE < base + length
      ensures (r, v) !in a.leaves && NewPage(b, (r, v), flags)
    {
      IsKey(r, lo, hi, (r, v));
      assert NewObject(a.eager, b.eager, (r, v));
    }
    forall k | !Within(k, r, base, length)
      ensures k in b.leaves <==> k in a.leaves
      ensures k in a.leaves ==> b.leaves[k] == a.leaves[k] && Visible(b.eager, k) == Visible(a.eager, k)
    {
      IsKey(r, lo, hi, k);
    }
  }

  lemma PagesReached(base: nat, length: nat, v: nat)
    requires PageAligned(base)
    ensures base <= v * PAGE_SIZE < base + length <==> base / PAGE_SIZE <= v < (base + V.AlignUp(length)) / PAGE_SIZE
  {
    V.AlignUpIsLeast(length, 0);
    var b := base / PAGE_SIZE;
    assert base == b * PAGE_SIZE;
    var n := V.AlignUp(length) / PAGE_SIZE;
    assert V.AlignUp(length) == n * PAGE_SIZE;
    assert (base + V.AlignUp(length)) / PAGE_SIZE == b + n;
    if v < b + n {
      assert v * PAGE_SIZE <= (b + n - 1) * PAGE_SIZE;
    }
  }

  /** In the range there is no page any more. */
  ghost predicate Cleared(c: View, r: nat, base: nat, length: nat) {
    forall v: nat | base <= v * PAGE_SIZE < base + length :: (r, v) !in c.leaves && (r, v) !in c.eager.obj
  }

  lemma WithoutMeans(a: View, b: View, r: nat, lo: nat, hi: nat)
    requires PageAligned(lo) && PageAligned(hi) && lo <= hi && a.eager.obj.Keys == a.leaves.Keys
    requires b == WithoutPages(a, KeysOf(r, lo / PAGE_SIZE, hi / PAGE_SIZE))
    ensures Cleared(b, r, lo, hi - lo) && SameOutsideOf(a, b, r, lo, hi - lo)
  {
    forall k: Key
      ensures k in KeysOf(r, lo / PAGE_SIZE, hi / PAGE_SIZE) <==> Within(k, r, lo, hi - lo)
    {
      IsKey(r, lo / PAGE_SIZE, hi / PAGE_SIZE, k);
      assert lo == lo / PAGE_SIZE * PAGE_SIZE && hi == hi / PAGE_SIZE * PAGE_SIZE;
    }
  }
}
