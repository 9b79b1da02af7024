/** Taking a space's tables apart and making new roots, on values (kernel/src/mm/paging.c:223-282). */
module PageTreePrune {
  import opened PageTree

  // ---- new roots ----

  /** `ptable_create`: an empty lower half and a copy of the kernel's upper half. */
  predicate RootRow(row: seq<Entry>, kernelRow: seq<Entry>) {
    && |row| == |kernelRow| == 512
    && forall k: nat | k < 512 :: row[k] == if k < 256 then Absent else kernelRow[k]
  }

  lemma NewRoot(tables: Tables, at: Layout, kroot: nat, f: nat, row: seq<Entry>)
    requires Tree(tables, at, kroot) && RootOf(kroot) in at && f !in tables
    requires at[RootOf(kroot)] in tables && RootRow(row, tables[at[RootOf(kroot)]])
    ensures RootOf(f) !in at && Tree(tables[f := row], at[RootOf(f) := f], kroot)
    ensures SameLeaves(tables, at, tables[f := row], at[RootOf(f) := f])
  {
    var kr := RootOf(kroot);
    assert Stored(tables, at, kr) && DownOk(tables, at, kroot, kr);
    assert RootOf(f) in at ==> Stored(tables, at, RootOf(f));
    var tables', at' := tables[f := row], at[RootOf(f) := f];
    TableAdded(tables, at, RootOf(f), f, row);
    RootDown(tables, at, tables', at', kroot, f, row);
    hide EntryAt;
    forall p | p in at
      ensures UpOk(tables', at', kroot, p) && DownOk(tables', at', kroot, p)
    {
      assert UpOk(tables, at, kroot, p) && DownOk(tables, at, kroot, p);
      LinksKept(tables, at, tables', at', kroot, p);
    }
  }

  /** The links of a table survive when nothing it leads to or hangs on is taken away or rewritten. */
  lemma LinksKept(tables: Tables, at: Layout, tables': Tables, at': Layout, kroot: nat, p: Pos)
    requires p in at && UpOk(tables, at, kroot, p) && DownOk(tables, at, kroot, p) && Extends(at, at')
    requires forall q: Pos, j: nat | q in at :: EntryAt(tables', at', q, j) == EntryAt(tables, at, q, j)
    ensures UpOk(tables', at', kroot, p) && DownOk(tables', at', kroot, p)
  {
    hide EntryAt;
    forall k: nat | k < 512 && EntryAt(tables', at', p, k).Present?
      ensures LeadsTo(at', kroot, p, k, EntryAt(tables', at', p, k).frame)
      ensures p.level > 1 ==> Write in EntryAt(tables', at', p, k).flags
    {
      assert EntryAt(tables', at', p, k) == EntryAt(tables, at, p, k);
      assert LeadsTo(at, kroot, p, k, EntryAt(tables, at, p, k).frame);
    }
  }

  lemma RootDown(tables: Tables, at: Layout, tables': Tables, at': Layout, kroot: nat, f: nat, row: seq<Entry>)
    requires RootOf(kroot) in at && Stored(tables, at, RootOf(kroot)) && DownOk(tables, at, kroot, RootOf(kroot))
    requires RootRow(row, tables[at[RootOf(kroot)]]) && f !in tables
    requires tables' == tables[f := row] && at' == at[RootOf(f) := f] && RootOf(f) !in at
    ensures DownOk(tables', at', kroot, RootOf(f))
  {
    var kr := RootOf(kroot);
    forall k: nat | k < 512 && EntryAt(tables', at', RootOf(f), k).Present?
      ensures LeadsTo(at', kroot, RootOf(f), k, EntryAt(tables', at', RootOf(f), k).frame)
      ensures Write in EntryAt(tables', at', RootOf(f), k).flags
    {
      var e := EntryAt(tables, at, kr, k);
      assert EntryAt(tables', at', RootOf(f), k) == e && k >= 256;
      assert LeadsTo(at, kroot, kr, k, e.frame);
      assert Child(kr, k) == Pos(kroot, 3, k);
    }
  }

  // ---- taking tables away ----

  /** `q` is `p` or lies below it. */
  predicate Under(p: Pos, q: Pos) {
    q.root == p.root && q.level <= p.level && Up(q.prefix, p.level - q.level) == p.prefix
  }

  /** `q` lies below one of the first `n` entries of `p`. */
  predicate Below(p: Pos, n: nat, q: Pos) {
    q.root == p.root && q.level < p.level && p.prefix * 512 <= Up(q.prefix, p.level - 1 - q.level) < p.prefix * 512 + n
  }

  /** A tree of which the positions in `hurt` may have entries leading to tables that are gone. */
  ghost predicate Wounded(tables: Tables, at: Layout, kroot: nat, hurt: set<Pos>) {
    && (forall p | p in at :: Stored(tables, at, p))
    && (forall p | p in at && p !in hurt :: DownOk(tables, at, kroot, p))
    && (forall p | p in at :: UpOk(tables, at, kroot, p))
    && Injective(at)
    && (forall t | t in tables :: t in at.Values)
  }

  function FramesAt(at: Layout, R: set<Pos>): set<nat> {
    set q | q in R && q in at :: at[q]
  }

  lemma {:induction false} FramesAtMost(at: Layout, R: set<Pos>)
    ensures |FramesAt(at, R)| <= |R|
  {
    if R != {} {
      var p :| p in R;
      FramesAtMost(at, R - {p});
      if p in at {
        assert FramesAt(at, R) == FramesAt(at, R - {p}) + {at[p]};
      } else {
        assert FramesAt(at, R) == FramesAt(at, R - {p});
      }
    }
  }

  lemma BelowNext(p: Pos, n: nat, q: Pos)
    requires p.level > 0
    ensures Below(p, n + 1, q) <==> Below(p, n, q) || Under(Child(p, n), q)
  {
  }

  lemma BelowAll(p: Pos, q: Pos)
    requires p.level > 0
    ensures Below(p, 512, q) <==> Under(p, q) && q != p
  {
    if q.root == p.root && q.level < p.level {
      var x := Up(q.prefix, p.level - 1 - q.level);
      assert Up(q.prefix, p.level - q.level) == x / 512;
    }
    if q.root == p.root && q.level == p.level {
      assert Up(q.prefix, 0) == q.prefix;
    }
  }

  lemma {:induction false} ShiftUp(v: nat, l: nat)
    ensures Up(v / 512, l) == Up(v, l + 1)
  {
    if l > 0 {
      ShiftUp(v, l - 1);
    }
  }

  lemma UnderParent(p: Pos, q: Pos)
    requires q.level < p.level
    ensures Under(p, q) <==> Under(p, Parent(q))
  {
    ShiftUp(q.prefix, p.level - q.level - 1);
  }

  /** A table below a missing one is missing too. */
  lemma {:induction false} NoneUnderMissing(tables: Tables, at: Layout, kroot: nat, hurt: set<Pos>, c: Pos, q: Pos)
    requires Wounded(tables, at, kroot, hurt) && c !in at && c.level < 4 && Under(c, q)
    ensures q !in at
    decreases c.level - q.level
  {
    if q.level == c.level {
      assert Up(q.prefix, 0) == q.prefix;
    } else {
      UnderParent(c, q);
      NoneUnderMissing(tables, at, kroot, hurt, c, Parent(q));
      assert UpOk(tables, at, kroot, q);
    }
  }

  /** Freeing a table whose descendants are all gone. */
  lemma RemoveLeafTable(tables: Tables, at: Layout, kroot: nat, hurt: set<Pos>, p: Pos, k: nat)
    requires p.level > 1 && k < 512 && p.root != kroot && p in hurt && Child(p, k) in at
    requires Wounded(tables, at, kroot, hurt + {Child(p, k)})
    requires forall q | q in at && Under(Child(p, k), q) :: q == Child(p, k)
    ensures Wounded(tables - {at[Child(p, k)]}, at - {Child(p, k)}, kroot, hurt)
  {
    var c := Child(p, k);
    RemoveTable(tables, at, kroot, hurt, c);
  }

  lemma RemoveTable(tables: Tables, at: Layout, kroot: nat, hurt: set<Pos>, c: Pos)
    requires c in at && c.root != kroot && (c.level < 4 ==> Parent(c) in hurt)
    requires Wounded(tables, at, kroot, hurt + {c})
    requires forall q | q in at && Under(c, q) :: q == c
    ensures Wounded(tables - {at[c]}, at - {c}, kroot, hurt)
  {
    var tables', at' := tables - {at[c]}, at - {c};
    assert Stored(tables, at, c);
    TableRemoved(tables, at, c);
    UpsKept(tables, at, tables', at', kroot, c);
    forall q | q in at' && q !in hurt
      ensures q.level <= 4 && DownOk(tables, at, kroot, q)
    {
      assert Stored(tables, at, q);
    }
    hide EntryAt;
    hide Stored;
    hide DownOk;
    hide UpOk;
    forall q | q in at' && q !in hurt
      ensures DownOk(tables', at', kroot, q)
    {
      DownKept(tables, at, tables', at', kroot, q, c);
    }
  }

  lemma UpsKept(tables: Tables, at: Layout, tables': Tables, at': Layout, kroot: nat, c: Pos)
    requires at' == at - {c} && forall q | q in at :: UpOk(tables, at, kroot, q)
    requires forall q: Pos, j: nat | q in at' :: EntryAt(tables', at', q, j) == EntryAt(tables, at, q, j)
    requires forall q | q in at && Under(c, q) :: q == c
    ensures forall q | q in at' :: UpOk(tables', at', kroot, q)
  {
    hide EntryAt;
    hide Under;
    forall q | q in at'
      ensures UpOk(tables', at', kroot, q)
    {
      assert UpOk(tables, at, kroot, q);
      NotParent(c, q);
    }
  }

  lemma NotParent(c: Pos, q: Pos)
    ensures Parent(q) == c ==> Under(c, q)
  {
    if Parent(q) == c {
      assert Up(q.prefix, 0) == q.prefix;
      assert Up(q.prefix, 1) == q.prefix / 512;
    }
  }

  lemma TableRemoved(tables: Tables, at: Layout, c: Pos)
    requires (forall q | q in at :: Stored(tables, at, q)) && Injective(at) && c in at
    requires forall t | t in tables :: t in at.Values
    ensures var tables' := tables - {at[c]};
      var at' := at - {c};
      && (forall q | q in at' :: Stored(tables', at', q)) && Injective(at')
      && (forall t | t in tables' :: t in at'.Values)
      && (forall q: Pos, j: nat | q in at' :: EntryAt(tables', at', q, j) == EntryAt(tables, at, q, j))
  {
    var tables', at' := tables - {at[c]}, at - {c};
    forall q | q in at'
      ensures Stored(tables', at', q) && at'[q] == at[q] != at[c]
    {
      assert Stored(tables, at, q);
    }
    forall t | t in tables'
      ensures t in at'.Values
    {
      var q :| q in at && at[q] == t;
      assert q in at' && at'[q] == t;
    }
  }

  lemma DownKept(tables: Tables, at: Layout, tables': Tables, at': Layout, kroot: nat, q: Pos, c: Pos)
    requires DownOk(tables, at, kroot, q) && q in at' && at' == at - {c} && c.root != kroot
    requires c.level < 4 ==> Parent(c) != q
    requires q.level <= 4 && c.level <= 4
    requires forall j: nat :: EntryAt(tables', at', q, j) == EntryAt(tables, at, q, j)
    ensures DownOk(tables', at', kroot, q)
  {
    forall k: nat | k < 512 && EntryAt(tables', at', q, k).Present?
      ensures LeadsTo(at', kroot, q, k, EntryAt(tables', at', q, k).frame)
      ensures q.level > 1 ==> Write in EntryAt(tables', at', q, k).flags
    {
      assert LeadsTo(at, kroot, q, k, EntryAt(tables, at, q, k).frame);
      if q.level > 1 {
        ParentOfChild(q, k);
      }
    }
  }
}
