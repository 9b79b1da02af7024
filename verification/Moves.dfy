/** Copying and comparing memory word by word (kernel/src/lib/string.c:73-96, 122-194).  Memory is an array of
    bytes whose indices are the addresses; a word is eight bytes read or written at once. */
module Moves {
  import opened Words

  // ---- copying ----

  /** Bytes `lo` to `hi - 1` of the `n` at `s` have been copied to `d`; nothing else has changed. */
  ghost predicate Copied(m0: seq<byte>, m: seq<byte>, d: nat, s: nat, lo: nat, hi: nat)
    requires d + hi <= |m0| && s + hi <= |m0|
  {
    && |m| == |m0|
    && (forall a: nat | d + lo <= a < d + hi :: m[a] == m0[s + (a - d)])
    && (forall a: nat | a < |m0| && !(d + lo <= a < d + hi) :: m[a] == m0[a])
  }

  /** All `n` bytes taken at once: what a move means when the ranges overlap. */
  function Moved(m: seq<byte>, d: nat, s: nat, n: nat): seq<byte>
    requires d + n <= |m| && s + n <= |m|
  {
    m[..d] + m[s..s + n] + m[d + n..]
  }

  /** A move byte by byte. */
  lemma MovedBytes(m: seq<byte>, d: nat, s: nat, n: nat)
    requires d + n <= |m| && s + n <= |m|
    ensures |Moved(m, d, s, n)| == |m|
    ensures forall a: nat | a < |m| :: Moved(m, d, s, n)[a] == if d <= a < d + n then m[s + (a - d)] else m[a]
  {
  }

  lemma MovedAt(m0: seq<byte>, m: seq<byte>, d: nat, s: nat, n: nat, a: nat)
    requires d + n <= |m0| && s + n <= |m0| && m == Moved(m0, d, s, n) && a < |m|
    ensures |m| == |m0| && m[a] == if d <= a < d + n then m0[s + (a - d)] else m0[a]
  {
  }

  lemma CopiedIsMoved(m0: seq<byte>, m: seq<byte>, d: nat, s: nat, n: nat)
    requires d + n <= |m0| && s + n <= |m0| && Copied(m0, m, d, s, 0, n)
    ensures m == Moved(m0, d, s, n)
  {
    assert m[..d] == m0[..d] && m[d..d + n] == m0[s..s + n] && m[d + n..] == m0[d + n..];
    assert m == m[..d] + m[d..d + n] + m[d + n..];
  }

  /** One word of a copy: all of it is read before any of it is written. */
  method CopyWord(m: array<byte>, d: nat, s: nat)
    requires d + WORD <= m.Length && s + WORD <= m.Length
    modifies m
    ensures Copied(old(m[..]), m[..], d, s, 0, WORD)
  {
    ghost var m0 := m[..];
    BytesOfWord(m0, s);
    hide ByteOf;
    hide WordAt;
    var w := WordAt(m[..], s);
    StoreWord(m, d, w);
    forall a: nat | d <= a < d + WORD
      ensures m[..][a] == m0[s + (a - d)]
    {
      assert m[a] == ByteOf(w, a - d);
    }
  }

  /** One byte of a copy. */
  method CopyByte(m: array<byte>, d: nat, s: nat)
    requires d < m.Length && s < m.Length
    modifies m
    ensures Copied(old(m[..]), m[..], d, s, 0, 1)
  {
    m[d] := m[s];
  }

  lemma NothingCopied(m: seq<byte>, d: nat, s: nat, k: nat)
    requires d + k <= |m| && s + k <= |m|
    ensures Copied(m, m, d, s, k, k)
  {
  }

  /** A copy from the front goes on. */
  lemma Forward(m0: seq<byte>, m1: seq<byte>, m2: seq<byte>, d: nat, s: nat, i: nat, k: nat, n: nat)
    requires i + k <= n && d + n <= |m0| && s + n <= |m0| && (d <= s || s + n <= d)
    requires Copied(m0, m1, d, s, 0, i) && Copied(m1, m2, d + i, s + i, 0, k)
    ensures Copied(m0, m2, d, s, 0, i + k)
  {
    forall a: nat | d <= a < d + i + k
      ensures m2[a] == m0[s + (a - d)]
    {
      if a >= d + i {
        assert m2[a] == m1[s + i + (a - (d + i))];
        assert m1[s + (a - d)] == m0[s + (a - d)];
      }
    }
  }

  /** A copy from the back goes on. */
  lemma Backward(m0: seq<byte>, m1: seq<byte>, m2: seq<byte>, d: nat, s: nat, i: nat, k: nat, n: nat)
    requires k <= i <= n && d + n <= |m0| && s + n <= |m0| && s <= d
    requires Copied(m0, m1, d, s, i, n) && Copied(m1, m2, d + i - k, s + i - k, 0, k)
    ensures Copied(m0, m2, d, s, i - k, n)
  {
    forall a: nat | d + i - k <= a < d + n
      ensures m2[a] == m0[s + (a - d)]
    {
      if a < d + i {
        assert m2[a] == m1[s + i - k + (a - (d + i - k))];
        assert m1[s + (a - d)] == m0[s + (a - d)];
      }
    }
  }

  /** A byte or a word further from the front. */
  method CopyByteNext(ghost m0: seq<byte>, m: array<byte>, d: nat, s: nat, i: nat, n: nat)
    requires i < n && d + n <= m.Length == |m0| && s + n <= m.Length && (d <= s || s + n <= d)
    requires Copied(m0, m[..], d, s, 0, i)
    modifies m
    ensures Copied(m0, m[..], d, s, 0, i + 1)
  {
    hide Copied;
    ghost var m1 := m[..];
    CopyByte(m, d + i, s + i);
    Forward(m0, m1, m[..], d, s, i, 1, n);
  }

  method CopyWordNext(ghost m0: seq<byte>, m: array<byte>, d: nat, s: nat, i: nat, n: nat)
    requires i + WORD <= n && d + n <= m.Length == |m0| && s + n <= m.Length && (d <= s || s + n <= d)
    requires Copied(m0, m[..], d, s, 0, i)
    modifies m
    ensures Copied(m0, m[..], d, s, 0, i + WORD)
  {
    hide Copied;
    ghost var m1 := m[..];
    CopyWord(m, d + i, s + i);
    Forward(m0, m1, m[..], d, s, i, WORD, n);
  }

  /** `memcpy`: right for disjoint ranges, and for any ranges when the destination is not above the source. */
  method MemCpy(m: array<byte>, d: nat, s: nat, n: nat)
    requires d + n <= m.Length && s + n <= m.Length
    requires d <= s || s + n <= d
    modifies m
    ensures m[..] == Moved(old(m[..]), d, s, n)
    ensures forall a: nat | a < m.Length :: m[a] == if d <= a < d + n then old(m[s + (a - d)]) else old(m[a])
  {
    hide Aligned;
    hide Moved;
    hide Copied;
    ghost var m0 := m[..];
    NothingCopied(m0, d, s, 0);
    var i := 0;
    while i != n && !(Aligned(d + i) && Aligned(s + i))
      invariant 0 <= i <= n && Copied(m0, m[..], d, s, 0, i)
    {
      CopyByteNext(m0, m, d, s, i, n);
      i := i + 1;
    }
    while i + WORD <= n
      invariant 0 <= i <= n && Copied(m0, m[..], d, s, 0, i)
    {
      CopyWordNext(m0, m, d, s, i, n);
      i := i + WORD;
    }
    while i < n
      invariant 0 <= i <= n && Copied(m0, m[..], d, s, 0, i)
    {
      CopyByteNext(m0, m, d, s, i, n);
      i := i + 1;
    }
    CopiedIsMoved(m0, m[..], d, s, n);
    ghost var m1 := m[..];
    forall a: nat | a < m.Length
      ensures m[a] == if d <= a < d + n then old(m[s + (a - d)]) else old(m[a])
    {
      MovedAt(m0, m1, d, s, n, a);
      assert m[a] == m1[a];
      assert m0[a] == old(m[a]);
      assert d <= a < d + n ==> m0[s + (a - d)] == old(m[s + (a - d)]);
    }
  }

  /** A byte or a word further from the back. */
  method CopyByteBack(ghost m0: seq<byte>, m: array<byte>, d: nat, s: nat, i: nat, n: nat)
    requires 0 < i <= n && d + n <= m.Length == |m0| && s + n <= m.Length && s <= d && Copied(m0, m[..], d, s, i, n)
    modifies m
    ensures Copied(m0, m[..], d, s, i - 1, n)
  {
    hide Copied;
    ghost var m1 := m[..];
    CopyByte(m, d + i - 1, s + i - 1);
    Backward(m0, m1, m[..], d, s, i, 1, n);
  }

  method CopyWordBack(ghost m0: seq<byte>, m: array<byte>, d: nat, s: nat, i: nat, n: nat)
    requires WORD <= i <= n && d + n <= m.Length == |m0| && s + n <= m.Length && s <= d && Copied(m0, m[..], d, s, i, n)
    modifies m
    ensures Copied(m0, m[..], d, s, i - WORD, n)
  {
    hide Copied;
    ghost var m1 := m[..];
    CopyWord(m, d + i - WORD, s + i - WORD);
    Backward(m0, m1, m[..], d, s, i, WORD, n);
  }

  /** `memmove`: the bytes arrive as if all had been read before any was written, however the ranges overlap. */
  method MemMove(m: array<byte>, d: nat, s: nat, n: nat)
    requires d + n <= m.Length && s + n <= m.Length
    modifies m
    ensures m[..] == Moved(old(m[..]), d, s, n)
    ensures forall a: nat | a < m.Length :: m[a] == if d <= a < d + n then old(m[s + (a - d)]) else old(m[a])
  {
    hide Aligned;
    ghost var m0 := m[..];
    NothingCopied(m0, d, s, n);
    if d == s || n == 0 {
      assert m[..] == Moved(m0, d, s, n);
      return;
    }
    if d < s || d >= s + n {
      MemCpy(m, d, s, n);
      return;
    }
    hide Copied;
    var i := n;
    while i != 0 && !(Aligned(d + i) && Aligned(s + i))
      invariant 0 <= i <= n && Copied(m0, m[..], d, s, i, n)
    {
      CopyByteBack(m0, m, d, s, i, n);
      i := i - 1;
    }
    while i >= WORD
      invariant 0 <= i <= n && Copied(m0, m[..], d, s, i, n)
    {
      CopyWordBack(m0, m, d, s, i, n);
      i := i - WORD;
    }
    while i != 0
      invariant 0 <= i <= n && Copied(m0, m[..], d, s, i, n)
    {
      CopyByteBack(m0, m, d, s, i, n);
      i := i - 1;
    }
    CopiedIsMoved(m0, m[..], d, s, n);
    MovedBytes(m0, d, s, n);
  }

  // ---- comparing ----

  /** The first `i` bytes of two ranges are equal. */
  ghost predicate SameTo(m: seq<byte>, p: nat, q: nat, i: nat)
    requires p + i <= |m| && q + i <= |m|
  {
    forall a: nat | p <= a < p + i :: m[a] == m[q + (a - p)]
  }

  lemma SameMore(m: seq<byte>, p: nat, q: nat, i: nat, k: nat)
    requires p + i + k <= |m| && q + i + k <= |m| && SameTo(m, p, q, i) && SameTo(m, p + i, q + i, k)
    ensures SameTo(m, p, q, i + k)
  {
    forall a: nat | p <= a < p + i + k
      ensures m[a] == m[q + (a - p)]
    {
      if a >= p + i {
        assert m[a] == m[q + i + (a - (p + i))];
      }
    }
  }

  /** Lexicographic order of two ranges of `n` bytes: `r` is the order of the bytes at the first difference. */
  ghost predicate Ordered(m: seq<byte>, p: nat, q: nat, n: nat, r: int)
    requires p + n <= |m| && q + n <= |m|
  {
    || (r == 0 && SameTo(m, p, q, n))
    || (r == -1 && exists k: nat :: k < n && SameTo(m, p, q, k) && m[p + k] < m[q + k])
    || (r == 1 && exists k: nat :: k < n && SameTo(m, p, q, k) && m[p + k] > m[q + k])
  }

  lemma FirstDifference(m: seq<byte>, p: nat, q: nat, n: nat, k: nat)
    requires p + n <= |m| && q + n <= |m| && k < n && SameTo(m, p, q, k) && m[p + k] != m[q + k]
    ensures Ordered(m, p, q, n, if m[p + k] < m[q + k] then -1 else 1)
  {
  }

  /** There is one first difference. */
  lemma OneFirst(m: seq<byte>, p: nat, q: nat, k: nat, k': nat)
    requires p + k < |m| && q + k < |m| && SameTo(m, p, q, k) && m[p + k] != m[q + k]
    requires p + k' < |m| && q + k' < |m| && SameTo(m, p, q, k') && m[p + k'] != m[q + k']
    ensures k == k'
  {
    assert m[p + k] != m[q + ((p + k) - p)] && m[p + k'] != m[q + ((p + k') - p)];
  }

  lemma NoDifference(m: seq<byte>, p: nat, q: nat, n: nat, k: nat)
    requires p + n <= |m| && q + n <= |m| && SameTo(m, p, q, n) && k < n
    ensures m[p + k] == m[q + k]
  {
    assert m[p + k] == m[q + ((p + k) - p)];
  }

  /** The order is a function of the bytes. */
  lemma OneOrder(m: seq<byte>, p: nat, q: nat, n: nat, r: int, r': int)
    requires p + n <= |m| && q + n <= |m| && Ordered(m, p, q, n, r) && Ordered(m, p, q, n, r')
    ensures r == r'
  {
    hide SameTo;
    if r != 0 {
      var k: nat :| k < n && SameTo(m, p, q, k) && m[p + k] != m[q + k] && (r == -1 <==> m[p + k] < m[q + k]);
      if r' != 0 {
        var k': nat :| k' < n && SameTo(m, p, q, k') && m[p + k'] != m[q + k'] && (r' == -1 <==> m[p + k'] < m[q + k']);
        OneFirst(m, p, q, k, k');
      } else {
        NoDifference(m, p, q, n, k);
      }
    } else if r' != 0 {
      var k: nat :| k < n && SameTo(m, p, q, k) && m[p + k] != m[q + k];
      NoDifference(m, p, q, n, k);
    }
  }

  /** `memcmp` */
  method MemCmp(m: array<byte>, p1: nat, p2: nat, n: nat) returns (r: int)
    requires p1 + n <= m.Length && p2 + n <= m.Length
    ensures Ordered(m[..], p1, p2, n, r)
  {
    hide Aligned;
    hide Ordered;
    ghost var all := m[..];
    assert SameTo(all, p1, p2, 0);
    var i: nat := 0;
    while i < n && !(Aligned(p1 + i) && Aligned(p2 + i))
      invariant i <= n && SameTo(all, p1, p2, i)
    {
      if m[p1 + i] != m[p2 + i] {
        FirstDifference(all, p1, p2, n, i);
        return if m[p1 + i] < m[p2 + i] then -1 else 1;
      }
      i := i + 1;
    }
    hide SameTo;
    i, r := Whole(m, p1, p2, i, n);
    if r != 0 {
      return;
    }
    r := Rest(m, p1, p2, i, n);
  }

  /** The words of `memcmp` */
  method Whole(m: array<byte>, p1: nat, p2: nat, i0: nat, n: nat) returns (i: nat, r: int)
    requires p1 + n <= m.Length && p2 + n <= m.Length && i0 <= n && SameTo(m[..], p1, p2, i0)
    ensures i <= n && (r == 0 ==> SameTo(m[..], p1, p2, i))
    ensures r != 0 ==> Ordered(m[..], p1, p2, n, r)
  {
    hide Ordered;
    hide WordAt;
    ghost var all := m[..];
    i := i0;
    while i + WORD <= n
      invariant i <= n && SameTo(all, p1, p2, i)
    {
      var a, b := WordAt(m[..], p1 + i), WordAt(m[..], p2 + i);
      SameBytes(all, p1 + i, p2 + i);
      if a != b {
        r := InWord(m, p1, p2, i, n);
        return;
      }
      WordsSame(all, p1 + i, p2 + i);
      SameMore(all, p1, p2, i, WORD);
      i := i + WORD;
    }
    r := 0;
  }

  /** The first difference inside two words that are not equal. */
  method InWord(m: array<byte>, p1: nat, p2: nat, i: nat, n: nat) returns (r: int)
    requires p1 + n <= m.Length && p2 + n <= m.Length && i + WORD <= n && SameTo(m[..], p1, p2, i)
    requires m[p1 + i..p1 + i + WORD] != m[p2 + i..p2 + i + WORD]
    ensures r != 0 && Ordered(m[..], p1, p2, n, r)
  {
    hide Ordered;
    hide WordAt;
    hide Aligned;
    hide SameTo;
    var k: nat := 0;
    while k < WORD && m[p1 + i + k] == m[p2 + i + k]
      invariant k <= WORD && SameTo(m[..], p1, p2, i + k)
    {
      SameNext(m[..], p1, p2, i + k);
      k := k + 1;
    }
    Differ(m[..], p1, p2, i, k);
    FirstDifference(m[..], p1, p2, n, i + k);
    r := if m[p1 + i + k] < m[p2 + i + k] then -1 else 1;
  }

  lemma SameNext(m: seq<byte>, p: nat, q: nat, i: nat)
    requires p + i < |m| && q + i < |m| && SameTo(m, p, q, i) && m[p + i] == m[q + i]
    ensures SameTo(m, p, q, i + 1)
  {
  }

  lemma Differ(m: seq<byte>, p: nat, q: nat, i: nat, k: nat)
    requires p + i + WORD <= |m| && q + i + WORD <= |m| && k <= WORD && SameTo(m, p, q, i + k)
    requires m[p + i..p + i + WORD] != m[q + i..q + i + WORD]
    ensures k < WORD
  {
    SameWords(m, p, q, i);
  }

  lemma SameWords(m: seq<byte>, p: nat, q: nat, i: nat)
    requires p + i + WORD <= |m| && q + i + WORD <= |m|
    ensures SameTo(m, p, q, i + WORD) ==> m[p + i..p + i + WORD] == m[q + i..q + i + WORD]
  {
    if SameTo(m, p, q, i + WORD) {
      var x, y := m[p + i..p + i + WORD], m[q + i..q + i + WORD];
      forall j | 0 <= j < |x|
        ensures x[j] == y[j]
      {
        assert m[p + i + j] == m[q + (p + i + j - p)];
      }
    }
  }

  lemma WordsSame(m: seq<byte>, p: nat, q: nat)
    requires p + WORD <= |m| && q + WORD <= |m| && m[p..p + WORD] == m[q..q + WORD]
    ensures SameTo(m, p, q, WORD)
  {
    forall a: nat | p <= a < p + WORD
      ensures m[a] == m[q + (a - p)]
    {
      assert m[p..p + WORD][a - p] == m[q..q + WORD][a - p];
    }
  }

  /** The last bytes of `memcmp` */
  method Rest(m: array<byte>, p1: nat, p2: nat, i0: nat, n: nat) returns (r: int)
    requires p1 + n <= m.Length && p2 + n <= m.Length && i0 <= n && SameTo(m[..], p1, p2, i0)
    ensures Ordered(m[..], p1, p2, n, r)
  {
    ghost var all := m[..];
    var i: nat := i0;
    while i < n
      invariant i <= n && SameTo(all, p1, p2, i)
    {
      if m[p1 + i] != m[p2 + i] {
        FirstDifference(all, p1, p2, n, i);
        return if m[p1 + i] < m[p2 + i] then -1 else 1;
      }
      i := i + 1;
    }
    return 0;
  }
}
