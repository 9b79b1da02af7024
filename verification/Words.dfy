/** Words and their bytes: the test for a zero byte, strlen and memset (kernel/src/lib/string.c:7-49, 98-120).
    Memory is an array of bytes whose indices are the addresses; its length is a multiple of the word size, so
    that a word that starts at an aligned address inside memory lies inside memory.  */
module Words {
  type byte = bv8
  type word = bv64

  const WORD: nat := 8  // WORD_BYTES

  /** A word's bytes, least significant first. */
  function Pack(b0: byte, b1: byte, b2: byte, b3: byte, b4: byte, b5: byte, b6: byte, b7: byte): word {
    (b0 as word) | ((b1 as word) << 8) | ((b2 as word) << 16) | ((b3 as word) << 24)
    | ((b4 as word) << 32) | ((b5 as word) << 40) | ((b6 as word) << 48) | ((b7 as word) << 56)
  }

  /** The word stored at an address. */
  function WordAt(m: seq<byte>, a: nat): word
    requires a + WORD <= |m|
  {
    Pack(m[a], m[a + 1], m[a + 2], m[a + 3], m[a + 4], m[a + 5], m[a + 6], m[a + 7])
  }

  function ByteOf(w: word, i: nat): byte
    requires i < WORD
  {
    if i == 0 then (w & 0xFF) as byte
    else if i == 1 then ((w >> 8) & 0xFF) as byte
    else if i == 2 then ((w >> 16) & 0xFF) as byte
    else if i == 3 then ((w >> 24) & 0xFF) as byte
    else if i == 4 then ((w >> 32) & 0xFF) as byte
    else if i == 5 then ((w >> 40) & 0xFF) as byte
    else if i == 6 then ((w >> 48) & 0xFF) as byte
    else ((w >> 56) & 0xFF) as byte
  }

  /** `repeat_byte` */
  method RepeatByte(c: byte) returns (out: word)
    ensures forall i: nat | i < WORD :: ByteOf(out, i) == c
  {
    out := c as word;
    var i: byte := 8;
    while i < 64
      invariant i == 8 || i == 16 || i == 32 || i == 64
      invariant out == Repeated(c, i)
      decreases 64 - i
    {
      Doubled(c, i);
      hide Repeated;
      out := out | (out << i);
      i := i << 1;
    }
    RepeatedBytes(c);
  }

  /** The word after each doubling: the byte fills its lowest `i` bits. */
  function Repeated(c: byte, i: byte): word {
    var one := c as word;
    var two := one | (one << 8);
    var four := two | (two << 16);
    if i == 8 then one else if i == 16 then two else if i == 32 then four else four | (four << 32)
  }

  lemma Doubled(c: byte, i: byte)
    requires i == 8 || i == 16 || i == 32
    ensures Repeated(c, i) | (Repeated(c, i) << i) == Repeated(c, i << 1)
    ensures i << 1 == 16 || i << 1 == 32 || i << 1 == 64
    ensures i < 64 && i << 1 > i
  {
  }

  lemma RepeatedBytes(c: byte)
    ensures forall i: nat | i < WORD :: ByteOf(Repeated(c, 64), i) == c
  {
  }

  const ONES: word := 0x0101_0101_0101_0101
  const HIGHS: word := 0x8080_8080_8080_8080

  /** Subtract ones, keep the bytes' high bits. */
  predicate Masked(x: word, ones: word, highs: word) {
    ((x - ones) & !x & highs) != 0
  }

  predicate SomeByteMasked(x: word) {
    || x & 0xFF == 0 || x & 0xFF00 == 0 || x & 0xFF_0000 == 0 || x & 0xFF00_0000 == 0
    || x & 0xFF_0000_0000 == 0 || x & 0xFF00_0000_0000 == 0 || x & 0xFF_0000_0000_0000 == 0 || x & 0xFF00_0000_0000_0000 == 0
  }

  lemma MaskTest(x: word)
    ensures Masked(x, ONES, HIGHS) <==> SomeByteMasked(x)
  {
  }

  lemma MaskedBytes(x: word)
    ensures ByteOf(x, 0) == 0 <==> x & 0xFF == 0
    ensures ByteOf(x, 1) == 0 <==> x & 0xFF00 == 0
    ensures ByteOf(x, 2) == 0 <==> x & 0xFF_0000 == 0
    ensures ByteOf(x, 3) == 0 <==> x & 0xFF00_0000 == 0
    ensures ByteOf(x, 4) == 0 <==> x & 0xFF_0000_0000 == 0
    ensures ByteOf(x, 5) == 0 <==> x & 0xFF00_0000_0000 == 0
    ensures ByteOf(x, 6) == 0 <==> x & 0xFF_0000_0000_0000 == 0
    ensures ByteOf(x, 7) == 0 <==> x & 0xFF00_0000_0000_0000 == 0
  {
  }

  /** The subtract-and-mask test is exact: no borrow makes it miss a zero byte or see one that is not there. */
  lemma ZeroByteTest(x: word)
    ensures Masked(x, ONES, HIGHS) <==> exists i: nat :: i < WORD && ByteOf(x, i) == 0
  {
    MaskTest(x);
    MaskedBytes(x);
    hide Masked;
    hide ByteOf;
  }

  lemma PackOfBytes(w: word)
    ensures w == Pack(ByteOf(w, 0), ByteOf(w, 1), ByteOf(w, 2), ByteOf(w, 3), ByteOf(w, 4), ByteOf(w, 5), ByteOf(w, 6), ByteOf(w, 7))
  {
  }

  /** The only word all of whose bytes are 1, and the only one all of whose bytes are 0x80. */
  lemma MaskWords(w: word)
    ensures (forall i: nat | i < WORD :: ByteOf(w, i) == 0x01) ==> w == ONES
    ensures (forall i: nat | i < WORD :: ByteOf(w, i) == 0x80) ==> w == HIGHS
  {
    PackOfBytes(w);
    hide ByteOf;
    assert Pack(1, 1, 1, 1, 1, 1, 1, 1) == ONES;
    assert Pack(0x80, 0x80, 0x80, 0x80, 0x80, 0x80, 0x80, 0x80) == HIGHS;
    hide Pack;
  }

  /** `has_zero_byte` */
  method HasZeroByte(x: word) returns (r: bool)
    ensures r <==> exists i: nat :: i < WORD && ByteOf(x, i) == 0
  {
    hide ByteOf;
    hide Masked;
    var ones := RepeatByte(0x01);
    var highs := RepeatByte(0x80);
    MaskWords(ones);
    MaskWords(highs);
    ZeroByteTest(x);
    r := Masked(x, ones, highs);
  }

  lemma BytesOfWord(m: seq<byte>, a: nat)
    requires a + WORD <= |m|
    ensures forall i: nat | i < WORD :: ByteOf(WordAt(m, a), i) == m[a + i]
  {
    var w := WordAt(m, a);
    assert ByteOf(w, 0) == m[a];
    assert ByteOf(w, 1) == m[a + 1];
    assert ByteOf(w, 2) == m[a + 2];
    assert ByteOf(w, 3) == m[a + 3];
    assert ByteOf(w, 4) == m[a + 4];
    assert ByteOf(w, 5) == m[a + 5];
    assert ByteOf(w, 6) == m[a + 6];
    assert ByteOf(w, 7) == m[a + 7];
  }

  predicate Aligned(a: nat) {
    a % WORD == 0
  }

  /** Words are equal exactly when their bytes are. */
  lemma SameBytes(m: seq<byte>, p: nat, q: nat)
    requires p + WORD <= |m| && q + WORD <= |m|
    ensures WordAt(m, p) == WordAt(m, q) <==> m[p..p + WORD] == m[q..q + WORD]
  {
    BytesOfWord(m, p);
    BytesOfWord(m, q);
    if m[p..p + WORD] == m[q..q + WORD] {
      SameWord(m, p, q);
    }
    hide ByteOf;
    hide WordAt;
    if WordAt(m, p) == WordAt(m, q) {
      var x, y := m[p..p + WORD], m[q..q + WORD];
      forall j: nat | j < |x|
        ensures x[j] == y[j]
      {
        assert ByteOf(WordAt(m, p), j) == m[p + j] && ByteOf(WordAt(m, q), j) == m[q + j];
      }
    }
  }

  lemma SameWord(m: seq<byte>, p: nat, q: nat)
    requires p + WORD <= |m| && q + WORD <= |m| && m[p..p + WORD] == m[q..q + WORD]
    ensures WordAt(m, p) == WordAt(m, q)
  {
    hide Pack;
    var x, y := m[p..p + WORD], m[q..q + WORD];
    assert m[p] == x[0] && m[p + 1] == x[1] && m[p + 2] == x[2] && m[p + 3] == x[3];
    assert m[p + 4] == x[4] && m[p + 5] == x[5] && m[p + 6] == x[6] && m[p + 7] == x[7];
    assert m[q] == y[0] && m[q + 1] == y[1] && m[q + 2] == y[2] && m[q + 3] == y[3];
    assert m[q + 4] == y[4] && m[q + 5] == y[5] && m[q + 6] == y[6] && m[q + 7] == y[7];
  }

  // ---- filling ----

  method StoreWord(m: array<byte>, a: nat, w: word)
    requires a + WORD <= m.Length
    modifies m
    ensures forall b: nat | a <= b < a + WORD :: m[b] == ByteOf(w, b - a)
    ensures forall b: nat | b < m.Length && !(a <= b < a + WORD) :: m[b] == old(m[b])
  {
    hide ByteOf;
    m[a], m[a + 1], m[a + 2], m[a + 3] := ByteOf(w, 0), ByteOf(w, 1), ByteOf(w, 2), ByteOf(w, 3);
    m[a + 4], m[a + 5], m[a + 6], m[a + 7] := ByteOf(w, 4), ByteOf(w, 5), ByteOf(w, 6), ByteOf(w, 7);
  }

  /** `memset` */
  method MemSet(m: array<byte>, p0: nat, c: byte, n0: nat)
    requires p0 + n0 <= m.Length
    modifies m
    ensures forall a: nat | a < m.Length :: m[a] == if p0 <= a < p0 + n0 then c else old(m[a])
  {
    var p, n := p0, n0;
    var fill := RepeatByte(c);
    hide ByteOf;
    while n != 0 && !Aligned(p)
      invariant 0 <= n <= n0 && p == p0 + n0 - n
      invariant forall a: nat | a < m.Length :: m[a] == if p0 <= a < p then c else old(m[a])
    {
      m[p] := c;
      p, n := p + 1, n - 1;
    }
    while n >= WORD
      invariant 0 <= n <= n0 && p == p0 + n0 - n
      invariant forall a: nat | a < m.Length :: m[a] == if p0 <= a < p then c else old(m[a])
    {
      StoreWord(m, p, fill);
      p, n := p + WORD, n - WORD;
    }
    while n != 0
      invariant 0 <= n <= n0 && p == p0 + n0 - n
      invariant forall a: nat | a < m.Length :: m[a] == if p0 <= a < p then c else old(m[a])
    {
      m[p] := c;
      p, n := p + 1, n - 1;
    }
  }

  // ---- strings ----

  /** `strlen`: the distance to the first NUL.  The words read on the way end at most 7 bytes behind it. */
  method StrLen(m: array<byte>, start: nat) returns (n: nat)
    requires Aligned(m.Length) && exists e: nat :: start <= e < m.Length && m[e] == 0
    ensures start + n < m.Length && m[start + n] == 0 && forall a: nat | start <= a < start + n :: m[a] != 0
  {
    ghost var e: nat :| start <= e < m.Length && m[e] == 0;
    var s := start;
    while !Aligned(s)
      invariant start <= s <= e && forall a: nat | start <= a < s :: m[a] != 0
      decreases e - s
    {
      if m[s] == 0 {
        return s - start;
      }
      s := s + 1;
    }
    while true
      invariant start <= s <= e && Aligned(s) && forall a: nat | start <= a < s :: m[a] != 0
      decreases e - s
    {
      WordInside(m.Length, s);
      var chunk := WordAt(m[..], s);
      BytesOfWord(m[..], s);
      hide WordAt;
      hide ByteOf;
      var found := HasZeroByte(chunk);
      if found {
        break;
      }
      forall a: nat | s <= a < s + WORD
        ensures m[a] != 0
      {
        assert ByteOf(chunk, a - s) == m[..][s + (a - s)];
      }
      s := s + WORD;
    }
    while m[s] != 0
      invariant start <= s <= e && forall a: nat | start <= a < s :: m[a] != 0
      decreases e - s
    {
      s := s + 1;
    }
    return s - start;
  }

  lemma WordInside(length: nat, s: nat)
    requires Aligned(length) && Aligned(s) && s < length
    ensures s + WORD <= length
  {
  }
}
