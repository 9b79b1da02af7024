/** The in-memory file system (kernel/src/fs/tmpfs.c:180-234, 262-270, 352-615): files as growing buffers,
    directories as sibling lists, and the counters.  A node is named by its inode number.  */
module Tmpfs {
  import opened Common

  type Ino = nat
  type Name = seq<char>

  const NAME_MAX: nat := 255
  const ROOT: Ino := 1

  datatype Node = Node(isDir: bool, name: Name, parent: Ino, children: seq<Ino>, buf: seq<byte>, size: nat)

  datatype Dirent = Dirent(ino: Ino, name: Name, off: nat)

  function Zeros(n: nat): (z: seq<byte>)
    ensures |z| == n
  {
    seq(n, _ => 0)
  }

  // ---- what files are ----

  /** The first `n` bytes, with zeroes for those that are not there. */
  function PadTo(s: seq<byte>, n: nat): (r: seq<byte>)
    ensures |r| == n
  {
    if |s| >= n then s[..n] else s + Zeros(n - |s|)
  }

  /** At most `size` bytes from the offset on. */
  function Part(s: seq<byte>, offset: nat, size: nat): seq<byte> {
    if offset >= |s| then [] else s[offset..if offset + size < |s| then offset + size else |s|]
  }

  /** What a write does to a file: it ends with the bytes written. */
  function Written(s: seq<byte>, offset: nat, data: seq<byte>): seq<byte> {
    PadTo(s, offset) + data
  }

  /** The file afterwards, byte for byte: old bytes up to the offset, zeroes where there were none, the bytes
      written, and nothing behind them. */
  ghost predicate AsWritten(s: seq<byte>, s': seq<byte>, offset: nat, data: seq<byte>) {
    && |s'| == offset + |data|
    && (forall j: nat | j < offset && j < |s| :: s'[j] == s[j])
    && (forall j: nat | |s| <= j < offset :: s'[j] == 0)
    && (forall j: nat | j < |data| :: s'[offset + j] == data[j])
  }

  lemma WrittenMeans(s: seq<byte>, offset: nat, data: seq<byte>)
    ensures AsWritten(s, Written(s, offset, data), offset, data)
  {
  }

  /** What a write should do: bytes behind it stay, and one of nothing does nothing. */
  function PosixWritten(s: seq<byte>, offset: nat, data: seq<byte>): seq<byte> {
    if data == [] then s
    else PadTo(s, offset) + data + (if offset + |data| < |s| then s[offset + |data|..] else [])
  }

  /** The two agree exactly when the write reaches the end of the file; a write of nothing, when it is at the end. */
  lemma WriteAgrees(s: seq<byte>, offset: nat, data: seq<byte>)
    ensures Written(s, offset, data) == PosixWritten(s, offset, data) <==>
      if data == [] then offset == |s| else offset + |data| >= |s|
  {
    if data == [] {
      assert PadTo(s, offset) + data == PadTo(s, offset);
      assert offset == |s| ==> PadTo(s, offset) == s;
    } else if offset + |data| >= |s| {
      assert PadTo(s, offset) + data + [] == PadTo(s, offset) + data;
    } else {
      assert |PosixWritten(s, offset, data)| == |s| > |Written(s, offset, data)|;
    }
  }

  /** A write that cuts a file short. */
  lemma WriteTruncates()
    ensures Written([1, 2, 3], 0, [4]) == [4] && PosixWritten([1, 2, 3], 0, [4]) == [4, 2, 3]
  {
    assert PadTo([1, 2, 3], 0) == [];
    assert Written([1, 2, 3], 0, [4]) == [4];
    assert [1, 2, 3][1..] == [2, 3];
  }

  /** Chunks written one after the other from `offset` on. */
  function WrittenInChunks(s: seq<byte>, offset: nat, chunks: seq<seq<byte>>): seq<byte>
    decreases |chunks|
  {
    if chunks == [] then s
    else WrittenInChunks(Written(s, offset, chunks[0]), offset + |chunks[0]|, chunks[1..])
  }

  function Flat(chunks: seq<seq<byte>>): seq<byte> {
    if chunks == [] then [] else chunks[0] + Flat(chunks[1..])
  }

  /** However the bytes are cut, writing them in order gives old bytes, a gap of zeroes, and the new bytes. */
  lemma {:induction false} ChunksRebuild(s: seq<byte>, offset: nat, chunks: seq<seq<byte>>)
    requires chunks != []
    ensures WrittenInChunks(s, offset, chunks) == PadTo(s, offset) + Flat(chunks)
    decreases |chunks|
  {
    var s' := Written(s, offset, chunks[0]);
    if |chunks| == 1 {
      assert chunks[1..] == [] && Flat(chunks) == chunks[0] + [];
      assert WrittenInChunks(s', offset + |chunks[0]|, []) == s';
    } else {
      ChunksRebuild(s', offset + |chunks[0]|, chunks[1..]);
      assert PadTo(s', |s'|) == s';
      assert s' + Flat(chunks[1..]) == PadTo(s, offset) + (chunks[0] + Flat(chunks[1..]));
    }
  }

  function Sum(caps: seq<nat>): nat {
    if caps == [] then 0 else caps[0] + Sum(caps[1..])
  }

  /** Successive reads, each from the offset where the one before stopped. */
  function ReadInChunks(s: seq<byte>, offset: nat, sizes: seq<nat>): seq<byte>
    decreases |sizes|
  {
    if sizes == [] then []
    else
      var p := Part(s, offset, sizes[0]);
      p + ReadInChunks(s, offset + |p|, sizes[1..])
  }

  /** Whatever the sizes, reads that follow each other give what one read of their total size gives. */
  lemma {:induction false} ChunksReadOnce(s: seq<byte>, offset: nat, sizes: seq<nat>)
    ensures ReadInChunks(s, offset, sizes) == Part(s, offset, Sum(sizes))
    decreases |sizes|
  {
    hide Part;
    if sizes == [] {
      EmptyPart(s, offset);
    } else {
      var k := |Part(s, offset, sizes[0])|;
      ChunksReadOnce(s, offset + k, sizes[1..]);
      NextPart(s, offset, sizes[0], Sum(sizes[1..]));
    }
  }

  lemma EmptyPart(s: seq<byte>, offset: nat)
    ensures Part(s, offset, 0) == []
  {
  }

  lemma NextPart(s: seq<byte>, offset: nat, m: nat, n: nat)
    ensures var p := Part(s, offset, m); p + Part(s, offset + |p|, n) == Part(s, offset, m + n)
  {
    if offset + m < |s| {
      assert s[offset..offset + m] + s[offset + m..] == s[offset..];
    }
  }

  /** Bytes written in chunks are read back in other chunks. */
  lemma WrittenIsReadBack(s: seq<byte>, offset: nat, chunks: seq<seq<byte>>, sizes: seq<nat>)
    requires chunks != [] && Sum(sizes) >= |Flat(chunks)|
    ensures ReadInChunks(WrittenInChunks(s, offset, chunks), offset, sizes) == Flat(chunks)
  {
    ChunksRebuild(s, offset, chunks);
    ChunksReadOnce(PadTo(s, offset) + Flat(chunks), offset, sizes);
  }

  // ---- what directories list ----

  /** The entries of a directory: itself, its parent, its children. */
  function Listing(nodes: map<Ino, Node>, dir: Ino): (l: seq<Dirent>)
    requires dir in nodes && forall c | c in nodes[dir].children :: c in nodes
    ensures |l| == 2 + |nodes[dir].children|
  {
    [Dirent(dir, ".", 1), Dirent(nodes[dir].parent, "..", 2)]
    + seq(|nodes[dir].children|, i requires 0 <= i < |nodes[dir].children| =>
        Dirent(nodes[dir].children[i], nodes[nodes[dir].children[i]].name, i + 3))
  }

  /** Entry `index` of a directory: "." and the directory itself, ".." and its parent, then child after child under
      its name; each with the offset behind it. */
  ghost predicate EntryAt(nodes: map<Ino, Node>, dir: Ino, index: nat, d: Dirent)
    requires dir in nodes && forall c | c in nodes[dir].children :: c in nodes
  {
    && d.off == index + 1
    && (index == 0 ==> d.ino == dir && d.name == ".")
    && (index == 1 ==> d.ino == nodes[dir].parent && d.name == "..")
    && (index >= 2 ==> index - 2 < |nodes[dir].children|
                       && d.ino == nodes[dir].children[index - 2] && d.name == nodes[nodes[dir].children[index - 2]].name)
  }

  lemma ListingMeans(nodes: map<Ino, Node>, dir: Ino)
    requires dir in nodes && forall c | c in nodes[dir].children :: c in nodes
    ensures forall i: nat | i < |Listing(nodes, dir)| :: EntryAt(nodes, dir, i, Listing(nodes, dir)[i])
  {
  }

  /** Successive calls, each from the offset where the one before stopped, with room for `caps` entries. */
  function Calls(l: seq<Dirent>, offset: nat, caps: seq<nat>): seq<Dirent>
    requires offset <= |l|
    decreases |caps|
  {
    if caps == [] then []
    else
      var end := if offset + caps[0] < |l| then offset + caps[0] else |l|;
      l[offset..end] + Calls(l, end, caps[1..])
  }

  /** Whatever room each call has, together they list every entry once and in order. */
  lemma {:induction false} CallsListOnce(l: seq<Dirent>, offset: nat, caps: seq<nat>)
    requires offset <= |l|
    ensures Calls(l, offset, caps) == l[offset..if offset + Sum(caps) < |l| then offset + Sum(caps) else |l|]
    decreases |caps|
  {
    if caps != [] {
      var end := if offset + caps[0] < |l| then offset + caps[0] else |l|;
      CallsListOnce(l, end, caps[1..]);
      var last := if end + Sum(caps[1..]) < |l| then end + Sum(caps[1..]) else |l|;
      Neighbours(l, offset, end, last);
    }
  }

  lemma Neighbours(l: seq<Dirent>, a: nat, b: nat, c: nat)
    requires a <= b <= c <= |l|
    ensures l[a..b] + l[b..c] == l[a..c]
  {
  }

  // ---- the counters ----

  function Sizes(nodes: map<Ino, Node>, n: nat): nat {
    if n == 0 then 0 else Sizes(nodes, n - 1) + (if n - 1 in nodes then nodes[n - 1].size else 0)
  }

  lemma {:induction false} SizesChange(nodes: map<Ino, Node>, i: Ino, node: Node, n: nat)
    ensures Sizes(nodes[i := node], n) ==
      Sizes(nodes, n) + (if i < n then node.size - (if i in nodes then nodes[i].size else 0) else 0)
  {
    if n > 0 {
      SizesChange(nodes, i, node, n - 1);
    }
  }

  predicate NodeOk(nodes: map<Ino, Node>, i: Ino)
    requires i in nodes
  {
    var n := nodes[i];
    && n.parent in nodes && nodes[n.parent].isDir && n.size <= |n.buf| && Distinct(n.children)
    && (n.isDir ==> n.size == 0) && (!n.isDir ==> n.children == [])
    && (forall c | c in n.children :: c in nodes && nodes[c].parent == i && c != ROOT)
    && (forall c, d | c in n.children && d in n.children && c in nodes && d in nodes && nodes[c].name == nodes[d].name :: c == d)
    && (i != ROOT ==> i in nodes[n.parent].children)
  }

  /** What the invariant says of one node. */
  lemma Facts(nodes: map<Ino, Node>, i: Ino)
    requires i in nodes && NodeOk(nodes, i)
    ensures var n := nodes[i];
      && n.parent in nodes && n.size <= |n.buf| && Distinct(n.children) && (n.isDir ==> n.size == 0)
      && (forall c | c in n.children :: c in nodes)
  {
  }

  /** Another buffer for a file changes nothing for the tree. */
  lemma SameTree(nodes: map<Ino, Node>, nodes': map<Ino, Node>, f: Ino, i: Ino)
    requires f in nodes && !nodes[f].isDir && i in nodes && NodeOk(nodes, i)
    requires f in nodes' && nodes' == nodes[f := nodes'[f]] && nodes'[f].size <= |nodes'[f].buf|
    requires nodes'[f] == nodes[f].(buf := nodes'[f].buf, size := nodes'[f].size)
    ensures NodeOk(nodes', i)
  {
  }

  class FileSystem {
    var nodes: map<Ino, Node>
    var nextInode: nat
    var nodeCount: nat
    var byteCount: nat

    /** Buffers hold the files, siblings have different names, every node but the root is in its parent's list,
        and the counters are right. */
    ghost predicate Valid()
      reads this
    {
      && ROOT in nodes && nodes[ROOT].isDir && nodes[ROOT].parent == ROOT
      && (forall i | i in nodes :: NodeOk(nodes, i))
      && (forall i | i in nodes :: i < nextInode)
      && nodeCount == |nodes| && byteCount == Sizes(nodes, nextInode)
    }

    /** The bytes of a file. */
    ghost function Content(f: Ino): (s: seq<byte>)
      requires f in nodes && nodes[f].size <= |nodes[f].buf|
      reads this
    {
      nodes[f].buf[..nodes[f].size]
    }

    /** `tmpfs_mount` */
    constructor ()
      ensures Valid() && nodes.Keys == {ROOT} && nodes[ROOT].children == []
    {
      nodes := map[ROOT := Node(true, "", ROOT, [], [], 0)];
      nextInode, nodeCount, byteCount := 2, 1, 0;
      new;
      assert Sizes(nodes, 0) == 0 && Sizes(nodes, 1) == 0 && Sizes(nodes, 2) == 0;
    }

    /** Replace a file's buffer and size. */
    method SetFile(f: Ino, buf: seq<byte>, size: nat)
      requires Valid() && f in nodes && !nodes[f].isDir && size <= |buf|
      modifies this`nodes, this`byteCount
      ensures Valid() && nodes == old(nodes)[f := old(nodes)[f].(buf := buf, size := size)]
    {
      hide NodeOk;
      ghost var nodes0 := nodes;
      SizesChange(nodes, f, nodes[f].(buf := buf, size := size), nextInode);
      SizesPositive(nodes, f, nextInode);
      byteCount := byteCount + size - nodes[f].size;
      nodes := nodes[f := nodes[f].(buf := buf, size := size)];
      hide Sizes;
      forall i | i in nodes
        ensures NodeOk(nodes, i)
      {
        assert NodeOk(nodes0, i);
        SameTree(nodes0, nodes, f, i);
      }
    }

    /** `tmpfs_resize_node`: old bytes stay, new ones are zero whatever the buffer held there before. */
    method Resize(f: Ino, size: nat, heapOk: bool) returns (rc: int)
      requires Valid() && f in nodes && !nodes[f].isDir
      modifies this`nodes, this`byteCount
      ensures Valid() && (rc == 0 || rc == -1)
      ensures rc == -1 <==> !heapOk && size > |old(nodes)[f].buf|
      ensures rc == -1 ==> nodes == old(nodes) && byteCount == old(byteCount)
      ensures rc == 0 ==>
        nodes.Keys == old(nodes).Keys && nodes == old(nodes)[f := nodes[f]] && nodes[f].size == size
      ensures rc == 0 ==> !nodes[f].isDir && nodes[f].size <= |nodes[f].buf| && Content(f) == PadTo(old(Content(f)), size)
      ensures rc == 0 ==>
        forall j: nat | j < size :: Content(f)[j] == if j < old(nodes)[f].size then old(nodes)[f].buf[j] else 0
    {
      hide NodeOk;
      Facts(nodes, f);
      var n := nodes[f];
      if size <= |n.buf| {
        var buf := n.buf;
        if size > n.size {
          buf := n.buf[..n.size] + Zeros(size - n.size) + n.buf[size..];
        }
        assert buf[..size] == PadTo(n.buf[..n.size], size);
        SetFile(f, buf, size);
        return 0;
      }
      var capacity := if |n.buf| > 0 then |n.buf| else 64;
      while capacity < size
        invariant capacity > 0 && capacity >= |n.buf|
        decreases size - capacity
      {
        capacity := 2 * capacity;
      }
      if !heapOk {
        return -1;
      }
      var buf := n.buf + Zeros(capacity - |n.buf|);
      if size > n.size {
        buf := buf[..n.size] + Zeros(size - n.size) + buf[size..];
      }
      assert buf[..size] == PadTo(n.buf[..n.size], size);
      SetFile(f, buf, size);
      return 0;
    }

    /** The O_TRUNC part of `tmpfs_open`: the bytes stay in the buffer but not in the file. */
    method Truncate(f: Ino)
      requires Valid() && f in nodes && !nodes[f].isDir
      modifies this`nodes, this`byteCount
      ensures Valid() && nodes == old(nodes)[f := old(nodes)[f].(size := 0)]
    {
      hide NodeOk;
      SetFile(f, nodes[f].buf, 0);
    }

    /** `tmpfs_read` */
    method Read(f: Ino, size: nat, offset: nat) returns (rc: int, data: seq<byte>)
      requires Valid() && f in nodes
      ensures rc == -1 <==> nodes[f].isDir
      ensures nodes[f].size <= |nodes[f].buf|
      ensures rc != -1 ==> rc == 0 && data == Part(Content(f), offset, size)
      ensures rc != -1 ==> |data| == if offset >= nodes[f].size then 0
                                     else if size < nodes[f].size - offset then size else nodes[f].size - offset
      ensures rc != -1 ==> forall j: nat | j < |data| :: data[j] == nodes[f].buf[offset + j]
    {
      hide NodeOk;
      Facts(nodes, f);
      if nodes[f].isDir {
        return -1, [];
      }
      var n := nodes[f];
      if offset >= n.size {
        return 0, [];
      }
      var available := n.size - offset;
      var count := if size < available then size else available;
      data := n.buf[offset..offset + count];
      return 0, data;
    }

    /** `tmpfs_write`; with O_APPEND the offset is the end of the file. */
    method Write(f: Ino, data: seq<byte>, offset0: nat, append: bool, heapOk: bool) returns (rc: int)
      requires Valid() && f in nodes
      modifies this`nodes, this`byteCount
      ensures Valid() && (rc == 0 || rc == -1) && nodes.Keys == old(nodes).Keys
      ensures forall g | g in nodes && g != f :: nodes[g] == old(nodes)[g]
      ensures old(nodes)[f].size <= |old(nodes)[f].buf| && nodes[f].size <= |nodes[f].buf|
      ensures rc == 0 ==>
        !nodes[f].isDir && Content(f) == Written(old(Content(f)), if append then old(nodes)[f].size else offset0, data)
      ensures rc == -1 ==> nodes == old(nodes) && byteCount == old(byteCount)
      ensures rc == -1 ==> nodes[f].isDir || !heapOk
      ensures rc == 0 ==> AsWritten(old(Content(f)), Content(f), if append then old(nodes)[f].size else offset0, data)
    {
      hide NodeOk;
      hide AsWritten;
      Facts(nodes, f);
      WrittenMeans(Content(f), if append then nodes[f].size else offset0, data);
      if nodes[f].isDir {
        return -1;
      }
      var offset := if append then nodes[f].size else offset0;
      var end := offset + |data|;
      ghost var s := Content(f);
      rc := Resize(f, end, heapOk);
      if rc == 0 && |data| != 0 {
        var buf := nodes[f].buf;
        PadTwice(s, offset, end);
        assert buf[..offset] == PadTo(s, end)[..offset];
        buf := buf[..offset] + data + buf[end..];
        assert buf[..end] == PadTo(s, offset) + data;
        SetFile(f, buf, end);
      } else if rc == 0 {
        assert PadTo(s, offset) + data == PadTo(s, offset);
      }
    }

    /** `tmpfs_find_child` */
    method FindChild(dir: Ino, name: Name) returns (found: bool, child: Ino)
      requires Valid() && dir in nodes
      ensures forall c | c in nodes[dir].children :: c in nodes
      ensures found ==> child in nodes[dir].children && nodes[child].name == name
      ensures found <==> exists c :: c in nodes[dir].children && nodes[c].name == name
    {
      hide NodeOk;
      Facts(nodes, dir);
      var l := nodes[dir].children;
      for i := 0 to |l|
        invariant forall j | 0 <= j < i :: nodes[l[j]].name != name
      {
        if nodes[l[i]].name == name {
          return true, l[i];
        }
      }
      return false, 0;
    }

    /** `tmpfs_create` */
    method Create(dir: Ino, name: Name, isDir: bool, heapOk: bool) returns (rc: int, child: Ino)
      requires Valid() && dir in nodes
      modifies this
      ensures Valid() && (rc == 0 || rc == -1) && forall c | c in old(nodes)[dir].children :: c in old(nodes)
      ensures rc == -1 <==>
        || name == "" || |name| > 255 || !old(nodes)[dir].isDir || !heapOk
        || exists c :: c in old(nodes)[dir].children && old(nodes)[c].name == name
      ensures rc == -1 ==> nodes == old(nodes)
      ensures rc == 0 ==>
        && child !in old(nodes) && nodes.Keys == old(nodes).Keys + {child}
        && nodes[child] == Node(isDir, name, dir, [], [], 0)
        && nodes[dir] == old(nodes)[dir].(children := [child] + old(nodes)[dir].children)
        && forall i | i in old(nodes) && i != dir :: nodes[i] == old(nodes)[i]
    {
      hide NodeOk;
      Facts(nodes, dir);
      if name == "" || !nodes[dir].isDir || |name| > NAME_MAX {
        return -1, 0;
      }
      var found;
      found, child := FindChild(dir, name);
      if found || !heapOk {
        return -1, 0;
      }
      child := nextInode;
      ghost var nodes0 := nodes;
      var node := Node(isDir, name, dir, [], [], 0);
      SizesChange(nodes, child, node, nextInode + 1);
      SizesChange(nodes[child := node], dir, nodes[dir].(children := [child] + nodes[dir].children), nextInode + 1);
      nextInode := nextInode + 1;
      nodeCount := nodeCount + 1;
      nodes := nodes[child := node];
      nodes := nodes[dir := nodes[dir].(children := [child] + nodes[dir].children)];
      forall i | i in nodes
        ensures NodeOk(nodes, i)
      {
        LinkedNode(nodes0, nodes, dir, child, node, i);
      }
      rc := 0;
    }

    /** `tmpfs_child_at` */
    method ChildAt(dir: Ino, index0: nat) returns (found: bool, child: Ino)
      requires dir in nodes
      ensures found <==> index0 < |nodes[dir].children|
      ensures found ==> child == nodes[dir].children[index0]
    {
      var l := nodes[dir].children;
      var k, index: nat := 0, index0;
      while k < |l| && index != 0
        invariant k <= |l| && k + index == index0
      {
        k, index := k + 1, index - 1;
      }
      if k < |l| {
        return true, l[k];
      }
      return false, 0;
    }

    /** `tmpfs_getdents`, with room for `capacity` entries: the entries from the offset on. */
    method GetDents(dir: Ino, offset: nat, capacity: nat) returns (rc: int, entries: seq<Dirent>)
      requires Valid() && dir in nodes
      ensures rc == -1 <==> !nodes[dir].isDir
      ensures forall c | c in nodes[dir].children :: c in nodes
      ensures rc != -1 ==>
        var l := Listing(nodes, dir);
        rc == 0 && entries == if offset >= |l| then [] else l[offset..if offset + capacity < |l| then offset + capacity else |l|]
      ensures rc != -1 ==>
        var total := 2 + |nodes[dir].children|;
        |entries| == if offset >= total then 0 else if capacity < total - offset then capacity else total - offset
      ensures forall j: nat | j < |entries| :: EntryAt(nodes, dir, offset + j, entries[j])
    {
      hide NodeOk;
      Facts(nodes, dir);
      if !nodes[dir].isDir {
        return -1, [];
      }
      entries := [];
      if capacity == 0 {
        return 0, [];
      }
      ghost var l := Listing(nodes, dir);
      ListingMeans(nodes, dir);
      hide EntryAt;
      var index := offset;
      while |entries| < capacity
        invariant index == offset + |entries| && |entries| <= capacity
        invariant entries != [] ==> index <= |l| && entries == l[offset..index]
        decreases capacity - |entries|
      {
        var entry;
        if index == 0 {
          entry := Dirent(dir, ".", index + 1);
        } else if index == 1 {
          entry := Dirent(nodes[dir].parent, "..", index + 1);
        } else {
          var found, child := ChildAt(dir, index - 2);
          if !found {
            break;
          }
          assert child in nodes[dir].children;
          entry := Dirent(child, nodes[child].name, index + 1);
        }
        assert index < |l| && entry == l[index];
        entries := entries + [entry];
        index := index + 1;
      }
      return 0, entries;
    }
  }

  lemma PadTwice(s: seq<byte>, a: nat, b: nat)
    requires a <= b
    ensures PadTo(s, b)[..a] == PadTo(s, a)
  {
  }

  lemma {:induction false} SizesPositive(nodes: map<Ino, Node>, i: Ino, n: nat)
    requires i in nodes && i < n
    ensures Sizes(nodes, n) >= nodes[i].size
    decreases n
  {
    if i < n - 1 {
      SizesPositive(nodes, i, n - 1);
    }
  }

  /** Linking a new child keeps every node in order. */
  lemma LinkedNode(nodes: map<Ino, Node>, nodes': map<Ino, Node>, dir: Ino, child: Ino, node: Node, i: Ino)
    requires dir in nodes && nodes[dir].isDir && child !in nodes && dir != child && ROOT in nodes
    requires i in nodes ==> NodeOk(nodes, i)
    requires NodeOk(nodes, dir)
    requires node.parent == dir && node.children == [] && node.size == 0 && node.buf == []
    requires forall c | c in nodes[dir].children :: c in nodes && nodes[c].name != node.name
    requires nodes' == nodes[child := node][dir := nodes[dir].(children := [child] + nodes[dir].children)]
    requires i in nodes'
    ensures NodeOk(nodes', i)
  {
    var l := nodes[dir].children;
    assert forall c :: c in [child] + l <==> c == child || c in l;
    if i == dir {
      assert child !in l;
      assert Distinct([child] + l);
    }
  }
}
