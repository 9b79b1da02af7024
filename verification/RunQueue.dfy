/** The doubly linked queue under the scheduler and the mutexes (kernel/src/lib/rq.c). */
module RunQueue {
  class Node {
    var data: nat
    var next: Node?
    var prev: Node?

    /** `rq_node_init` */
    constructor (data: nat)
      ensures this.data == data && next == null && prev == null
    {
      this.data, next, prev := data, null, null;
    }
  }

  class Queue {
    var head: Node?
    var tail: Node?
    var len: nat
    ghost var nodes: seq<Node>   // the nodes, in order

    /** `nodes` are linked both ways, once each, and counted. */
    ghost predicate Valid()
      reads this, nodes
    {
      && Linked(nodes)
      && head == (if nodes == [] then null else nodes[0])
      && tail == (if nodes == [] then null else nodes[|nodes| - 1])
      && len == |nodes|
    }

    /** What the queue holds. */
    ghost function Contents(): (s: seq<nat>)
      reads this, nodes
      ensures |s| == |nodes|
    {
      DataOf(nodes)
    }

    /** `rq_init` */
    constructor ()
      ensures Valid() && nodes == []
    {
      head, tail, len, nodes := null, null, 0, [];
    }

    /** `rq_push_back_node` */
    method PushBackNode(node: Node)
      requires Valid() && node !in nodes
      modifies this, node, tail
      ensures Valid() && nodes == old(nodes) + [node] && node.data == old(node.data)
      ensures Contents() == old(Contents()) + [node.data]
    {
      ghost var l := nodes;
      node.next := null;
      node.prev := tail;
      if tail != null {
        tail.next := node;
      } else {
        head := node;
      }
      tail := node;
      len := len + 1;
      nodes := nodes + [node];
    }

    /** `rq_push_front_node` */
    method PushFrontNode(node: Node)
      requires Valid() && node !in nodes
      modifies this, node, head
      ensures Valid() && nodes == [node] + old(nodes) && node.data == old(node.data)
      ensures Contents() == [node.data] + old(Contents())
    {
      hide DataOf;
      ghost var l, d := nodes, Contents();
      assert forall x | x in l :: x != node;
      node.prev := null;
      node.next := head;
      if head != null {
        head.prev := node;
      } else {
        tail := node;
      }
      head := node;
      len := len + 1;
      nodes := [node] + nodes;
      assert nodes[1..] == l;
      assert Contents()[1..] == d;
    }

    /** `rq_pop_front_node` */
    method PopFrontNode() returns (node: Node?)
      requires Valid()
      modifies this, nodes
      ensures Valid() && (node == null <==> old(nodes) == [])
      ensures node == null ==> nodes == []
      ensures node != null ==>
        && node == old(nodes)[0] && nodes == old(nodes)[1..] && node.next == null == node.prev
        && node.data == old(node.data) && Contents() == old(Contents())[1..]
    {
      if head == null {
        return null;
      }
      node := head;
      assert node == nodes[0] && (|nodes| > 1 ==> node.next == nodes[1] && nodes[1] in nodes);
      head := node.next;
      if head != null {
        head.prev := null;
      } else {
        tail := null;
      }
      node.next := null;
      node.prev := null;
      len := len - 1;
      nodes := nodes[1..];
    }

    /** `rq_pop_back_node` */
    method PopBackNode() returns (node: Node?)
      requires Valid()
      modifies this, nodes
      ensures Valid() && (node == null <==> old(nodes) == [])
      ensures node == null ==> nodes == []
      ensures node != null ==>
        && node == old(nodes)[|old(nodes)| - 1] && nodes == old(nodes)[..|old(nodes)| - 1]
        && node.next == null == node.prev && node.data == old(node.data)
        && Contents() == old(Contents())[..|old(nodes)| - 1]
    {
      if tail == null {
        return null;
      }
      node := tail;
      assert node == nodes[|nodes| - 1];
      assert |nodes| > 1 ==> node.prev == nodes[|nodes| - 2] && nodes[|nodes| - 2] in nodes;
      tail := node.prev;
      if tail != null {
        tail.next := null;
      } else {
        head := null;
      }
      node.next := null;
      node.prev := null;
      len := len - 1;
      nodes := nodes[..|nodes| - 1];
    }

    /** The neighbours of node `i` are linked to each other. */
    method Bypass(node: Node, ghost i: nat)
      requires Valid() && i < |nodes| && nodes[i] == node
      modifies this`head, this`tail, nodes
      ensures forall k | 0 <= k < |nodes| && k != i && k != i - 1 :: nodes[k].next == old(nodes[k].next)
      ensures forall k | 0 <= k < |nodes| && k != i && k != i + 1 :: nodes[k].prev == old(nodes[k].prev)
      ensures forall k | 0 <= k < |nodes| :: nodes[k].data == old(nodes[k].data)
      ensures i > 0 ==> nodes[i - 1].next == (if i + 1 < |nodes| then nodes[i + 1] else null)
      ensures i + 1 < |nodes| ==> nodes[i + 1].prev == (if i > 0 then nodes[i - 1] else null)
      ensures head == (if i > 0 then old(head) else if |nodes| > 1 then nodes[1] else null)
      ensures tail == (if i + 1 < |nodes| then old(tail) else if i > 0 then nodes[i - 1] else null)
      ensures node.next == null == node.prev
    {
      assert i > 0 ==> node.prev == nodes[i - 1] && nodes[i - 1] in nodes;
      assert i + 1 < |nodes| ==> node.next == nodes[i + 1] && nodes[i + 1] in nodes;
      if node.prev != null {
        node.prev.next := node.next;
      } else {
        head := node.next;
      }
      if node.next != null {
        node.next.prev := node.prev;
      } else {
        tail := node.prev;
      }
      node.next := null;
      node.prev := null;
    }

    /** The nodes but node `i` are linked in order. */
    method Unlink(node: Node, ghost i: nat)
      requires Valid() && i < |nodes| && nodes[i] == node
      modifies this`head, this`tail, nodes
      ensures var l := nodes[..i] + nodes[i + 1..];
        && Linked(l) && DataOf(l) == old(Contents())[..i] + old(Contents())[i + 1..]
        && head == (if l == [] then null else l[0]) && tail == (if l == [] then null else l[|l| - 1])
      ensures node.next == null == node.prev
    {
      ghost var d, nexts, prevs := Contents(), NextsOf(nodes), PrevsOf(nodes);
      hide DataOf;
      hide NextsOf;
      hide PrevsOf;
      Bypass(node, i);
      Relinked(nodes, nexts, prevs, i);
      hide Linked;
      DataWithout(nodes, d, i);
    }

    /** `rq_remove_node` */
    method RemoveNode(node: Node, ghost i: nat)
      requires Valid() && i < |nodes| && nodes[i] == node
      modifies this, nodes
      ensures Valid() && nodes == old(nodes)[..i] + old(nodes)[i + 1..] && node.next == null == node.prev
      ensures Contents() == old(Contents())[..i] + old(Contents())[i + 1..]
    {
      hide DataOf;
      hide Linked;
      Unlink(node, i);
      len := len - 1;
      nodes := nodes[..i] + nodes[i + 1..];
    }

    /** `rq_find`: the first node with the data. */
    method Find(data: nat) returns (node: Node?, ghost i: nat)
      requires Valid()
      ensures node == null <==> data !in Contents()
      ensures node != null ==> i < |nodes| && nodes[i] == node && node.data == data && data !in Contents()[..i]
    {
      node, i := head, 0;
      while node != null
        invariant i <= |nodes| && node == (if i < |nodes| then nodes[i] else null)
        invariant forall j | 0 <= j < i :: nodes[j].data != data
        decreases |nodes| - i
      {
        if node.data == data {
          return;
        }
        assert i + 1 < |nodes| ==> node.next == nodes[i + 1];
        node, i := node.next, i + 1;
      }
    }

    /** `rq_contains` */
    method Contains(data: nat) returns (found: bool)
      requires Valid()
      ensures found <==> data in Contents()
    {
      ghost var i;
      var node;
      node, i := Find(data);
      return node != null;
    }

    /** `rq_remove`: the first occurrence goes. */
    method Remove(data: nat) returns (found: bool)
      requires Valid()
      modifies this, nodes
      ensures Valid() && (found <==> data in old(Contents()))
      ensures Contents() == WithoutFirst(old(Contents()), data)
      ensures data !in old(Contents()) ==> nodes == old(nodes) && Contents() == old(Contents())
      ensures data in old(Contents()) ==>
        exists i :: && 0 <= i < |old(nodes)| && old(Contents())[i] == data && data !in old(Contents())[..i]
                    && nodes == old(nodes)[..i] + old(nodes)[i + 1..]
                    && Contents() == old(Contents())[..i] + old(Contents())[i + 1..]
    {
      ghost var i;
      var node;
      node, i := Find(data);
      FirstGone(Contents(), data, if node == null then 0 else i);
      if node == null {
        return false;
      }
      RemoveNode(node, i);
      return true;
    }

    /** `rq_rotate`: the first goes to the end. */
    method Rotate()
      requires Valid()
      modifies this, nodes
      ensures Valid()
      ensures Contents() == if |old(Contents())| < 2 then old(Contents()) else old(Contents())[1..] + [old(Contents())[0]]
    {
      if len < 2 {
        return;
      }
      var node := PopFrontNode();
      PushBackNode(node);
    }

    /** `rq_node_is_linked`, for a node of the queue or one outside: true only among two nodes or more. */
    method IsLinked(node: Node) returns (linked: bool)
      requires Valid() && (node in nodes || (node.next == null && node.prev == null))
      ensures linked <==> node in nodes && |nodes| > 1
    {
      if node in nodes {
        ghost var i :| 0 <= i < |nodes| && nodes[i] == node;
        assert i + 1 < |nodes| ==> node.next == nodes[i + 1];
        assert i > 0 ==> node.prev == nodes[i - 1];
      }
      return node.next != null || node.prev != null;
    }
  }

  ghost predicate Linked(l: seq<Node>)
    reads l
  {
    && (forall i, j | 0 <= i < j < |l| :: l[i] != l[j])
    && (forall i, j | 0 <= i < j < |l| && j == i + 1 :: l[i].next == l[j] && l[j].prev == l[i])
    && (l != [] ==> l[0].prev == null && l[|l| - 1].next == null)
  }

  ghost function DataOf(l: seq<Node>): (s: seq<nat>)
    reads l
    ensures |s| == |l| && forall i | 0 <= i < |l| :: s[i] == l[i].data
  {
    if l == [] then [] else [l[0].data] + DataOf(l[1..])
  }

  ghost function NextsOf(l: seq<Node>): (s: seq<Node?>)
    reads l
    ensures |s| == |l| && forall i | 0 <= i < |l| :: s[i] == l[i].next
  {
    if l == [] then [] else [l[0].next] + NextsOf(l[1..])
  }

  ghost function PrevsOf(l: seq<Node>): (s: seq<Node?>)
    reads l
    ensures |s| == |l| && forall i | 0 <= i < |l| :: s[i] == l[i].prev
  {
    if l == [] then [] else [l[0].prev] + PrevsOf(l[1..])
  }

  /** After the neighbours of node `i` have been linked to each other, the others are in order. */
  lemma Relinked(l: seq<Node>, nexts: seq<Node?>, prevs: seq<Node?>, i: nat)
    requires |nexts| == |prevs| == |l| && i < |l|
    requires forall j, k | 0 <= j < k < |l| :: l[j] != l[k]
    requires forall j, k | 0 <= j < k < |l| && k == j + 1 :: nexts[j] == l[k] && prevs[k] == l[j]
    requires prevs[0] == null && nexts[|l| - 1] == null
    requires forall k | 0 <= k < |l| && k != i && k != i - 1 :: l[k].next == nexts[k]
    requires forall k | 0 <= k < |l| && k != i && k != i + 1 :: l[k].prev == prevs[k]
    requires i > 0 ==> l[i - 1].next == (if i + 1 < |l| then l[i + 1] else null)
    requires i + 1 < |l| ==> l[i + 1].prev == (if i > 0 then l[i - 1] else null)
    ensures Linked(l[..i] + l[i + 1..])
  {
    var m := l[..i] + l[i + 1..];
    forall j, k | 0 <= j < k < |m| && k == j + 1
      ensures m[j].next == m[k] && m[k].prev == m[j]
    {
      var j', k' := if j < i then j else j + 1, if k < i then k else k + 1;
      assert m[j] == l[j'] && m[k] == l[k'];
      assert k' == j' + 1 ==> nexts[j'] == l[k'] && prevs[k'] == l[j'];
    }
  }

  lemma DataWithout(l: seq<Node>, d: seq<nat>, i: nat)
    requires |d| == |l| && i < |l| && forall k | 0 <= k < |l| :: l[k].data == d[k]
    ensures DataOf(l[..i] + l[i + 1..]) == d[..i] + d[i + 1..]
  {
    hide DataOf;
  }

  function WithoutFirst(s: seq<nat>, d: nat): seq<nat> {
    if s == [] then [] else if s[0] == d then s[1..] else [s[0]] + WithoutFirst(s[1..], d)
  }

  lemma {:induction false} FirstGone(s: seq<nat>, d: nat, i: nat)
    ensures d !in s ==> WithoutFirst(s, d) == s
    ensures i < |s| && s[i] == d && d !in s[..i] ==> WithoutFirst(s, d) == s[..i] + s[i + 1..]
  {
    if s != [] && s[0] != d {
      FirstGone(s[1..], d, if i > 0 then i - 1 else 0);
      if 0 < i < |s| {
        assert s[1..][..i - 1] == s[..i][1..];
        assert s[..i] == [s[0]] + s[1..][..i - 1];
      }
    } else if s != [] && i > 0 && i < |s| {
      assert s[0] == s[..i][0];
    }
  }
}
