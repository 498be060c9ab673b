/**
  The queue of the page cache: a doubly linked list of nodes, one for each page in a warm slot, from the
  most recently used page at the front to the least recently used at the rear.
 */
module VmeQueue {

  class QNode {
    var prev: QNode?
    var next: QNode?
    const pageNumber: nat
    var warm: nat
    var stick: bool

    constructor (pageNumber: nat)
      ensures this.pageNumber == pageNumber && prev == null && next == null
    {
      this.pageNumber := pageNumber;
      prev, next := null, null;
      warm, stick := 0, false;
    }
  }

  function NodeAt(s: seq<QNode>, i: int): (n: QNode?)
    ensures 0 <= i < |s| ==> n == s[i]
  {
    if 0 <= i < |s| then s[i] else null
  }

  ghost predicate Distinct(s: seq<QNode>) {
    forall i, j :: 0 <= i < j < |s| ==> s[i] != s[j]
  }

  lemma Differ(s: seq<QNode>, i: int, j: int)
    requires Distinct(s)
    ensures 0 <= i < |s| && 0 <= j < |s| && i != j ==> s[i] != s[j]
  {
  }

  lemma DistinctParts(s: seq<QNode>, n: QNode)
    requires Distinct(s)
    ensures n !in s ==> Distinct([n] + s) && Distinct(s + [n])
    ensures s != [] ==> Distinct(s[..|s| - 1])
  {
  }

  function Without(s: seq<QNode>, i: nat): seq<QNode>
    requires i < |s|
  {
    s[..i] + s[i + 1..]
  }

  lemma WithoutAt(s: seq<QNode>, i: nat)
    requires i < |s|
    ensures |Without(s, i)| == |s| - 1
    ensures forall k {:trigger Without(s, i)[k]} :: 0 <= k < |s| - 1 ==>
      Without(s, i)[k] == if k < i then s[k] else s[k + 1]
    ensures Distinct(s) ==> Distinct(Without(s, i)) && s[i] !in Without(s, i)
  {
  }

  class Queue {
    var count: nat
    const numberOfFrames: nat
    var front: QNode?
    var rear: QNode?

    ghost var nodes: seq<QNode>   // from front to rear
    ghost var repr: set<QNode>

    constructor (numberOfFrames: nat)
      ensures Valid() && nodes == [] && repr == {} && this.numberOfFrames == numberOfFrames
    {
      count := 0;
      front, rear := null, null;
      this.numberOfFrames := numberOfFrames;
      nodes, repr := [], {};
    }

    ghost predicate Valid()
      reads this, repr
    {
      |nodes| == count && Linked()
    }

    /** The nodes are linked both ways, in the order of nodes. */
    ghost predicate Linked()
      reads this, repr
    {
      && front == NodeAt(nodes, 0) && rear == NodeAt(nodes, |nodes| - 1)
      && Distinct(nodes)
      && (forall i :: 0 <= i < |nodes| ==> nodes[i] in repr)
      && (forall i {:trigger nodes[i].prev} :: 0 <= i < |nodes| ==> nodes[i].prev == NodeAt(nodes, i - 1))
      && (forall i {:trigger nodes[i].next} :: 0 <= i < |nodes| ==> nodes[i].next == NodeAt(nodes, i + 1))
    }

    predicate AreAllFramesFull()
      reads this
    {
      count == numberOfFrames
    }

    predicate IsEmpty()
      reads this
    {
      rear == null
    }

    /** The list part of deQueue. */
    method RemoveRear() returns (temp: QNode)
      requires Valid() && nodes != []
      modifies this`count, this`front, this`rear, this`nodes, repr`next
      ensures Valid() && temp == old(nodes)[|old(nodes)| - 1] && nodes == old(nodes)[..|old(nodes)| - 1]
    {
      hide Distinct;
      ghost var was, n := nodes, |nodes| - 1;
      assert was[n].prev == NodeAt(was, n - 1);
      Differ(was, 0, n);
      if front == rear {
        front := null;
      }
      temp := rear;
      rear := rear.prev;
      if rear != null {
        rear.next := null;
      }
      count := count - 1;
      nodes := was[..n];
      DistinctParts(was, temp);
      forall k | 0 <= k < n ensures nodes[k].next == NodeAt(nodes, k + 1) {
        assert nodes[k] == was[k];
        Differ(was, k, n - 1);
      }
    }

    /** The list part of Enqueue. */
    method LinkFront(temp: QNode)
      requires Valid() && temp !in repr && temp.prev == null
      modifies this`count, this`front, this`rear, this`nodes, this`repr, temp`next, repr`prev
      ensures Valid() && nodes == [temp] + old(nodes) && repr == old(repr) + {temp}
    {
      hide Distinct;
      ghost var was := nodes;
      temp.next := front;
      if IsEmpty() {
        rear := temp;
        front := temp;
      } else {
        front.prev := temp;
        front := temp;
      }
      count := count + 1;
      nodes, repr := [temp] + nodes, repr + {temp};
      assert forall k :: 0 < k < |nodes| ==> nodes[k] == was[k - 1];
      DistinctParts(was, temp);
      forall k | 0 <= k < |nodes| ensures nodes[k].prev == NodeAt(nodes, k - 1) {
        Differ(was, k - 1, 0);
      }
    }

    method CutInner(node: QNode, ghost i: nat)
      requires Linked() && 0 < i < |nodes| - 1 && node == nodes[i]
      modifies this`nodes, repr`prev, repr`next
      ensures Linked() && nodes == Without(old(nodes), i)
    {
      hide Without, Distinct;
      ghost var was, t := nodes, Without(nodes, i);
      WithoutAt(was, i);
      assert was[i].prev == was[i - 1] && was[i].next == was[i + 1];
      Differ(was, i, i + 1);
      node.prev.next := node.next;
      node.next.prev := node.prev;
      forall k | 0 <= k < |t| ensures t[k].prev == NodeAt(t, k - 1) {
        ghost var m := if k < i then k else k + 1;
        assert t[k] == was[m];
        Differ(was, m, i + 1);
      }
      forall k | 0 <= k < |t| ensures t[k].next == NodeAt(t, k + 1) {
        ghost var m := if k < i then k else k + 1;
        assert t[k] == was[m];
        Differ(was, m, i - 1);
      }
      nodes := t;
    }

    method CutRear(node: QNode)
      requires Linked() && 1 < |nodes| && node == nodes[|nodes| - 1]
      modifies this`rear, this`nodes, repr`next
      ensures Linked() && nodes == Without(old(nodes), |old(nodes)| - 1)
    {
      hide Without, Distinct;
      ghost var was, n := nodes, |nodes| - 1;
      WithoutAt(was, n);
      assert was[n].prev == was[n - 1] && was[n].next == null;
      node.prev.next := node.next;
      rear := node.prev;
      rear.next := null;
      nodes := Without(was, n);
      forall k | 0 <= k < n ensures nodes[k].next == NodeAt(nodes, k + 1) {
        assert nodes[k] == was[k];
        Differ(was, k, n - 1);
      }
    }

    method CutFront(node: QNode)
      requires Linked() && 1 < |nodes| && node == nodes[0]
      modifies this`front, this`nodes, repr`prev
      ensures Linked() && nodes == Without(old(nodes), 0)
    {
      hide Without, Distinct;
      ghost var was := nodes;
      WithoutAt(was, 0);
      assert was[0].prev == null && was[0].next == was[1];
      node.next.prev := node.prev;
      front := node.next;
      front.prev := null;
      nodes := Without(was, 0);
      forall k | 0 <= k < |nodes| ensures nodes[k].prev == NodeAt(nodes, k - 1) {
        assert nodes[k] == was[k + 1];
        Differ(was, k + 1, 1);
      }
    }

    /** Unlink a node that is not at the front. */
    method UnlinkFromBehind(node: QNode, ghost i: nat)
      requires Linked() && 0 < i < |nodes| && node == nodes[i]
      modifies this`rear, this`nodes, repr`prev, repr`next
      ensures Linked() && nodes == Without(old(nodes), i)
    {
      assert nodes[i].next == NodeAt(nodes, i + 1);
      if node.next != null {
        CutInner(node, i);
      } else {
        CutRear(node);
      }
    }

    /** Unlink a node that is not at the rear. */
    method UnlinkFromAhead(node: QNode, ghost i: nat)
      requires Linked() && i < |nodes| - 1 && node == nodes[i]
      modifies this`front, this`nodes, repr`prev, repr`next
      ensures Linked() && nodes == Without(old(nodes), i)
    {
      assert nodes[i].prev == NodeAt(nodes, i - 1);
      if node.prev != null {
        CutInner(node, i);
      } else {
        CutFront(node);
      }
    }

    /** Put a node before the front of a list it is not in. */
    method AttachFront(node: QNode)
      requires Linked() && nodes != [] && node in repr && node !in nodes
      modifies this`front, this`nodes, repr`prev, repr`next
      ensures Linked() && nodes == [node] + old(nodes)
    {
      hide Distinct;
      ghost var was := nodes;
      node.next := front;
      node.prev := null;
      node.next.prev := node;
      front := node;
      nodes := [node] + was;
      DistinctParts(was, node);
      forall k | 0 <= k < |nodes| ensures nodes[k].prev == NodeAt(nodes, k - 1) {
        Differ(was, k - 1, 0);
        assert k > 0 ==> nodes[k] == was[k - 1];
      }
    }

    /** Put a node behind the rear of a list it is not in. */
    method AttachRear(node: QNode)
      requires Linked() && nodes != [] && node in repr && node !in nodes
      modifies this`rear, this`nodes, repr`prev, repr`next
      ensures Linked() && nodes == old(nodes) + [node]
    {
      hide Distinct;
      ghost var was, n := nodes, |nodes|;
      node.prev := rear;
      node.next := null;
      node.prev.next := node;
      rear := node;
      nodes := was + [node];
      DistinctParts(was, node);
      forall k | 0 <= k < |nodes| ensures nodes[k].next == NodeAt(nodes, k + 1) {
        Differ(was, k, n - 1);
        assert k < n ==> nodes[k] == was[k];
      }
    }

    /** The list part of ReferencePage: a node that is not at the front moves there. */
    method MoveToFront(node: QNode, ghost i: nat)
      requires Valid() && 0 < i < |nodes| && node == nodes[i]
      modifies this`front, this`rear, this`nodes, repr`prev, repr`next
      ensures Valid() && nodes == [node] + Without(old(nodes), i)
    {
      hide Without;
      WithoutAt(nodes, i);
      UnlinkFromBehind(node, i);
      AttachFront(node);
    }

    /** The list part of DeReferencePage: a node that is not at the rear moves there. */
    method MoveToRear(node: QNode, ghost i: nat)
      requires Valid() && i < |nodes| - 1 && node == nodes[i]
      modifies this`front, this`rear, this`nodes, repr`prev, repr`next
      ensures Valid() && nodes == Without(old(nodes), i) + [node]
    {
      hide Without;
      WithoutAt(nodes, i);
      UnlinkFromAhead(node, i);
      AttachRear(node);
    }
  }
}
