/** The intrusive circular doubly-linked lists of ikcp.h.  A ring is a head and the nodes after it; next and prev are
    mutually inverse on the one cycle through the head.  The macros act on the represented sequence as insertion,
    append and removal, which is how the rest of the model uses the queues. */
module Rings {
  class Node {
    var next: Node?
    var prev: Node?

    /** IQUEUE_INIT. */
    constructor ()
      ensures next == this && prev == this
    {
      next := this;
      prev := this;
    }
  }

  /** The k-th stop of the cycle, starting at the head. */
  function Stop(head: Node, nodes: seq<Node>, k: nat): Node
    requires k <= |nodes| + 1
  {
    if k == 0 || k == |nodes| + 1 then head else nodes[k - 1]
  }

  ghost predicate Ring(head: Node, nodes: seq<Node>)
    reads head, nodes
  {
    && head !in nodes
    && (forall i, j :: 0 <= i < j < |nodes| ==> nodes[i] != nodes[j])
    && (forall k :: 0 <= k <= |nodes| ==>
          && Stop(head, nodes, k).next == Stop(head, nodes, k + 1)
          && Stop(head, nodes, k + 1).prev == Stop(head, nodes, k))
  }

  /** IQUEUE_IS_EMPTY. */
  lemma {:induction false} EmptyRing(head: Node, nodes: seq<Node>)
    requires Ring(head, nodes)
    ensures head.next == head <==> nodes == []
  {
    assert Stop(head, nodes, 0).next == Stop(head, nodes, 1);
  }

  /** Following next from the head visits the nodes in order, following prev visits them backwards. */
  lemma {:induction false} RingEnds(head: Node, nodes: seq<Node>)
    requires Ring(head, nodes) && nodes != []
    ensures head.next == nodes[0] && head.prev == nodes[|nodes| - 1]
    ensures forall i :: 0 <= i < |nodes| - 1 ==> nodes[i].next == nodes[i + 1] && nodes[i + 1].prev == nodes[i]
  {
    assert Stop(head, nodes, 0).next == Stop(head, nodes, 1);
    assert Stop(head, nodes, |nodes| + 1).prev == Stop(head, nodes, |nodes|);
    forall i | 0 <= i < |nodes| - 1 ensures nodes[i].next == nodes[i + 1] && nodes[i + 1].prev == nodes[i] {
      assert Stop(head, nodes, i + 1).next == Stop(head, nodes, i + 2);
    }
  }

  /** IQUEUE_ADD(node, at) where `at` is the k-th stop of the ring: the node goes behind it.  With k == 0 this is an
      insertion in front, with another k it is the insertion of ikcp_parse_data. */
  method Add(node: Node, head: Node, ghost nodes: seq<Node>, at: Node, ghost k: nat)
    requires Ring(head, nodes) && node != head && node !in nodes
    requires k <= |nodes| && at == Stop(head, nodes, k)
    modifies node, head, nodes
    ensures Ring(head, nodes[..k] + [node] + nodes[k..])
  {
    assert at.next == Stop(head, nodes, k + 1);
    node.prev := at;
    node.next := at.next;
    at.next.prev := node;
    at.next := node;
    ghost var r := nodes[..k] + [node] + nodes[k..];
    forall j | 0 <= j <= |r|
      ensures Stop(head, r, j).next == Stop(head, r, j + 1) && Stop(head, r, j + 1).prev == Stop(head, r, j)
    {
      if j < k {
        assert old(Stop(head, nodes, j).next) == Stop(head, nodes, j + 1);
      } else if j > k + 1 {
        assert old(Stop(head, nodes, j - 1).next) == Stop(head, nodes, j);
      }
    }
  }

  /** IQUEUE_ADD_TAIL. */
  method AddTail(node: Node, head: Node, ghost nodes: seq<Node>)
    requires Ring(head, nodes) && node != head && node !in nodes
    modifies node, head, nodes
    ensures Ring(head, nodes + [node])
  {
    ghost var n := |nodes|;
    assert Stop(head, nodes, n + 1).prev == Stop(head, nodes, n);
    node.prev := head.prev;
    node.next := head;
    head.prev.next := node;
    head.prev := node;
    ghost var r := nodes + [node];
    forall j | 0 <= j <= |r|
      ensures Stop(head, r, j).next == Stop(head, r, j + 1) && Stop(head, r, j + 1).prev == Stop(head, r, j)
    {
      if j < n {
        assert old(Stop(head, nodes, j).next) == Stop(head, nodes, j + 1);
      }
    }
  }

  /** IQUEUE_DEL: the node leaves the ring and keeps no links. */
  method Del(node: Node, head: Node, ghost nodes: seq<Node>, ghost k: nat)
    requires Ring(head, nodes) && k < |nodes| && nodes[k] == node
    modifies head, nodes
    ensures Ring(head, nodes[..k] + nodes[k + 1..])
    ensures node.next == null && node.prev == null
  {
    assert Stop(head, nodes, k + 1).next == Stop(head, nodes, k + 2);
    assert Stop(head, nodes, k + 1).prev == Stop(head, nodes, k);
    node.next.prev := node.prev;
    node.prev.next := node.next;
    node.next := null;
    node.prev := null;
    ghost var r := nodes[..k] + nodes[k + 1..];
    forall j | 0 <= j <= |r|
      ensures Stop(head, r, j).next == Stop(head, r, j + 1) && Stop(head, r, j + 1).prev == Stop(head, r, j)
    {
      if j < k {
        assert old(Stop(head, nodes, j).next) == Stop(head, nodes, j + 1);
      } else if j > k {
        assert old(Stop(head, nodes, j + 1).next) == Stop(head, nodes, j + 2);
      }
    }
  }

  /** IQUEUE_DEL_INIT: the node leaves the ring and is a ring of its own. */
  method DelInit(node: Node, head: Node, ghost nodes: seq<Node>, ghost k: nat)
    requires Ring(head, nodes) && k < |nodes| && nodes[k] == node
    modifies head, nodes
    ensures Ring(head, nodes[..k] + nodes[k + 1..]) && Ring(node, [])
  {
    Del(node, head, nodes, k);
    node.next := node;
    node.prev := node;
  }
}
