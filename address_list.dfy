/**
 * The singly linked list of addresses (`struct Node`) and the operation that
 * appends an address at its tail. The list is a chain of heap nodes; the ghost
 * sequence `nodes` names them in order from the head.
 */
module AddressList {
  import opened Word

  /** `struct Node`: an address and the next node, `null` at the tail. */
  class Node {
    var address: u64
    var next: Node?

    /** A node as the append allocates it: the address and no successor. */
    constructor (a: u64)
      ensures address == a && next == null
    {
      address := a;
      next := null;
    }
  }

  /**
   * `head` starts the chain `nodes`: each node links to the one after it and
   * the last one links to `null`; an empty list is a `null` head.
   */
  ghost predicate IsList(head: Node?, nodes: seq<Node>)
    reads nodes
  {
    && (nodes == [] <==> head == null)
    && (nodes != [] ==> head == nodes[0] && nodes[|nodes| - 1].next == null)
    && (forall i :: 0 <= i < |nodes| - 1 ==> nodes[i].next == nodes[i + 1])
  }

  /** The addresses stored in the list, head first. */
  ghost function Addresses(nodes: seq<Node>): (r: seq<u64>)
    reads nodes
    ensures |r| == |nodes|
    ensures forall i :: 0 <= i < |nodes| ==> r[i] == nodes[i].address
  {
    if nodes == [] then [] else [nodes[0].address] + Addresses(nodes[1..])
  }

  /** A list built by these links never revisits a node: it has no cycle. */
  lemma {:induction false} NodesDistinct(head: Node?, nodes: seq<Node>, i: int, j: int)
    requires IsList(head, nodes) && 0 <= i < j < |nodes|
    ensures nodes[i] != nodes[j]
    decreases |nodes| - j
  {
    if j < |nodes| - 1 {
      NodesDistinct(head, nodes, i + 1, j + 1);
      assert nodes[i].next == nodes[i + 1] && nodes[j].next == nodes[j + 1];
    } else {
      assert nodes[i].next == nodes[i + 1];
    }
  }

  /** The links from `head` determine the whole chain of nodes. */
  lemma ListDetermined(head: Node?, nodes: seq<Node>, others: seq<Node>)
    requires IsList(head, nodes) && IsList(head, others)
    ensures nodes == others
  {
    if nodes != [] {
      var k := SamePrefix(head, nodes, others, 0);
    }
  }

  /** Only the tail of a list links to null. */
  lemma OnlyTailEndsList(head: Node?, nodes: seq<Node>, i: int)
    requires IsList(head, nodes) && 0 <= i < |nodes|
    ensures nodes[i].next == null <==> i == |nodes| - 1
  {
    if i < |nodes| - 1 {
      assert nodes[i].next == nodes[i + 1];
    }
  }

  /** Two chains that agree up to `from` agree up to their common tail, at `k`. */
  lemma {:induction false} SamePrefix(head: Node?, nodes: seq<Node>, others: seq<Node>, from: nat)
    returns (k: nat)
    requires IsList(head, nodes) && IsList(head, others)
    requires from < |nodes| && from < |others|
    requires forall i :: 0 <= i <= from ==> nodes[i] == others[i]
    ensures from <= k && k == |nodes| - 1 && k == |others| - 1
    ensures forall i :: 0 <= i <= k ==> nodes[i] == others[i]
    decreases |nodes| - from
  {
    OnlyTailEndsList(head, nodes, from);
    OnlyTailEndsList(head, others, from);
    if nodes[from].next == null {
      k := from;
    } else {
      assert nodes[from + 1] == nodes[from].next == others[from + 1];
      k := SamePrefix(head, nodes, others, from + 1);
    }
  }

  /** Links a detached node after the tail of a non-empty list. */
  method LinkAfterTail(head: Node, ghost nodes: seq<Node>, tail: Node, node: Node)
    requires IsList(head, nodes) && tail == nodes[|nodes| - 1]
    requires node !in nodes && node.next == null
    modifies tail
    ensures IsList(head, nodes + [node])
    ensures Addresses(nodes + [node]) == old(Addresses(nodes)) + [node.address]
  {
    ghost var before := Addresses(nodes);
    forall k | 0 <= k < |nodes| - 1
      ensures nodes[k] != tail
    {
      NodesDistinct(head, nodes, k, |nodes| - 1);
    }
    tail.next := node;
    assert forall k :: 0 <= k < |nodes| ==> nodes[k].address == before[k];
    assert Addresses(nodes + [node]) == before + [node.address];
  }

  /**
   * `append_string_to_linked_list`: allocates a node for `addr`, makes it the
   * head of an empty list, and otherwise walks to the tail and links it there.
   * The returned head is what the caller's `*head` holds afterwards.
   */
  method AppendToLinkedList(head: Node?, addr: u64, ghost nodes: seq<Node>)
    returns (newHead: Node, ghost newNodes: seq<Node>)
    requires IsList(head, nodes)
    modifies if nodes == [] then {} else {nodes[|nodes| - 1]}
    ensures IsList(newHead, newNodes)
    ensures |newNodes| == |nodes| + 1 && newNodes[..|nodes|] == nodes
    ensures fresh(newNodes[|nodes|])
    ensures head != null ==> newHead == head
    ensures Addresses(newNodes) == old(Addresses(nodes)) + [addr]
  {
    var node := new Node(addr);
    if head == null {
      newHead := node;
      newNodes := [node];
    } else {
      var current := head;
      ghost var i := 0;
      while current.next != null
        invariant 0 <= i < |nodes| && current == nodes[i]
        invariant current.next == if i < |nodes| - 1 then nodes[i + 1] else null
        decreases |nodes| - i
      {
        i := i + 1;
        current := current.next;
      }
      LinkAfterTail(head, nodes, current, node);
      newHead := head;
      newNodes := nodes + [node];
    }
  }
}
