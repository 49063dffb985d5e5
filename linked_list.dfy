/**
 The singly linked list of characters a thread keeps of the distinct letters
 it has seen. `Nodes` is the ghost chain of nodes from the head, `Contents`
 the characters they hold, in list order.
 */
module LinkedLists {

  class Node {
    var data: char
    var next: Node?

    constructor (data: char, next: Node?)
      ensures this.data == data && this.next == next
    {
      this.data := data;
      this.next := next;
    }
  }

  /**
   `nodes` is a chain: each node holds the matching character of `contents`
   and points at the next node of the sequence, the last one at null.
   */
  ghost predicate Chain(nodes: seq<Node>, contents: seq<char>)
    reads nodes
  {
    if nodes == [] then contents == []
    else
      && |contents| == |nodes|
      && nodes[0].data == contents[0]
      && nodes[0].next == (if |nodes| == 1 then null else nodes[1])
      && Chain(nodes[1..], contents[1..])
  }

  /** The chain seen node by node: node `i` holds `contents[i]` and points at node `i + 1`, the last one at null. */
  lemma {:induction false} ChainAt(nodes: seq<Node>, contents: seq<char>, i: nat)
    requires Chain(nodes, contents) && i < |nodes|
    ensures |contents| == |nodes| && nodes[i].data == contents[i]
    ensures nodes[i].next == if i + 1 < |nodes| then nodes[i + 1] else null
  {
    if i > 0 {
      ChainAt(nodes[1..], contents[1..], i - 1);
    }
  }

  class LinkedList {
    var head: Node?
    ghost var Contents: seq<char>
    ghost var Nodes: seq<Node>

    /** Following `next` from `head` visits `Nodes` in order and ends at null; node `i` holds `Contents[i]`. */
    ghost predicate Valid()
      reads this, Nodes
    {
      && head == (if Nodes == [] then null else Nodes[0])
      && Chain(Nodes, Contents)
    }

    /** An empty list: the head is null. */
    constructor ()
      ensures Valid() && Contents == [] && Nodes == []
    {
      head := null;
      Contents, Nodes := [], [];
    }
  }

  /** Pushes `data` on the front of `list`: a fresh head node whose `next` is the old head; no existing node changes. */
  method AddNode(list: LinkedList, data: char)
    requires list.Valid()
    modifies list
    ensures list.Valid()
    ensures list.Contents == [data] + old(list.Contents)
    ensures list.head != null && fresh(list.head)
    ensures list.head.data == data && list.head.next == old(list.head)
    ensures list.Nodes == [list.head] + old(list.Nodes)
    ensures forall i :: 0 <= i < |old(list.Nodes)| ==> unchanged(old(list.Nodes)[i])
  {
    var newNode := new Node(data, list.head);
    list.head := newNode;
    list.Nodes := [newNode] + list.Nodes;
    list.Contents := [data] + list.Contents;
  }
}
