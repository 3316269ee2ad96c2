/**
 * The recency ledger of new arrivals (main.py:35-90): a doubly linked list of
 * bounded size that drops its oldest node when a new one arrives at capacity.
 */
module Recency {

  /** A node of the list; it carries the name of the food it records. */
  class FoodNode {
    const name: string
    var prev: FoodNode?
    var next: FoodNode?

    constructor (name: string)
      ensures this.name == name && prev == null && next == null
    {
      this.name := name;
      prev := null;
      next := null;
    }
  }

  class DoublyLinkedList {
    var head: FoodNode?
    var tail: FoodNode?
    var size: nat
    const maxSize: nat

    // public view: the names from oldest (head) to newest (tail)
    ghost var Contents: seq<string>
    // the nodes of the chain, head first
    ghost var Nodes: seq<FoodNode>
    ghost var Repr: set<object>

    ghost predicate Valid()
      reads this, Repr
      ensures Valid() ==> this in Repr
    {
      Linked() && (Nodes == [] ==> tail == null)
    }

    /** The chain invariant; only while `Append` runs can an empty chain keep a stale tail. */
    ghost predicate Linked()
      reads this, Repr
      ensures Linked() ==> this in Repr
    {
      && this in Repr
      && (forall i :: 0 <= i < |Nodes| ==> Nodes[i] in Repr)
      && 1 <= maxSize
      && size == |Nodes| == |Contents| <= maxSize
      && (Nodes == [] ==> head == null)
      && (Nodes != [] ==> head == Nodes[0] && tail == Nodes[|Nodes| - 1])
      && (forall i :: 0 <= i < |Nodes| ==> Nodes[i].name == Contents[i])
      && (Nodes != [] ==> Nodes[0].prev == null && Nodes[|Nodes| - 1].next == null)
      && (forall i :: 0 < i < |Nodes| ==> Nodes[i].prev == Nodes[i - 1])
      && (forall i :: 0 <= i < |Nodes| - 1 ==> Nodes[i].next == Nodes[i + 1])
      && (forall i, j :: 0 <= i < j < |Nodes| ==> Nodes[i] != Nodes[j])
    }

    /** An empty list of the given capacity (the engine uses 5).  A capacity of 0
        would make the first append step past a missing head. */
    constructor (maxSize: nat)
      requires 1 <= maxSize
      ensures Valid() && fresh(Repr)
      ensures Contents == [] && this.maxSize == maxSize
    {
      head, tail, size := null, null, 0;
      this.maxSize := maxSize;
      Contents, Nodes := [], [];
      Repr := {this};
    }

    /** Links a node for `name` at the tail; at capacity the head node is unlinked first. */
    method Append(name: string)
      requires Valid()
      modifies Repr
      ensures Valid() && fresh(Repr - old(Repr))
      ensures Contents == (if old(|Contents|) == maxSize then old(Contents)[1..] else old(Contents)) + [name]
    {
      if size >= maxSize {
        DropOldest();
      }
      LinkAtTail(name);
    }

    /** The eviction step of `Append`: the head moves to the second node. */
    method DropOldest()
      requires Valid() && size >= 1
      modifies Repr
      ensures Linked() && Repr == old(Repr)
      ensures Contents == old(Contents)[1..]
    {
      head := head.next;
      if head != null {
        assert head == Nodes[1];
        head.prev := null;
      }
      size := size - 1;
      Nodes, Contents := Nodes[1..], Contents[1..];
    }

    /** The linking step of `Append`: a fresh node becomes the tail. */
    method LinkAtTail(name: string)
      requires Linked() && size < maxSize
      modifies Repr
      ensures Valid() && fresh(Repr - old(Repr))
      ensures Contents == old(Contents) + [name]
    {
      var node := new FoodNode(name);
      if head == null {
        head, tail := node, node;
      } else {
        tail.next := node;
        node.prev := tail;
        tail := node;
      }
      size := size + 1;
      Nodes, Contents := Nodes + [node], Contents + [name];
      Repr := Repr + {node};
    }

    /** Walks from the tail back through `prev` links: the names newest first. */
    method GetNewArrivals() returns (arrivals: seq<string>)
      requires Valid()
      ensures |arrivals| == |Contents| <= maxSize
      ensures forall k :: 0 <= k < |arrivals| ==> arrivals[k] == Contents[|Contents| - 1 - k]
    {
      arrivals := [];
      var current := tail;
      var count := 0;
      while current != null && count < maxSize
        invariant 0 <= count <= |Nodes|
        invariant current == if count == |Nodes| then null else Nodes[|Nodes| - 1 - count]
        invariant |arrivals| == count
        invariant forall k :: 0 <= k < count ==> arrivals[k] == Contents[|Contents| - 1 - k]
      {
        arrivals := arrivals + [current.name];
        current := current.prev;
        count := count + 1;
      }
    }
  }

  /** Six arrivals into a ledger of capacity 5: the first is evicted, the rest come back newest first. */
  method SixArrivals() returns (arrivals: seq<string>)
    ensures arrivals == ["F", "E", "D", "C", "B"]
  {
    var ledger := new DoublyLinkedList(5);
    ledger.Append("A");
    ledger.Append("B");
    ledger.Append("C");
    ledger.Append("D");
    ledger.Append("E");
    ledger.Append("F");
    assert ledger.Contents == ["B", "C", "D", "E", "F"];
    arrivals := ledger.GetNewArrivals();
  }
}
