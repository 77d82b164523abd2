/** The singly linked queue of strings of week6/queue.c. */
module StringQueue {
  import opened Wrappers

  class Node {
    const data: string
    var next: Node?

    constructor (data: string)
      ensures this.data == data && next == null
    {
      this.data, next := data, null;
    }
  }

  /** The node at a place, null past the end. */
  ghost function At(nodes: seq<Node>, i: nat): Node? {
    if i < |nodes| then nodes[i] else null
  }

  ghost function DataOf(nodes: seq<Node>): (s: seq<string>)
    ensures |s| == |nodes| && forall i :: 0 <= i < |s| ==> s[i] == nodes[i].data
  {
    seq(|nodes|, i requires 0 <= i < |nodes| => nodes[i].data)
  }

  class Queue {
    var front: Node?
    var rear: Node?
    var size: nat
    ghost var nodes: seq<Node>

    ghost function Repr(): set<Node>
      reads this`nodes
    {
      set n | n in nodes
    }

    /** `front`, `rear`, `next` and `size` describe one sequence of nodes. */
    ghost predicate Valid()
      reads this, Repr()
    {
      size == |nodes| &&
      (forall i, j :: 0 <= i < j < |nodes| ==> nodes[i] != nodes[j]) &&
      front == At(nodes, 0) && rear == (if nodes == [] then null else nodes[|nodes| - 1]) &&
      forall i {:trigger nodes[i].next} :: 0 <= i < |nodes| ==> nodes[i].next == At(nodes, i + 1)
    }

    ghost function Contents(): seq<string>
      reads this`nodes
    {
      DataOf(nodes)
    }

    constructor ()
      ensures Valid() && Contents() == [] && fresh(Repr())
    {
      front, rear, size, nodes := null, null, 0, [];
    }

    method Enqueue(str: string)
      requires Valid()
      modifies this, Repr()
      ensures Valid() && fresh(Repr() - old(Repr()))
      ensures Contents() == old(Contents()) + [str]
    {
      var node := new Node(str);
      if rear == null {
        front := node;
        rear := node;
      } else {
        rear.next := node;
        rear := node;
      }
      size := size + 1;
      nodes := nodes + [node];
    }

    method Dequeue() returns (data: Option<string>)
      requires Valid()
      modifies this
      ensures Valid() && Repr() <= old(Repr())
      ensures if old(Contents()) == [] then data == None && Contents() == []
              else data == Some(old(Contents())[0]) && Contents() == old(Contents())[1..]
    {
      if front == null {
        return None;
      }
      data := Some(front.data);
      front := front.next;
      if front == null {
        rear := null;
      }
      size := size - 1;
      nodes := nodes[1..];
    }

    predicate IsEmptyQueue()
      requires Valid()
      reads this, Repr()
      ensures IsEmptyQueue() <==> Contents() == []
    {
      size == 0
    }

    function SizeQueue(): (n: nat)
      requires Valid()
      reads this, Repr()
      ensures n == |Contents()|
    {
      size
    }

    method FreeQueue()
      requires Valid()
      modifies this
      ensures Valid() && Contents() == [] && front == null && rear == null
    {
      while !IsEmptyQueue()
        invariant Valid()
        decreases size
      {
        var data := Dequeue();
      }
    }
  }
}
