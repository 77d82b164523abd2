/**
 The doubly linked process queue of week5/queue.c: push at the tail, pop at the head, and removal of the
 first process of highest priority by unlinking its node. Removing until nothing is left is the stable
 sort by decreasing priority, and in any mix of the operations each priority is served first come first served.
 */
module PriorityQueue {
  import opened Wrappers

  datatype Process = Process(id: int, name: string, runtime: int, priority: int)

  // ----- Selection on sequences

  /** `b` is the first place of highest priority. */
  ghost predicate IsBest(s: seq<Process>, b: nat) {
    b < |s| &&
    (forall j :: 0 <= j < |s| ==> s[j].priority <= s[b].priority) &&
    (forall j :: 0 <= j < b ==> s[j].priority < s[b].priority)
  }

  function Best(s: seq<Process>): (b: nat)
    requires s != []
    ensures IsBest(s, b)
  {
    var n := |s| - 1;
    if n == 0 then 0
    else
      var b := Best(s[..n]);
      assert forall j :: 0 <= j < n ==> s[..n][j] == s[j];
      if s[n].priority > s[b].priority then n else b
  }

  function Cut<T>(s: seq<T>, k: nat): seq<T>
    requires k < |s|
  {
    s[..k] + s[k + 1..]
  }

  /** What removing until the queue is empty returns. */
  function Drain(s: seq<Process>): seq<Process>
    decreases |s|
  {
    if s == [] then [] else [s[Best(s)]] + Drain(Cut(s, Best(s)))
  }

  ghost predicate Descending(s: seq<Process>) {
    forall i, j :: 0 <= i < j < |s| ==> s[i].priority >= s[j].priority
  }

  /** The processes of one priority, in queue order. */
  function OfPriority(s: seq<Process>, p: int): seq<Process> {
    if s == [] then []
    else (if s[0].priority == p then [s[0]] else []) + OfPriority(s[1..], p)
  }

  /** The same processes, and within each priority the same order. */
  ghost predicate SameByPriority(s: seq<Process>, t: seq<Process>) {
    forall p: int :: OfPriority(s, p) == OfPriority(t, p)
  }

  lemma {:induction false} OfPriorityAppend(s: seq<Process>, t: seq<Process>, p: int)
    ensures OfPriority(s + t, p) == OfPriority(s, p) + OfPriority(t, p)
  {
    if s == [] {
      assert s + t == t;
    } else {
      var first := if s[0].priority == p then [s[0]] else [];
      var rest := s[1..];
      assert (s + t)[1..] == rest + t;
      OfPriorityAppend(rest, t, p);
      assert OfPriority(s + t, p) == first + OfPriority(rest + t, p);
      assert OfPriority(s, p) == first + OfPriority(rest, p);
    }
  }

  lemma {:induction false} OfPriorityNone(s: seq<Process>, p: int)
    requires forall j :: 0 <= j < |s| ==> s[j].priority != p
    ensures OfPriority(s, p) == []
  {
    if s == [] {
    } else {
      OfPriorityNone(s[1..], p);
    }
  }

  lemma OfPriorityAround(s: seq<Process>, x: Process, t: seq<Process>, p: int)
    ensures OfPriority(s + ([x] + t), p) == OfPriority(s, p) + (OfPriority([x], p) + OfPriority(t, p))
    ensures OfPriority(s + t, p) == OfPriority(s, p) + OfPriority(t, p)
  {
    OfPriorityAppend(s, [x] + t, p);
    OfPriorityAppend([x], t, p);
    OfPriorityAppend(s, t, p);
  }

  lemma OfPriorityOne(x: Process, p: int)
    ensures OfPriority([x], p) == if x.priority == p then [x] else []
  {
    assert [x][1..] == [];
  }

  /** Taking a process with none of its priority before it takes the first of its priority. */
  lemma CutOfPriority(s: seq<Process>, k: nat, p: int)
    requires k < |s| && forall j :: 0 <= j < k ==> s[j].priority != s[k].priority
    ensures OfPriority(s, p) == OfPriority([s[k]], p) + OfPriority(Cut(s, k), p)
  {
    hide OfPriority;
    var before, x, after := s[..k], s[k], s[k + 1..];
    assert s == before + ([x] + after);
    OfPriorityAround(before, x, after, p);
    OfPriorityOne(x, p);
    if p == x.priority { OfPriorityNone(before, p); }
  }

  /** Draining is stable: within one priority the queue order is kept, and nothing is lost or added. */
  lemma {:induction false} DrainStable(s: seq<Process>, p: int)
    ensures OfPriority(Drain(s), p) == OfPriority(s, p)
    decreases |s|
  {
    if s == [] {
    } else {
      var b := Best(s);
      CutOfPriority(s, b, p);
      DrainStable(Cut(s, b), p);
      OfPriorityAppend([s[b]], Drain(Cut(s, b)), p);
    }
  }

  lemma {:induction false} DrainBelow(s: seq<Process>, top: int)
    requires forall j :: 0 <= j < |s| ==> s[j].priority <= top
    ensures forall j :: 0 <= j < |Drain(s)| ==> Drain(s)[j].priority <= top
    decreases |s|
  {
    if s == [] {
    } else {
      DrainBelow(Cut(s, Best(s)), top);
    }
  }

  lemma {:induction false} DrainDescending(s: seq<Process>)
    ensures Descending(Drain(s))
    decreases |s|
  {
    if s == [] {
    } else {
      var rest := Cut(s, Best(s));
      DrainDescending(rest);
      DrainBelow(rest, s[Best(s)].priority);
    }
  }

  lemma HeadOfPriority(s: seq<Process>)
    requires s != []
    ensures OfPriority(s, s[0].priority) == [s[0]] + OfPriority(s[1..], s[0].priority)
  {
  }

  /** With equal classes the first priority of one is reached by the other. */
  lemma TopReached(s: seq<Process>, t: seq<Process>)
    requires s != [] && Descending(t) && SameByPriority(s, t)
    ensures t != [] && s[0].priority <= t[0].priority
  {
    HeadOfPriority(s);
    assert OfPriority(s, s[0].priority) == OfPriority(t, s[0].priority);
    if forall j :: 0 <= j < |t| ==> t[j].priority != s[0].priority {
      OfPriorityNone(t, s[0].priority);
    }
  }

  lemma SameHead(s: seq<Process>, t: seq<Process>)
    requires s != [] && t != [] && Descending(s) && Descending(t) && SameByPriority(s, t)
    ensures s[0] == t[0] && SameByPriority(s[1..], t[1..])
  {
    TopReached(s, t);
    TopReached(t, s);
    HeadOfPriority(s);
    HeadOfPriority(t);
    assert OfPriority(s, s[0].priority) == OfPriority(t, s[0].priority);
    assert s[0] == OfPriority(s, s[0].priority)[0];
    assert s == [s[0]] + s[1..] && t == [s[0]] + t[1..];
    forall p: int ensures OfPriority(s[1..], p) == OfPriority(t[1..], p) {
      assert OfPriority(s, p) == OfPriority(t, p);
      SameTail([s[0]], s[1..], t[1..], p);
    }
  }

  lemma SameTail(h: seq<Process>, s: seq<Process>, t: seq<Process>, p: int)
    requires OfPriority(h + s, p) == OfPriority(h + t, p)
    ensures OfPriority(s, p) == OfPriority(t, p)
  {
    OfPriorityAppend(h, s, p);
    OfPriorityAppend(h, t, p);
    var n := |OfPriority(h, p)|;
    assert OfPriority(s, p) == OfPriority(h + s, p)[n..];
    assert OfPriority(t, p) == OfPriority(h + t, p)[n..];
  }

  /** Order by priority and order within each priority determine a sequence. */
  lemma {:induction false} SortUnique(s: seq<Process>, t: seq<Process>)
    requires Descending(s) && Descending(t) && SameByPriority(s, t)
    ensures s == t
    decreases |s|
  {
    if s != [] {
      TopReached(s, t);
      SameHead(s, t);
      SortUnique(s[1..], t[1..]);
      assert s == [s[0]] + s[1..] && t == [t[0]] + t[1..];
    } else if t != [] {
      TopReached(t, s);
    }
  }

  /** Draining is the stable sort by decreasing priority: it is one, and there is only one. */
  lemma DrainIsTheStableSort(s: seq<Process>, t: seq<Process>)
    ensures t == Drain(s) <==> Descending(t) && SameByPriority(t, s)
  {
    DrainDescending(s);
    forall p: int ensures OfPriority(Drain(s), p) == OfPriority(s, p) { DrainStable(s, p); }
    if Descending(t) && SameByPriority(t, s) {
      forall p: int ensures OfPriority(t, p) == OfPriority(Drain(s), p) {
        assert OfPriority(t, p) == OfPriority(s, p);
      }
      SortUnique(t, Drain(s));
    }
  }

  // ----- Runs of the three operations

  datatype Op = Push(element: Process) | Pop | Remove

  /** The place an operation takes a process from. */
  function Taken(s: seq<Process>, op: Op): (k: nat)
    requires s != [] && !op.Push?
    ensures k < |s| && forall j :: 0 <= j < k ==> s[j].priority != s[k].priority
  {
    if op.Pop? then 0 else Best(s)
  }

  function After(s: seq<Process>, op: Op): seq<Process> {
    if op.Push? then s + [op.element]
    else if s == [] then []
    else Cut(s, Taken(s, op))
  }

  /** What an operation hands out: the source's null pointer is `None`. */
  function Out(s: seq<Process>, op: Op): Option<Process> {
    if op.Push? || s == [] then None else Some(s[Taken(s, op)])
  }

  function Run(ops: seq<Op>): seq<Process> {
    if ops == [] then [] else After(Run(ops[..|ops| - 1]), ops[|ops| - 1])
  }

  /** Everything pushed, in order. */
  function Pushed(ops: seq<Op>): seq<Process> {
    if ops == [] then []
    else
      var op := ops[|ops| - 1];
      Pushed(ops[..|ops| - 1]) + if op.Push? then [op.element] else []
  }

  /** Everything handed out, in order. */
  function Served(ops: seq<Op>): seq<Process> {
    if ops == [] then []
    else
      var out := Out(Run(ops[..|ops| - 1]), ops[|ops| - 1]);
      Served(ops[..|ops| - 1]) + if out.Some? then [out.value] else []
  }

  /** In every mix of the operations each priority is served in the order of its pushes, none lost or repeated. */
  lemma {:induction false} FirstComeFirstServed(ops: seq<Op>, p: int)
    ensures OfPriority(Served(ops), p) + OfPriority(Run(ops), p) == OfPriority(Pushed(ops), p)
  {
    if ops == [] {
    } else {
      var before, op := ops[..|ops| - 1], ops[|ops| - 1];
      FirstComeFirstServed(before, p);
      if op.Push? {
        assert Served(ops) == Served(before);
        PushInOrder(Served(before), Run(before), Pushed(before), op.element, p);
      } else if Run(before) != [] {
        assert Pushed(ops) == Pushed(before);
        TakeInOrder(Served(before), Run(before), Taken(Run(before), op), p);
      } else {
        assert Served(ops) == Served(before) && Pushed(ops) == Pushed(before);
      }
    }
  }

  lemma PushInOrder(served: seq<Process>, s: seq<Process>, pushed: seq<Process>, x: Process, p: int)
    requires OfPriority(served, p) + OfPriority(s, p) == OfPriority(pushed, p)
    ensures OfPriority(served, p) + OfPriority(s + [x], p) == OfPriority(pushed + [x], p)
  {
    OfPriorityAppend(s, [x], p);
    OfPriorityAppend(pushed, [x], p);
    Regroup(OfPriority(served, p), OfPriority(s, p), OfPriority([x], p));
  }

  lemma TakeInOrder(served: seq<Process>, s: seq<Process>, k: nat, p: int)
    requires k < |s| && forall j :: 0 <= j < k ==> s[j].priority != s[k].priority
    ensures OfPriority(served + [s[k]], p) + OfPriority(Cut(s, k), p) == OfPriority(served, p) + OfPriority(s, p)
  {
    CutOfPriority(s, k, p);
    OfPriorityAppend(served, [s[k]], p);
    Regroup(OfPriority(served, p), OfPriority([s[k]], p), OfPriority(Cut(s, k), p));
  }

  function Removes(n: nat): seq<Op> {
    seq(n, _ => Remove)
  }

  /** Removing until the queue is empty, after any run, hands out the stable sort of what was queued. */
  lemma {:induction false} RemovingAll(ops: seq<Op>, all: seq<Op>)
    requires all == ops + Removes(|Run(ops)|)
    ensures Served(all) == Served(ops) + Drain(Run(ops)) && Run(all) == []
    decreases |Run(ops)|
  {
    hide Run, Served, Removes, Cut, Drain, Best;
    if Run(ops) == [] {
      NoRemoves(ops);
      assert Served(ops) + [] == Served(ops);
      DrainNone();
    } else {
      var s := Run(ops);
      NextRemove(ops, |s|);
      RemoveOnce(ops);
      DrainOnce(s);
      RemovingAll(ops + [Remove], all);
      Regroup(Served(ops), [s[Best(s)]], Drain(Cut(s, Best(s))));
    }
  }

  lemma Regroup<T>(s: seq<T>, t: seq<T>, u: seq<T>)
    ensures (s + t) + u == s + (t + u)
  {
  }

  lemma DrainNone()
    ensures Drain([]) == []
  {
  }

  lemma DrainOnce(s: seq<Process>)
    requires s != []
    ensures Drain(s) == [s[Best(s)]] + Drain(Cut(s, Best(s))) && |Cut(s, Best(s))| == |s| - 1
  {
  }

  lemma NoRemoves(ops: seq<Op>)
    ensures ops + Removes(0) == ops
  {
  }

  lemma NextRemove(ops: seq<Op>, n: nat)
    requires n > 0
    ensures ops + Removes(n) == (ops + [Remove]) + Removes(n - 1)
  {
  }

  lemma RemoveOnce(ops: seq<Op>)
    requires Run(ops) != []
    ensures var s := Run(ops);
            Run(ops + [Remove]) == Cut(s, Best(s)) && Served(ops + [Remove]) == Served(ops) + [s[Best(s)]]
  {
    var next := ops + [Remove];
    assert next[..|next| - 1] == ops && next[|next| - 1] == Remove;
  }

  // ----- The queue in place

  class Node {
    const data: Process
    var prev: Node?
    var next: Node?

    constructor (data: Process)
      ensures this.data == data && prev == null && next == null
    {
      this.data, prev, next := data, null, null;
    }
  }

  /** The node at a place, null outside the list. */
  ghost function At(nodes: seq<Node>, i: int): Node? {
    if 0 <= i < |nodes| then nodes[i] else null
  }

  ghost function DataOf(nodes: seq<Node>): (s: seq<Process>)
    ensures |s| == |nodes| && forall i :: 0 <= i < |s| ==> s[i] == nodes[i].data
  {
    seq(|nodes|, i requires 0 <= i < |nodes| => nodes[i].data)
  }

  ghost predicate Distinct(nodes: seq<Node>) {
    forall i, j :: 0 <= i < j < |nodes| ==> nodes[i] != nodes[j]
  }

  /** The nodes are a list from `head` to `tail`. */
  ghost predicate Linked(nodes: seq<Node>, head: Node?, tail: Node?)
    reads set n | n in nodes
  {
    Distinct(nodes) && head == At(nodes, 0) && tail == At(nodes, |nodes| - 1) &&
    (forall i {:trigger nodes[i].prev} :: 0 <= i < |nodes| ==> nodes[i].prev == At(nodes, i - 1)) &&
    (forall i {:trigger nodes[i].next} :: 0 <= i < |nodes| ==> nodes[i].next == At(nodes, i + 1))
  }

  class Queue {
    var head: Node?
    var tail: Node?
    var size: nat
    ghost var nodes: seq<Node>

    ghost function Repr(): set<Node>
      reads this`nodes
    {
      set n | n in nodes
    }

    /** `head`, `tail`, `prev`, `next` and `size` describe one sequence of nodes. */
    ghost predicate Valid()
      reads this, Repr()
    {
      size == |nodes| && Linked(nodes, head, tail)
    }

    ghost function Contents(): seq<Process>
      reads this`nodes
    {
      DataOf(nodes)
    }

    constructor ()
      ensures Valid() && Contents() == [] && fresh(Repr())
    {
      head, tail, size, nodes := null, null, 0, [];
    }

    method PushQueue(element: Process)
      requires Valid()
      modifies this, Repr()
      ensures Valid() && fresh(Repr() - old(Repr()))
      ensures Contents() == After(old(Contents()), Push(element)) == old(Contents()) + [element]
    {
      var node := new Node(element);
      assert node !in nodes && Distinct(nodes);
      hide Distinct, DataOf, After;
      if tail == null {
        head := node;
        tail := node;
      } else {
        node.prev := tail;
        tail.next := node;
        tail := node;
      }
      assert Linked(nodes + [node], head, tail) by { SnocLinked(nodes, node, head, tail); }
      DataSnoc(nodes, node);
      PushedLast(Contents(), element);
      hide Linked, At;
      size := size + 1;
      nodes := nodes + [node];
    }

    lemma HeadIsFirst()
      requires Valid()
      ensures head == null <==> nodes == []
      ensures head != null ==> nodes[0] == head
    {
    }

    /** Takes the first node out of the list. */
    method UnlinkFirst()
      requires Valid() && head != null
      modifies this, Repr()
      ensures Valid() && nodes == old(nodes)[1..]
    {
      head := head.next;
      if head != null {
        head.prev := null;
      } else {
        tail := null;
      }
      size := size - 1;
      nodes := nodes[1..];
    }

    method PopQueue() returns (data: Option<Process>)
      requires Valid()
      modifies this, Repr()
      ensures Valid() && fresh(Repr() - old(Repr()))
      ensures data == Out(old(Contents()), Pop) && Contents() == After(old(Contents()), Pop)
      ensures if old(Contents()) == [] then data == None && Contents() == []
              else data == Some(old(Contents())[0]) && Contents() == old(Contents())[1..]
    {
      hide Valid, Out, After, DataOf;
      HeadIsFirst();
      if head == null {
        NothingOut(Contents(), Pop);
        return None;
      }
      FirstOut(nodes);
      data := Some(head.data);
      UnlinkFirst();
    }

    /** The scan: the first node of highest priority. */
    method FindBest() returns (best: Node)
      requires Valid() && head != null
      ensures best == nodes[Best(Contents())]
    {
      hide Best, IsBest, Cut;
      var current := head;
      best := head;
      ghost var k, i := 0, 0;
      while current != null
        invariant i <= |nodes| && current == At(nodes, i)
        invariant k < |nodes| && best == nodes[k] && (i == 0 ==> k == 0) && (i > 0 ==> k < i)
        invariant forall j :: 0 <= j < i ==> nodes[j].data.priority <= best.data.priority
        invariant forall j :: 0 <= j < k ==> nodes[j].data.priority < best.data.priority
        decreases |nodes| - i
      {
        if current.data.priority > best.data.priority {
          best, k := current, i;
        }
        current := current.next;
        i := i + 1;
      }
      OnlyBest(Contents(), k);
    }

    /** The node before, or `head`, goes past `node`. */
    method SkipForward(node: Node, ghost k: nat)
      requires Valid() && k < |nodes| && nodes[k] == node
      modifies this`head, Repr()`next
      ensures head == if k == 0 then At(nodes, 1) else At(nodes, 0)
      ensures forall i {:trigger nodes[i].next} :: 0 <= i < |nodes| ==>
                nodes[i].next == At(nodes, if i == k - 1 then k + 1 else i + 1)
    {
      if node.prev != null {
        node.prev.next := node.next;
      } else {
        head := node.next;
      }
    }

    /** The node after, or `tail`, goes back past `node`. */
    method SkipBackward(node: Node, ghost k: nat)
      requires Distinct(nodes) && k < |nodes| && nodes[k] == node && node.next == At(nodes, k + 1)
      requires tail == At(nodes, |nodes| - 1)
      requires forall i {:trigger nodes[i].prev} :: 0 <= i < |nodes| ==> nodes[i].prev == At(nodes, i - 1)
      modifies this`tail, Repr()`prev
      ensures tail == if k == |nodes| - 1 then At(nodes, k - 1) else At(nodes, |nodes| - 1)
      ensures forall i {:trigger nodes[i].prev} :: 0 <= i < |nodes| ==>
                nodes[i].prev == At(nodes, if i == k + 1 then k - 1 else i - 1)
    {
      if node.next != null {
        node.next.prev := node.prev;
      } else {
        tail := node.prev;
      }
    }

    /** Takes a node out of the list. */
    method Unlink(node: Node, ghost k: nat)
      requires Valid() && k < |nodes| && nodes[k] == node
      modifies this, Repr()
      ensures Valid() && nodes == Cut(old(nodes), k)
    {
      assert Distinct(nodes);
      hide Cut, Distinct;
      SkipForward(node, k);
      SkipBackward(node, k);
      assert Linked(Cut(nodes, k), head, tail) && |Cut(nodes, k)| == |nodes| - 1 by {
        CutLinked(nodes, k, head, tail);
      }
      hide *;
      size := size - 1;
      nodes := Cut(nodes, k);
    }

    method RemoveProcess() returns (best: Option<Process>)
      requires Valid()
      modifies this, Repr()
      ensures Valid() && fresh(Repr() - old(Repr()))
      ensures best == Out(old(Contents()), Remove) && Contents() == After(old(Contents()), Remove)
    {
      hide Valid, Out, After, DataOf, Best, Cut;
      HeadIsFirst();
      if head == null {
        NothingOut(Contents(), Remove);
        return None;
      }
      var node := FindBest();
      ghost var k := Best(Contents());
      BestOut(nodes, k);
      best := Some(node.data);
      Unlink(node, k);
    }

    method GetQueueSize() returns (n: nat)
      requires Valid()
      ensures n == |Contents()|
    {
      n := size;
    }
  }

  lemma DataSnoc(nodes: seq<Node>, node: Node)
    ensures DataOf(nodes + [node]) == DataOf(nodes) + [node.data]
  {
  }

  lemma PushedLast(s: seq<Process>, x: Process)
    ensures After(s, Push(x)) == s + [x]
  {
  }

  /** When a new node is linked behind the last one, they are a list. */
  lemma SnocLinked(nodes: seq<Node>, node: Node, head: Node?, tail: Node?)
    requires Distinct(nodes) && node !in nodes
    requires head == (if nodes == [] then node else nodes[0]) && tail == node
    requires node.prev == At(nodes, |nodes| - 1) && node.next == null
    requires forall i {:trigger nodes[i].prev} :: 0 <= i < |nodes| ==> nodes[i].prev == At(nodes, i - 1)
    requires forall i {:trigger nodes[i].next} :: 0 <= i < |nodes| ==>
               nodes[i].next == if i == |nodes| - 1 then node else At(nodes, i + 1)
    ensures Linked(nodes + [node], head, tail)
  {
    hide Distinct;
    DistinctSnoc(nodes, node);
  }

  lemma DistinctSnoc(nodes: seq<Node>, node: Node)
    requires Distinct(nodes) && node !in nodes
    ensures Distinct(nodes + [node])
  {
  }

  /** What is left when a node is cut out, and the neighbours in it. */
  lemma CutAt(nodes: seq<Node>, k: nat)
    requires k < |nodes| && Distinct(nodes)
    ensures |Cut(nodes, k)| == |nodes| - 1 && Distinct(Cut(nodes, k))
    ensures forall i :: 0 <= i < |nodes| - 1 ==> Cut(nodes, k)[i] == nodes[if i < k then i else i + 1]
    ensures forall i :: i < k ==> At(Cut(nodes, k), i) == At(nodes, i)
    ensures forall i :: i >= k ==> At(Cut(nodes, k), i) == At(nodes, i + 1)
  {
  }

  /** When the neighbours of a node go past it, the others are a list. */
  lemma CutLinked(nodes: seq<Node>, k: nat, head: Node?, tail: Node?)
    requires Distinct(nodes) && k < |nodes|
    requires head == if k == 0 then At(nodes, 1) else At(nodes, 0)
    requires tail == if k == |nodes| - 1 then At(nodes, k - 1) else At(nodes, |nodes| - 1)
    requires forall i {:trigger nodes[i].next} :: 0 <= i < |nodes| ==>
               nodes[i].next == At(nodes, if i == k - 1 then k + 1 else i + 1)
    requires forall i {:trigger nodes[i].prev} :: 0 <= i < |nodes| ==>
               nodes[i].prev == At(nodes, if i == k + 1 then k - 1 else i - 1)
    ensures Linked(Cut(nodes, k), head, tail) && |Cut(nodes, k)| == |nodes| - 1
  {
    hide Cut, At, Distinct;
    var rest := Cut(nodes, k);
    CutAt(nodes, k);
    forall i | 0 <= i < |rest| ensures rest[i].prev == At(rest, i - 1) && rest[i].next == At(rest, i + 1) {
      var j := if i < k then i else i + 1;
      assert rest[i] == nodes[j];
      assert nodes[j].prev == At(nodes, if j == k + 1 then k - 1 else j - 1);
      assert nodes[j].next == At(nodes, if j == k - 1 then k + 1 else j + 1);
    }
  }

  lemma NothingOut(s: seq<Process>, op: Op)
    requires s == [] && !op.Push?
    ensures Out(s, op) == None && After(s, op) == []
  {
  }

  lemma DataCut(nodes: seq<Node>, k: nat)
    requires k < |nodes|
    ensures DataOf(Cut(nodes, k)) == Cut(DataOf(nodes), k)
    ensures forall n :: n in Cut(nodes, k) ==> n in nodes
  {
  }

  /** What a pop hands out, in terms of the nodes. */
  lemma FirstOut(nodes: seq<Node>)
    requires nodes != []
    ensures var s := DataOf(nodes);
            s != [] && Out(s, Pop) == Some(nodes[0].data) && s[0] == nodes[0].data &&
            After(s, Pop) == DataOf(nodes[1..]) == s[1..]
  {
    hide DataOf, Best;
    DataCut(nodes, 0);
    assert Cut(nodes, 0) == nodes[1..] && Cut(DataOf(nodes), 0) == DataOf(nodes)[1..];
  }

  /** What a removal hands out, in terms of the nodes. */
  lemma BestOut(nodes: seq<Node>, k: nat)
    requires nodes != [] && k == Best(DataOf(nodes))
    ensures k < |nodes| && Out(DataOf(nodes), Remove) == Some(nodes[k].data)
    ensures After(DataOf(nodes), Remove) == DataOf(Cut(nodes, k)) && forall n :: n in Cut(nodes, k) ==> n in nodes
  {
    hide DataOf, Best, Cut;
    DataCut(nodes, k);
  }

  lemma OnlyBest(s: seq<Process>, k: nat)
    requires s != [] && IsBest(s, k)
    ensures k == Best(s)
  {
    var b := Best(s);
  }
}
