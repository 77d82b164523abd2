/**
 The cache of practicum1/cache.c in place: list nodes between two sentinels, relinked on every access,
 and a table of pointers to them. Each method is proved against the value it should lead to in
 CacheModel, which the ghost field `model` follows.
 */
module LruCache {
  import opened Wrappers
  import opened LruPolicy
  import opened Members
  import opened ProbeTable
  import opened CacheModel
  import opened CacheRuns

  class LruNode {
    var key: nat
    var value: Message
    var prev: LruNode?
    var next: LruNode?

    constructor (key: nat, value: Message)
      ensures this.key == key && this.value == value
    {
      this.key, this.value, prev, next := key, value, null, null;
    }
  }

  lemma CutMembers(s: seq<LruNode>, k: nat)
    requires k < |s| && forall i, j :: 0 <= i < j < |s| ==> s[i] != s[j]
    ensures forall n :: n in s[..k] + s[k + 1..] <==> n in s && n != s[k]
  {
    assert s == s[..k] + [s[k]] + s[k + 1..];
  }

  lemma BeforeLastMembers(s: seq<LruNode>, node: LruNode)
    requires s != []
    ensures forall n :: n in s[..|s| - 1] + [node, s[|s| - 1]] <==> n in s || n == node
  {
    assert s == s[..|s| - 1] + [s[|s| - 1]];
  }

  /** The nodes between the sentinels carry the listed ids and the cached messages. */
  ghost predicate Matches(nodes: seq<LruNode>, order: seq<nat>, values: map<nat, Message>)
    reads nodes`key, nodes`value
  {
    |nodes| == |order| + 2 &&
    forall i :: 0 <= i < |order| ==>
      nodes[i + 1].key == order[i] && order[i] in values && nodes[i + 1].value == values[order[i]]
  }

  lemma MatchesCut(nodes: seq<LruNode>, order: seq<nat>, values: map<nat, Message>, k: nat)
    requires Matches(nodes, order, values) && k < |order|
    ensures Matches(nodes[..k + 1] + nodes[k + 2..], order[..k] + order[k + 1..], values)
  {
  }

  lemma MatchesDropFirst(nodes: seq<LruNode>, order: seq<nat>, values: map<nat, Message>)
    requires Matches(nodes, order, values) && Distinct(order) && order != []
    ensures Matches(nodes[..1] + nodes[2..], order[1..], values - {order[0]})
  {
    MatchesCut(nodes, order, values, 0);
    assert order[..0] + order[1..] == order[1..];
  }

  lemma MatchesAt(nodes: seq<LruNode>, order: seq<nat>, values: map<nat, Message>, k: nat)
    requires Matches(nodes, order, values) && 0 < k <= |order|
    ensures |nodes| == |order| + 2 && nodes[k].key == order[k - 1] && nodes[k].key in values
    ensures nodes[k].value == values[nodes[k].key]
  {
  }

  /** A message for an id that is not listed does not matter. */
  lemma MatchesMore(nodes: seq<LruNode>, order: seq<nat>, values: map<nat, Message>, msg: Message)
    requires Matches(nodes, order, values) && msg.id !in order
    ensures Matches(nodes, order, values[msg.id := msg])
  {
  }

  lemma MatchesLength(nodes: seq<LruNode>, order: seq<nat>, values: map<nat, Message>)
    requires Matches(nodes, order, values)
    ensures |nodes| == |order| + 2
  {
  }

  lemma MatchesAppend(nodes: seq<LruNode>, order: seq<nat>, values: map<nat, Message>, node: LruNode, last: LruNode)
    requires Matches(nodes, order, values)
    requires node.key in values && node.value == values[node.key]
    ensures Matches(nodes[..|nodes| - 1] + [node, last], order + [node.key], values)
  {
  }

  /** The chain with the node at place `k` moved to just before the last one. */
  ghost function Moved(nodes: seq<LruNode>, k: nat): seq<LruNode>
    requires k < |nodes| - 1
  {
    var rest := nodes[..k] + nodes[k + 1..];
    rest[..|rest| - 1] + [nodes[k], nodes[|nodes| - 1]]
  }

  lemma MatchesMoved(nodes: seq<LruNode>, order: seq<nat>, values: map<nat, Message>, k: nat)
    requires Matches(nodes, order, values) && 0 < k < |nodes| - 1
    ensures Matches(Moved(nodes, k), order[..k - 1] + order[k..] + [order[k - 1]], values)
  {
    assert order[k - 1] == nodes[k].key;
    MatchesCut(nodes, order, values, k - 1);
    MatchesAppend(nodes[..k] + nodes[k + 1..], order[..k - 1] + order[k..], values, nodes[k], nodes[|nodes| - 1]);
  }

  lemma SlotFirst(id: nat)
    ensures Slot(id, 0) == id % SIZE
  {
  }

  lemma SlotNext(id: nat, i: nat)
    ensures Slot(id, i + 1) == (Slot(id, i) + 1) % SIZE
  {
  }

  class MessageCache {
    var head: LruNode
    var tail: LruNode
    var hashTable: array<LruNode?>
    var currentSize: nat
    var hits: nat
    var misses: nat
    var disk: map<nat, Message>
    ghost var chain: seq<LruNode>
    ghost var model: CacheModel.Cache

    /** The nodes of the list, sentinels included. */
    ghost function Repr(): set<LruNode>
      reads this`chain
    {
      set n | n in chain
    }

    /** The chain runs from head to tail, `next` and `prev` are inverse, no node is in it twice. */
    ghost predicate Linked()
      reads this`chain, this`head, this`tail, chain`prev, chain`next
    {
      |chain| >= 2 && chain[0] == head && chain[|chain| - 1] == tail &&
      (forall i, j :: 0 <= i < j < |chain| ==> chain[i] != chain[j]) &&
      (forall i {:trigger chain[i].next} :: 0 <= i < |chain| - 1 ==> chain[i].next == chain[i + 1]) &&
      (forall i {:trigger chain[i].prev} :: 0 < i < |chain| ==> chain[i].prev == chain[i - 1])
    }

    /** Each slot is empty or points to a node of `nodes` that carries the id `table` has there. */
    ghost predicate Keyed(table: Table, nodes: seq<LruNode>)
      reads this`hashTable, nodes`key, hashTable
    {
      hashTable.Length == SIZE &&
      forall slot :: 0 <= slot < SIZE ==>
        match table[slot]
        case None => hashTable[slot] == null
        case Some(id) => hashTable[slot] != null && hashTable[slot] in nodes && hashTable[slot].key == id
    }

    /** The slots point to listed nodes only, so never to a sentinel or to freed memory. */
    ghost predicate Points(table: Table)
      reads this`hashTable, this`head, this`tail, this`chain, chain`key, hashTable
    {
      Keyed(table, chain) && forall slot :: 0 <= slot < SIZE ==> hashTable[slot] != head && hashTable[slot] != tail
    }

    lemma KeyedMore(table: Table, nodes: seq<LruNode>, nodes': seq<LruNode>)
      requires Keyed(table, nodes) && forall n :: n in nodes ==> n in nodes'
      ensures Keyed(table, nodes')
    {
    }

    /** List and table of a cache with this order, these messages and this table. */
    ghost predicate Shaped(order: seq<nat>, values: map<nat, Message>, table: Table)
      reads this`chain, this`head, this`tail, this`hashTable, chain, hashTable
    {
      Linked() && Matches(chain, order, values) && Points(table)
    }

    ghost predicate Structure()
      reads this, chain, hashTable
    {
      Shaped(model.order, model.values, model.table) &&
      currentSize == |model.order| && hits == model.hits && misses == model.misses && disk == model.disk
    }

    ghost predicate Valid()
      reads this, chain, hashTable
    {
      Structure() && Sound(model)
    }

    lemma EmptyShape()
      requires chain == [head, tail] && head != tail && head.next == tail && tail.prev == head
      requires hashTable.Length == SIZE && forall slot :: 0 <= slot < SIZE ==> hashTable[slot] == null
      ensures Shaped([], map[], EmptyTable())
    {
    }

    /** init_cache on a given disk. */
    constructor (disk: map<nat, Message>)
      requires forall id :: id in disk ==> disk[id].id == id
      ensures Valid() && model == Initial(disk) && fresh(chain) && fresh(hashTable)
    {
      var nobody := Message(0, 0, "", "", "", 0);
      var h := new LruNode(0, nobody);
      var t := new LruNode(0, nobody);
      h.next := t;
      t.prev := h;
      head, tail := h, t;
      hashTable := new LruNode?[SIZE](_ => null);
      currentSize, hits, misses := 0, 0, 0;
      this.disk := disk;
      chain := [h, t];
      model := Initial(disk);
      new;
      hide Sound, Ok, EmptyTable, Shaped;
      InitialOk(disk);
      EmptyShape();
    }

    /** Takes the node at place `k` out of the list. */
    method RemoveNode(node: LruNode, ghost k: nat)
      requires Linked() && 0 < k < |chain| - 1 && chain[k] == node
      modifies this`chain, {chain[k - 1]}`next, {chain[k + 1]}`prev
      ensures Linked() && chain == old(chain)[..k] + old(chain)[k + 1..]
      ensures forall n :: n in chain <==> n in old(chain) && n != node
    {
      CutMembers(chain, k);
      node.prev.next := node.next;
      node.next.prev := node.prev;
      chain := chain[..k] + chain[k + 1..];
    }

    /** Puts a node that is not in the list just before the tail. */
    method AddNodeToTail(node: LruNode)
      requires Linked() && node !in chain
      modifies this`chain, {chain[|chain| - 2]}`next, tail`prev, node`prev, node`next
      ensures Linked() && chain == old(chain)[..|old(chain)| - 1] + [node, tail]
      ensures forall n :: n in chain <==> n in old(chain) || n == node
    {
      BeforeLastMembers(chain, node);
      var last := tail.prev;
      last.next := node;
      node.prev := last;
      node.next := tail;
      tail.prev := node;
      chain := chain[..|chain| - 1] + [node, tail];
    }

    /** What the pointer comparisons of the probe loop see of a slot. */
    lemma SlotContent(nodes: seq<LruNode>, slot: nat)
      requires Keyed(model.table, nodes) && slot < SIZE
      ensures hashTable.Length == SIZE
      ensures model.table[slot] == if hashTable[slot] == null then None else Some(hashTable[slot].key)
    {
    }

    /** The probe loop: the slot that holds `key`, or the empty slot that ends the search for it. */
    method Probe(key: nat, ghost nodes: seq<LruNode>) returns (h: nat)
      requires Keyed(model.table, nodes) && Distance(model.table, key) < SIZE
      ensures h == EndSlot(model.table, key)
      ensures model.table[h] == if hashTable[h] == null then None else Some(hashTable[h].key)
    {
      hide Slot, Distance, Keyed;
      ghost var i, d := 0, Distance(model.table, key);
      h := key % SIZE;
      SlotFirst(key);
      SlotContent(nodes, h);
      while hashTable[h] != null && hashTable[h].key != key
        invariant i <= d && h == Slot(key, i)
        invariant model.table[h] == if hashTable[h] == null then None else Some(hashTable[h].key)
        decreases d - i
      {
        assert PassesOver(model.table, key, i);
        SlotNext(key, i);
        h := (h + 1) % SIZE;
        i := i + 1;
        SlotContent(nodes, h);
      }
      assert !PassesOver(model.table, key, i);
    }

    /** A hit relinks the node to the most recently used place. */
    method Relink(node: LruNode, ghost k: nat)
      requires Linked() && 0 < k < |chain| - 1 && chain[k] == node
      modifies this`chain, chain`prev, chain`next
      ensures Linked() && chain == Moved(old(chain), k)
      ensures forall n :: n in chain <==> n in old(chain)
    {
      RemoveNode(node, k);
      AddNodeToTail(node);
    }

    method MoveToTail(node: LruNode, ghost k: nat)
      requires Structure() && Distinct(model.order) && 0 < k < |chain| - 1 && chain[k] == node
      modifies this`chain, this`model, chain`prev, chain`next
      ensures Structure() && model == Move(old(model), node.key)
      ensures forall n :: n in chain <==> n in old(chain)
    {
      hide Matches, Linked, Without, Distinct, Keyed;
      ghost var order := Without(model.order, node.key) + [node.key];
      MatchesLength(chain, model.order, model.values);
      MatchesAt(chain, model.order, model.values, k);
      WithoutAt(model.order, k - 1);
      MatchesMoved(chain, model.order, model.values, k);
      Relink(node, k);
      assert Matches(chain, order, model.values);
      assert Points(model.table) by { KeyedMore(model.table, old(chain), chain); }
      model := Move(model, node.key);
    }

    /** Slots other than the one cleared point to nodes other than the one removed. */
    lemma KeyedWithout(table: Table, nodes: seq<LruNode>, rest: seq<LruNode>, h: nat, gone: LruNode)
      requires Keyed(table, nodes) && NoTwice(table) && h < SIZE && table[h] == Some(gone.key)
      requires forall n :: n in nodes && n != gone ==> n in rest
      ensures forall slot :: 0 <= slot < SIZE && slot != h && table[slot].Some? ==> hashTable[slot] in rest
    {
      forall slot | 0 <= slot < SIZE && slot != h && table[slot].Some? ensures hashTable[slot] in rest {
        assert table[slot] != table[h];
      }
    }

    /** Empties slot `h`, which pointed to the node `gone`. */
    method ClearSlot(h: nat, ghost nodes: seq<LruNode>, ghost gone: LruNode)
      requires Keyed(model.table, nodes) && NoTwice(model.table) && h < SIZE && model.table[h] == Some(gone.key)
      requires forall n :: n in nodes && n != gone ==> n in chain
      requires forall slot :: 0 <= slot < SIZE ==> hashTable[slot] != head && hashTable[slot] != tail
      modifies hashTable
      ensures Points(model.table[h := None])
    {
      KeyedWithout(model.table, nodes, chain, h, gone);
      hashTable[h] := null;
    }

    /** Takes the least recently used node off the list and out of the table. */
    method EvictLru()
      requires Valid() && model.order != [] && Found(model.table, model.order[0])
      modifies this`chain, hashTable, Repr()`prev, Repr()`next
      ensures var id := model.order[0];
              Shaped(model.order[1..], model.values - {id}, model.table[EndSlot(model.table, id) := None])
      ensures forall n :: n in chain ==> n in old(chain)
    {
      hide Found, Distance, EndSlot, Coherent, AllPlaced, NoStale, Matches, Keyed;
      var lru := head.next;
      ghost var nodes, id := chain, model.order[0];
      assert Matches(nodes[..1] + nodes[2..], model.order[1..], model.values - {id}) by {
        MatchesDropFirst(nodes, model.order, model.values);
      }
      MatchesAt(nodes, model.order, model.values, 1);
      SearchIn(model, id);
      assert NoTwice(model.table);
      RemoveNode(lru, 1);
      var h := Probe(lru.key, nodes);
      ClearSlot(h, nodes, lru);
    }

    method EvictIfNeeded()
      requires Valid() && (|model.order| >= CAPACITY ==> Found(model.table, model.order[0]))
      modifies this`chain, this`currentSize, this`model, hashTable, Repr()`prev, Repr()`next
      ensures Structure() && model == Evict(old(model))
      ensures forall n :: n in chain ==> n in old(chain)
    {
      hide Sound, Shaped, Found, EndSlot;
      if currentSize >= CAPACITY {
        EvictLru();
        currentSize := currentSize - 1;
        model := Evict(model);
      }
    }

    /** Where a listed node is. */
    lemma PlaceOf(node: LruNode) returns (k: nat)
      requires Linked() && node in chain && node != head && node != tail
      ensures 0 < k < |chain| - 1 && chain[k] == node
    {
      k :| 0 <= k < |chain| && chain[k] == node;
    }

    /** memcpy of a new message over the cached one. */
    method SetValue(node: LruNode, ghost k: nat, msg: Message)
      requires Structure() && Distinct(model.order) && 0 < k < |chain| - 1 && chain[k] == node && node.key == msg.id
      modifies this`model, node`value
      ensures Structure() && model == old(model).(values := old(model.values)[msg.id := msg])
    {
      assert model.order[k - 1] == msg.id;
      node.value := msg;
      model := model.(values := model.values[msg.id := msg]);
      forall i | 0 <= i < |model.order| && i != k - 1 ensures model.order[i] != msg.id { }
    }

    /** The branch of put_msg for an id that is cached. */
    method UpdateExisting(node: LruNode, msg: Message)
      requires Valid() && msg.id in model.order && node.key == msg.id && node in chain && node != head && node != tail
      modifies this`chain, this`model, chain`prev, chain`next, node`value
      ensures Structure() && model == Update(old(model), msg)
      ensures forall n :: n in chain <==> n in old(chain)
    {
      hide Matches, Linked, Points, Clean, Coherent, Distinct, Without;
      ghost var k := PlaceOf(node);
      SetValue(node, k, msg);
      MoveToTail(node, k);
    }

    /** Lets slot `slot` point to a listed node. */
    method PointTo(slot: nat, node: LruNode, ghost before: Table, ghost after: Table)
      requires slot < SIZE && Points(before) && after == before[slot := Some(node.key)]
      requires node in chain && node != head && node != tail
      modifies hashTable
      ensures Points(after)
    {
      hashTable[slot] := node;
    }

    lemma Ends()
      requires Structure()
      ensures |chain| >= 2 && chain[|chain| - 2] in chain && tail in chain && head in chain
    {
      hide Matches, Points;
    }

    /** Links a node that is new to the cache, with slot `slot` empty, into list and table. */
    method Link(slot: nat, node: LruNode, ghost msg: Message)
      requires Structure() && slot < SIZE && model.table[slot].None?
      requires node !in chain && node.key == msg.id && node.value == msg && msg.id !in model.order
      modifies this`chain, hashTable
      modifies {chain[|chain| - 2]}`next, tail`prev, node`prev, node`next
      ensures var c := Insert(model, slot, msg); Shaped(c.order, c.values, c.table)
      ensures forall n :: n in chain <==> n in old(chain) || n == node
    {
      hide Matches, Linked, Keyed;
      ghost var nodes, c := chain, Insert(model, slot, msg);
      Ends();
      MatchesMore(nodes, model.order, model.values, msg);
      MatchesAppend(nodes, model.order, c.values, node, tail);
      AddNodeToTail(node);
      KeyedMore(model.table, nodes, chain);
      PointTo(slot, node, model.table, c.table);
    }

    /** A new node for the message, linked in. The source looks for an empty slot from `slot` on; `slot` is one. */
    method LinkNew(slot: nat, msg: Message)
      requires Structure() && slot < SIZE && model.table[slot].None? && msg.id !in model.order
      modifies this`chain, hashTable, {chain[|chain| - 2]}`next, tail`prev
      ensures var c := Insert(model, slot, msg); Shaped(c.order, c.values, c.table)
      ensures fresh(Repr() - old(Repr()))
    {
      var node := new LruNode(msg.id, msg);
      Link(slot, node, msg);
    }

    /** The branch of put_msg for an id that is not cached; `slot` ended the search for it. */
    method InsertNew(slot: nat, msg: Message)
      requires Valid() && CanPut(model, msg.id) && msg.id !in model.order && slot < SIZE && model.table[slot].None?
      modifies this`chain, this`model, this`currentSize, hashTable, Repr()`prev, Repr()`next
      ensures Structure()
      ensures model == Insert(Evict(old(model)), slot, msg)
      ensures fresh(Repr() - old(Repr()))
    {
      hide Sound, Found, EndSlot, Shaped;
      EvictLeaves(model, slot, msg.id);
      EvictIfNeeded();
      Ends();
      LinkNew(slot, msg);
      currentSize := currentSize + 1;
      model := Insert(model, slot, msg);
    }

    method PutInCache(msg: Message)
      requires Valid() && CanPut(model, msg.id)
      modifies this`chain, this`model, this`currentSize, hashTable, Repr()
      ensures Structure() && model == PutCached(old(model), msg)
      ensures fresh(Repr() - old(Repr()))
    {
      hide Sound, NotHidden, EndSlot, Found, Distance, Matches, Linked;
      SearchIn(model, msg.id);
      PutBranch(model, msg.id);
      var h := Probe(msg.id, chain);
      if hashTable[h] != null {
        UpdateExisting(hashTable[h], msg);
      } else {
        InsertNew(h, msg);
      }
    }

    /** store_msg: the message goes to the file named after its id. */
    method StoreMsg(msg: Message)
      requires Structure()
      modifies this`disk, this`model
      ensures Structure() && model == old(model).(disk := old(model.disk)[msg.id := msg])
    {
      disk := disk[msg.id := msg];
      model := model.(disk := disk);
    }

    /**
     put_msg, on a cache that may hold hidden ids. Unless it touches one, everything ends up as the model
     says. A put on a cache without hidden ids leaves none exactly when its eviction was safe.
     */
    method PutMsg(msg: Message)
      requires Valid() && CanPut(model, msg.id)
      modifies this`chain, this`model, this`currentSize, this`disk, hashTable, Repr()
      ensures Valid() && model == Put(old(model), msg)
      ensures old(Ok(model)) ==> (Ok(model) <==> SafeToPut(old(model), msg.id))
      ensures fresh(Repr() - old(Repr()))
    {
      hide Sound, PutCached, CanPut, SafeToPut, AllFound, Shaped;
      ghost var before := model;
      PutInCache(msg);
      StoreMsg(msg);
      PutSound(before, msg);
      if Ok(before) { PutOkExactly(before, msg); }
    }

    /** A cache hit. */
    method Hit(node: LruNode) returns (msg: Message)
      requires Valid() && node in chain && node != head && node != tail
      modifies this`chain, this`model, this`hits, chain`prev, chain`next
      ensures Structure() && model == Move(old(model).(hits := old(model.hits) + 1), node.key)
      ensures node.key in old(model.values) && msg == old(model.values)[node.key]
      ensures forall n :: n in chain <==> n in old(chain)
    {
      hide Matches, Linked, Points, Clean, Coherent, Distinct, Without;
      ghost var k := PlaceOf(node);
      MatchesLength(chain, model.order, model.values);
      MatchesAt(chain, model.order, model.values, k);
      hits := hits + 1;
      model := model.(hits := hits);
      MoveToTail(node, k);
      msg := node.value;
    }

    method Missed()
      requires Valid()
      modifies this`model, this`misses
      ensures Valid() && model == old(model).(misses := old(model.misses) + 1)
    {
      hide Sound, Shaped;
      CountersDoNotMatter(model, hits, misses + 1);
      misses := misses + 1;
      model := model.(misses := misses);
    }

    /** A cache miss: the message is put into the cache if the disk has it. */
    method Load(id: nat) returns (msg: Option<Message>)
      requires Valid() && CanGet(model, id)
      modifies this`chain, this`model, this`currentSize, this`disk, this`misses, hashTable, Repr()
      ensures Valid()
      ensures var missed := old(model).(misses := old(model.misses) + 1);
              if id in old(disk) then model == Put(missed, old(disk)[id]) && msg == Some(old(disk)[id])
              else model == missed && msg == None
      ensures fresh(Repr() - old(Repr()))
    {
      hide Sound, Shaped, Put, CanPut, CanGet;
      if id in disk {
        StoredName(model, id);
        MissedCanPut(model, id);
      }
      Missed();
      if id in disk {
        msg := Some(disk[id]);
        PutMsg(disk[id]);
      } else {
        msg := None;
      }
    }

    method Lookup(id: nat) returns (msg: Option<Message>)
      requires Valid() && CanGet(model, id)
      modifies this`chain, this`model, this`currentSize, this`disk, this`hits, this`misses, hashTable, Repr()
      ensures Structure() && (model, msg) == Get(old(model), id)
      ensures fresh(Repr() - old(Repr()))
    {
      hide Sound, CanGet, EndSlot, Found, Distance, Matches, Linked, Put, Get;
      SearchIn(model, id);
      var h := Probe(id, chain);
      if hashTable[h] != null {
        GetFound(model, id);
        var value := Hit(hashTable[h]);
        msg := Some(value);
      } else {
        GetNotFound(model, id);
        msg := Load(id);
      }
    }

    /** get_msg_from_cache_or_disk, under the same terms as put_msg. */
    method GetMsg(id: nat) returns (msg: Option<Message>)
      requires Valid() && CanGet(model, id)
      modifies this`chain, this`model, this`currentSize, this`disk, this`hits, this`misses, hashTable, Repr()
      ensures Valid() && (model, msg) == Get(old(model), id)
      ensures old(Ok(model)) ==> (Ok(model) <==> SafeToGet(old(model), id))
      ensures fresh(Repr() - old(Repr()))
    {
      hide Sound, Get, CanGet, SafeToGet, AllFound;
      ghost var before := model;
      msg := Lookup(id);
      GetSoundExactly(before, id);
      if Ok(before) { GetOkExactly(before, id); }
    }

    /** One access of the experiment. */
    method Access(id: nat, ghost universe: set<nat>)
      requires Valid() && Ok(model) && CollisionFree(universe) && Within(model.order, universe) && id in universe
      modifies this`chain, this`model, this`currentSize, this`disk, this`hits, this`misses, hashTable, Repr()
      ensures Valid() && Ok(model) && Within(model.order, universe) && disk == old(disk)
      ensures TallyOf(model) == Ask(disk, TallyOf(old(model)), id)
      ensures fresh(Repr() - old(Repr()))
    {
      hide Sound, Shaped, Get, CanGet, CollisionFree, Within, AllFound, Ask;
      AskStep(model, id, universe);
      var msg := GetMsg(id);
    }

    method ResetStats()
      requires Valid()
      modifies this`model, this`hits, this`misses
      ensures Valid() && model == old(model).(hits := 0, misses := 0)
    {
      hide Sound, Shaped;
      CountersDoNotMatter(model, 0, 0);
      hits, misses := 0, 0;
      model := model.(hits := 0, misses := 0);
    }

    /**
     test_cache on a cache in any state without hidden ids; `ids` are the values of
     `rand() % num_messages + 1`.
     */
    method TestCache(ids: seq<nat>, ghost universe: set<nat>) returns (outHits: nat, outMisses: nat)
      requires Valid() && Ok(model) && CollisionFree(universe)
      requires Within(model.order, universe) && Within(ids, universe)
      modifies this`chain, this`model, this`currentSize, this`disk, this`hits, this`misses, hashTable, Repr()
      ensures Valid() && Ok(model) && disk == old(disk)
      ensures Tally(model.order, outHits, outMisses) == AskAll(disk, old(model.order), ids)
    {
      hide Sound, Shaped, CollisionFree, AllFound, Ask;
      CountersDoNotMatter(model, 0, 0);
      ResetStats();
      for i := 0 to |ids|
        invariant Valid() && Ok(model) && Within(model.order, universe) && disk == old(disk)
        invariant TallyOf(model) == AskAll(disk, old(model.order), ids[..i])
        invariant fresh(Repr() - old(Repr()))
      {
        AskAllSnoc(disk, old(model.order), ids, i);
        Access(ids[i], universe);
      }
      assert ids[..|ids|] == ids;
      outHits, outMisses := hits, misses;
    }
  }
}
