/**
 The message cache of practicum1/cache.c as values: what one get or put does to the recency list, the
 probing table, the cached messages and the disk (practicum1/message.c), and what whole runs compute.
 Disk operations succeed; a file is there or not.
 */
module CacheModel {
  import opened Wrappers
  import opened LruPolicy
  import opened Members
  import opened ProbeTable

  const CAPACITY: nat := 16

  datatype Message = Message(id: nat, timeSent: int, sender: string, receiver: string, content: string, delivered: int)

  /** `order` is the linked list from head to tail, least recently used first. */
  datatype Cache = Cache(
    order: seq<nat>,
    table: Table,
    values: map<nat, Message>,
    disk: map<nat, Message>,
    hits: nat,
    misses: nat)

  /** Every cached message is the one on disk, and a file holds the message it is named after. */
  ghost predicate Coherent(c: Cache) {
    (forall id :: id in c.values <==> id in c.order) &&
    (forall id :: id in c.values ==> id in c.disk && c.values[id] == c.disk[id]) &&
    (forall id :: id in c.disk ==> c.disk[id].id == id)
  }

  /**
   List, table, messages and disk agree: at most 16 different ids, each in exactly one slot, no slot left
   over. A search may still stop before it comes to an id; such an id is hidden.
   */
  ghost predicate Sound(c: Cache) {
    Distinct(c.order) && |c.order| <= CAPACITY && Clean(c.table, c.order) && Coherent(c)
  }

  /** And no id is hidden. */
  ghost predicate Ok(c: Cache) {
    Sound(c) && AllFound(c.table, c.order)
  }

  function Initial(disk: map<nat, Message>): Cache {
    Cache([], EmptyTable(), map[], disk, 0, 0)
  }

  function Move(c: Cache, id: nat): Cache {
    c.(order := Without(c.order, id) + [id])
  }

  /** evict_if_needed: the least recently used id leaves the list, its table slot and the cache. */
  function Evict(c: Cache): Cache {
    if |c.order| < CAPACITY then c
    else
      Cache(c.order[1..], c.table[EndSlot(c.table, c.order[0]) := None], c.values - {c.order[0]}, c.disk,
            c.hits, c.misses)
  }

  function Insert(c: Cache, slot: nat, msg: Message): Cache
    requires slot < SIZE
  {
    c.(order := c.order + [msg.id], table := c.table[slot := Some(msg.id)], values := c.values[msg.id := msg])
  }

  function Update(c: Cache, msg: Message): Cache {
    Move(c, msg.id).(values := c.values[msg.id := msg])
  }

  /** The slot for a new id is the one its search ended at before the eviction. */
  function PutCached(c: Cache, msg: Message): Cache {
    var slot := EndSlot(c.table, msg.id);
    if c.table[slot].Some? then Update(c, msg) else Insert(Evict(c), slot, msg)
  }

  /** put_msg: into the cache, and through to the disk. */
  function Put(c: Cache, msg: Message): Cache {
    PutCached(c, msg).(disk := c.disk[msg.id := msg])
  }

  /** get_msg_from_cache_or_disk; a message found on disk only is put into the cache. */
  function Get(c: Cache, id: nat): (Cache, Option<Message>)
    requires Sound(c)
  {
    FoundCached(c, id);
    if Found(c.table, id) then (Move(c.(hits := c.hits + 1), id), Some(c.values[id]))
    else
      var c' := if id in c.disk then Put(c, c.disk[id]) else c;
      (c'.(misses := c.misses + 1), if id in c.disk then Some(c.disk[id]) else None)
  }

  lemma SearchIn(c: Cache, id: nat)
    requires Sound(c)
    ensures Distance(c.table, id) < SIZE
    ensures c.table[EndSlot(c.table, id)] == if Found(c.table, id) then Some(id) else None
    ensures Found(c.table, id) ==> id in c.order
  {
    hide Distance, Found, Distinct, Clean;
    SearchEnds(c.table, c.order, id);
  }

  lemma FoundCached(c: Cache, id: nat)
    requires Sound(c)
    ensures Found(c.table, id) ==> id in c.order && id in c.values
  {
    hide Distance, Found, Distinct;
    SearchEnds(c.table, c.order, id);
  }

  // ----- One put

  ghost predicate NotHidden(c: Cache, id: nat) {
    id in c.order ==> Found(c.table, id)
  }

  /** Neither the id put nor the one this put evicts is hidden. */
  ghost predicate CanPut(c: Cache, id: nat) {
    NotHidden(c, id) && (id !in c.order && |c.order| >= CAPACITY ==> Found(c.table, c.order[0]))
  }

  /** The eviction this put makes, if it makes one, hides no id. */
  ghost predicate SafeToPut(c: Cache, id: nat) {
    id in c.order || |c.order| < CAPACITY || SafeToReplace(c.table, c.order, c.order[0], id)
  }

  lemma PutBranch(c: Cache, id: nat)
    requires Sound(c) && NotHidden(c, id)
    ensures id in c.order <==> c.table[EndSlot(c.table, id)].Some?
  {
    hide Distance, Found, Clean, Distinct, Coherent;
    SearchEnds(c.table, c.order, id);
  }

  lemma PutOrder(c: Cache, msg: Message)
    requires Sound(c) && NotHidden(c, msg.id)
    ensures Put(c, msg).order == Touch(CAPACITY, c.order, msg.id)
    ensures msg.id in c.order <==> c.table[EndSlot(c.table, msg.id)].Some?
  {
    hide Sound, NotHidden, EndSlot;
    PutBranch(c, msg.id);
  }

  /** Who is cached after a put. */
  lemma PutMembers(c: Cache, msg: Message)
    requires Sound(c) && NotHidden(c, msg.id)
    ensures Distinct(Put(c, msg).order) && |Put(c, msg).order| <= CAPACITY
    ensures forall id :: id in Put(c, msg).order <==>
                         id == msg.id ||
                         (id in c.order && (msg.id in c.order || |c.order| < CAPACITY || id != c.order[0]))
  {
    hide Put, Touch, Clean, Coherent, Distinct;
    PutOrder(c, msg);
    TouchDistinct(CAPACITY, c.order, msg.id);
    TouchMembers(CAPACITY, c.order, msg.id);
  }

  /** A put writes through. */
  lemma PutValues(c: Cache, msg: Message)
    requires Sound(c) && NotHidden(c, msg.id)
    ensures var c' := Put(c, msg);
            c'.disk == c.disk[msg.id := msg] &&
            c'.values == (if msg.id in c.order || |c.order| < CAPACITY then c.values else c.values - {c.order[0]})
                         [msg.id := msg]
  {
    hide Sound, NotHidden, EndSlot;
    PutBranch(c, msg.id);
  }

  lemma PutCoherent(c: Cache, msg: Message)
    requires Sound(c) && NotHidden(c, msg.id)
    ensures Coherent(Put(c, msg))
  {
    hide Put, Distinct, Clean, NotHidden;
    PutMembers(c, msg);
    PutValues(c, msg);
  }

  /** What a put does to the table. */
  lemma PutTable(c: Cache, msg: Message)
    requires Sound(c) && NotHidden(c, msg.id)
    ensures Put(c, msg).table ==
            if msg.id in c.order then c.table
            else if |c.order| < CAPACITY then c.table[EndSlot(c.table, msg.id) := Some(msg.id)]
            else Replaced(c.table, c.order[0], msg.id)
  {
    hide Sound, NotHidden, EndSlot;
    PutBranch(c, msg.id);
  }

  lemma CleanSameIds(table: Table, ids: seq<nat>, ids': seq<nat>)
    requires Clean(table, ids) && forall id :: id in ids <==> id in ids'
    ensures Clean(table, ids')
  {
  }

  /** Room in the list is room in the table. */
  lemma AppendClean(table: Table, ids: seq<nat>, ids': seq<nat>, id: nat)
    requires Clean(table, ids) && |ids| < SIZE && id !in ids && forall k :: k in ids' <==> k == id || k in ids
    ensures Clean(table[EndSlot(table, id) := Some(id)], ids')
  {
    hide Clean, EndSlot;
    InsertKeeps(table, ids, id);
    CleanSameIds(table[EndSlot(table, id) := Some(id)], ids + [id], ids');
  }

  /** A put that touches no hidden id keeps everything in step. */
  lemma PutSound(c: Cache, msg: Message)
    requires Sound(c) && CanPut(c, msg.id)
    ensures Sound(Put(c, msg))
  {
    hide Put, Distinct, Coherent, EndSlot, Clean;
    PutMembers(c, msg);
    PutCoherent(c, msg);
    PutTable(c, msg);
    if msg.id in c.order {
      CleanSameIds(c.table, c.order, Put(c, msg).order);
    } else if |c.order| < CAPACITY {
      AppendClean(c.table, c.order, Put(c, msg).order, msg.id);
    } else {
      ReplaceClean(c.table, c.order, Put(c, msg).order, c.order[0], msg.id);
    }
  }

  /** A put of a hidden id adds it to the list or the table a second time. */
  lemma PutHidden(c: Cache, msg: Message)
    requires Sound(c) && !NotHidden(c, msg.id)
    ensures !Distinct(Put(c, msg).order) || !NoTwice(Put(c, msg).table)
  {
    hide Distance, Found, Coherent;
    var id, slot := msg.id, EndSlot(c.table, msg.id);
    SearchEnds(c.table, c.order, id);
    var i :| 0 <= i < SIZE && c.table[i] == Some(id);
    var k :| 0 <= k < |c.order| && c.order[k] == id;
    if |c.order| < CAPACITY || k > 0 {
      assert Put(c, msg).order == (if |c.order| < CAPACITY then c.order else c.order[1..]) + [id];
      assert Put(c, msg).order[if |c.order| < CAPACITY then k else k - 1] == id;
      assert Put(c, msg).order[|Put(c, msg).order| - 1] == id;
    } else {
      assert Put(c, msg).table == c.table[slot := None][slot := Some(id)];
      assert Put(c, msg).table[i] == Put(c, msg).table[slot] && i != slot;
    }
  }

  /** A put keeps list, table, messages and disk in step exactly when it touches no hidden id. */
  lemma PutSoundExactly(c: Cache, msg: Message)
    requires Sound(c)
    ensures Sound(Put(c, msg)) <==> CanPut(c, msg.id)
  {
    hide Put, Distinct, Coherent, EndSlot, Found, NoStale, NoTwice, AllPlaced;
    if CanPut(c, msg.id) {
      PutSound(c, msg);
    } else if !NotHidden(c, msg.id) {
      PutHidden(c, msg);
    } else {
      PutMembers(c, msg);
      PutTable(c, msg);
      HiddenGoneLeavesSlot(c.table, c.order, Put(c, msg).order, c.order[0], msg.id);
    }
  }

  lemma OkCanPut(c: Cache, id: nat)
    requires Ok(c)
    ensures CanPut(c, id)
  {
    hide Sound, Found;
  }

  /** A put leaves no id hidden exactly when its eviction is safe. */
  lemma PutOkExactly(c: Cache, msg: Message)
    requires Ok(c)
    ensures Ok(Put(c, msg)) <==> SafeToPut(c, msg.id)
  {
    hide Put, Distinct, Coherent, EndSlot, Found, Clean, Crosses, NotHidden;
    OkCanPut(c, msg.id);
    PutSound(c, msg);
    PutMembers(c, msg);
    PutTable(c, msg);
    if msg.id in c.order {
    } else if |c.order| < CAPACITY {
      InsertKeeps(c.table, c.order, msg.id);
    } else {
      ReplaceExact(c.table, c.order, Put(c, msg).order, c.order[0], msg.id);
    }
  }

  /** After a put that is not safe everything is still in step, but some id on the list is hidden. */
  lemma UnsafePutHidesAnId(c: Cache, msg: Message)
    requires Ok(c) && !SafeToPut(c, msg.id)
    ensures Sound(Put(c, msg)) && exists id :: id in Put(c, msg).order && !Found(Put(c, msg).table, id)
  {
    hide Put, Sound, SafeToPut, Found;
    PutOkExactly(c, msg);
    OkCanPut(c, msg.id);
    PutSound(c, msg);
  }

  // ----- One get

  /** A get of a stored message puts it, if only to where it is. */
  ghost predicate CanGet(c: Cache, id: nat) {
    id in c.disk ==> CanPut(c, id)
  }

  ghost predicate SafeToGet(c: Cache, id: nat) {
    id in c.disk ==> SafeToPut(c, id)
  }

  /** The counters are of no account to the rest. */
  lemma CountersDoNotMatter(c: Cache, hits: nat, misses: nat)
    ensures Sound(c) <==> Sound(c.(hits := hits, misses := misses))
    ensures Ok(c) <==> Ok(c.(hits := hits, misses := misses))
  {
  }

  lemma GetHit(c: Cache, id: nat)
    requires Sound(c) && Found(c.table, id)
    ensures Sound(Get(c, id).0) && (Ok(c) ==> Ok(Get(c, id).0)) && id in c.order && id in c.disk
    ensures Get(c, id).0.table == c.table && Get(c, id).0.order == Touch(CAPACITY, c.order, id)
  {
    hide Found, Clean, Distinct;
    FoundCached(c, id);
    WithoutMembers(c.order, id);
    WithoutDistinct(c.order, id);
    MovedDistinct(c.order, id);
    CleanSameIds(c.table, c.order, Without(c.order, id) + [id]);
  }

  lemma MovedDistinct(s: seq<nat>, id: nat)
    requires Distinct(s) && id in s
    ensures Distinct(Without(s, id) + [id]) && |Without(s, id) + [id]| == |s|
  {
    hide Without;
    WithoutDistinct(s, id);
    WithoutMembers(s, id);
  }

  lemma GetMiss(c: Cache, id: nat)
    requires Sound(c) && !Found(c.table, id) && id in c.disk
    ensures Get(c, id) == (Put(c, c.disk[id]).(misses := c.misses + 1), Some(c.disk[id])) && c.disk[id].id == id
    ensures Sound(Get(c, id).0) <==> Sound(Put(c, c.disk[id]))
    ensures Ok(Get(c, id).0) <==> Ok(Put(c, c.disk[id]))
  {
    hide Found, Clean, Distinct, Ok, PutCached;
    PutCounts(c, c.disk[id]);
    CountersDoNotMatter(Put(c, c.disk[id]), c.hits, c.misses + 1);
  }

  /** An id on the list is on disk. */
  lemma ListedStored(c: Cache, id: nat)
    requires Sound(c) && id in c.order
    ensures id in c.disk
  {
  }

  lemma StoredName(c: Cache, id: nat)
    requires Sound(c) && id in c.disk
    ensures c.disk[id].id == id
  {
  }

  /** Counting first and putting then is putting first and counting then. */
  lemma MissedCanPut(c: Cache, id: nat)
    requires CanGet(c, id) && id in c.disk
    ensures CanPut(c.(misses := c.misses + 1), id)
  {
  }

  /** A get keeps everything in step exactly when it touches no hidden id. */
  lemma GetSoundExactly(c: Cache, id: nat)
    requires Sound(c)
    ensures Sound(Get(c, id).0) <==> CanGet(c, id)
  {
    hide Sound, Put, Found, Get, NotHidden;
    if Found(c.table, id) {
      GetHit(c, id);
      FoundCanPut(c, id);
    } else if id in c.disk {
      GetMiss(c, id);
      PutSoundExactly(c, c.disk[id]);
    } else {
      GetNothing(c, id);
    }
  }

  lemma FoundCanPut(c: Cache, id: nat)
    requires Sound(c) && Found(c.table, id)
    ensures CanPut(c, id)
  {
    hide Found, Clean, Distinct, Coherent;
    FoundCached(c, id);
  }

  lemma GetNothing(c: Cache, id: nat)
    requires Sound(c) && id !in c.disk
    ensures Get(c, id) == (c.(misses := c.misses + 1), None)
    ensures Sound(Get(c, id).0) && (Ok(c) <==> Ok(Get(c, id).0))
  {
    hide Clean, Distinct, Found, Ok;
    FoundCached(c, id);
    CountersDoNotMatter(c, c.hits, c.misses + 1);
  }

  /** A get leaves no id hidden exactly when the put it may make is safe. */
  lemma GetOkExactly(c: Cache, id: nat)
    requires Ok(c)
    ensures Ok(Get(c, id).0) <==> SafeToGet(c, id)
  {
    hide Sound, Put, Found, Get, SafeToPut;
    if Found(c.table, id) {
      GetHit(c, id);
      ListedSafe(c, id);
    } else if id in c.disk {
      GetMiss(c, id);
      PutOkExactly(c, c.disk[id]);
    } else {
      GetNothing(c, id);
    }
  }

  lemma ListedSafe(c: Cache, id: nat)
    requires id in c.order
    ensures SafeToPut(c, id)
  {
  }

  /** A get answers from the disk, which it leaves alone, even when the id is hidden. */
  lemma GetAnswer(c: Cache, id: nat)
    requires Sound(c)
    ensures Get(c, id).1 == if id in c.disk then Some(c.disk[id]) else None
    ensures Get(c, id).0.disk == c.disk
  {
    hide Found, Clean, Distinct, PutCached;
    FoundCached(c, id);
    if id in c.disk { assert c.disk[id := c.disk[id]] == c.disk; }
  }

  /** A get refreshes the id if it exists, and counts a hit exactly when it is on the list. */
  lemma GetEffect(c: Cache, id: nat)
    requires Sound(c) && NotHidden(c, id)
    ensures Get(c, id).0.order == if id in c.disk then Touch(CAPACITY, c.order, id) else c.order
    ensures Get(c, id).0.misses == c.misses + if id in c.order then 0 else 1
    ensures Get(c, id).0.hits == c.hits + if id in c.order then 1 else 0
  {
    if Found(c.table, id) {
      GetHit(c, id);
      GetCounts(c, id);
    } else if id in c.disk {
      GetMiss(c, id);
      PutOrder(c, c.disk[id]);
      PutCounts(c, c.disk[id]);
    } else {
      GetNothing(c, id);
      if id in c.order { ListedStored(c, id); }
    }
  }

  lemma GetCounts(c: Cache, id: nat)
    requires Sound(c) && Found(c.table, id)
    ensures Get(c, id).0.misses == c.misses && Get(c, id).0.hits == c.hits + 1
  {
    hide Found, Sound;
  }

  lemma PutCounts(c: Cache, msg: Message)
    ensures Put(c, msg).hits == c.hits && Put(c, msg).misses == c.misses
  {
    hide Found, EndSlot;
  }

  // ----- For the code in place

  /** The branch of a get whose search ends at an entry. */
  lemma GetFound(c: Cache, id: nat)
    requires Sound(c) && c.table[EndSlot(c.table, id)].Some?
    ensures c.table[EndSlot(c.table, id)] == Some(id) && id in c.values && id in c.order
    ensures Get(c, id) == (Move(c.(hits := c.hits + 1), id), Some(c.values[id]))
  {
    hide Distance, Found, Clean, Distinct;
    SearchEnds(c.table, c.order, id);
    FoundCached(c, id);
  }

  /** The branch of a get whose search ends at an empty slot. */
  lemma GetNotFound(c: Cache, id: nat)
    requires Sound(c) && c.table[EndSlot(c.table, id)].None?
    ensures id in c.disk ==>
              Get(c, id) == (Put(c.(misses := c.misses + 1), c.disk[id]), Some(c.disk[id])) && c.disk[id].id == id
    ensures id !in c.disk ==> Get(c, id) == (c.(misses := c.misses + 1), None)
  {
    hide Distance, Found, Clean, Distinct;
    SearchEnds(c.table, c.order, id);
  }

  /** An empty slot stays empty, and an id that is not cached stays out, when another id is evicted. */
  lemma EvictLeaves(c: Cache, slot: nat, id: nat)
    requires slot < SIZE && c.table[slot].None? && id !in c.order
    ensures Evict(c).table[slot].None? && id !in Evict(c).order
  {
    hide EndSlot;
  }
}
