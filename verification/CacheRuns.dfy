/**
 Whole runs of the message cache: what they compute, when the probing table stays intact, and an id
 that gets lost when it does not.
 */
module CacheRuns {
  import opened Wrappers
  import opened LruPolicy
  import opened LruCompetitive
  import opened Members
  import opened ProbeTable
  import opened CacheModel

  datatype Op = DoGet(id: nat) | DoPut(msg: Message) {
    function Id(): nat { match this case DoGet(id) => id case DoPut(msg) => msg.id }
  }

  /** The operation touches no hidden id. */
  ghost predicate CanDo(c: Cache, op: Op) {
    match op
    case DoGet(id) => CanGet(c, id)
    case DoPut(msg) => CanPut(c, msg.id)
  }

  /** The operation hides no id. */
  ghost predicate Safe(c: Cache, op: Op) {
    match op
    case DoGet(id) => SafeToGet(c, id)
    case DoPut(msg) => SafeToPut(c, msg.id)
  }

  function Do(c: Cache, op: Op): Cache
    requires Sound(c)
  {
    match op
    case DoGet(id) => Get(c, id).0
    case DoPut(msg) => Put(c, msg)
  }

  /** The cache after a run, or None once an operation has touched a hidden id. */
  ghost function Run(disk: map<nat, Message>, ops: seq<Op>): (r: Option<Cache>)
    ensures r.Some? ==> Sound(r.value)
  {
    if ops == [] then
      InitialOk(disk);
      if Coherent(Initial(disk)) then Some(Initial(disk)) else None
    else
      var n := |ops| - 1;
      match Run(disk, ops[..n])
      case None => None
      case Some(c) =>
        DoSound(c, ops[n]);
        if CanDo(c, ops[n]) then Some(Do(c, ops[n])) else None
  }

  lemma InitialOk(disk: map<nat, Message>)
    ensures Coherent(Initial(disk)) ==> Ok(Initial(disk))
  {
  }

  lemma DoSound(c: Cache, op: Op)
    requires Sound(c)
    ensures Sound(Do(c, op)) <==> CanDo(c, op)
  {
    hide Sound, Get, Put, CanGet, CanPut;
    match op
    case DoGet(id) => GetSoundExactly(c, id);
    case DoPut(msg) => PutSoundExactly(c, msg);
  }

  lemma DoOk(c: Cache, op: Op)
    requires Ok(c)
    ensures Ok(Do(c, op)) <==> Safe(c, op)
    ensures CanDo(c, op)
  {
    hide Sound, Get, Put, CanPut, SafeToGet, SafeToPut, AllFound;
    OkCanPut(c, op.Id());
    match op
    case DoGet(id) => GetOkExactly(c, id);
    case DoPut(msg) => PutOkExactly(c, msg);
  }

  // ----- What a run should do, without a cache

  /** A plain disk, the ids accessed so far, and the gets that found or missed the 16 most recent ids. */
  datatype Reference = Reference(disk: map<nat, Message>, accesses: seq<nat>, hits: nat, misses: nat)

  /** Puts access their id; gets access an id that exists. */
  function DoReference(r: Reference, op: Op): Reference {
    var accesses := if op.DoPut? || op.id in r.disk then r.accesses + [op.Id()] else r.accesses;
    match op
    case DoPut(msg) => Reference(r.disk[msg.id := msg], accesses, r.hits, r.misses)
    case DoGet(id) =>
      if id in Lru(CAPACITY, r.accesses) then Reference(r.disk, accesses, r.hits + 1, r.misses)
      else Reference(r.disk, accesses, r.hits, r.misses + 1)
  }

  function RunReference(disk: map<nat, Message>, ops: seq<Op>): Reference {
    if ops == [] then Reference(disk, [], 0, 0)
    else DoReference(RunReference(disk, ops[..|ops| - 1]), ops[|ops| - 1])
  }

  /** The message last put under `id`, or the one on disk at the start. */
  function Latest(disk: map<nat, Message>, ops: seq<Op>, id: nat): Option<Message> {
    if ops == [] then (if id in disk then Some(disk[id]) else None)
    else
      var n := |ops| - 1;
      if ops[n].DoPut? && ops[n].msg.id == id then Some(ops[n].msg) else Latest(disk, ops[..n], id)
  }

  lemma {:induction false} ReferenceDiskIsLatest(disk: map<nat, Message>, ops: seq<Op>, id: nat)
    ensures var d := RunReference(disk, ops).disk;
            Latest(disk, ops, id) == if id in d then Some(d[id]) else None
  {
    if ops == [] {
    } else {
      ReferenceDiskIsLatest(disk, ops[..|ops| - 1], id);
    }
  }

  // ----- A run that touches no hidden id does that

  ghost predicate Refines(c: Cache, r: Reference) {
    c.disk == r.disk && c.order == Lru(CAPACITY, r.accesses) && c.hits == r.hits && c.misses == r.misses
  }

  lemma LruSnoc(trace: seq<nat>, id: nat)
    ensures Lru(CAPACITY, trace + [id]) == Touch(CAPACITY, Lru(CAPACITY, trace), id)
  {
    hide Touch;
    assert (trace + [id])[..|trace|] == trace;
  }

  lemma CanGetNotHidden(c: Cache, id: nat)
    requires Sound(c) && CanGet(c, id)
    ensures NotHidden(c, id) && (id in c.order ==> id in c.disk)
  {
    hide Found, Clean, Distinct;
  }

  lemma RefinesStep(c: Cache, r: Reference, op: Op)
    requires Sound(c) && CanDo(c, op) && Refines(c, r)
    ensures Refines(Do(c, op), DoReference(r, op))
  {
    hide Sound, Get, Put, Lru, Touch, CanGet, NotHidden;
    LruSnoc(r.accesses, op.Id());
    match op {
      case DoGet(id) =>
        CanGetNotHidden(c, id);
        GetAnswer(c, id);
        GetEffect(c, id);
      case DoPut(msg) =>
        PutOrder(c, msg);
        PutCounts(c, msg);
        PutValues(c, msg);
    }
  }

  /**
   A run refines the recency order over the accessed ids in front of a plain disk: the list is the LRU
   order, hits and misses are counted right, and the disk holds the latest puts.
   */
  lemma {:induction false} RunRefines(disk: map<nat, Message>, ops: seq<Op>)
    requires Run(disk, ops).Some?
    ensures Refines(Run(disk, ops).value, RunReference(disk, ops))
  {
    if ops == [] {
    } else {
      hide Sound, Refines, Do, DoReference, CanDo;
      var n := |ops| - 1;
      RunRefines(disk, ops[..n]);
      RefinesStep(Run(disk, ops[..n]).value, RunReference(disk, ops[..n]), ops[n]);
    }
  }

  /**
   A get answers with the latest put of its id and changes nothing on disk; evictions lose nothing. This
   holds for a get of a hidden id too, the first operation after which the model does not follow.
   */
  lemma GetReturnsLatest(disk: map<nat, Message>, ops: seq<Op>, id: nat)
    requires Run(disk, ops).Some?
    ensures Get(Run(disk, ops).value, id).1 == Latest(disk, ops, id)
    ensures Get(Run(disk, ops).value, id).0.disk == Run(disk, ops).value.disk
  {
    hide Sound, Get, Run, RunReference, Latest;
    RunRefines(disk, ops);
    GetAnswer(Run(disk, ops).value, id);
    ReferenceDiskIsLatest(disk, ops, id);
  }

  // ----- When no id is ever hidden

  ghost predicate DiskNamed(disk: map<nat, Message>) {
    forall id :: id in disk ==> disk[id].id == id
  }

  ghost predicate Within(trace: seq<nat>, ids: set<nat>) {
    forall id :: id in trace ==> id in ids
  }

  /** The run touches no hidden id and hides none. */
  ghost predicate Intact(disk: map<nat, Message>, ops: seq<Op>) {
    Run(disk, ops).Some? && Ok(Run(disk, ops).value)
  }

  lemma IntactStart(disk: map<nat, Message>)
    requires DiskNamed(disk)
    ensures Intact(disk, []) && Run(disk, []) == Some(Initial(disk))
  {
    InitialOk(disk);
  }

  lemma RunSnoc(disk: map<nat, Message>, ops: seq<Op>, op: Op)
    requires Run(disk, ops).Some? && CanDo(Run(disk, ops).value, op)
    ensures Run(disk, ops + [op]) == Some(Do(Run(disk, ops).value, op))
  {
    hide CanDo, Do, Sound;
    assert (ops + [op])[..|ops|] == ops;
  }

  lemma IntactStep(disk: map<nat, Message>, ops: seq<Op>, op: Op)
    requires Intact(disk, ops) && Safe(Run(disk, ops).value, op)
    ensures Intact(disk, ops + [op])
  {
    hide Run, Ok, CanDo, Safe, Do;
    DoOk(Run(disk, ops).value, op);
    RunSnoc(disk, ops, op);
  }

  lemma SafeWithRoom(c: Cache, r: Reference, op: Op, ids: set<nat>)
    requires Ok(c) && Refines(c, r) && Within(DoReference(r, op).accesses, ids) && |ids| <= CAPACITY
    ensures Safe(c, op)
  {
    hide Ok, Lru, Within, SafeToReplace;
    if op.DoPut? || op.id in r.disk { NoRoomNeeded(r.accesses, op.Id(), ids); }
  }

  lemma NoRoomNeeded(trace: seq<nat>, id: nat, ids: set<nat>)
    requires Within(trace + [id], ids) && |ids| <= CAPACITY
    ensures id in Lru(CAPACITY, trace) || |Lru(CAPACITY, trace)| < CAPACITY
  {
    hide Lru, Distinct;
    LruDistinct(CAPACITY, trace);
    forall x | x in trace || x == id ensures x in ids { assert x in trace + [id]; }
    if |Lru(CAPACITY, trace)| == CAPACITY { FullOrder(Lru(CAPACITY, trace), ids, id); }
  }

  /** Distinct ids that fill the place for all of them are all of them. */
  lemma FullOrder(order: seq<nat>, ids: set<nat>, id: nat)
    requires Distinct(order) && Within(order, ids) && |ids| <= |order| && id in ids
    ensures id in order
  {
    hide IdSet, Distinct;
    DistinctSize(order);
    SubsetSize(IdSet(order), ids);
  }

  lemma WithinBefore(r: Reference, op: Op, ids: set<nat>)
    requires Within(DoReference(r, op).accesses, ids)
    ensures Within(r.accesses, ids)
  {
    hide Lru;
    assert r.accesses <= DoReference(r, op).accesses;
  }

  lemma RunReferenceSnoc(disk: map<nat, Message>, ops: seq<Op>, op: Op)
    ensures RunReference(disk, ops + [op]) == DoReference(RunReference(disk, ops), op)
  {
    hide DoReference;
    assert (ops + [op])[..|ops|] == ops;
  }

  /** While only 16 different ids have been accessed nothing is evicted, and any ids may collide. */
  lemma {:induction false} IntactWithoutEviction(disk: map<nat, Message>, ops: seq<Op>, ids: set<nat>)
    requires DiskNamed(disk) && Within(RunReference(disk, ops).accesses, ids) && |ids| <= CAPACITY
    ensures Intact(disk, ops)
  {
    hide Run, RunReference, Within, DoReference, Safe, Ok, Refines, DiskNamed;
    if ops == [] {
      IntactStart(disk);
    } else {
      var before, op := ops[..|ops| - 1], ops[|ops| - 1];
      assert before + [op] == ops;
      var r := RunReference(disk, before);
      RunReferenceSnoc(disk, before, op);
      WithinBefore(r, op, ids);
      IntactWithoutEviction(disk, before, ids);
      RunRefines(disk, before);
      SafeWithRoom(Run(disk, before).value, r, op, ids);
      IntactStep(disk, before, op);
    }
  }

  /** Among ids that do not collide every operation is safe. */
  lemma SafeWithoutCollisions(c: Cache, op: Op, universe: set<nat>)
    requires Ok(c) && CollisionFree(universe) && Within(c.order, universe) && op.Id() in universe
    ensures Safe(c, op)
  {
    hide CollisionFree, Clean, Distinct, Coherent, AtHome, SafeToReplace;
    if op.Id() !in c.order && |c.order| == CAPACITY {
      AllAtHome(c.table, c.order, universe);
      NoCollisionNoCrossing(c.table, c.order, universe, c.order[0], op.Id());
    }
  }

  lemma OrderWithin(c: Cache, op: Op, universe: set<nat>)
    requires Ok(c) && Within(c.order, universe) && op.Id() in universe
    ensures Within(Do(c, op).order, universe)
  {
    hide Sound, Get, Put, CanPut, Found;
    OkCanPut(c, op.Id());
    match op {
      case DoGet(id) =>
        OkNotHidden(c, id);
        GetEffect(c, id);
        TouchWithin(c.order, id, universe);
      case DoPut(msg) =>
        OkNotHidden(c, msg.id);
        PutOrder(c, msg);
        TouchWithin(c.order, msg.id, universe);
    }
  }

  lemma OkNotHidden(c: Cache, id: nat)
    requires Ok(c)
    ensures NotHidden(c, id)
  {
    hide Sound, Found;
  }

  lemma TouchWithin(order: seq<nat>, id: nat, universe: set<nat>)
    requires Within(order, universe) && id in universe
    ensures Within(Touch(CAPACITY, order, id), universe)
  {
    hide Without;
    WithoutMembers(order, id);
  }

  /** Over ids that never collide no id is ever hidden. */
  lemma {:induction false} IntactWithoutCollisions(disk: map<nat, Message>, ops: seq<Op>, universe: set<nat>)
    requires DiskNamed(disk) && CollisionFree(universe)
    requires forall i :: 0 <= i < |ops| ==> ops[i].Id() in universe
    ensures Intact(disk, ops) && Within(Run(disk, ops).value.order, universe)
  {
    hide Run, CollisionFree, Within, Do, Safe, Ok, DiskNamed;
    if ops == [] {
      IntactStart(disk);
      NothingWithin(universe);
    } else {
      var before, op := ops[..|ops| - 1], ops[|ops| - 1];
      assert before + [op] == ops;
      IntactWithoutCollisions(disk, before, universe);
      var c := Run(disk, before).value;
      SafeWithoutCollisions(c, op, universe);
      OrderWithin(c, op, universe);
      DoOk(c, op);
      RunSnoc(disk, before, op);
    }
  }

  lemma NothingWithin(universe: set<nat>)
    ensures Within([], universe)
  {
  }

  // ----- A run that hides an id

  function Msg(id: nat): Message { Message(id, 0, "", "", "", 0) }

  /** The ids put: 0 and 103, which collide, and then 2, 3, 4, and so on. */
  function Colliding(i: nat): nat { if i == 1 then 103 else i }

  function Puts(n: nat): seq<Op> { seq(n, (i: nat) => DoPut(Msg(Colliding(i)))) }

  /** The first `n` of these ids, each in the slot of its turn. */
  ghost predicate Filled(c: Cache, n: nat) {
    |c.order| == n <= CAPACITY &&
    (forall i :: 0 <= i < n ==> c.order[i] == Colliding(i) && c.table[i] == Some(Colliding(i))) &&
    (forall i :: n <= i < SIZE ==> c.table[i].None?)
  }

  lemma FillSlot(c: Cache, n: nat)
    requires Filled(c, n) && n < CAPACITY
    ensures EndSlot(c.table, Colliding(n)) == n && Colliding(n) !in c.order
  {
    hide Distance;
    DistanceIs(c.table, Colliding(n), if n == 1 then 1 else 0);
  }

  lemma FillStep(c: Cache, n: nat)
    requires Filled(c, n) && n < CAPACITY
    ensures Filled(Put(c, Msg(Colliding(n))), n + 1) && SafeToPut(c, Colliding(n))
  {
    hide EndSlot, SafeToReplace;
    FillSlot(c, n);
  }

  lemma PutsSnoc(n: nat)
    ensures Puts(n + 1) == Puts(n) + [DoPut(Msg(Colliding(n)))]
  {
  }

  lemma {:induction false} Fill(n: nat)
    requires n <= CAPACITY
    ensures Intact(map[], Puts(n)) && Filled(Run(map[], Puts(n)).value, n)
  {
    if n == 0 {
    } else {
      hide Run, Ok, Put, Filled, Puts, Colliding, SafeToPut, CanDo;
      Fill(n - 1);
      var c := Run(map[], Puts(n - 1)).value;
      FillStep(c, n - 1);
      PutsSnoc(n - 1);
      DoOk(c, DoPut(Msg(Colliding(n - 1))));
      RunSnoc(map[], Puts(n - 1), DoPut(Msg(Colliding(n - 1))));
    }
  }

  /** With 0, 103, 2, ..., 15 cached, a put of 16 evicts 0 and empties slot 0, where the search for 103 starts. */
  lemma HideByEviction(c: Cache)
    requires Filled(c, CAPACITY)
    ensures var c' := Put(c, Msg(16)); 103 in c'.order && !Found(c'.table, 103)
  {
    hide Distance;
    DistanceIs(c.table, 0, 0);
    DistanceIs(c.table, 16, 0);
    var c' := Put(c, Msg(16));
    assert c.order[1] == 103 && c'.order[0] == c.order[1];
    DistanceIs(c'.table, 103, 0);
  }

  /**
   After 0, 103, 2, ..., 15 the cache is full; putting 16 hides 103. Everything is still in step, and the
   next operation that touches 103 puts it on the list a second time.
   */
  lemma CollisionHidesAnId()
    ensures Intact(map[], Puts(16)) && Run(map[], Puts(17)).Some?
    ensures var c := Run(map[], Puts(17)).value;
            103 in c.order && !Found(c.table, 103) && !CanGet(c, 103) && !Sound(Get(c, 103).0)
  {
    hide Run, Ok, Put, Puts, Found, CanDo, Get, Filled;
    Fill(16);
    var c := Run(map[], Puts(16)).value;
    HideByEviction(c);
    PutsSnoc(16);
    DoOk(c, DoPut(Msg(16)));
    RunSnoc(map[], Puts(16), DoPut(Msg(16)));
    HiddenCannot(Put(c, Msg(16)), 103);
  }

  lemma HiddenCannot(c: Cache, id: nat)
    requires Sound(c) && id in c.order && !Found(c.table, id)
    ensures !CanGet(c, id) && !Sound(Get(c, id).0)
  {
    hide Sound, Found, Get;
    ListedStored(c, id);
    GetSoundExactly(c, id);
  }

  // ----- The experiment: gets in a row

  /** The cached ids and the two counters. */
  datatype Tally = Tally(order: seq<nat>, hits: nat, misses: nat)

  function Ask(disk: map<nat, Message>, t: Tally, id: nat): Tally {
    var order := if id in disk then Touch(CAPACITY, t.order, id) else t.order;
    if id in t.order then Tally(order, t.hits + 1, t.misses) else Tally(order, t.hits, t.misses + 1)
  }

  /** From the ids cached at the start, with the counters at zero. */
  function AskAll(disk: map<nat, Message>, start: seq<nat>, ids: seq<nat>): Tally {
    if ids == [] then Tally(start, 0, 0)
    else Ask(disk, AskAll(disk, start, ids[..|ids| - 1]), ids[|ids| - 1])
  }

  lemma AskAllSnoc(disk: map<nat, Message>, start: seq<nat>, ids: seq<nat>, n: nat)
    requires n < |ids|
    ensures AskAll(disk, start, ids[..n + 1]) == Ask(disk, AskAll(disk, start, ids[..n]), ids[n])
  {
    hide Ask;
    assert ids[..n + 1][..n] == ids[..n];
  }

  ghost function TallyOf(c: Cache): Tally {
    Tally(c.order, c.hits, c.misses)
  }

  /** One get among ids that do not collide. */
  lemma AskStep(c: Cache, id: nat, universe: set<nat>)
    requires Ok(c) && CollisionFree(universe) && Within(c.order, universe) && id in universe
    ensures CanGet(c, id) && SafeToGet(c, id)
    ensures var c' := Get(c, id).0;
            Ok(c') && Within(c'.order, universe) && c'.disk == c.disk && TallyOf(c') == Ask(c.disk, TallyOf(c), id)
  {
    hide Sound, Get, CollisionFree, Within, CanGet, SafeToGet, AllFound, Touch, NotHidden;
    SafeWithoutCollisions(c, DoGet(id), universe);
    OrderWithin(c, DoGet(id), universe);
    DoOk(c, DoGet(id));
    OkNotHidden(c, id);
    GetAnswer(c, id);
    GetEffect(c, id);
  }

  ghost function Numbered(messages: nat): (ids: set<nat>)
    ensures forall id :: id in ids <==> 1 <= id <= messages
  {
    if messages == 0 then {} else Numbered(messages - 1) + {messages}
  }

  lemma DifferentHomes(a: nat, b: nat)
    requires 1 <= a <= SIZE && 1 <= b <= SIZE && a != b
    ensures Slot(a, 0) != Slot(b, 0)
  {
    hide Slot;
    HomeOf(a);
    HomeOf(b);
  }

  lemma HomeOf(id: nat)
    requires 1 <= id <= SIZE
    ensures Slot(id, 0) == if id == SIZE then 0 else id
  {
    SlotIs(id, 0);
  }

  /** `rand() % messages + 1` for up to 103 messages. */
  lemma NumberedDoNotCollide(messages: nat)
    requires messages <= SIZE
    ensures CollisionFree(Numbered(messages))
  {
    hide Slot, Numbered;
    forall a, b | a in Numbered(messages) && b in Numbered(messages) && a != b ensures Slot(a, 0) != Slot(b, 0) {
      DifferentHomes(a, b);
    }
  }

  lemma MissesSnoc(trace: seq<nat>, id: nat)
    ensures Misses(CAPACITY, trace + [id]) ==
            Misses(CAPACITY, trace) + if id in Lru(CAPACITY, trace) then 0 else 1
  {
    hide Lru;
    assert (trace + [id])[..|trace|] == trace;
  }

  /** The ids cached at the start could themselves have been accessed in that order. */
  lemma {:induction false} LruOfDistinct(s: seq<nat>)
    requires Distinct(s) && |s| <= CAPACITY
    ensures Lru(CAPACITY, s) == s && Misses(CAPACITY, s) == |s|
  {
    if s == [] {
    } else {
      hide Lru, Misses, Distinct;
      var n := |s| - 1;
      LastIsNew(s, n);
      LruOfDistinct(s[..n]);
      LruSnoc(s[..n], s[n]);
      MissesSnoc(s[..n], s[n]);
    }
  }

  /** When all ids asked for are stored, the misses are those of LRU after the ids cached at the start. */
  lemma {:induction false} AskAllStored(disk: map<nat, Message>, start: seq<nat>, ids: seq<nat>)
    requires Distinct(start) && |start| <= CAPACITY && forall i :: 0 <= i < |ids| ==> ids[i] in disk
    ensures var t := AskAll(disk, start, ids);
            t.order == Lru(CAPACITY, start + ids) && t.misses + |start| == Misses(CAPACITY, start + ids) &&
            t.hits + t.misses == |ids|
  {
    if ids == [] {
      LruOfDistinct(start);
      assert start + ids == start;
    } else {
      hide Lru, Misses, Touch, Distinct;
      var n := |ids| - 1;
      AskAllStored(disk, start, ids[..n]);
      assert start + ids == (start + ids[..n]) + [ids[n]];
      LruSnoc(start + ids[..n], ids[n]);
      MissesSnoc(start + ids[..n], ids[n]);
    }
  }

  /** From an empty cache the experiment misses at most 16 times as often as any other replacement would. */
  lemma ExperimentMisses(disk: map<nat, Message>, ids: seq<nat>, caches: seq<set<nat>>)
    requires (forall i :: 0 <= i < |ids| ==> ids[i] in disk) && Serves(CAPACITY, ids, caches)
    ensures AskAll(disk, [], ids).misses == Misses(CAPACITY, ids) <= PolicyMisses(ids, caches) * CAPACITY
  {
    hide AskAll, Misses, Lru, Serves, PolicyMisses;
    assert [] + ids == ids;
    AskAllStored(disk, [], ids);
    Competitive(CAPACITY, ids, caches);
  }
}
