/** What holds in every reachable state of the bounded-buffer program, spurious wakeups included. */
module ProtocolSafety {
  import opened Wrappers
  import opened RingBuffer
  import opened Protocol

  // ----- Counting what the threads hold

  function Items(puts: seq<PutRecord>): (items: seq<int>) {
    seq(|puts|, i requires 0 <= i < |puts| => puts[i].item)
  }

  /** How many threads are where `f` says. */
  ghost function Count(threads: seq<PC>, f: PC -> bool): nat {
    if threads == [] then 0
    else Count(threads[..|threads| - 1], f) + (if f(threads[|threads| - 1]) then 1 else 0)
  }

  function Carrying(hand: Hand): PC -> bool { (pc: PC) => pc.Carries(hand) }

  function Having(hand: Hand, v: int): PC -> bool { (pc: PC) => pc.Has(hand, v) }

  lemma {:induction false} CountUpdate(threads: seq<PC>, f: PC -> bool, t: nat, pc: PC)
    requires t < |threads|
    ensures Count(threads[t := pc], f) ==
            Count(threads, f) - (if f(threads[t]) then 1 else 0) + (if f(pc) then 1 else 0)
  {
    var n := |threads| - 1;
    if t < n {
      assert threads[t := pc][..n] == threads[..n][t := pc];
      CountUpdate(threads[..n], f, t, pc);
    } else {
      assert threads[t := pc][..n] == threads[..n];
    }
  }

  lemma {:induction false} CountWakeAll(threads: seq<PC>, f: PC -> bool)
    requires forall pc: PC :: f(pc.Wake()) == f(pc)
    ensures Count(WakeAll(threads), f) == Count(threads, f)
  {
    if threads == [] {
    } else {
      var n := |threads| - 1;
      assert WakeAll(threads)[..n] == WakeAll(threads[..n]);
      CountWakeAll(threads[..n], f);
    }
  }

  /** A count is at most the number of threads, and positive exactly when some thread counts. */
  lemma {:induction false} CountBounds(threads: seq<PC>, f: PC -> bool)
    ensures Count(threads, f) <= |threads|
    ensures Count(threads, f) > 0 <==> exists t :: 0 <= t < |threads| && f(threads[t])
  {
    var n := |threads| - 1;
    if n < 0 {
    } else {
      CountBounds(threads[..n], f);
      if t :| 0 <= t < |threads| && f(threads[t]) {
        assert t < n ==> threads[..n][t] == threads[t];
      }
    }
  }

  /** Only producers carry claimed numbers, one each. */
  lemma {:induction false} ClaimedAtMost(threads: seq<PC>, producers: nat)
    requires forall t :: 0 <= t < |threads| && threads[t].Producer() ==> t < producers
    ensures Count(threads, Carrying(Claimed)) <= producers
  {
    if |threads| > producers {
      ClaimedAtMost(threads[..|threads| - 1], producers);
    } else {
      CountBounds(threads, Carrying(Claimed));
    }
  }

  // ----- The invariant, one concern at a time

  /** Producers run producer code, consumers run consumer code, the buffer keeps its capacity. */
  ghost predicate Shape(c: Config, s: State) {
    |s.threads| == c.producers + c.consumers &&
    (forall t :: 0 <= t < |s.threads| ==> (s.threads[t].Producer() <==> t < c.producers)) &&
    |s.ring.data| == c.capacity
  }

  /** Mutual exclusion: each lock is held by exactly the thread inside its critical section. */
  ghost predicate Exclusion(s: State) {
    (s.mutex.Some? ==> s.mutex.value < |s.threads|) &&
    (s.countLock.Some? ==> s.countLock.value < |s.threads|) &&
    (forall t :: 0 <= t < |s.threads| ==> (s.threads[t].HoldsMutex() <==> s.mutex == Some(t))) &&
    (forall t :: 0 <= t < |s.threads| ==> (s.threads[t].HoldsCountLock() <==> s.countLock == Some(t)))
  }

  /** queue_put is only reached with room in the ring, queue_get only with an item in it. */
  ghost predicate Room(s: State) {
    forall t :: 0 <= t < |s.threads| ==>
      (s.threads[t].PPut? ==> !Full(s.ring)) && (s.threads[t].CGet? ==> !Empty(s.ring))
  }

  /** The ring is a first-in-first-out queue: what was got, then what is stored, is what was put. */
  ghost predicate Fifo(s: State) {
    Items(s.puts) == s.gets + Contents(s.ring)
  }

  /** Number `v` is put or in a producer's hand once it is claimed; counted or in a hand once it is got. */
  ghost predicate LedgerOf(s: State, v: int) {
    ClaimedOf(s, v) && GotOf(s, v)
  }

  ghost predicate ClaimedOf(s: State, v: int) {
    multiset(Items(s.puts))[v] + Count(s.threads, Having(Claimed, v)) ==
    if 1 <= v <= s.totalProduced then 1 else 0
  }

  ghost predicate GotOf(s: State, v: int) {
    multiset(s.counted)[v] + Count(s.threads, Having(Got, v)) == multiset(s.gets)[v]
  }

  ghost predicate Ledger(s: State) {
    forall v: int :: LedgerOf(s, v)
  }

  /** The two counters count: claimed numbers are put or in hand, counted numbers are got and gone. */
  ghost predicate Totals(c: Config, s: State) {
    |s.puts| + Count(s.threads, Carrying(Claimed)) == s.totalProduced <= c.limit &&
    |s.counted| + Count(s.threads, Carrying(Got)) == |s.gets| &&
    |s.counted| == s.totalConsumed
  }

  /** The p-th number put (p from 1) is at most p + producers - 1. */
  ghost predicate Overtaking(c: Config, s: State) {
    forall i :: 0 <= i < |s.puts| ==> s.puts[i].item <= (i + 1) + c.producers - 1
  }

  /** Only numbers already claimed are put or carried to a put. */
  ghost predicate Known(s: State) {
    (forall i :: 0 <= i < |s.puts| ==> s.puts[i].item <= s.totalProduced) &&
    (forall t :: 0 <= t < |s.threads| && s.threads[t].Carries(Claimed) ==> s.threads[t].item <= s.totalProduced)
  }

  /** What a producer carries is larger than what it has put. */
  ghost predicate Fresh(s: State) {
    forall i :: 0 <= i < |s.puts| && s.puts[i].producer < |s.threads| ==>
      (s.threads[s.puts[i].producer].Carries(Claimed) ==> s.puts[i].item < s.threads[s.puts[i].producer].item)
  }

  /** A producer's numbers enter the ring in increasing order. */
  ghost predicate OwnOrder(s: State) {
    forall i, j :: 0 <= i < j < |s.puts| && s.puts[i].producer == s.puts[j].producer ==>
      s.puts[i].item < s.puts[j].item
  }

  ghost predicate AtPutBroadcast(s: State) {
    s.mutex.Some? && s.mutex.value < |s.threads| && s.threads[s.mutex.value].PBroadcast?
  }

  ghost predicate AtGetBroadcast(s: State) {
    s.mutex.Some? && s.mutex.value < |s.threads| && s.threads[s.mutex.value].CBroadcast?
  }

  /** A thread waits only while what it waits for is absent, or a broadcast is on its way. */
  ghost predicate MayWait(s: State, t: nat)
    requires t < |s.threads|
  {
    (s.threads[t].CWait? ==> Empty(s.ring) || AtPutBroadcast(s)) &&
    (s.threads[t].PWait? ==> Full(s.ring) || AtGetBroadcast(s))
  }

  ghost predicate NoLostWakeup(s: State) {
    forall t {:trigger s.threads[t]} :: 0 <= t < |s.threads| ==> MayWait(s, t)
  }

  /** A thread leaves only after its counter has reached the limit. */
  ghost predicate ExitsOnLimit(c: Config, s: State) {
    forall t :: 0 <= t < |s.threads| ==>
      (s.threads[t].PExitUnlock? || s.threads[t].PDone? ==> s.totalProduced >= c.limit) &&
      (s.threads[t].CExitUnlock? || s.threads[t].CDone? ==> s.totalConsumed >= c.limit)
  }

  predicate Leaving(pc: PC) {
    pc.CCountUnlock? || pc.CStart? || pc.CCheck? || pc.CExitUnlock? || pc.CDone?
  }

  /** Once everything is counted, some consumer is on its way out or out. */
  ghost predicate SomeoneLeaves(c: Config, s: State) {
    s.totalConsumed >= c.limit ==> exists t :: 0 <= t < |s.threads| && Leaving(s.threads[t])
  }

  ghost predicate Inv(c: Config, s: State) {
    Shape(c, s) && Exclusion(s) && Room(s) && Fifo(s) && Ledger(s) && Totals(c, s) && Overtaking(c, s) &&
    Known(s) && Fresh(s) && OwnOrder(s) &&
    NoLostWakeup(s) && ExitsOnLimit(c, s) && SomeoneLeaves(c, s)
  }

  // ----- Each concern is kept by every event

  lemma ShapeStep(c: Config, s: State, e: Event)
    requires Shape(c, s) && Possible(s, e)
    ensures Shape(c, Apply(c, s, e))
  {
  }

  lemma ExclusionStep(c: Config, s: State, e: Event)
    requires Exclusion(s) && Possible(s, e)
    ensures Exclusion(Apply(c, s, e))
  {
    hide NextPC, NextProducer, NextConsumer, Put, Get;
  }

  lemma RoomStep(c: Config, s: State, e: Event)
    requires Exclusion(s) && Room(s) && Possible(s, e)
    ensures Room(Apply(c, s, e))
  {
  }

  lemma FifoStep(c: Config, s: State, e: Event)
    requires Room(s) && Fifo(s) && Possible(s, e)
    ensures Fifo(Apply(c, s, e))
  {
    hide NextPC, NextProducer, NextConsumer, WakeAll, Items, Contents, Put, Get;
    var pc, s' := s.threads[e.t], Apply(c, s, e);
    if e.Act? && pc.PPut? {
      PutAppends(s.ring, pc.item);
      ItemsStep(c, s, e);
    } else if e.Act? && pc.CGet? {
      GetTakesOldest(s.ring);
    }
  }

  /** An event moves one thread; wakeups change no count of hands. */
  lemma CountStep(c: Config, s: State, e: Event, f: PC -> bool)
    requires Possible(s, e) && forall pc: PC :: f(pc.Wake()) == f(pc)
    ensures Count(Apply(c, s, e).threads, f) == Count(s.threads, f) -
            (if f(s.threads[e.t]) then 1 else 0) + (if f(Apply(c, s, e).threads[e.t]) then 1 else 0)
  {
    var pc' := Apply(c, s, e).threads[e.t];
    CountUpdate(s.threads, f, e.t, pc');
    if e.Act? && s.threads[e.t].Broadcasting() {
      CountUpdate(WakeAll(s.threads), f, e.t, pc');
      CountWakeAll(s.threads, f);
    }
  }

  lemma ItemsStep(c: Config, s: State, e: Event)
    requires Possible(s, e)
    ensures Items(Apply(c, s, e).puts) ==
            if e.Act? && s.threads[e.t].PPut? then Items(s.puts) + [s.threads[e.t].item] else Items(s.puts)
  {
    assert e.Act? && s.threads[e.t].PPut? ==>
      Items(s.puts + [PutRecord(e.t, s.threads[e.t].item)]) == Items(s.puts) + [s.threads[e.t].item];
  }

  lemma ClaimedStep(c: Config, s: State, e: Event, v: int)
    requires ClaimedOf(s, v) && Possible(s, e)
    ensures ClaimedOf(Apply(c, s, e), v)
  {
    hide Count, NextPC, NextProducer, NextConsumer, WakeAll;
    CountStep(c, s, e, Having(Claimed, v));
    ItemsStep(c, s, e);
  }

  lemma SnocCount(s: seq<int>, x: int, v: int)
    ensures multiset(s + [x])[v] == multiset(s)[v] + if x == v then 1 else 0
  {
  }

  lemma GotStep(c: Config, s: State, e: Event, v: int)
    requires GotOf(s, v) && Possible(s, e)
    ensures GotOf(Apply(c, s, e), v)
  {
    hide Count, NextPC, NextProducer, NextConsumer, WakeAll, Put, Get;
    CountStep(c, s, e, Having(Got, v));
    if e.Act? && s.threads[e.t].CGet? {
      SnocCount(s.gets, Get(s.ring).1, v);
    } else if e.Act? && s.threads[e.t].CCount? {
      SnocCount(s.counted, s.threads[e.t].item, v);
    }
  }

  lemma TotalsStep(c: Config, s: State, e: Event)
    requires Totals(c, s) && Possible(s, e)
    ensures Totals(c, Apply(c, s, e))
  {
    hide Count, NextPC, NextProducer, NextConsumer, WakeAll;
    CountStep(c, s, e, Carrying(Claimed));
    CountStep(c, s, e, Carrying(Got));
  }

  lemma OvertakingStep(c: Config, s: State, e: Event)
    requires Shape(c, s) && Totals(c, s) && Overtaking(c, s) && Known(s) && Possible(s, e)
    ensures Overtaking(c, Apply(c, s, e))
  {
    ClaimedAtMost(s.threads, c.producers);
  }

  lemma KnownStep(c: Config, s: State, e: Event)
    requires Known(s) && Possible(s, e)
    ensures Known(Apply(c, s, e))
  {
  }

  lemma FreshStep(c: Config, s: State, e: Event)
    requires Known(s) && Fresh(s) && Possible(s, e)
    ensures Fresh(Apply(c, s, e))
  {
  }

  lemma OwnOrderStep(c: Config, s: State, e: Event)
    requires Fresh(s) && OwnOrder(s) && Possible(s, e)
    ensures OwnOrder(Apply(c, s, e))
  {
  }

  lemma NoLostWakeupStep(c: Config, s: State, e: Event)
    requires Shape(c, s) && Exclusion(s) && NoLostWakeup(s) && Possible(s, e)
    requires c.capacity >= 1
    ensures NoLostWakeup(Apply(c, s, e))
  {
    hide NextPC, Put, Get;
    forall t | 0 <= t < |s.threads| && Apply(c, s, e).threads[t].Waiting()
      ensures MayWait(Apply(c, s, e), t)
    {
      WaitsForReason(c, s, e, t);
    }
  }

  lemma WaitsForReason(c: Config, s: State, e: Event, t: nat)
    requires Shape(c, s) && Exclusion(s) && NoLostWakeup(s) && Possible(s, e)
    requires c.capacity >= 1 && t < |s.threads| && Apply(c, s, e).threads[t].Waiting()
    ensures MayWait(Apply(c, s, e), t)
  {
    var pc := s.threads[e.t];
    if e.Spurious? {
      hide NextPC, Put, Get;
      assert MayWait(s, t);
    } else if e.t != t {
      hide WakeAll;
      assert MayWait(s, t);
      assert !pc.Broadcasting();
    }
  }

  lemma ExitsOnLimitStep(c: Config, s: State, e: Event)
    requires ExitsOnLimit(c, s) && Possible(s, e)
    ensures ExitsOnLimit(c, Apply(c, s, e))
  {
    hide Put, Get, ReleasesMutex, ReleasesCountLock;
  }

  lemma SomeoneLeavesStep(c: Config, s: State, e: Event)
    requires SomeoneLeaves(c, s) && Possible(s, e)
    ensures SomeoneLeaves(c, Apply(c, s, e))
  {
    hide Put, Get, ReleasesMutex, ReleasesCountLock;
    var s' := Apply(c, s, e);
    if s'.totalConsumed >= c.limit {
      if s.totalConsumed < c.limit {
        assert Leaving(s'.threads[e.t]);
      } else {
        var t :| 0 <= t < |s.threads| && Leaving(s.threads[t]);
        assert Leaving(s'.threads[t]);
      }
    }
  }

  lemma InvStep(c: Config, s: State, e: Event)
    requires c.Valid() && Inv(c, s) && Possible(s, e)
    ensures Inv(c, Apply(c, s, e))
  {
    ShapeStep(c, s, e);
    ExclusionStep(c, s, e);
    RoomStep(c, s, e);
    FifoStep(c, s, e);
    forall v: int ensures LedgerOf(Apply(c, s, e), v) {
      assert LedgerOf(s, v);
      ClaimedStep(c, s, e, v);
      GotStep(c, s, e, v);
    }
    TotalsStep(c, s, e);
    OvertakingStep(c, s, e);
    KnownStep(c, s, e);
    FreshStep(c, s, e);
    OwnOrderStep(c, s, e);
    NoLostWakeupStep(c, s, e);
    ExitsOnLimitStep(c, s, e);
    SomeoneLeavesStep(c, s, e);
  }

  lemma NoHandsAtStart(c: Config, f: PC -> bool)
    requires !f(PStart) && !f(CStart)
    ensures Count(InitialState(c).threads, f) == 0
  {
    CountBounds(InitialState(c).threads, f);
  }

  lemma NobodyCarries(c: Config)
    requires c.Valid()
    ensures Ledger(InitialState(c)) && Totals(c, InitialState(c))
  {
    hide Count;
    var s := InitialState(c);
    NoHandsAtStart(c, Carrying(Claimed));
    NoHandsAtStart(c, Carrying(Got));
    forall v: int ensures LedgerOf(s, v) {
      NoHandsAtStart(c, Having(Claimed, v));
      NoHandsAtStart(c, Having(Got, v));
    }
  }

  lemma InvInit(c: Config)
    requires c.Valid()
    ensures Inv(c, InitialState(c))
  {
    hide Ledger, Totals;
    NobodyCarries(c);
    var s := InitialState(c);
    assert Items(s.puts) == [] == Contents(s.ring);
    assert forall t: nat :: t < |s.threads| ==> !s.threads[t].Waiting() && MayWait(s, t);
  }

  lemma {:induction false} InvRun(c: Config, schedule: seq<Event>)
    requires c.Valid() && Run(c, schedule).Some?
    ensures Inv(c, Run(c, schedule).value)
  {
    if schedule == [] {
      InvInit(c);
    } else {
      var n := |schedule| - 1;
      InvRun(c, schedule[..n]);
      InvStep(c, Run(c, schedule[..n]).value, schedule[n]);
    }
  }

  lemma InvReachable(c: Config, s: State)
    requires c.Valid() && Reachable(c, s)
    ensures Inv(c, s)
  {
    var schedule :| Run(c, schedule) == Some(s);
    InvRun(c, schedule);
  }

  // ----- What the invariant means for the program

  /** At most one thread is inside each critical section. */
  lemma MutualExclusion(c: Config, s: State, t: nat, u: nat)
    requires c.Valid() && Reachable(c, s)
    requires t < |s.threads| && u < |s.threads| && t != u
    ensures !(s.threads[t].HoldsMutex() && s.threads[u].HoldsMutex())
    ensures !(s.threads[t].HoldsCountLock() && s.threads[u].HoldsCountLock())
  {
    InvReachable(c, s);
  }

  /**
   Nothing is lost, duplicated or made up: every number claimed so far is in exactly one place, and no
   other number is anywhere.
   */
  lemma EveryNumberInOnePlace(c: Config, s: State, v: int)
    requires c.Valid() && Reachable(c, s)
    ensures Count(s.threads, Having(Claimed, v)) + multiset(Contents(s.ring))[v] +
            Count(s.threads, Having(Got, v)) + multiset(s.counted)[v] ==
            if 1 <= v <= s.totalProduced then 1 else 0
    ensures |s.counted| == s.totalConsumed <= s.totalProduced <= c.limit
  {
    InvReachable(c, s);
    assert LedgerOf(s, v);
    assert |Items(s.puts)| == |s.gets| + |Contents(s.ring)|;
  }

  /** The ring delivers in put order, and neither of its do-nothing branches is ever taken. */
  lemma DeliversInPutOrder(c: Config, s: State)
    requires c.Valid() && Reachable(c, s)
    ensures Items(s.puts) == s.gets + Contents(s.ring)
    ensures forall t: nat :: Enabled(s, t) && s.threads[t].PPut? ==> |Contents(s.ring)| < c.capacity
    ensures forall t: nat :: Enabled(s, t) && s.threads[t].CGet? ==>
              Contents(s.ring) != [] && Get(s.ring).1 == Contents(s.ring)[0]
  {
    InvReachable(c, s);
    GetTakesOldest(s.ring);
    assert |Contents(s.ring)| == s.ring.size;
  }

  /** Overtaking is bounded and a producer never overtakes itself, for the puts and for the gets. */
  lemma BoundedOvertaking(c: Config, s: State, q: nat)
    requires c.Valid() && Reachable(c, s) && 1 <= q <= |s.puts|
    ensures s.puts[q - 1].item <= q + c.producers - 1
    ensures forall i :: 0 <= i < q - 1 && s.puts[i].producer == s.puts[q - 1].producer ==>
              s.puts[i].item < s.puts[q - 1].item
    ensures |s.gets| <= |s.puts| && (q <= |s.gets| ==> s.gets[q - 1] == s.puts[q - 1].item)
  {
    hide Count, Exclusion, Room, Known, Fresh, Totals, Ledger, NoLostWakeup, ExitsOnLimit, SomeoneLeaves;
    InvReachable(c, s);
    assert q <= |s.gets| ==> Items(s.puts)[q - 1] == s.gets[q - 1];
    assert |Items(s.puts)| == |s.gets| + |Contents(s.ring)|;
  }

  /** Outside the windows between a ring operation and its broadcast, only one side can be waiting. */
  lemma OneSideWaits(c: Config, s: State, t: nat, u: nat)
    requires c.Valid() && Reachable(c, s) && !AtPutBroadcast(s) && !AtGetBroadcast(s)
    requires t < |s.threads| && u < |s.threads| && s.threads[t].PWait?
    ensures !s.threads[u].CWait?
    ensures |Contents(s.ring)| == c.capacity
  {
    InvReachable(c, s);
  }
}
