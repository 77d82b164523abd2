/** How runs of the bounded-buffer program end: a bound on their length and the states they end in. */
module ProtocolProgress {
  import opened RingBuffer
  import opened Protocol
  import opened ProtocolSafety

  // ----- Every run is finite

  /** More than the actions a thread can take before it waits, exits or broadcasts. */
  function Rank(pc: PC): nat {
    match pc
    case PWait(_) => 0
    case PDone => 0
    case PBroadcast => 1
    case PExitUnlock => 1
    case PPut(_) => 2
    case PTest(_) => 3
    case PWoken(_) => 4
    case PLock(_) => 4
    case PCountUnlock(_) => 5
    case PCheck => 6
    case PStart => 7
    case PUnlock => 8
    case CWait => 0
    case CDone => 0
    case CBroadcast(_) => 1
    case CExitUnlock => 1
    case CGet => 2
    case CTest => 3
    case CWoken => 4
    case CLock => 4
    case CCheckUnlock => 5
    case CCheck => 6
    case CStart => 7
    case CCountUnlock => 8
    case CCount(_) => 9
    case CCountLock(_) => 10
    case CUnlock(_) => 11
  }

  const MAX_RANK: nat := 11

  ghost function Ranks(threads: seq<PC>): nat {
    if threads == [] then 0 else Ranks(threads[..|threads| - 1]) + Rank(threads[|threads| - 1])
  }

  lemma {:induction false} RanksUpdate(threads: seq<PC>, t: nat, pc: PC)
    requires t < |threads|
    ensures Ranks(threads[t := pc]) == Ranks(threads) - Rank(threads[t]) + Rank(pc)
  {
    var n := |threads| - 1;
    if t < n {
      assert threads[t := pc][..n] == threads[..n][t := pc];
      RanksUpdate(threads[..n], t, pc);
    } else {
      assert threads[t := pc][..n] == threads[..n];
    }
  }

  lemma {:induction false} RanksBound(threads: seq<PC>)
    ensures Ranks(threads) <= MAX_RANK * |threads|
  {
    if threads == [] {
    } else {
      RanksBound(threads[..|threads| - 1]);
    }
  }

  function Broadcasters(): PC -> bool { (pc: PC) => pc.Broadcasting() }

  /** Each number is put once and got once, and each put and get is followed by one broadcast. */
  ghost function BroadcastsLeft(c: Config, s: State): int {
    2 * c.limit - |s.puts| - |s.gets| + Count(s.threads, Broadcasters())
  }

  ghost function Measure(c: Config, s: State): int {
    BroadcastsLeft(c, s) * (MAX_RANK * |s.threads| + 1) + Ranks(s.threads)
  }

  lemma BroadcastsLeftStep(c: Config, s: State, e: Event)
    requires Possible(s, e)
    ensures BroadcastsLeft(c, Apply(c, s, e)) ==
            BroadcastsLeft(c, s) - if e.Act? && s.threads[e.t].Broadcasting() then 1 else 0
  {
    hide Count, WakeAll;
    CountStep(c, s, e, Broadcasters());
  }

  lemma MeasureNonNegative(c: Config, s: State)
    requires Fifo(s) && Totals(c, s)
    ensures Measure(c, s) >= 0
  {
    hide Count, Ranks, Contents;
    assert |Items(s.puts)| == |s.gets| + |Contents(s.ring)|;
    assert BroadcastsLeft(c, s) >= 0;
  }

  lemma RankStep(c: Config, s: State, t: nat)
    requires Enabled(s, t) && !s.threads[t].Broadcasting()
    ensures Rank(NextPC(c, s, s.threads[t])) < Rank(s.threads[t])
  {
  }

  /** Every action uses up measure; a spurious wakeup gives four units of it back. */
  lemma MeasureStep(c: Config, s: State, e: Event)
    requires Possible(s, e)
    ensures |Apply(c, s, e).threads| == |s.threads|
    ensures Measure(c, Apply(c, s, e)) + 1 <= Measure(c, s) + if e.Spurious? then 5 else 0
  {
    hide Count, BroadcastsLeft, Ranks, NextPC, NextProducer, NextConsumer, WakeAll;
    var s', width := Apply(c, s, e), MAX_RANK * |s.threads| + 1;
    BroadcastsLeftStep(c, s, e);
    if e.Act? && s.threads[e.t].Broadcasting() {
      RanksBound(s'.threads);
      assert (BroadcastsLeft(c, s) - 1) * width == BroadcastsLeft(c, s) * width - width;
    } else {
      RanksUpdate(s.threads, e.t, s'.threads[e.t]);
      if e.Act? { RankStep(c, s, e.t); }
    }
  }

  function SpuriousWakeups(schedule: seq<Event>): nat {
    if schedule == [] then 0
    else SpuriousWakeups(schedule[..|schedule| - 1]) + if schedule[|schedule| - 1].Spurious? then 1 else 0
  }

  /** The longest a run can be without spurious wakeups. */
  function StepBound(c: Config): nat {
    var threads := c.producers + c.consumers;
    2 * c.limit * (MAX_RANK * threads + 1) + 7 * threads
  }

  lemma {:induction false} RanksAtStart(threads: seq<PC>)
    requires forall t :: 0 <= t < |threads| ==> threads[t] in {PStart, CStart}
    ensures Ranks(threads) == 7 * |threads|
  {
    if threads == [] {
    } else {
      RanksAtStart(threads[..|threads| - 1]);
    }
  }

  lemma {:induction false} MeasureBoundsRun(c: Config, schedule: seq<Event>)
    requires c.Valid() && Run(c, schedule).Some?
    ensures |schedule| + Measure(c, Run(c, schedule).value) <= StepBound(c) + 5 * SpuriousWakeups(schedule)
  {
    if schedule == [] {
      var s := InitialState(c);
      RanksAtStart(s.threads);
      NoHandsAtStart(c, Broadcasters());
    } else {
      hide Measure, StepBound, Apply, Possible;
      var n := |schedule| - 1;
      MeasureBoundsRun(c, schedule[..n]);
      MeasureStep(c, Run(c, schedule[..n]).value, schedule[n]);
    }
  }

  /**
   Whatever the scheduler does, a run has at most StepBound actions plus five for each spurious wakeup;
   without spurious wakeups every run ends.
   */
  lemma RunsAreBounded(c: Config, schedule: seq<Event>)
    requires c.Valid() && Run(c, schedule).Some?
    ensures |schedule| <= StepBound(c) + 5 * SpuriousWakeups(schedule)
  {
    MeasureBoundsRun(c, schedule);
    InvRun(c, schedule);
    MeasureNonNegative(c, Run(c, schedule).value);
  }

  // ----- Where runs end

  /** No thread can act. */
  ghost predicate Stuck(s: State) {
    forall t :: 0 <= t < |s.threads| ==> !Enabled(s, t)
  }

  /** Every producer has exited and every consumer has exited or waits in pget. */
  ghost predicate AtRest(c: Config, s: State) {
    |s.threads| == c.producers + c.consumers &&
    (forall t :: 0 <= t < c.producers ==> s.threads[t].PDone?) &&
    (forall t :: c.producers <= t < |s.threads| ==> s.threads[t].CDone? || s.threads[t].CWait?)
  }

  /** The two locks are never nested, so a lock holder can always act. */
  lemma HoldersAct(c: Config, s: State)
    requires Inv(c, s) && Stuck(s)
    ensures s.mutex.None? && s.countLock.None?
    ensures forall t :: 0 <= t < |s.threads| ==> s.threads[t].Waiting() || s.threads[t].Exited()
  {
    assert s.mutex.Some? ==> Enabled(s, s.mutex.value);
    assert s.countLock.Some? ==> Enabled(s, s.countLock.value);
    forall t | 0 <= t < |s.threads| ensures s.threads[t].Waiting() || s.threads[t].Exited() {
      assert !Enabled(s, t);
    }
  }

  /** When nobody has a number in hand, the numbers not yet counted are the ones in the ring. */
  lemma EmptyHands(c: Config, s: State)
    requires Inv(c, s)
    requires forall t :: 0 <= t < |s.threads| ==> !s.threads[t].Carries(Got)
    ensures s.totalConsumed == |s.gets| && |s.puts| == s.totalConsumed + s.ring.size
  {
    CountBounds(s.threads, Carrying(Got));
    assert |Items(s.puts)| == |s.gets| + |Contents(s.ring)|;
  }

  /** A producer would wait on a full ring, which no consumer, being out, has emptied. */
  lemma NoProducerStuck(c: Config, s: State, t: nat)
    requires c.Valid() && Inv(c, s) && Stuck(s) && t < |s.threads|
    ensures !s.threads[t].PWait?
  {
    HoldersAct(c, s);
    EmptyHands(c, s);
    var consumer := c.producers;
    assert s.threads[consumer].CDone? || s.threads[consumer].CWait?;
    CountBounds(s.threads, Carrying(Claimed));
  }

  /**
   The states in which a run can end are exactly the reachable ones at rest, and there the work is done:
   all numbers 1..limit were claimed, delivered and counted, the ring is empty, and at least one
   consumer has exited.
   */
  lemma StuckStates(c: Config, s: State)
    requires c.Valid() && Reachable(c, s)
    ensures Stuck(s) <==> AtRest(c, s)
    ensures Stuck(s) ==>
              s.totalProduced == s.totalConsumed == c.limit && Contents(s.ring) == [] &&
              (forall v :: multiset(s.counted)[v] == if 1 <= v <= c.limit then 1 else 0) &&
              exists t :: c.producers <= t < |s.threads| && s.threads[t].CDone?
  {
    InvReachable(c, s);
    if Stuck(s) {
      HoldersAct(c, s);
      forall t | 0 <= t < |s.threads| ensures !s.threads[t].PWait? { NoProducerStuck(c, s, t); }
      AtRestIsFinished(c, s);
    }
  }

  lemma AtRestIsFinished(c: Config, s: State)
    requires c.Valid() && Inv(c, s) && AtRest(c, s) && s.mutex.None?
    ensures s.totalProduced == s.totalConsumed == c.limit && Contents(s.ring) == []
    ensures forall v :: multiset(s.counted)[v] == if 1 <= v <= c.limit then 1 else 0
    ensures exists t :: c.producers <= t < |s.threads| && s.threads[t].CDone?
  {
    hide Count, Contents, Items, Exclusion, Room, Fifo, Overtaking, Known, Fresh, OwnOrder;
    AllDelivered(c, s);
    forall v: int ensures multiset(s.counted)[v] == if 1 <= v <= c.limit then 1 else 0 {
      CountedOnce(c, s, v);
    }
    var t :| 0 <= t < |s.threads| && Leaving(s.threads[t]);
    assert s.threads[t].CDone?;
  }

  /** At rest all numbers have been claimed, none is in hand and none in the ring. */
  lemma AllDelivered(c: Config, s: State)
    requires c.Valid() && Inv(c, s) && AtRest(c, s) && s.mutex.None?
    ensures s.totalProduced == s.totalConsumed == c.limit && Contents(s.ring) == [] && Items(s.puts) == s.gets
  {
    hide Count, Items, Exclusion, Room, Ledger, Overtaking, Known, Fresh, OwnOrder, SomeoneLeaves;
    EmptyHands(c, s);
    CountBounds(s.threads, Carrying(Claimed));
    assert s.threads[0].PDone?;
    assert s.threads[c.producers].CDone? || s.threads[c.producers].CWait?;
    assert s.totalProduced == c.limit && s.ring.size == 0;
    assert Contents(s.ring) == [];
  }

  lemma CountedOnce(c: Config, s: State, v: int)
    requires Ledger(s) && AtRest(c, s) && Items(s.puts) == s.gets
    ensures multiset(s.counted)[v] == if 1 <= v <= s.totalProduced then 1 else 0
  {
    hide Count, Items;
    assert LedgerOf(s, v);
    CountBounds(s.threads, Having(Claimed, v));
    CountBounds(s.threads, Having(Got, v));
  }
}
