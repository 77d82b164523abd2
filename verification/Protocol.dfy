/**
 The bounded-buffer program of week7 as a transition system: any number of producers and consumers
 (week7/pqueuepmain.c) over one monitor (week7/pqueuep.c), with one program counter per thread.

 A step is one atomic action of one thread: acquiring or releasing a lock, one test, one ring
 operation, one broadcast, or one critical-section update of a counter. `pthread_cond_wait`
 follows POSIX.1-2017: it releases the mutex and starts waiting in one action, a broadcast wakes
 every waiter, a woken thread has to take the mutex again before it goes on, and a waiter may also
 wake spuriously.
 */
module Protocol {
  import opened Wrappers
  import opened RingBuffer

  /** The program fixes 2 producers, 2 consumers, a capacity of 15 and a limit of 30. */
  datatype Config = Config(producers: nat, consumers: nat, capacity: nat, limit: nat) {
    ghost predicate Valid() {
      producers >= 1 && consumers >= 1 && capacity >= 1 && limit >= 1
    }
  }

  /** Where a thread is: the action named is the next one it will take. */
  datatype PC =
    // producer(): the claim of a number under gCountLock
    | PStart | PCheck | PExitUnlock | PDone | PCountUnlock(item: int)
    // pput()
    | PLock(item: int) | PTest(item: int) | PWait(item: int) | PWoken(item: int)
    | PPut(item: int) | PBroadcast | PUnlock
    // consumer(): the test of totalConsumed under gCountLock
    | CStart | CCheck | CExitUnlock | CDone | CCheckUnlock
    // pget()
    | CLock | CTest | CWait | CWoken | CGet | CBroadcast(item: int) | CUnlock(item: int)
    // consumer(): the count of the item under gCountLock
    | CCountLock(item: int) | CCount(item: int) | CCountUnlock
  {
    predicate Producer() {
      PStart? || PCheck? || PExitUnlock? || PDone? || PCountUnlock? || PLock? || PTest? || PWait? ||
      PWoken? || PPut? || PBroadcast? || PUnlock?
    }

    predicate InPget() {
      CLock? || CTest? || CWait? || CWoken? || CGet? || CBroadcast? || CUnlock?
    }

    predicate HoldsMutex() {
      PTest? || PPut? || PBroadcast? || PUnlock? || CTest? || CGet? || CBroadcast? || CUnlock?
    }

    predicate HoldsCountLock() {
      PCheck? || PExitUnlock? || PCountUnlock? || CCheck? || CExitUnlock? || CCheckUnlock? || CCount? || CCountUnlock?
    }

    predicate WantsMutex() { PLock? || PWoken? || CLock? || CWoken? }

    predicate WantsCountLock() { PStart? || CStart? || CCountLock? }

    predicate Waiting() { PWait? || CWait? }

    predicate Exited() { PDone? || CDone? }

    predicate Broadcasting() { PBroadcast? || CBroadcast? }

    /** Whether the thread has a number in hand: claimed and not yet put, or got and not yet counted. */
    predicate Carries(hand: Hand) {
      match hand
      case Claimed => PCountUnlock? || PLock? || PTest? || PWait? || PWoken? || PPut?
      case Got => CBroadcast? || CUnlock? || CCountLock? || CCount?
    }

    predicate Has(hand: Hand, v: int) { Carries(hand) && item == v }

    /** A waiter becomes a thread that wants the mutex again. */
    function Wake(): (woken: PC)
      ensures !woken.Waiting() && (!Waiting() ==> woken == this)
      ensures woken.Producer() == Producer()
      ensures woken.HoldsMutex() == HoldsMutex() && woken.HoldsCountLock() == HoldsCountLock()
      ensures forall hand: Hand :: woken.Carries(hand) == Carries(hand) && (Carries(hand) ==> woken.item == item)
    {
      if PWait? then PWoken(item) else if CWait? then CWoken else this
    }
  }

  datatype Hand = Claimed | Got

  datatype PutRecord = PutRecord(producer: nat, item: int)

  /**
   The shared state and every thread's program counter. Threads 0..producers-1 are the producers.
   `puts`, `gets` and `counted` are histories: the calls of queue_put in order, the values
   returned by queue_get in order, and the items counted in order. No step reads them.
   */
  datatype State = State(
    threads: seq<PC>,
    mutex: Option<nat>,
    countLock: Option<nat>,
    ring: Ring,
    totalProduced: nat,
    totalConsumed: nat,
    puts: seq<PutRecord>,
    gets: seq<int>,
    counted: seq<int>)

  function InitialState(c: Config): State {
    State(seq(c.producers, i => PStart) + seq(c.consumers, i => CStart), None, None,
          RingFields(seq(c.capacity, i => 0), 0, 0, 0), 0, 0, [], [], [])
  }

  /** Whether thread `t` can take its next action: a lock has to be free, a waiter has to be woken. */
  predicate Enabled(s: State, t: nat) {
    t < |s.threads| &&
    var pc := s.threads[t];
    !pc.Waiting() && !pc.Exited() &&
    (pc.WantsMutex() ==> s.mutex.None?) &&
    (pc.WantsCountLock() ==> s.countLock.None?)
  }

  /** A broadcast: nobody waits afterwards, and who was not waiting stays where it is. */
  function WakeAll(threads: seq<PC>): (woken: seq<PC>)
    ensures |woken| == |threads|
    ensures forall i :: 0 <= i < |threads| ==>
              !woken[i].Waiting() && (!threads[i].Waiting() ==> woken[i] == threads[i])
  {
    seq(|threads|, i requires 0 <= i < |threads| => threads[i].Wake())
  }

  /** Where the action of a producer at `pc` takes it. */
  function NextProducer(c: Config, s: State, pc: PC): (next: PC)
    requires pc.Producer() && !pc.Waiting() && !pc.Exited()
    ensures next.Producer() && !next.Carries(Got)
    ensures next.HoldsMutex() <==> pc.WantsMutex() || (pc.HoldsMutex() && !ReleasesMutex(s, pc))
    ensures next.HoldsCountLock() <==> pc.WantsCountLock() || (pc.HoldsCountLock() && !ReleasesCountLock(pc))
    ensures next.Carries(Claimed) <==> Claims(c, s, pc) || (pc.Carries(Claimed) && !pc.PPut?)
    ensures next.Carries(Claimed) ==> next.item == if pc.Carries(Claimed) then pc.item else s.totalProduced + 1
  {
    match pc
    case PStart => PCheck
    case PCheck =>
      if s.totalProduced >= c.limit then PExitUnlock else PCountUnlock(s.totalProduced + 1)
    case PExitUnlock => PDone
    case PCountUnlock(item) => PLock(item)
    case PLock(item) => PTest(item)
    case PTest(item) => if Full(s.ring) then PWait(item) else PPut(item)
    case PWoken(item) => PTest(item)
    case PPut(_) => PBroadcast
    case PBroadcast => PUnlock
    case PUnlock => PStart
  }

  /** Where the action of a consumer inside pget() takes it. */
  function NextInPget(s: State, pc: PC): (next: PC)
    requires pc.InPget() && !pc.Waiting()
    ensures !next.Producer() && !next.Carries(Claimed) && !next.HoldsCountLock()
    ensures next.HoldsMutex() <==> pc.WantsMutex() || (pc.HoldsMutex() && !ReleasesMutex(s, pc))
    ensures next.Carries(Got) <==> pc.CGet? || pc.Carries(Got)
    ensures next.Carries(Got) ==> next.item == if pc.Carries(Got) then pc.item else Get(s.ring).1
  {
    match pc
    case CLock => CTest
    case CTest => if Empty(s.ring) then CWait else CGet
    case CWoken => CTest
    case CGet => CBroadcast(Get(s.ring).1)
    case CBroadcast(item) => CUnlock(item)
    case CUnlock(item) => CCountLock(item)
  }

  /** Where the action of a consumer at `pc` takes it. */
  function NextConsumer(c: Config, s: State, pc: PC): (next: PC)
    requires !pc.Producer() && !pc.Waiting() && !pc.Exited()
    ensures !next.Producer() && !next.Carries(Claimed)
    ensures next.HoldsMutex() <==> pc.WantsMutex() || (pc.HoldsMutex() && !ReleasesMutex(s, pc))
    ensures next.HoldsCountLock() <==> pc.WantsCountLock() || (pc.HoldsCountLock() && !ReleasesCountLock(pc))
    ensures next.Carries(Got) <==> pc.CGet? || (pc.Carries(Got) && !pc.CCount?)
    ensures next.Carries(Got) ==> next.item == if pc.Carries(Got) then pc.item else Get(s.ring).1
  {
    if pc.InPget() then NextInPget(s, pc)
    else
      match pc
      case CStart => CCheck
      case CCheck => if s.totalConsumed >= c.limit then CExitUnlock else CCheckUnlock
      case CExitUnlock => CDone
      case CCheckUnlock => CLock
      case CCountLock(item) => CCount(item)
      case CCount(_) => CCountUnlock
      case CCountUnlock => CStart
  }

  /** Where the action of a thread at `pc` takes it. */
  function NextPC(c: Config, s: State, pc: PC): (next: PC)
    requires !pc.Waiting() && !pc.Exited()
    ensures next.Producer() == pc.Producer()
    ensures next.HoldsMutex() <==> pc.WantsMutex() || (pc.HoldsMutex() && !ReleasesMutex(s, pc))
    ensures next.HoldsCountLock() <==> pc.WantsCountLock() || (pc.HoldsCountLock() && !ReleasesCountLock(pc))
    ensures next.Carries(Claimed) <==> Claims(c, s, pc) || (pc.Carries(Claimed) && !pc.PPut?)
    ensures next.Carries(Claimed) ==> next.item == if pc.Carries(Claimed) then pc.item else s.totalProduced + 1
    ensures next.Carries(Got) <==> pc.CGet? || (pc.Carries(Got) && !pc.CCount?)
    ensures next.Carries(Got) ==> next.item == if pc.Carries(Got) then pc.item else Get(s.ring).1
  {
    if pc.Producer() then NextProducer(c, s, pc) else NextConsumer(c, s, pc)
  }

  /** The mutex is given up by the unlock calls and by pthread_cond_wait. */
  predicate ReleasesMutex(s: State, pc: PC) {
    pc.PUnlock? || pc.CUnlock? || (pc.PTest? && Full(s.ring)) || (pc.CTest? && Empty(s.ring))
  }

  predicate ReleasesCountLock(pc: PC) {
    pc.PExitUnlock? || pc.PCountUnlock? || pc.CExitUnlock? || pc.CCheckUnlock? || pc.CCountUnlock?
  }

  /** The number is claimed in the same critical section that found the limit not reached. */
  predicate Claims(c: Config, s: State, pc: PC) { pc.PCheck? && s.totalProduced < c.limit }

  /** The action of thread `t`. */
  function Exec(c: Config, s: State, t: nat): State
    requires Enabled(s, t)
  {
    var pc := s.threads[t];
    State(
      (if pc.Broadcasting() then WakeAll(s.threads) else s.threads)[t := NextPC(c, s, pc)],
      if pc.WantsMutex() then Some(t) else if ReleasesMutex(s, pc) then None else s.mutex,
      if pc.WantsCountLock() then Some(t) else if ReleasesCountLock(pc) then None else s.countLock,
      if pc.PPut? then Put(s.ring, pc.item) else if pc.CGet? then Get(s.ring).0 else s.ring,
      if Claims(c, s, pc) then s.totalProduced + 1 else s.totalProduced,
      if pc.CCount? then s.totalConsumed + 1 else s.totalConsumed,
      if pc.PPut? then s.puts + [PutRecord(t, pc.item)] else s.puts,
      if pc.CGet? then s.gets + [Get(s.ring).1] else s.gets,
      if pc.CCount? then s.counted + [pc.item] else s.counted)
  }

  /**
   After the broadcast that ends a put or a get no thread waits: every waiter has to take the mutex again,
   with the number it had in hand, and all other threads but the one that acts are where they were.
   */
  lemma BroadcastWakesAll(c: Config, s: State, t: nat, u: nat)
    requires Enabled(s, t) && s.threads[t].Broadcasting() && u < |s.threads| && u != t
    ensures var before, after := s.threads[u], Exec(c, s, t).threads[u];
            !after.Waiting() && after.Producer() == before.Producer() &&
            (before.Waiting() ==> after.WantsMutex()) && (before.PWait? ==> after.Has(Claimed, before.item)) &&
            (!before.Waiting() ==> after == before)
  {
  }

  /** What the scheduler picks: a thread's action, or a spurious wakeup of a waiter. */
  datatype Event = Act(t: nat) | Spurious(t: nat)

  predicate Possible(s: State, e: Event) {
    match e
    case Act(t) => Enabled(s, t)
    case Spurious(t) => t < |s.threads| && s.threads[t].Waiting()
  }

  function Apply(c: Config, s: State, e: Event): State
    requires Possible(s, e)
  {
    match e
    case Act(t) => Exec(c, s, t)
    case Spurious(t) => s.(threads := s.threads[t := s.threads[t].Wake()])
  }

  /** The state after a schedule, or None when it picks an action that is not possible. */
  function Run(c: Config, schedule: seq<Event>): Option<State> {
    if schedule == [] then Some(InitialState(c))
    else
      var n := |schedule| - 1;
      match Run(c, schedule[..n])
      case None => None
      case Some(s) => if Possible(s, schedule[n]) then Some(Apply(c, s, schedule[n])) else None
  }

  ghost predicate Reachable(c: Config, s: State) {
    exists schedule :: Run(c, schedule) == Some(s)
  }

  lemma RunSnoc(c: Config, schedule: seq<Event>, s: State, e: Event)
    requires Run(c, schedule) == Some(s) && Possible(s, e)
    ensures Run(c, schedule + [e]) == Some(Apply(c, s, e))
  {
    assert (schedule + [e])[..|schedule|] == schedule;
  }

  lemma ReachableStep(c: Config, s: State, e: Event)
    requires Reachable(c, s) && Possible(s, e)
    ensures Reachable(c, Apply(c, s, e))
  {
    var schedule :| Run(c, schedule) == Some(s);
    RunSnoc(c, schedule, s, e);
  }
}
