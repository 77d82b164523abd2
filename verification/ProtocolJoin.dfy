/**
 Which threads are joined in the end: any proper subset of the consumers, and nothing else, can be
 left waiting in pget for ever. All threads always join exactly when there is a single consumer.
 */
module ProtocolJoin {
  import opened Wrappers
  import opened RingBuffer
  import opened Protocol
  import opened ProtocolProgress

  /** No lock is taken and nobody waits. */
  ghost predicate Quiet(s: State) {
    s.mutex.None? && s.countLock.None? && forall t :: 0 <= t < |s.threads| ==> !s.threads[t].Waiting()
  }

  lemma Move(c: Config, s: State, t: nat) returns (s': State)
    requires Reachable(c, s) && Enabled(s, t)
    ensures s' == Exec(c, s, t) && Reachable(c, s')
  {
    ReachableStep(c, s, Act(t));
    s' := Exec(c, s, t);
  }

  // ----- What one thread does when it runs alone from one resting point to the next

  lemma ConsumerPasses(c: Config, s: State, t: nat) returns (s': State)
    requires Reachable(c, s) && s.countLock.None? && t < |s.threads|
    requires s.threads[t].CStart? && s.totalConsumed < c.limit
    ensures Reachable(c, s') && s' == s.(threads := s.threads[t := CLock])
  {
    hide Reachable;
    s' := Move(c, s, t);
    s' := Move(c, s', t);
    s' := Move(c, s', t);
  }

  lemma ConsumerExits(c: Config, s: State, t: nat) returns (s': State)
    requires Reachable(c, s) && s.countLock.None? && t < |s.threads|
    requires s.threads[t].CStart? && s.totalConsumed >= c.limit
    ensures Reachable(c, s') && s' == s.(threads := s.threads[t := CDone])
  {
    hide Reachable;
    s' := Move(c, s, t);
    s' := Move(c, s', t);
    s' := Move(c, s', t);
  }

  lemma ConsumerWaits(c: Config, s: State, t: nat) returns (s': State)
    requires Reachable(c, s) && s.mutex.None? && t < |s.threads|
    requires s.threads[t].CLock? && Empty(s.ring)
    ensures Reachable(c, s') && s' == s.(threads := s.threads[t := CWait])
  {
    hide Reachable;
    s' := Move(c, s, t);
    s' := Move(c, s', t);
  }

  lemma ProducerExits(c: Config, s: State, t: nat) returns (s': State)
    requires Reachable(c, s) && s.countLock.None? && t < |s.threads|
    requires s.threads[t].PStart? && s.totalProduced >= c.limit
    ensures Reachable(c, s') && s' == s.(threads := s.threads[t := PDone])
  {
    hide Reachable;
    s' := Move(c, s, t);
    s' := Move(c, s', t);
    s' := Move(c, s', t);
  }

  lemma ProducerClaims(c: Config, s: State, t: nat) returns (s': State)
    requires Reachable(c, s) && s.countLock.None? && t < |s.threads|
    requires s.threads[t].PStart? && s.totalProduced < c.limit
    ensures Reachable(c, s')
    ensures s' == s.(threads := s.threads[t := PLock(s.totalProduced + 1)], totalProduced := s.totalProduced + 1)
  {
    hide Reachable;
    s' := Move(c, s, t);
    s' := Move(c, s', t);
    s' := Move(c, s', t);
  }

  lemma NobodyToWake(threads: seq<PC>)
    requires forall t :: 0 <= t < |threads| ==> !threads[t].Waiting()
    ensures WakeAll(threads) == threads
  {
  }

  /** The broadcast and the unlock that end pput and pget, when nobody waits. */
  lemma BroadcastAndUnlock(c: Config, s: State, t: nat) returns (s': State)
    requires Reachable(c, s) && t < |s.threads| && s.threads[t].Broadcasting()
    requires forall u :: 0 <= u < |s.threads| ==> !s.threads[u].Waiting()
    ensures Reachable(c, s')
    ensures s' == s.(mutex := None, threads := s.threads[t :=
                       if s.threads[t].PBroadcast? then PStart else CCountLock(s.threads[t].item)])
  {
    hide Reachable;
    NobodyToWake(s.threads);
    s' := Move(c, s, t);
    s' := Move(c, s', t);
  }

  lemma ProducerPuts(c: Config, s: State, t: nat, item: int) returns (s': State)
    requires Reachable(c, s) && Quiet(s) && t < |s.threads|
    requires s.threads[t] == PLock(item) && !Full(s.ring)
    ensures Reachable(c, s')
    ensures s' == s.(threads := s.threads[t := PStart], ring := Put(s.ring, item),
                     puts := s.puts + [PutRecord(t, item)])
  {
    hide Reachable;
    s' := Move(c, s, t);
    s' := Move(c, s', t);
    s' := Move(c, s', t);
    s' := BroadcastAndUnlock(c, s', t);
  }

  lemma ConsumerGets(c: Config, s: State, t: nat) returns (s': State)
    requires Reachable(c, s) && Quiet(s) && t < |s.threads|
    requires s.threads[t].CLock? && !Empty(s.ring)
    ensures Reachable(c, s')
    ensures s' == s.(threads := s.threads[t := CCountLock(Get(s.ring).1)], ring := Get(s.ring).0,
                     gets := s.gets + [Get(s.ring).1])
  {
    hide Reachable;
    s' := Move(c, s, t);
    s' := Move(c, s', t);
    s' := Move(c, s', t);
    s' := BroadcastAndUnlock(c, s', t);
  }

  lemma ConsumerCounts(c: Config, s: State, t: nat, item: int) returns (s': State)
    requires Reachable(c, s) && s.countLock.None? && t < |s.threads|
    requires s.threads[t] == CCountLock(item)
    ensures Reachable(c, s')
    ensures s' == s.(threads := s.threads[t := CStart], totalConsumed := s.totalConsumed + 1,
                     counted := s.counted + [item])
  {
    hide Reachable;
    s' := Move(c, s, t);
    s' := Move(c, s', t);
    s' := Move(c, s', t);
  }

  // ----- A run that leaves exactly the consumers in `waiters` waiting

  predicate IsConsumer(c: Config, t: nat) { c.producers <= t < c.producers + c.consumers }

  /** Some of the consumers, but not all. */
  ghost predicate ProperSubset(c: Config, waiters: set<nat>) {
    (forall t :: t in waiters ==> IsConsumer(c, t)) && exists t :: IsConsumer(c, t) && t !in waiters
  }

  function ReadyPC(c: Config, waiters: set<nat>, t: nat): PC {
    if t < c.producers then PStart else if t in waiters then CLock else CStart
  }

  function FinalPC(c: Config, waiters: set<nat>, t: nat): PC {
    if t < c.producers then PDone else if t in waiters then CWait else CDone
  }

  /** `done` numbers have gone from producer to consumer; threads from `n` on are still at their start. */
  ghost predicate Ready(c: Config, waiters: set<nat>, s: State, n: nat, done: nat) {
    |s.threads| == c.producers + c.consumers && Quiet(s) &&
    |s.ring.data| == c.capacity && s.ring.size == 0 && s.totalProduced == s.totalConsumed == done &&
    (forall t :: 0 <= t < n && t < |s.threads| ==> s.threads[t] == ReadyPC(c, waiters, t)) &&
    (forall t :: n <= t < |s.threads| ==> s.threads[t] == if t < c.producers then PStart else CStart)
  }

  lemma ReadyAtStart(c: Config, waiters: set<nat>) returns (s: State)
    ensures Reachable(c, s) && Ready(c, waiters, s, 0, 0)
  {
    s := InitialState(c);
    assert Run(c, []) == Some(s);
  }

  /** The waiters pass the test of totalConsumed before anything has been consumed. */
  lemma {:induction false} WaitersPass(c: Config, waiters: set<nat>, n: nat) returns (s: State)
    requires c.Valid() && n <= c.producers + c.consumers
    ensures Reachable(c, s) && Ready(c, waiters, s, n, 0)
  {
    if n == 0 {
      s := ReadyAtStart(c, waiters);
    } else {
      hide Reachable;
      s := WaitersPass(c, waiters, n - 1);
      if n - 1 >= c.producers && n - 1 in waiters {
        s := ConsumerPasses(c, s, n - 1);
      }
    }
  }

  lemma OneRound(c: Config, waiters: set<nat>, leader: nat, s: State, done: nat) returns (s': State)
    requires c.Valid() && IsConsumer(c, leader) && leader !in waiters
    requires Reachable(c, s) && Ready(c, waiters, s, |s.threads|, done) && done < c.limit
    ensures Reachable(c, s') && Ready(c, waiters, s', |s'.threads|, done + 1)
  {
    hide Reachable, Exec, Enabled;
    s' := ProducerClaims(c, s, 0);
    s' := ProducerPuts(c, s', 0, done + 1);
    s' := ConsumerPasses(c, s', leader);
    s' := ConsumerGets(c, s', leader);
    s' := ConsumerCounts(c, s', leader, s'.threads[leader].item);
  }

  lemma {:induction false} AllRounds(c: Config, waiters: set<nat>, leader: nat, done: nat) returns (s: State)
    requires c.Valid() && IsConsumer(c, leader) && leader !in waiters
    requires done <= c.limit
    ensures Reachable(c, s) && Ready(c, waiters, s, |s.threads|, done)
  {
    if done == 0 {
      s := WaitersPass(c, waiters, c.producers + c.consumers);
    } else {
      s := AllRounds(c, waiters, leader, done - 1);
      s := OneRound(c, waiters, leader, s, done - 1);
    }
  }

  /** The first `n` threads have come to rest, the others are as after the last round. */
  ghost predicate Finishing(c: Config, waiters: set<nat>, s: State, n: nat) {
    |s.threads| == c.producers + c.consumers && s.mutex.None? && s.countLock.None? &&
    s.ring.size == 0 && s.totalProduced == s.totalConsumed == c.limit &&
    (forall t :: 0 <= t < n && t < |s.threads| ==> s.threads[t] == FinalPC(c, waiters, t)) &&
    (forall t :: n <= t < |s.threads| ==> s.threads[t] == ReadyPC(c, waiters, t))
  }

  lemma OneFinishes(c: Config, waiters: set<nat>, s: State, n: nat) returns (s': State)
    requires Reachable(c, s) && Finishing(c, waiters, s, n) && n < |s.threads|
    ensures Reachable(c, s') && Finishing(c, waiters, s', n + 1)
  {
    hide Reachable;
    if n < c.producers {
      s' := ProducerExits(c, s, n);
    } else if n in waiters {
      s' := ConsumerWaits(c, s, n);
    } else {
      s' := ConsumerExits(c, s, n);
    }
  }

  lemma {:induction false} AllFinish(c: Config, waiters: set<nat>, leader: nat, n: nat) returns (s: State)
    requires c.Valid() && IsConsumer(c, leader) && leader !in waiters
    requires n <= c.producers + c.consumers
    ensures Reachable(c, s) && Finishing(c, waiters, s, n)
  {
    if n == 0 {
      s := AllRounds(c, waiters, leader, c.limit);
    } else {
      s := AllFinish(c, waiters, leader, n - 1);
      s := OneFinishes(c, waiters, s, n - 1);
    }
  }

  ghost function Waiters(s: State): set<nat> {
    set t: nat | t < |s.threads| && s.threads[t].Waiting()
  }

  lemma LeftWaitingIsProper(c: Config, s: State)
    requires c.Valid() && Reachable(c, s) && Stuck(s)
    ensures ProperSubset(c, Waiters(s))
  {
    hide Reachable;
    StuckStates(c, s);
    var t :| c.producers <= t < |s.threads| && s.threads[t].CDone?;
    assert IsConsumer(c, t) && t !in Waiters(s);
  }

  lemma ProperCanBeLeft(c: Config, waiters: set<nat>) returns (s: State)
    requires c.Valid() && ProperSubset(c, waiters)
    ensures Reachable(c, s) && Stuck(s) && Waiters(s) == waiters
  {
    hide Reachable, Stuck;
    var leader :| IsConsumer(c, leader) && leader !in waiters;
    s := AllFinish(c, waiters, leader, c.producers + c.consumers);
    assert AtRest(c, s);
    StuckStates(c, s);
  }

  /**
   The sets of threads that can be left waiting for ever are exactly the proper subsets of the
   consumers.
   */
  lemma WhoIsLeftWaiting(c: Config, waiters: set<nat>)
    requires c.Valid()
    ensures (exists s :: Reachable(c, s) && Stuck(s) && Waiters(s) == waiters) <==> ProperSubset(c, waiters)
  {
    hide Reachable, Stuck, ProperSubset, Waiters;
    if s :| Reachable(c, s) && Stuck(s) && Waiters(s) == waiters { LeftWaitingIsProper(c, s); }
    if ProperSubset(c, waiters) { var s := ProperCanBeLeft(c, waiters); }
  }

  /** `main` gets past its joins in every run exactly when there is one consumer. */
  lemma AllJoinIffOneConsumer(c: Config)
    requires c.Valid()
    ensures (forall s, t :: Reachable(c, s) && Stuck(s) && 0 <= t < |s.threads| ==> s.threads[t].Exited()) <==>
            c.consumers == 1
  {
    if c.consumers == 1 {
      forall s, t | Reachable(c, s) && Stuck(s) && 0 <= t < |s.threads| ensures s.threads[t].Exited() {
        StuckStates(c, s);
      }
    } else {
      var waiters := {c.producers};
      assert IsConsumer(c, c.producers + 1);
      WhoIsLeftWaiting(c, waiters);
      var s :| Reachable(c, s) && Stuck(s) && Waiters(s) == waiters;
      assert c.producers in Waiters(s);
    }
  }
}
