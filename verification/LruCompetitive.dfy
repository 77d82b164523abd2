/**
 Competitiveness of least-recently-used replacement: with the same capacity k and both caches empty at
 first, it misses at most k times as often as any policy, even one that knows the whole sequence.
 The proof is by potential: each cached id the policy does not hold weighs its rank in the order.
 */
module LruCompetitive {
  import opened Arithmetic
  import opened LruPolicy
  import opened Members

  /**
   The caches a policy goes through: after each access it holds the id accessed and, beyond that, only
   ids it held before, `k` in all. What it drops, and when, is its own choice.
   */
  ghost predicate Serves(k: nat, trace: seq<nat>, caches: seq<set<nat>>) {
    |caches| == |trace| + 1 && caches[0] == {} &&
    forall i, j :: 0 <= i < |trace| && j == i + 1 ==> Serve(k, trace[i], caches[i], caches[j])
  }

  ghost predicate Serve(k: nat, id: nat, before: set<nat>, after: set<nat>) {
    |after| <= k && id in after && after <= before + {id}
  }

  ghost function PolicyMisses(trace: seq<nat>, caches: seq<set<nat>>): nat
    requires |caches| == |trace| + 1
  {
    if trace == [] then 0
    else
      var n := |trace| - 1;
      PolicyMisses(trace[..n], caches[..n + 1]) + if trace[n] in caches[n] then 0 else 1
  }

  // ----- The potential

  /** The last id of `order` weighs `w`, each one before it one less; ids in `held` do not count. */
  ghost function Potential(w: int, order: seq<nat>, held: set<nat>): int
    decreases order
  {
    if order == [] then 0
    else
      var n := |order| - 1;
      Potential(w - 1, order[..n], held) + if order[n] in held then 0 else w
  }

  /** How many ids of `order` are not in `held`. */
  ghost function NotHeld(order: seq<nat>, held: set<nat>): nat {
    if order == [] then 0
    else
      var n := |order| - 1;
      NotHeld(order[..n], held) + if order[n] in held then 0 else 1
  }

  lemma {:induction false} PotentialNonNegative(w: int, order: seq<nat>, held: set<nat>)
    requires w >= |order|
    ensures Potential(w, order, held) >= 0
    decreases order
  {
    if order == [] {
    } else {
      PotentialNonNegative(w - 1, order[..|order| - 1], held);
    }
  }

  lemma {:induction false} PotentialLighter(w: int, order: seq<nat>, held: set<nat>)
    ensures Potential(w - 1, order, held) == Potential(w, order, held) - NotHeld(order, held)
    decreases order
  {
    if order == [] {
    } else {
      PotentialLighter(w - 1, order[..|order| - 1], held);
    }
  }

  lemma PotentialAppendHeld(w: int, order: seq<nat>, id: nat, held: set<nat>)
    requires id in held
    ensures Potential(w, order + [id], held) == Potential(w - 1, order, held)
  {
    assert (order + [id])[..|order|] == order;
  }

  /** Moving a held id to the end makes nothing heavier. */
  lemma {:induction false} PotentialWithout(w: int, order: seq<nat>, id: nat, held: set<nat>)
    requires Distinct(order) && id in order && id in held
    ensures Potential(w - 1, Without(order, id), held) <= Potential(w, order, held)
    decreases order
  {
    var n := |order| - 1;
    if order[n] == id {
      WithoutDistinct(order[..n], id);
    } else {
      PotentialWithout(w - 1, order[..n], id, held);
      PotentialAppend(w - 1, Without(order[..n], id), order[n], held);
    }
  }

  lemma PotentialAppend(w: int, order: seq<nat>, x: nat, held: set<nat>)
    ensures Potential(w, order + [x], held) == Potential(w - 1, order, held) + if x in held then 0 else w
  {
    assert (order + [x])[..|order|] == order;
  }

  /** The least recent id weighs least. */
  lemma {:induction false} PotentialFirst(w: int, order: seq<nat>, held: set<nat>)
    requires order != []
    ensures Potential(w, order, held) ==
            Potential(w, order[1..], held) + if order[0] in held then 0 else w - |order| + 1
    decreases order
  {
    var n := |order| - 1;
    if n == 0 {
    } else {
      PotentialFirst(w - 1, order[..n], held);
      assert order[1..][..n - 1] == order[..n][1..];
    }
  }

  /** Dropping one id costs the policy at most the heaviest weight, and nothing when it is not cached. */
  lemma {:induction false} PotentialDrop(w: int, order: seq<nat>, held: set<nat>, held': set<nat>, dropped: nat)
    requires Distinct(order) && w >= |order| && held <= held' + {dropped}
    ensures Potential(w, order, held') <= Potential(w, order, held) + if dropped in order then w else 0
    decreases order
  {
    if order == [] {
    } else {
      var n := |order| - 1;
      assert order[n] !in order[..n];
      assert dropped in order <==> dropped in order[..n] || dropped == order[n];
      PotentialDrop(w - 1, order[..n], held, held', dropped);
    }
  }

  lemma {:induction false} NotHeldCount(order: seq<nat>, held: set<nat>)
    requires Distinct(order)
    ensures NotHeld(order, held) + |IdSet(order) * held| == |order|
  {
    if order == [] {
      assert IdSet(order) * held == {};
    } else {
      var n := |order| - 1;
      NotHeldCount(order[..n], held);
      assert order[n] !in IdSet(order[..n]);
      if order[n] in held {
        assert IdSet(order) * held == IdSet(order[..n]) * held + {order[n]};
      } else {
        assert IdSet(order) * held == IdSet(order[..n]) * held;
      }
    }
  }

  lemma {:induction false} NotHeldPositive(order: seq<nat>, held: set<nat>, x: nat)
    requires x in order && x !in held
    ensures NotHeld(order, held) >= 1
  {
    if order[|order| - 1] == x {
    } else {
      NotHeldPositive(order[..|order| - 1], held, x);
    }
  }

  /** A full order that lacks a held id contains one that is not held. */
  lemma SomeNotHeld(order: seq<nat>, held: set<nat>, id: nat)
    requires Distinct(order) && |held| <= |order| && id in held && id !in order
    ensures NotHeld(order, held) >= 1
  {
    NotHeldCount(order, held);
    assert IdSet(order) * held <= held - {id};
    SubsetSize(IdSet(order) * held, held - {id});
  }

  // ----- One access

  /**
   What the proof follows: a cache that contains the policy's, drops an id only when it has to, and
   so never misses where the policy hits.
   */
  ghost predicate Lazy(k: nat, order: seq<nat>, held: set<nat>, cache: set<nat>) {
    cache <= held && |held| <= k && (|order| < k ==> held <= IdSet(order))
  }

  /** The lazy cache's next contents, and the id it drops; `dropped` is `id` when it has room and drops none. */
  lemma LazyStep(k: nat, held: set<nat>, cache: set<nat>, cache': set<nat>, id: nat)
    returns (held': set<nat>, dropped: nat)
    requires cache <= held && |held| <= k
    requires Serve(k, id, cache, cache')
    ensures cache' <= held' && |held'| <= k && held' <= held + {id}
    ensures held <= held' + {dropped} && (dropped == id || dropped !in held')
    ensures id in held ==> held' == held
  {
    if id in held || |held| < k {
      held' := held + {id};
      dropped := id;
      assert id in held ==> held' == held;
    } else {
      if x :| x in held && x !in cache' {
        dropped := x;
        held' := held - {dropped} + {id};
      } else {
        forall y | y in held + {id} ensures y in cache' { }
        SubsetSize(held + {id}, cache');
        assert false;
      }
    }
  }

  /** A hit does not add potential. */
  lemma HitPays(k: nat, order: seq<nat>, held': set<nat>, id: nat)
    requires k >= 1 && Distinct(order) && id in order && id in held'
    ensures Potential(k, Touch(k, order, id), held') <= Potential(k, order, held')
  {
    PotentialAppendHeld(k, Without(order, id), id, held');
    PotentialWithout(k, order, id, held');
  }

  /** A miss takes one unit from every cached id the policy does not hold. */
  lemma MissPays(k: nat, order: seq<nat>, held': set<nat>, id: nat)
    requires k >= 1 && |order| <= k && id !in order && id in held'
    ensures Potential(k, Touch(k, order, id), held') == Potential(k, order, held') - NotHeld(order, held')
  {
    PotentialLighter(k, order, held');
    if |order| == k {
      PotentialAppendHeld(k, order[1..], id, held');
      PotentialFirst(k - 1, order, held');
    } else {
      PotentialAppendHeld(k, order, id, held');
    }
  }

  /** One access: what LRU pays, less the potential released, is at most k for a miss of the policy. */
  lemma AccessPays(k: nat, order: seq<nat>, held: set<nat>, held': set<nat>, dropped: nat, id: nat)
    requires k >= 1 && Distinct(order) && |order| <= k
    requires |held| <= k && (|order| < k ==> held <= IdSet(order))
    requires id in held' && held <= held' + {dropped} && (dropped == id || dropped !in held')
    requires id in held ==> held' == held
    ensures (if id in order then 0 else 1) + Potential(k, Touch(k, order, id), held') <=
            Potential(k, order, held) + if id in held then 0 else k
  {
    if id !in held { PotentialDrop(k, order, held, held', dropped); }
    if id in order {
      HitPays(k, order, held', id);
    } else {
      MissPays(k, order, held', id);
      if id in held {
        SomeNotHeld(order, held, id);
      } else if dropped in order {
        NotHeldPositive(order, held', dropped);
      }
    }
  }

  lemma LazyOrder(k: nat, order: seq<nat>, held: set<nat>, held': set<nat>, id: nat)
    requires k >= 1 && |order| <= k && (|order| < k ==> held <= IdSet(order)) && held' <= held + {id}
    requires Distinct(order)
    ensures |Touch(k, order, id)| < k ==> held' <= IdSet(Touch(k, order, id))
  {
    var order' := Touch(k, order, id);
    WithoutDistinct(order, id);
    WithoutMembers(order, id);
    if |order'| < k {
      assert forall x :: x in order ==> x in order';
    }
  }

  // ----- The theorem

  lemma OneAccess(k: nat, order: seq<nat>, held: set<nat>, cache: set<nat>, cache': set<nat>, id: nat)
    returns (held': set<nat>)
    requires k >= 1 && Distinct(order) && |order| <= k && Lazy(k, order, held, cache)
    requires Serve(k, id, cache, cache')
    ensures Lazy(k, Touch(k, order, id), held', cache')
    ensures (if id in order then 0 else 1) + Potential(k, Touch(k, order, id), held') <=
            Potential(k, order, held) + if id in cache then 0 else k
  {
    var dropped;
    held', dropped := LazyStep(k, held, cache, cache', id);
    AccessPays(k, order, held, held', dropped, id);
    LazyOrder(k, order, held, held', id);
  }

  lemma ServesPrefix(k: nat, trace: seq<nat>, caches: seq<set<nat>>)
    requires Serves(k, trace, caches) && trace != []
    ensures var n := |trace| - 1;
            Serves(k, trace[..n], caches[..n + 1]) && Serve(k, trace[n], caches[n], caches[n + 1])
  {
  }

  /** Adding one access to the account. */
  lemma Account(k: nat, misses: nat, policy: nat, potential: int, missed: nat, charged: bool, potential': int)
    requires misses + potential <= policy * k
    requires missed + potential' <= potential + if charged then k else 0
    ensures misses + missed + potential' <= (policy + if charged then 1 else 0) * k
  {
    MulAdd(policy, 1, k);
  }

  lemma {:induction false} PotentialArgument(k: nat, trace: seq<nat>, caches: seq<set<nat>>) returns (held: set<nat>)
    requires k >= 1 && Serves(k, trace, caches)
    ensures Lazy(k, Lru(k, trace), held, caches[|trace|])
    ensures Misses(k, trace) + Potential(k, Lru(k, trace), held) <= PolicyMisses(trace, caches) * k
  {
    if trace == [] {
      held := {};
    } else {
      var n := |trace| - 1;
      assert trace[..n] + [trace[n]] == trace;
      ServesPrefix(k, trace, caches);
      var was := PotentialArgument(k, trace[..n], caches[..n + 1]);
      assert caches[..n + 1][n] == caches[n];
      LruDistinct(k, trace[..n]);
      var order, id := Lru(k, trace[..n]), trace[n];
      held := OneAccess(k, order, was, caches[n], caches[n + 1], id);
      Account(k, Misses(k, trace[..n]), PolicyMisses(trace[..n], caches[..n + 1]), Potential(k, order, was),
              if id in order then 0 else 1, id !in caches[n], Potential(k, Touch(k, order, id), held));
    }
  }

  /** LRU misses at most `k` times as often as any policy with the same capacity. */
  lemma Competitive(k: nat, trace: seq<nat>, caches: seq<set<nat>>)
    requires k >= 1 && Serves(k, trace, caches)
    ensures Misses(k, trace) <= PolicyMisses(trace, caches) * k
  {
    var held := PotentialArgument(k, trace, caches);
    LruDistinct(k, trace);
    PotentialNonNegative(k, Lru(k, trace), held);
  }
}
