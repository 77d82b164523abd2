/**
 Least-recently-used replacement on the sequence of cached ids, least recent first, for any capacity.
 The order changes the way the list of practicum1/cache.c does: a hit moves the id to the end, a miss
 drops the first id when the cache is full and appends the new one.
 */
module LruPolicy {
  import opened Members

  /** The sequence with every occurrence of `id` taken out. */
  function Without(s: seq<nat>, id: nat): seq<nat> {
    if s == [] then []
    else
      var r := Without(s[..|s| - 1], id);
      if s[|s| - 1] == id then r else r + [s[|s| - 1]]
  }

  lemma WithoutSnoc(s: seq<nat>, x: nat, id: nat)
    ensures Without(s + [x], id) == if x == id then Without(s, id) else Without(s, id) + [x]
  {
    assert (s + [x])[..|s|] == s;
  }

  lemma {:induction false} WithoutMembers(s: seq<nat>, id: nat)
    ensures forall x :: x in Without(s, id) <==> x in s && x != id
    ensures |Without(s, id)| <= |s|
  {
    if s == [] {
    } else {
      hide Without;
      var n := |s| - 1;
      assert s == s[..n] + [s[n]];
      WithoutMembers(s[..n], id);
      WithoutSnoc(s[..n], s[n], id);
    }
  }

  /** One access to `id`. */
  function Touch(capacity: nat, order: seq<nat>, id: nat): seq<nat>
    requires capacity >= 1
  {
    if id in order then Without(order, id) + [id]
    else if |order| >= capacity then order[1..] + [id]
    else order + [id]
  }

  /** The cached ids after the accesses in `trace`, from an empty cache. */
  function Lru(capacity: nat, trace: seq<nat>): seq<nat>
    requires capacity >= 1
  {
    if trace == [] then []
    else Touch(capacity, Lru(capacity, trace[..|trace| - 1]), trace[|trace| - 1])
  }

  function Misses(capacity: nat, trace: seq<nat>): nat
    requires capacity >= 1
  {
    if trace == [] then 0
    else
      var before := trace[..|trace| - 1];
      Misses(capacity, before) + if trace[|trace| - 1] in Lru(capacity, before) then 0 else 1
  }

  /** Taking out an id that occurs once is cutting its place out. */
  lemma {:induction false} WithoutAt(s: seq<nat>, k: nat)
    requires Distinct(s) && k < |s|
    ensures Without(s, s[k]) == s[..k] + s[k + 1..]
  {
    var n := |s| - 1;
    assert s[..n] + [s[n]] == s;
    if k < n {
      WithoutAt(s[..n], k);
      assert s[..k] + s[k + 1..] == (s[..n][..k] + s[..n][k + 1..]) + [s[n]];
    } else {
      WithoutDistinct(s[..n], s[n]);
      assert s[..k] + s[k + 1..] == s[..n];
    }
  }

  lemma TouchDistinct(capacity: nat, order: seq<nat>, id: nat)
    requires capacity >= 1 && Distinct(order) && |order| <= capacity
    ensures Distinct(Touch(capacity, order, id)) && |Touch(capacity, order, id)| <= capacity
  {
    WithoutDistinct(order, id);
    WithoutMembers(order, id);
  }

  /** Who is cached after an access. */
  lemma TouchMembers(capacity: nat, order: seq<nat>, id: nat)
    requires capacity >= 1 && Distinct(order) && |order| <= capacity
    ensures forall x :: x in Touch(capacity, order, id) <==>
                        x == id || (x in order && (id in order || |order| < capacity || x != order[0]))
  {
    WithoutMembers(order, id);
    if |order| == capacity { assert order == [order[0]] + order[1..]; }
  }

  // ----- Stack inclusion

  /** Every id seen, once, ordered by its last access. */
  ghost function Recency(trace: seq<nat>): seq<nat> {
    if trace == [] then []
    else Without(Recency(trace[..|trace| - 1]), trace[|trace| - 1]) + [trace[|trace| - 1]]
  }

  function Suffix(s: seq<nat>, n: nat): seq<nat> {
    if |s| <= n then s else s[|s| - n..]
  }

  lemma {:induction false} WithoutAppend(s: seq<nat>, t: seq<nat>, id: nat)
    ensures Without(s + t, id) == Without(s, id) + Without(t, id)
  {
    if t == [] {
      assert s + t == s;
    } else {
      var t' := t[..|t| - 1];
      assert (s + t)[..|s + t| - 1] == s + t';
      WithoutAppend(s, t', id);
    }
  }

  lemma {:induction false} WithoutDistinct(s: seq<nat>, id: nat)
    requires Distinct(s)
    ensures Distinct(Without(s, id))
    ensures |Without(s, id)| == |s| - if id in s then 1 else 0
    ensures id !in s ==> Without(s, id) == s
  {
    if s == [] {
    } else {
      hide Without, Distinct;
      var n := |s| - 1;
      LastIsNew(s, n);
      WithoutDistinct(s[..n], id);
      WithoutMembers(s[..n], id);
      WithoutSnoc(s[..n], s[n], id);
      DistinctSnoc(Without(s[..n], id), s[n]);
    }
  }

  lemma {:induction false} RecencyDistinct(trace: seq<nat>)
    ensures Distinct(Recency(trace))
    ensures forall x :: x in Recency(trace) <==> x in trace
  {
    if trace == [] {
    } else {
      hide Without;
      var before := trace[..|trace| - 1];
      RecencyDistinct(before);
      WithoutDistinct(Recency(before), trace[|trace| - 1]);
      WithoutMembers(Recency(before), trace[|trace| - 1]);
      assert forall x :: x in trace <==> x in before || x == trace[|trace| - 1];
    }
  }

  lemma SuffixOfAppend(s: seq<nat>, t: seq<nat>)
    ensures Suffix(s + t, |t|) == t
  {
  }

  lemma TouchFull(capacity: nat, older: seq<nat>, kept: seq<nat>, id: nat)
    requires capacity >= 1 && Distinct(kept) && |kept| == capacity
    ensures Touch(capacity, kept, id) == Suffix(older + (Without(kept, id) + [id]), capacity)
  {
    hide Without;
    WithoutDistinct(kept, id);
    if id in kept {
      SuffixOfAppend(older, Without(kept, id) + [id]);
    } else {
      SuffixOfAppend(older + [kept[0]], kept[1..] + [id]);
      assert older + (kept + [id]) == (older + [kept[0]]) + (kept[1..] + [id]);
    }
  }

  lemma TouchNotFull(capacity: nat, kept: seq<nat>, id: nat)
    requires capacity >= 1 && Distinct(kept) && |kept| < capacity
    ensures Touch(capacity, kept, id) == Suffix([] + (Without(kept, id) + [id]), capacity)
  {
    WithoutDistinct(kept, id);
    assert [] + (Without(kept, id) + [id]) == Without(kept, id) + [id];
  }

  /** Keeping the most recent `capacity` ids commutes with an access. */
  lemma TouchSuffix(capacity: nat, all: seq<nat>, id: nat)
    requires capacity >= 1 && Distinct(all)
    ensures Touch(capacity, Suffix(all, capacity), id) == Suffix(Without(all, id) + [id], capacity)
  {
    hide Touch, Without;
    var n := if |all| <= capacity then 0 else |all| - capacity;
    var older, kept := all[..n], all[n..];
    assert all == older + kept && Suffix(all, capacity) == kept;
    WithoutAppend(older, kept, id);
    if |kept| == capacity {
      TouchFull(capacity, Without(older, id), kept, id);
    } else {
      TouchNotFull(capacity, kept, id);
    }
    assert (Without(older, id) + Without(kept, id)) + [id] == Without(older, id) + (Without(kept, id) + [id]);
  }

  /** The cache holds the `capacity` most recent ids, whatever the capacity. */
  lemma {:induction false} StackInclusion(capacity: nat, trace: seq<nat>)
    requires capacity >= 1
    ensures Lru(capacity, trace) == Suffix(Recency(trace), capacity)
  {
    if trace == [] {
    } else {
      var before := trace[..|trace| - 1];
      StackInclusion(capacity, before);
      RecencyDistinct(before);
      TouchSuffix(capacity, Recency(before), trace[|trace| - 1]);
    }
  }

  lemma LruDistinct(capacity: nat, trace: seq<nat>)
    requires capacity >= 1
    ensures Distinct(Lru(capacity, trace)) && |Lru(capacity, trace)| <= capacity
    ensures forall x :: x in Lru(capacity, trace) ==> x in trace
    ensures |Lru(capacity, trace)| < capacity ==> forall x :: x in trace ==> x in Lru(capacity, trace)
  {
    StackInclusion(capacity, trace);
    RecencyDistinct(trace);
  }

  /** A larger cache holds the smaller one as its most recent part and never misses more. */
  lemma {:induction false} LargerIsNoWorse(small: nat, large: nat, trace: seq<nat>)
    requires 1 <= small <= large
    ensures Lru(small, trace) == Suffix(Lru(large, trace), small)
    ensures Misses(large, trace) <= Misses(small, trace)
  {
    StackInclusion(small, trace);
    StackInclusion(large, trace);
    if trace == [] {
    } else {
      LargerIsNoWorse(small, large, trace[..|trace| - 1]);
    }
  }

  lemma WithoutAround(older: seq<nat>, id: nat, newer: seq<nat>, x: nat)
    requires x != id
    ensures Without(older + [id] + newer, x) == Without(older, x) + [id] + Without(newer, x)
  {
    WithoutAppend(older + [id], newer, x);
    WithoutAppend(older, [id], x);
    assert Without([id], x) == [id];
  }

  /** Moving `x` to the end adds it to the ids and keeps them distinct. */
  lemma MovedToEnd(s: seq<nat>, x: nat)
    requires Distinct(s)
    ensures Distinct(Without(s, x) + [x]) && IdSet(Without(s, x) + [x]) == IdSet(s) + {x}
  {
    hide Without, IdSet;
    WithoutDistinct(s, x);
    WithoutMembers(s, x);
    IdSetSnoc(Without(s, x), x);
  }

  lemma RecencySnoc(trace: seq<nat>, x: nat)
    ensures Recency(trace + [x]) == Without(Recency(trace), x) + [x]
  {
    assert (trace + [x])[..|trace|] == trace;
  }

  /** What an access to `x` makes of a recency order that is split at another id. */
  lemma RecencySplit(trace: seq<nat>, older: seq<nat>, id: nat, newer: seq<nat>, x: nat)
    requires Recency(trace) == older + [id] + newer && x != id
    ensures Recency(trace + [x]) == Without(older, x) + [id] + (Without(newer, x) + [x])
  {
    RecencySnoc(trace, x);
    WithoutAround(older, id, newer, x);
  }

  /** What the ids accessed since `id` look like: its place splits the recency order. */
  ghost predicate SplitAt(trace: seq<nat>, older: seq<nat>, id: nat, newer: seq<nat>, since: seq<nat>) {
    Recency(trace) == older + [id] + newer && IdSet(newer) == IdSet(since) && Distinct(newer)
  }

  lemma SplitStep(trace: seq<nat>, older: seq<nat>, id: nat, newer: seq<nat>, since: seq<nat>, x: nat)
    requires SplitAt(trace, older, id, newer, since) && x != id
    ensures SplitAt(trace + [x], Without(older, x), id, Without(newer, x) + [x], since + [x])
  {
    RecencySplit(trace, older, id, newer, x);
    MovedToEnd(newer, x);
    IdSetSnoc(since, x);
  }

  /** After its last access, an id is followed in the recency order by exactly the ids accessed since. */
  lemma {:induction false} RecencyAfter(trace: seq<nat>, last: nat) returns (older: seq<nat>, newer: seq<nat>)
    requires last < |trace| && trace[last] !in trace[last + 1..]
    ensures SplitAt(trace, older, trace[last], newer, trace[last + 1..])
  {
    var m := |trace| - 1;
    var prefix, id, x := trace[..m], trace[last], trace[m];
    assert trace == prefix + [x];
    if last == m {
      older, newer := Without(Recency(prefix), id), [];
    } else {
      assert trace[last + 1..] == prefix[last + 1..] + [x];
      older, newer := RecencyAfter(prefix, last);
      SplitStep(prefix, older, id, newer, prefix[last + 1..], x);
      older, newer := Without(older, x), Without(newer, x) + [x];
    }
  }

  /** An id is cached exactly when fewer than `capacity` different other ids came since its last access. */
  lemma HitsExactlyWhen(capacity: nat, trace: seq<nat>, last: nat)
    requires capacity >= 1 && last < |trace| && trace[last] !in trace[last + 1..]
    ensures trace[last] in Lru(capacity, trace) <==> |IdSet(trace[last + 1..])| < capacity
  {
    var older, newer := RecencyAfter(trace, last);
    StackInclusion(capacity, trace);
    RecencyDistinct(trace);
    DistinctSize(newer);
    assert Recency(trace)[|older|] == trace[last];
  }

  lemma NeverSeenMisses(capacity: nat, trace: seq<nat>, id: nat)
    requires capacity >= 1 && id !in trace
    ensures id !in Lru(capacity, trace)
  {
    LruDistinct(capacity, trace);
  }
}
