/**
 The factor of LruCompetitive cannot be improved: on cyclic accesses to k + 1 ids, LRU with k places misses
 every time, while dropping the id needed last misses, after the first k accesses, once in k.
 */
module LruTightness {
  import opened Arithmetic
  import opened LruPolicy
  import opened LruCompetitive
  import opened Members

  // ----- The accesses

  /** The id of access number `n`: 0, 1, ..., k, 0, 1, ... */
  function Id(k: nat, n: nat): (x: nat)
    ensures x <= k
  {
    if n == 0 || Id(k, n - 1) == k then 0 else Id(k, n - 1) + 1
  }

  /** The first `n` accesses. */
  function Cycle(k: nat, n: nat): (trace: seq<nat>)
    ensures |trace| == n
  {
    if n == 0 then [] else Cycle(k, n - 1) + [Id(k, n - 1)]
  }

  lemma {:induction false} IdIs(k: nat, n: nat)
    ensures Id(k, n) == n % (k + 1)
  {
    if n == 0 {
      DivModUnique(0, k + 1, 0, 0);
    } else {
      IdIs(k, n - 1);
      DivModSucc(n - 1, k + 1);
    }
  }

  lemma {:induction false} IdAtFirst(k: nat, n: nat)
    requires n <= k
    ensures Id(k, n) == n
  {
    if n == 0 {
    } else {
      IdAtFirst(k, n - 1);
    }
  }

  lemma {:induction false} CycleAt(k: nat, n: nat, i: nat)
    requires i < n
    ensures Cycle(k, n)[i] == Id(k, i)
  {
    if i == n - 1 {
    } else {
      CycleAt(k, n - 1, i);
    }
  }

  // ----- LRU

  lemma NearDiffer(k: nat, i: nat, j: nat)
    requires i < j <= i + k
    ensures Id(k, i) != Id(k, j)
  {
    IdIs(k, i);
    IdIs(k, j);
    RemaindersDiffer(k + 1, i, j);
  }

  lemma RemaindersDiffer(m: nat, i: nat, j: nat)
    requires i < j < i + m
    ensures i % m != j % m
  {
    if i % m == j % m {
      DivMod(i, m);
      DivMod(j, m);
      MulSub(j / m, i / m, m);
      SmallMultiple(j / m - i / m, m);
    }
  }

  lemma NotInSuffix(s: seq<nat>, x: nat, k: nat)
    requires forall i :: 0 <= i < |s| && |s| - k <= i ==> s[i] != x
    ensures x !in Suffix(s, k)
  {
  }

  /** The next id is none of the k before it. */
  lemma NextIsNew(k: nat, n: nat)
    ensures Id(k, n) !in Suffix(Cycle(k, n), k)
  {
    hide *;
    forall i | 0 <= i < n && n - k <= i ensures Cycle(k, n)[i] != Id(k, n) {
      CycleAt(k, n, i);
      NearDiffer(k, i, n);
    }
    NotInSuffix(Cycle(k, n), Id(k, n), k);
  }

  lemma SuffixSnoc(s: seq<nat>, x: nat, k: nat)
    requires k >= 1 && x !in Suffix(s, k)
    ensures Touch(k, Suffix(s, k), x) == Suffix(s + [x], k)
  {
  }

  lemma MissSnoc(k: nat, s: seq<nat>, x: nat)
    requires k >= 1 && Lru(k, s) == Suffix(s, k) && x !in Suffix(s, k)
    ensures Lru(k, s + [x]) == Suffix(s + [x], k) && Misses(k, s + [x]) == Misses(k, s) + 1
  {
    assert (s + [x])[..|s|] == s;
    SuffixSnoc(s, x, k);
  }

  lemma {:induction false} LruMissesAll(k: nat, n: nat)
    requires k >= 1
    ensures Lru(k, Cycle(k, n)) == Suffix(Cycle(k, n), k) && Misses(k, Cycle(k, n)) == n
  {
    if n == 0 {
    } else {
      hide Id, Lru, Misses, Suffix;
      LruMissesAll(k, n - 1);
      NextIsNew(k, n - 1);
      MissSnoc(k, Cycle(k, n - 1), Id(k, n - 1));
    }
  }

  // ----- A policy that looks ahead

  /** All k + 1 ids but one. */
  ghost function AllBut(k: nat, hole: nat): set<nat> {
    Below(k + 1) - {hole}
  }

  /** The id before `x` in the cycle: of the ids held when `x` comes, the one needed last. */
  ghost function Before(k: nat, x: nat): nat {
    if x == 0 then k else x - 1
  }

  /** The policy keeps what it holds on a hit, and on a miss drops the id before the one that comes. */
  ghost function Held(k: nat, n: nat): set<nat> {
    if n <= k then Below(n)
    else if Id(k, n - 1) in Held(k, n - 1) then Held(k, n - 1)
    else AllBut(k, Before(k, Id(k, n - 1)))
  }

  ghost function Caches(k: nat, n: nat): (caches: seq<set<nat>>)
    ensures |caches| == n + 1 && caches[n] == Held(k, n)
  {
    if n == 0 then [Held(k, 0)] else Caches(k, n - 1) + [Held(k, n)]
  }

  /**
   How far the next id is past the one not held, for n > k: 2 after a miss, one more each access, at last
   k + 1; and how often it has started again.
   */
  ghost function Distance(k: nat, n: nat): (d: nat)
    requires 1 <= k < n
    ensures 2 <= d <= k + 1
  {
    if n == k + 1 || Distance(k, n - 1) == k + 1 then 2 else Distance(k, n - 1) + 1
  }

  ghost function Rounds(k: nat, n: nat): nat
    requires 1 <= k < n
  {
    if n == k + 1 then 1 else Rounds(k, n - 1) + if Distance(k, n - 1) == k + 1 then 1 else 0
  }

  lemma {:induction false} RoundsIs(k: nat, n: nat)
    requires 1 <= k < n
    ensures Rounds(k, n) == (n - 1) / k && Distance(k, n) == (n - 1) % k + 2
  {
    if n == k + 1 {
      DivModUnique(k, k, 1, 0);
    } else {
      RoundsIs(k, n - 1);
      DivModSucc(n - 2, k);
    }
  }

  /** `x` is `d` places after `hole` in the cycle. */
  ghost predicate Apart(k: nat, hole: nat, d: nat, x: nat) {
    hole <= k && d <= k + 1 && x == if hole + d <= k then hole + d else hole + d - (k + 1)
  }

  /** One access, when all ids but one are held. */
  lemma NextHole(k: nat, hole: nat, d: nat, x: nat)
    requires k >= 1 && 2 <= d <= k + 1 && x <= k && Apart(k, hole, d, x)
    ensures x == hole <==> d == k + 1
    ensures Apart(k, if x == hole then Before(k, x) else hole, if d == k + 1 then 2 else d + 1,
              if x == k then 0 else x + 1)
  {
  }

  /** From the first time something is dropped, exactly one id is not held, and its place in the cycle is known. */
  lemma {:induction false} HoleFound(k: nat, n: nat) returns (hole: nat)
    requires 1 <= k < n
    ensures Apart(k, hole, Distance(k, n), Id(k, n)) && Held(k, n) == AllBut(k, hole)
  {
    hide *;
    if n == k + 1 {
      hole := FirstHole(k);
    } else {
      hole := HoleFound(k, n - 1);
      hole := HoleKept(k, n - 1, hole);
    }
  }

  lemma FirstHole(k: nat) returns (hole: nat)
    requires k >= 1
    ensures Apart(k, hole, Distance(k, k + 1), Id(k, k + 1)) && Held(k, k + 1) == AllBut(k, hole)
  {
    IdAtFirst(k, k);
    assert Id(k, k) == k && Id(k, k + 1) == 0;
    hole := k - 1;
  }

  lemma IdNext(k: nat, n: nat)
    ensures Id(k, n + 1) == if Id(k, n) == k then 0 else Id(k, n) + 1
    ensures 1 <= k < n ==> Distance(k, n + 1) == if Distance(k, n) == k + 1 then 2 else Distance(k, n) + 1
  {
  }

  lemma HoleKept(k: nat, n: nat, hole: nat) returns (hole': nat)
    requires 1 <= k < n
    requires Apart(k, hole, Distance(k, n), Id(k, n)) && Held(k, n) == AllBut(k, hole)
    ensures Apart(k, hole', Distance(k, n + 1), Id(k, n + 1)) && Held(k, n + 1) == AllBut(k, hole')
  {
    hide Id, Held, Distance, AllBut;
    HeldNext(k, n);
    IdNext(k, n);
    AllButMembers(k, hole);
    NextHole(k, hole, Distance(k, n), Id(k, n));
    hole' := if Id(k, n) == hole then Before(k, Id(k, n)) else hole;
  }

  /** A miss comes exactly when the cycle has come round to the id not held. */
  lemma LateMiss(k: nat, n: nat)
    requires 1 <= k < n
    ensures Id(k, n) in Held(k, n) <==> Distance(k, n) != k + 1
    ensures |Held(k, n)| == k
  {
    hide Id, Held, Distance;
    var hole := HoleFound(k, n);
    NextHole(k, hole, Distance(k, n), Id(k, n));
  }

  // ----- Its misses

  lemma PolicyMissesSnoc(trace: seq<nat>, x: nat, caches: seq<set<nat>>, next: set<nat>)
    requires |caches| == |trace| + 1
    ensures PolicyMisses(trace + [x], caches + [next]) ==
            PolicyMisses(trace, caches) + if x in caches[|trace|] then 0 else 1
  {
    assert (trace + [x])[..|trace|] == trace && (caches + [next])[..|trace| + 1] == caches;
  }

  lemma {:induction false} ColdMisses(k: nat, n: nat)
    requires n <= k + 1
    ensures PolicyMisses(Cycle(k, n), Caches(k, n)) == n
  {
    if n == 0 {
    } else {
      hide Held, PolicyMisses;
      ColdMisses(k, n - 1);
      IdAtFirst(k, n - 1);
      PolicyMissesSnoc(Cycle(k, n - 1), Id(k, n - 1), Caches(k, n - 1), Held(k, n));
    }
  }

  lemma {:induction false} PolicyCount(k: nat, n: nat)
    requires 1 <= k < n
    ensures PolicyMisses(Cycle(k, n), Caches(k, n)) == k + Rounds(k, n)
  {
    hide Id, Held, Distance, PolicyMisses;
    if n == k + 1 {
      ColdMisses(k, n);
    } else {
      PolicyCount(k, n - 1);
      LateMiss(k, n - 1);
      PolicyMissesSnoc(Cycle(k, n - 1), Id(k, n - 1), Caches(k, n - 1), Held(k, n));
    }
  }

  // ----- It is a policy

  lemma ServeCold(k: nat, n: nat)
    requires k >= 1 && n <= k
    ensures Serve(k, Id(k, n), Held(k, n), Held(k, n + 1))
  {
    IdAtFirst(k, n);
    if n == k { LateMiss(k, n + 1); }
  }

  lemma HeldNext(k: nat, n: nat)
    requires n >= k
    ensures Held(k, n + 1) == if Id(k, n) in Held(k, n) then Held(k, n) else AllBut(k, Before(k, Id(k, n)))
  {
  }

  lemma AllButMembers(k: nat, hole: nat)
    ensures forall x: nat :: x in AllBut(k, hole) <==> x <= k && x != hole
  {
  }

  lemma ServeLate(k: nat, n: nat)
    requires 1 <= k < n
    ensures Serve(k, Id(k, n), Held(k, n), Held(k, n + 1))
  {
    hide Id, Held, Distance, AllBut, Apart;
    LateMiss(k, n + 1);
    HeldNext(k, n);
    var hole := HoleFound(k, n);
    AllButMembers(k, hole);
    AllButMembers(k, Before(k, Id(k, n)));
    NextHole(k, hole, Distance(k, n), Id(k, n));
  }

  lemma ServesSnoc(k: nat, trace: seq<nat>, x: nat, caches: seq<set<nat>>, next: set<nat>)
    requires Serves(k, trace, caches) && Serve(k, x, caches[|trace|], next)
    ensures Serves(k, trace + [x], caches + [next])
  {
  }

  lemma CycleNext(k: nat, n: nat)
    ensures Cycle(k, n + 1) == Cycle(k, n) + [Id(k, n)] && Caches(k, n + 1) == Caches(k, n) + [Held(k, n + 1)]
  {
  }

  lemma ServesNone(k: nat)
    ensures Serves(k, Cycle(k, 0), Caches(k, 0))
  {
    assert Caches(k, 0)[0] == {};
  }

  /** It fetches the id accessed and holds at most k. */
  lemma {:induction false} PolicyServes(k: nat, n: nat)
    requires k >= 1
    ensures Serves(k, Cycle(k, n), Caches(k, n))
  {
    hide *;
    if n == 0 {
      ServesNone(k);
    } else {
      PolicyServes(k, n - 1);
      if n - 1 <= k { ServeCold(k, n - 1); } else { ServeLate(k, n - 1); }
      ServesSnoc(k, Cycle(k, n - 1), Id(k, n - 1), Caches(k, n - 1), Held(k, n));
      CycleNext(k, n - 1);
    }
  }

  /** For every k and every length, LRU misses n times and this policy k + ⌊(n - 1) / k⌋ times. */
  lemma FactorIsBestPossible(k: nat, n: nat)
    requires 1 <= k < n
    ensures Serves(k, Cycle(k, n), Caches(k, n))
    ensures Misses(k, Cycle(k, n)) == n
    ensures PolicyMisses(Cycle(k, n), Caches(k, n)) == k + (n - 1) / k
  {
    hide *;
    PolicyServes(k, n);
    LruMissesAll(k, n);
    PolicyCount(k, n);
    RoundsIs(k, n);
  }
}
