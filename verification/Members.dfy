/** The set of the ids in a sequence, and sizes of sets. */
module Members {

  function IdSet(s: seq<nat>): (ids: set<nat>)
    ensures |ids| <= |s| && forall x :: x in ids <==> x in s
  {
    if s == [] then {}
    else
      assert forall x :: x in s <==> x in s[..|s| - 1] || x == s[|s| - 1];
      IdSet(s[..|s| - 1]) + {s[|s| - 1]}
  }

  lemma IdSetSnoc(s: seq<nat>, x: nat)
    ensures IdSet(s + [x]) == IdSet(s) + {x}
  {
    assert (s + [x])[..|s|] == s;
  }

  ghost predicate Distinct(s: seq<nat>) {
    forall i, j :: 0 <= i < j < |s| ==> s[i] != s[j]
  }

  lemma LastIsNew(s: seq<nat>, n: nat)
    requires Distinct(s) && n == |s| - 1
    ensures Distinct(s[..n]) && s[n] !in s[..n] && s == s[..n] + [s[n]]
  {
  }

  lemma DistinctSnoc(s: seq<nat>, x: nat)
    requires Distinct(s) && x !in s
    ensures Distinct(s + [x])
  {
  }

  lemma {:induction false} DistinctSize(s: seq<nat>)
    requires Distinct(s)
    ensures |IdSet(s)| == |s|
  {
    if s == [] {
    } else {
      var n := |s| - 1;
      DistinctSize(s[..n]);
      assert IdSet(s) == IdSet(s[..n]) + {s[n]};
    }
  }

  /** The numbers below `n`. */
  ghost function Below(n: nat): (s: set<nat>)
    ensures |s| == n && forall x: nat :: x in s <==> x < n
  {
    if n == 0 then {} else Below(n - 1) + {n - 1}
  }

  lemma SubsetSize<T>(s: set<T>, t: set<T>)
    requires s <= t
    ensures |s| <= |t|
    ensures |s| == |t| ==> s == t
  {
    assert t == (t - s) + s;
  }
}
