/** Pruning of dominated partial solutions (src/BufferAlgorithm.cpp,
    `redundancy_elimination`).  A solution is judged by its last candidate:
    one dominates another when its RAT is at least as large and its load at
    most as large. */
module Pruning {
  import opened Candidates

  predicate AllNonEmpty(s: seq<Solution>)
  {
    forall i :: 0 <= i < |s| ==> |s[i]| > 0
  }

  /** `isRedundant(validator, solution)`. */
  predicate Dominates(validator: Solution, solution: Solution)
    requires |validator| > 0 && |solution| > 0
  {
    Last(validator).rat >= Last(solution).rat && Last(validator).capacity <= Last(solution).capacity
  }

  /** When the source drops solution `i`: an earlier solution dominates it,
      or a later one dominates it without being dominated back. */
  predicate Redundant(s: seq<Solution>, i: nat)
    requires AllNonEmpty(s) && i < |s|
  {
    || (exists j :: 0 <= j < i && Dominates(s[j], s[i]))
    || (exists j :: i < j < |s| && !Dominates(s[i], s[j]) && Dominates(s[j], s[i]))
  }

  ghost function RedundantSet(s: seq<Solution>): set<nat>
    requires AllNonEmpty(s)
  {
    set i: nat | i < |s| && Redundant(s, i)
  }

  predicate StrictlyIncreasing(r: seq<nat>)
  {
    forall a, b :: 0 <= a < b < |r| ==> r[a] < r[b]
  }

  /** The indices below `k` that are not in `m`, ascending. */
  function KeptIndices(m: set<nat>, k: nat): (r: seq<nat>)
    ensures forall t :: 0 <= t < |r| ==> r[t] < k && r[t] !in m
    ensures forall i :: 0 <= i < k && i !in m ==> i in r
    ensures StrictlyIncreasing(r)
  {
    if k == 0 then []
    else
      var r := KeptIndices(m, k - 1);
      if k - 1 in m then r else r + [k - 1]
  }

  function Select(s: seq<Solution>, idx: seq<nat>): (r: seq<Solution>)
    requires forall t :: 0 <= t < |idx| ==> idx[t] < |s|
    ensures |r| == |idx| && forall t :: 0 <= t < |idx| ==> r[t] == s[idx[t]]
  {
    seq(|idx|, t requires 0 <= t < |idx| => s[idx[t]])
  }

  /** What `redundancy_elimination` returns: the non-redundant solutions in
      their original order. */
  ghost function Prune(s: seq<Solution>): seq<Solution>
    requires AllNonEmpty(s)
  {
    Select(s, KeptIndices(RedundantSet(s), |s|))
  }

  // ---------------------------------------------------------------------
  // the double loop, as the set of indices it marks

  /** The index one comparison of the inner loop marks. */
  function Marks(s: seq<Solution>, lhs: nat, rhs: nat): set<nat>
    requires AllNonEmpty(s) && lhs < |s| && rhs < |s|
  {
    if Dominates(s[lhs], s[rhs]) then {rhs}
    else if Dominates(s[rhs], s[lhs]) then {lhs}
    else {}
  }

  /** The indices marked by the inner loop for `lhs`, up to `rhs`. */
  function Row(s: seq<Solution>, lhs: nat, rhs: nat): (r: set<nat>)
    requires AllNonEmpty(s) && lhs < |s| && rhs <= |s|
    ensures forall x :: x in r ==> x < |s|
    decreases rhs
  {
    if rhs <= lhs + 1 then {} else Row(s, lhs, rhs - 1) + Marks(s, lhs, rhs - 1)
  }

  /** The indices marked by the outer loop before `lhs`. */
  function Rows(s: seq<Solution>, lhs: nat): (r: set<nat>)
    requires AllNonEmpty(s) && lhs <= |s|
    ensures forall x :: x in r ==> x < |s|
  {
    if lhs == 0 then {} else Rows(s, lhs - 1) + Row(s, lhs - 1, |s|)
  }

  lemma {:induction false} RowMembers(s: seq<Solution>, lhs: nat, rhs: nat, i: nat)
    requires AllNonEmpty(s) && lhs < |s| && rhs <= |s| && i < |s|
    ensures i in Row(s, lhs, rhs) <==>
      || (lhs < i < rhs && Dominates(s[lhs], s[i]))
      || (i == lhs && exists j :: lhs < j < rhs && !Dominates(s[lhs], s[j]) && Dominates(s[j], s[lhs]))
  {
    if rhs > lhs + 1 {
      RowMembers(s, lhs, rhs - 1, i);
      var b := rhs - 1;
      if i == lhs && i !in Row(s, lhs, rhs - 1) && !Dominates(s[lhs], s[b]) && Dominates(s[b], s[lhs]) {
        assert lhs < b < rhs;
      }
      if i == lhs && i in Row(s, lhs, rhs) && i !in Row(s, lhs, rhs - 1) {
        assert i in Marks(s, lhs, b);
        assert !Dominates(s[lhs], s[b]) && Dominates(s[b], s[lhs]);
      }
    }
  }

  lemma {:induction false} RowsMembers(s: seq<Solution>, lhs: nat, i: nat)
    requires AllNonEmpty(s) && lhs <= |s| && i < |s|
    ensures i in Rows(s, lhs) <==>
      || (exists j :: 0 <= j < lhs && j < i && Dominates(s[j], s[i]))
      || (i < lhs && exists j :: i < j < |s| && !Dominates(s[i], s[j]) && Dominates(s[j], s[i]))
  {
    if lhs > 0 {
      var a := lhs - 1;
      RowsMembers(s, a, i);
      RowMembers(s, a, |s|, i);
      if a < i && Dominates(s[a], s[i]) {
        assert 0 <= a < lhs && a < i;
      }
      if exists j :: 0 <= j < lhs && j < i && Dominates(s[j], s[i]) {
        var j :| 0 <= j < lhs && j < i && Dominates(s[j], s[i]);
        if j == a {
          assert i in Row(s, a, |s|);
        } else {
          assert i in Rows(s, a);
        }
      }
    }
  }

  /** The double loop marks exactly the redundant solutions. */
  lemma MarkedAreRedundant(s: seq<Solution>)
    requires AllNonEmpty(s) && |s| > 0
    ensures Rows(s, |s| - 1) == RedundantSet(s)
  {
    forall i: nat | i < |s|
      ensures i in Rows(s, |s| - 1) <==> Redundant(s, i)
    {
      RowsMembers(s, |s| - 1, i);
    }
  }

  /** The double loop of `redundancy_elimination`: compare every pair once,
      marking the later solution when the earlier dominates it, else the
      earlier when the later dominates it. */
  method MarkRedundant(solutions: seq<Solution>) returns (redundant: set<nat>)
    requires |solutions| > 0 && AllNonEmpty(solutions)
    ensures redundant == RedundantSet(solutions)
  {
    var n := |solutions|;
    redundant := {};
    for lhs := 0 to n - 1
      invariant redundant == Rows(solutions, lhs)
    {
      for rhs := lhs + 1 to n
        invariant redundant == Rows(solutions, lhs) + Row(solutions, lhs, rhs)
      {
        if Dominates(solutions[lhs], solutions[rhs]) {
          redundant := redundant + {rhs};
        } else if Dominates(solutions[rhs], solutions[lhs]) {
          redundant := redundant + {lhs};
        }
      }
    }
    MarkedAreRedundant(solutions);
  }

  /** `redundancy_elimination`.  The source stops its outer loop at
      `prev(end())`, so the input must be non-empty, and it reads the last
      candidate of every solution. */
  method RedundancyElimination(solutions: seq<Solution>) returns (pruned: seq<Solution>)
    requires |solutions| > 0 && AllNonEmpty(solutions)
    ensures pruned == Prune(solutions)
  {
    var redundant := MarkRedundant(solutions);
    pruned := KeepUnmarked(solutions, redundant);
  }

  /** The copying loop of `redundancy_elimination`: the solutions whose
      index is not marked, in order. */
  method KeepUnmarked(solutions: seq<Solution>, marked: set<nat>) returns (kept: seq<Solution>)
    ensures kept == Select(solutions, KeptIndices(marked, |solutions|))
  {
    kept := [];
    for i := 0 to |solutions|
      invariant kept == Select(solutions, KeptIndices(marked, i))
    {
      SelectStep(solutions, marked, i);
      if i !in marked {
        kept := kept + [solutions[i]];
      }
    }
  }

  /** The copying loop keeps index `i` exactly when it is not marked. */
  lemma SelectStep(s: seq<Solution>, m: set<nat>, i: nat)
    requires i < |s|
    ensures Select(s, KeptIndices(m, i + 1)) ==
      if i in m then Select(s, KeptIndices(m, i)) else Select(s, KeptIndices(m, i)) + [s[i]]
  {
    var before := KeptIndices(m, i);
    if i !in m {
      assert KeptIndices(m, i + 1) == before + [i];
      assert Select(s, before + [i]) == Select(s, before) + [s[i]];
    }
  }

  // ---------------------------------------------------------------------
  // properties of the result

  /** Every solution pruned away is dominated by another input solution. */
  lemma PrunedAreDominated(s: seq<Solution>, i: nat)
    requires AllNonEmpty(s) && i < |s| && i !in KeptIndices(RedundantSet(s), |s|)
    ensures exists j :: 0 <= j < |s| && j != i && Dominates(s[j], s[i])
  {
    assert i in RedundantSet(s);
  }

  /** A kept index is not redundant, and every non-redundant one is kept. */
  lemma KeptIffNotRedundant(s: seq<Solution>, i: nat)
    requires AllNonEmpty(s) && i < |s|
    ensures i in KeptIndices(RedundantSet(s), |s|) <==> !Redundant(s, i)
  {
    var idx := KeptIndices(RedundantSet(s), |s|);
    if i in idx {
      var t :| 0 <= t < |idx| && idx[t] == i;
    }
  }

  /** No surviving solution dominates another survivor. */
  lemma SurvivorsIncomparable(s: seq<Solution>, a: nat, b: nat)
    requires AllNonEmpty(s)
    requires a < |Prune(s)| && b < |Prune(s)| && a != b
    ensures !Dominates(Prune(s)[a], Prune(s)[b])
  {
    var idx := KeptIndices(RedundantSet(s), |s|);
    var i, j := idx[a], idx[b];
    assert i !in RedundantSet(s) && j !in RedundantSet(s);
    assert !Redundant(s, i) && !Redundant(s, j);
    assert forall k :: 0 <= k < j ==> !Dominates(s[k], s[j]);
    assert forall k :: i < k < |s| ==> Dominates(s[i], s[k]) || !Dominates(s[k], s[i]);
  }

  /** Lexicographic preference: larger RAT, then smaller load. */
  predicate Better(x: Solution, y: Solution)
    requires |x| > 0 && |y| > 0
  {
    Last(x).rat > Last(y).rat || (Last(x).rat == Last(y).rat && Last(x).capacity < Last(y).capacity)
  }

  /** The first of the best solutions among the first `k`. */
  function BestIndex(s: seq<Solution>, k: nat): (b: nat)
    requires AllNonEmpty(s) && 0 < k <= |s|
    ensures b < k
    ensures forall j :: 0 <= j < k ==> (j < b ==> Better(s[b], s[j])) && (b <= j ==> !Better(s[j], s[b]))
  {
    if k == 1 then 0
    else
      var b := BestIndex(s, k - 1);
      if Better(s[k - 1], s[b]) then k - 1 else b
  }

  /** The first best solution is never pruned, so pruning a non-empty list
      leaves at least one solution. */
  lemma PruneNonEmpty(s: seq<Solution>)
    requires AllNonEmpty(s) && |s| > 0
    ensures |Prune(s)| > 0
    ensures AllNonEmpty(Prune(s))
  {
    var b := BestIndex(s, |s|);
    assert !Redundant(s, b);
    assert b !in RedundantSet(s);
    assert b in KeptIndices(RedundantSet(s), |s|);
  }
}
