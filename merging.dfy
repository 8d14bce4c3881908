/** Combining the solution lists of a node's children
    (src/BufferAlgorithm.cpp, `mergeTwoSolutions` and `mergeSolutions`). */
module Merging {
  import opened Geometry
  import opened Candidates
  import opened Pruning
  import Graphs

  function Min(a: real, b: real): (m: real)
    ensures m <= a && m <= b && (m == a || m == b)
  {
    if b < a then b else a
  }

  /** The candidate that closes a merged solution at the branching point:
      the loads add up and the tighter RAT wins. */
  function Combine(l: Candidate, r: Candidate, pos: Point): Candidate
  {
    Candidate(l.capacity + r.capacity, Min(l.rat, r.rat), pos, Graphs.InvalidEdgeId, false)
  }

  /** One merged solution: both inputs' candidates, then the joining one. */
  function Join(l: Solution, r: Solution, pos: Point): (s: Solution)
    requires |l| > 0 && |r| > 0
    ensures |s| == |l| + |r| + 1 && s[..|l|] == l && s[|l|..|l| + |r|] == r
    ensures Last(s) == Combine(Last(l), Last(r), pos)
  {
    l + r + [Combine(Last(l), Last(r), pos)]
  }

  /** The inner loop of `mergeTwoSolutions` for one left solution. */
  function Paired(l: Solution, rhs: seq<Solution>, pos: Point): (r: seq<Solution>)
    requires |l| > 0 && AllNonEmpty(rhs)
  {
    seq(|rhs|, j requires 0 <= j < |rhs| => Join(l, rhs[j], pos))
  }

  /** `mergeTwoSolutions`: every left solution with every right one,
      left-major. */
  function MergeTwo(lhs: seq<Solution>, rhs: seq<Solution>, pos: Point): (r: seq<Solution>)
    requires AllNonEmpty(lhs) && AllNonEmpty(rhs)
    ensures AllNonEmpty(r)
  {
    if lhs == [] then []
    else MergeTwo(lhs[..|lhs| - 1], rhs, pos) + Paired(lhs[|lhs| - 1], rhs, pos)
  }

  method MergeTwoSolutions(lhs: seq<Solution>, rhs: seq<Solution>, pos: Point) returns (solutions: seq<Solution>)
    requires AllNonEmpty(lhs) && AllNonEmpty(rhs)
    ensures solutions == MergeTwo(lhs, rhs, pos)
  {
    solutions := [];
    for i := 0 to |lhs|
      invariant solutions == MergeTwo(lhs[..i], rhs, pos)
    {
      for j := 0 to |rhs|
        invariant solutions == MergeTwo(lhs[..i], rhs, pos) + Paired(lhs[i], rhs[..j], pos)
      {
        var l, r := lhs[i], rhs[j];
        var solution := l + r;
        solution := solution + [Candidate(Last(l).capacity + Last(r).capacity, Min(Last(l).rat, Last(r).rat),
                                          pos, Graphs.InvalidEdgeId, false)];
        assert Paired(lhs[i], rhs[..j + 1], pos) == Paired(lhs[i], rhs[..j], pos) + [solution];
        solutions := solutions + [solution];
      }
      assert rhs[..|rhs|] == rhs;
      assert lhs[..i + 1][..i] == lhs[..i];
    }
    assert lhs[..|lhs|] == lhs;
  }

  /** Solution `j` of right input joined to solution `i` of the left one sits
      at index `i * |rhs| + j`. */
  lemma {:induction false} MergeTwoAt(lhs: seq<Solution>, rhs: seq<Solution>, pos: Point, i: nat, j: nat)
    requires AllNonEmpty(lhs) && AllNonEmpty(rhs) && i < |lhs| && j < |rhs|
    ensures |MergeTwo(lhs, rhs, pos)| == |lhs| * |rhs|
    ensures i * |rhs| + j < |lhs| * |rhs|
    ensures MergeTwo(lhs, rhs, pos)[i * |rhs| + j] == Join(lhs[i], rhs[j], pos)
  {
    var n := |lhs|;
    var front := lhs[..n - 1];
    MergeTwoLength(front, rhs, pos);
    assert (n - 1) * |rhs| + |rhs| == n * |rhs|;
    if i < n - 1 {
      MergeTwoAt(front, rhs, pos, i, j);
      assert front[i] == lhs[i];
    } else {
      assert i * |rhs| + j == (n - 1) * |rhs| + j;
    }
  }

  lemma {:induction false} MergeTwoLength(lhs: seq<Solution>, rhs: seq<Solution>, pos: Point)
    requires AllNonEmpty(lhs) && AllNonEmpty(rhs)
    ensures |MergeTwo(lhs, rhs, pos)| == |lhs| * |rhs|
  {
    if lhs != [] {
      MergeTwoLength(lhs[..|lhs| - 1], rhs, pos);
      assert (|lhs| - 1) * |rhs| + |rhs| == |lhs| * |rhs|;
    }
  }

  /** Every merged solution joins one left and one right solution. */
  lemma {:induction false} MergeTwoMembers(lhs: seq<Solution>, rhs: seq<Solution>, pos: Point, k: nat)
    requires AllNonEmpty(lhs) && AllNonEmpty(rhs) && k < |MergeTwo(lhs, rhs, pos)|
    ensures exists i, j :: 0 <= i < |lhs| && 0 <= j < |rhs| && MergeTwo(lhs, rhs, pos)[k] == Join(lhs[i], rhs[j], pos)
  {
    var n := |lhs|;
    var front := lhs[..n - 1];
    var m := MergeTwo(front, rhs, pos);
    if k < |m| {
      MergeTwoMembers(front, rhs, pos, k);
      var i, j :| 0 <= i < |front| && 0 <= j < |rhs| && m[k] == Join(front[i], rhs[j], pos);
      assert front[i] == lhs[i];
    } else {
      var j := k - |m|;
      var p := Paired(lhs[n - 1], rhs, pos);
      assert MergeTwo(lhs, rhs, pos) == m + p;
      assert MergeTwo(lhs, rhs, pos)[k] == p[j] == Join(lhs[n - 1], rhs[j], pos);
    }
  }

  // ---------------------------------------------------------------------
  // mergeSolutions

  predicate AllListsNonEmpty(children: seq<seq<Solution>>)
  {
    forall c :: 0 <= c < |children| ==> AllNonEmpty(children[c])
  }

  /** The child lists before `c`, one after another. */
  function Flatten(children: seq<seq<Solution>>): (r: seq<Solution>)
    requires AllListsNonEmpty(children)
    ensures AllNonEmpty(r)
  {
    if children == [] then []
    else Flatten(children[..|children| - 1]) + children[|children| - 1]
  }

  /** The loop of `mergeSolutions` for three or more children, after it has
      handled children `c`, ..., `|children| - 1`: each child merged with all
      solutions of the children before it, the last child first. */
  function MergeMany(children: seq<seq<Solution>>, c: nat, pos: Point): (r: seq<Solution>)
    requires AllListsNonEmpty(children) && 0 < c <= |children|
    ensures AllNonEmpty(r)
    decreases |children| - c
  {
    if c == |children| then []
    else MergeMany(children, c + 1, pos) + MergeTwo(children[c], Flatten(children[..c]), pos)
  }

  /** The single-candidate solution of a sink. */
  function SinkSolution(node: Node): Solution
  {
    [Candidate(node.capacity, node.rat, node.p, Graphs.InvalidEdgeId, false)]
  }

  /** What `mergeSolutions` returns.  With no children and a kind other than
      a sink the source's loop starts before the first element, so that case
      is excluded. */
  function Merge(children: seq<seq<Solution>>, node: Node): (r: seq<Solution>)
    requires AllListsNonEmpty(children)
    requires node.kind == Terminal || |children| > 0
    ensures AllNonEmpty(r)
  {
    if node.kind == Terminal then [SinkSolution(node)]
    else if |children| == 1 then children[0]
    else if |children| == 2 then MergeTwo(children[0], children[1], node.p)
    else MergeMany(children, 1, node.p)
  }

  method MergeSolutions(children: seq<seq<Solution>>, node: Node) returns (solutions: seq<Solution>)
    requires AllListsNonEmpty(children)
    requires node.kind == Terminal || |children| > 0
    ensures solutions == Merge(children, node)
  {
    if node.kind == Terminal {
      return [[Candidate(node.capacity, node.rat, node.p, Graphs.InvalidEdgeId, false)]];
    }
    if |children| == 1 {
      return children[0];
    }
    if |children| == 2 {
      solutions := MergeTwoSolutions(children[0], children[1], node.p);
      return;
    }
    solutions := [];
    var current := |children| - 1;
    while current > 0
      invariant 0 <= current < |children|
      invariant solutions == MergeMany(children, current + 1, node.p)
    {
      var others: seq<Solution> := [];
      for k := 0 to current
        invariant others == Flatten(children[..k])
      {
        assert children[..k + 1][..k] == children[..k];
        others := others + children[k];
      }
      var merged := MergeTwoSolutions(children[current], others, node.p);
      solutions := solutions + merged;
      current := current - 1;
    }
  }

  // ---------------------------------------------------------------------
  // properties

  /** A sink yields its own single candidate. */
  lemma MergeSink(children: seq<seq<Solution>>, node: Node)
    requires AllListsNonEmpty(children) && node.kind == Terminal
    ensures Merge(children, node) == [[Candidate(node.capacity, node.rat, node.p, Graphs.InvalidEdgeId, false)]]
  {
  }

  /** Every solution of a flattened list comes from one of the lists. */
  lemma {:induction false} FlattenMembers(children: seq<seq<Solution>>, x: Solution)
    requires AllListsNonEmpty(children) && x in Flatten(children)
    ensures exists k :: 0 <= k < |children| && x in children[k]
  {
    var n := |children|;
    if x !in children[n - 1] {
      FlattenMembers(children[..n - 1], x);
      var k :| 0 <= k < n - 1 && x in children[..n - 1][k];
    }
  }

  /** `m` joins solution `x` of child `a` (at or after `c`) with solution `y`
      of child `k` before it. */
  predicate JoinsTwoChildren(children: seq<seq<Solution>>, c: nat, a: int, k: int, x: Solution, y: Solution,
                             pos: Point, m: Solution)
  {
    && c <= a < |children| && 0 <= k < a && x in children[a] && y in children[k]
    && |x| > 0 && |y| > 0 && m == Join(x, y, pos)
  }

  /** With three or more children, each merged solution joins a solution of
      one child with a solution of ONE earlier child: no merged solution
      carries the load of more than two children. */
  lemma {:induction false} MergeManyPairs(children: seq<seq<Solution>>, c: nat, pos: Point, t: nat)
    requires AllListsNonEmpty(children) && 0 < c <= |children| && t < |MergeMany(children, c, pos)|
    ensures exists a, k, x, y :: JoinsTwoChildren(children, c, a, k, x, y, pos, MergeMany(children, c, pos)[t])
    decreases |children| - c
  {
    var rest := MergeMany(children, c + 1, pos);
    if t < |rest| {
      MergeManyPairs(children, c + 1, pos, t);
      var a, k, x, y :| JoinsTwoChildren(children, c + 1, a, k, x, y, pos, rest[t]);
      assert MergeMany(children, c, pos)[t] == rest[t];
      assert JoinsTwoChildren(children, c, a, k, x, y, pos, MergeMany(children, c, pos)[t]);
    } else {
      var others := Flatten(children[..c]);
      MergeTwoMembers(children[c], others, pos, t - |rest|);
      var i, j :| 0 <= i < |children[c]| && 0 <= j < |others|
        && MergeTwo(children[c], others, pos)[t - |rest|] == Join(children[c][i], others[j], pos);
      FlattenMembers(children[..c], others[j]);
      var k :| 0 <= k < c && others[j] in children[..c][k];
      assert children[..c][k] == children[k];
      assert MergeMany(children, c, pos)[t] == Join(children[c][i], others[j], pos);
      assert JoinsTwoChildren(children, c, c, k, children[c][i], others[j], pos, MergeMany(children, c, pos)[t]);
    }
  }

  /** Non-empty child lists give a non-empty merge, so it can be pruned. */
  lemma MergeNonEmpty(children: seq<seq<Solution>>, node: Node)
    requires AllListsNonEmpty(children) && (node.kind == Terminal || |children| > 0)
    requires forall c :: 0 <= c < |children| ==> |children[c]| > 0
    ensures |Merge(children, node)| > 0
  {
    if node.kind != Terminal && |children| == 2 {
      MergeTwoLength(children[0], children[1], node.p);
      assert |children[0]| * |children[1]| > 0;
    } else if node.kind != Terminal && |children| > 2 {
      MergeManyGrows(children, 1, node.p);
    }
  }

  lemma {:induction false} MergeManyGrows(children: seq<seq<Solution>>, c: nat, pos: Point)
    requires AllListsNonEmpty(children) && 0 < c < |children|
    requires forall k :: 0 <= k < |children| ==> |children[k]| > 0
    ensures |MergeMany(children, c, pos)| > 0
  {
    var others := Flatten(children[..c]);
    assert children[..c][0] == children[0];
    FlattenHas(children[..c], 0, children[0][0]);
    MergeTwoAt(children[c], others, pos, 0, 0);
  }

  lemma {:induction false} FlattenHas(children: seq<seq<Solution>>, k: nat, x: Solution)
    requires AllListsNonEmpty(children) && k < |children| && x in children[k]
    ensures x in Flatten(children)
  {
    var n := |children|;
    if k < n - 1 {
      FlattenHas(children[..n - 1], k, x);
    }
  }
}
