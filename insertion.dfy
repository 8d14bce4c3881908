/** Van Ginneken-style buffer insertion over an RC tree
    (src/BufferAlgorithm.cpp, `bufferInsertion`).  The worklist method is
    proved against `Solve`, a recursion over the tree that computes every
    node's pruned solutions from its children's. */
module Insertion {
  import opened Wrappers
  import opened Geometry
  import opened Configuration
  import opened Graphs
  import opened Candidates
  import opened Pruning
  import opened Merging
  import opened Seqs

  /** What the algorithm reads besides the tree: the split step, the wire
      technology and the buffer module. */
  datatype Setting = Setting(step: nat, tech: Technology, buffer: Module)


  // ---------------------------------------------------------------------
  // the trees the algorithm runs on

  /** Child edge `e` of node `k` leads to a live node whose parent edge is
      `e` and whose rank is smaller; its polyline is not empty. */
  ghost predicate ChildEdge(t: Net, rank: seq<nat>, k: nat, e: nat)
    requires |rank| == |t.nodes| && k < |t.nodes|
  {
    && e < |t.edges| && t.edges[e].first == k && |t.edges[e].edge.ps| > 0
    && var c := t.edges[e].last;
    && c < |t.nodes| && LiveNode(t, c) && c != InvalidNodeId
    && t.nodes[c].parent == e && rank[c] < rank[k]
  }

  /** The subtree below `k` is a tree the source handles: ranks decrease
      along child edges, children are distinct, and only sinks are leaves. */
  ghost predicate Sound(t: Net, rank: seq<nat>, k: nat)
    requires |rank| == |t.nodes| && k < |t.nodes|
    decreases rank[k]
  {
    && NoDuplicates(t.nodes[k].children)
    && (t.nodes[k].node.kind != Terminal ==> |t.nodes[k].children| > 0)
    && forall e :: e in t.nodes[k].children ==>
         ChildEdge(t, rank, k, e) && Sound(t, rank, t.edges[e].last)
  }

  /** A non-root node is entered by an edge with a non-empty polyline. */
  predicate EnteredBy(t: Net, k: nat)
    requires k < |t.nodes|
  {
    t.nodes[k].parent < |t.edges| && |t.edges[t.nodes[k].parent].edge.ps| > 0
  }

  ghost predicate Solvable(t: Net, rank: seq<nat>, k: nat)
  {
    && |rank| == |t.nodes| && k < |t.nodes| && LiveNode(t, k) && k != InvalidNodeId
    && Sound(t, rank, k) && (k == t.root || EnteredBy(t, k))
  }

  ghost predicate TreeShaped(t: Net, rank: seq<nat>)
  {
    Solvable(t, rank, t.root)
  }

  // ---------------------------------------------------------------------
  // the specification

  /** The wire `insert` applied to every solution. */
  function Wired(sols: seq<Solution>, len: nat, p: Point, eid: nat, tech: Technology): (r: seq<Solution>)
    requires AllNonEmpty(sols)
    ensures AllNonEmpty(r)
  {
    seq(|sols|, i requires 0 <= i < |sols| => InsertWire(sols[i], len, p, eid, tech))
  }

  /** The buffer `insert` applied to a copy of every solution. */
  function Buffered(sols: seq<Solution>, m: Module): (r: seq<Solution>)
    requires AllNonEmpty(sols)
    ensures AllNonEmpty(r)
  {
    seq(|sols|, i requires 0 <= i < |sols| => InsertBuffer(sols[i], m))
  }

  /** One split point: extend every solution by the wire up to `p`, prune,
      add a buffered copy of each survivor, prune again. */
  ghost function Step(sols: seq<Solution>, p: Point, eid: nat, s: Setting): (r: seq<Solution>)
    requires |sols| > 0 && AllNonEmpty(sols)
    ensures |r| > 0 && AllNonEmpty(r)
  {
    var both := StepCandidates(sols, p, eid, s);
    PruneNonEmpty(both);
    Prune(both)
  }

  /** The wired survivors and their buffered copies, before the second
      pruning of a split point. */
  ghost function StepCandidates(sols: seq<Solution>, p: Point, eid: nat, s: Setting): (r: seq<Solution>)
    requires |sols| > 0 && AllNonEmpty(sols)
    ensures |r| > 0 && AllNonEmpty(r)
  {
    var len := Distance(Last(sols[|sols| - 1]).p, p);
    var w := Wired(sols, len, p, eid, s.tech);
    PruneNonEmpty(w);
    var wired := Prune(w);
    wired + Buffered(wired, s.buffer)
  }

  /** All split points of the parent edge, in order. */
  ghost function Along(sols: seq<Solution>, points: seq<Point>, eid: nat, s: Setting): (r: seq<Solution>)
    requires |sols| > 0 && AllNonEmpty(sols)
    ensures |r| > 0 && AllNonEmpty(r)
    decreases |points|
  {
    if points == [] then sols else Along(Step(sols, points[0], eid, s), points[1..], eid, s)
  }

  /** A solution at the root after the driver: the buffer `insert`, with the
      buffer mark then cleared again. */
  function Driven(sol: Solution, m: Module): (r: Solution)
    requires |sol| > 0
    ensures |r| == |sol| && r[..|sol| - 1] == sol[..|sol| - 1]
    ensures Last(r) == Last(sol).(rat := Last(sol).rat - (m.k + m.r * Last(sol).capacity),
                                  capacity := m.c, hasBuffer := false)
  {
    var b := InsertBuffer(sol, m);
    b[|b| - 1 := Last(b).(hasBuffer := false)]
  }

  function Finish(sols: seq<Solution>, m: Module): (r: seq<Solution>)
    requires AllNonEmpty(sols)
    ensures |r| == |sols| && AllNonEmpty(r)
  {
    seq(|sols|, i requires 0 <= i < |sols| => Driven(sols[i], m))
  }

  ghost predicate Visitable(t: Net, s: Setting, k: nat, kids: seq<seq<Solution>>)
  {
    && k < |t.nodes| && s.step > 0
    && AllListsNonEmpty(kids) && (forall c :: 0 <= c < |kids| ==> |kids[c]| > 0)
    && (t.nodes[k].node.kind == Terminal || |kids| > 0)
    && (k == t.root || EnteredBy(t, k))
  }

  /** What one visit of node `k` stores, given its children's solutions:
      merge, prune, then either the driver (at the root) or the walk up the
      parent edge. */
  ghost function Visit(t: Net, s: Setting, k: nat, kids: seq<seq<Solution>>): (r: seq<Solution>)
    requires Visitable(t, s, k, kids)
    ensures |r| > 0 && AllNonEmpty(r)
  {
    var merged := Merge(kids, t.nodes[k].node);
    MergeNonEmpty(kids, t.nodes[k].node);
    PruneNonEmpty(merged);
    var pruned := Prune(merged);
    if k == t.root then Finish(pruned, s.buffer)
    else
      var eid := t.nodes[k].parent;
      Along(pruned, SplitPoints(t.edges[eid].edge.ps, s.step), eid, s)
  }

  /** The children of `k`, as the nodes their edges lead to. */
  predicate ChildEdgesExist(t: Net, k: nat)
    requires k < |t.nodes|
  {
    forall i :: 0 <= i < |t.nodes[k].children| ==> t.nodes[k].children[i] < |t.edges|
  }

  function ChildNodes(t: Net, k: nat): (r: seq<nat>)
    requires k < |t.nodes| && ChildEdgesExist(t, k)
    ensures |r| == |t.nodes[k].children|
  {
    var cs := t.nodes[k].children;
    seq(|cs|, i requires 0 <= i < |cs| => t.edges[cs[i]].last)
  }

  /** The solutions the algorithm stores for node `k`. */
  ghost function Solve(t: Net, rank: seq<nat>, s: Setting, k: nat): (r: seq<Solution>)
    requires Solvable(t, rank, k) && s.step > 0
    ensures |r| > 0 && AllNonEmpty(r)
    decreases rank[k]
  {
    var cs := t.nodes[k].children;
    var kids := seq(|cs|, i requires 0 <= i < |cs| =>
      assert cs[i] in cs && ChildEdge(t, rank, k, cs[i]);
      Solve(t, rank, s, t.edges[cs[i]].last));
    Visit(t, s, k, kids)
  }

  /** `std::max_element` by RAT over the first `k` solutions: the first one
      with the largest RAT. */
  function MaxRat(sols: seq<Solution>, k: nat): (b: nat)
    requires AllNonEmpty(sols) && 0 < k <= |sols|
    ensures b < k
    ensures forall j :: 0 <= j < k ==> Last(sols[j]).rat <= Last(sols[b]).rat
    ensures forall j :: 0 <= j < b ==> Last(sols[j]).rat < Last(sols[b]).rat
  {
    if k == 1 then 0
    else
      var b := MaxRat(sols, k - 1);
      if Last(sols[b]).rat < Last(sols[k - 1]).rat then k - 1 else b
  }

  // ---------------------------------------------------------------------
  // the loops

  /** The wire and buffer extensions for one split point. */
  method StepTo(sols: seq<Solution>, p: Point, eid: nat, s: Setting) returns (r: seq<Solution>)
    requires |sols| > 0 && AllNonEmpty(sols)
    ensures r == Step(sols, p, eid, s)
  {
    var last := Last(sols[|sols| - 1]);
    var length := Distance(last.p, p);
    r := sols;
    for i := 0 to |r|
      invariant |r| == |sols|
      invariant forall j :: 0 <= j < i ==> r[j] == InsertWire(sols[j], length, p, eid, s.tech)
      invariant forall j :: i <= j < |r| ==> r[j] == sols[j]
    {
      r := r[i := InsertWire(r[i], length, p, eid, s.tech)];
    }
    assert r == Wired(sols, length, p, eid, s.tech);
    PruneNonEmpty(r);
    r := RedundancyElimination(r);
    var copies := r;
    for i := 0 to |copies|
      invariant |copies| == |r|
      invariant forall j :: 0 <= j < i ==> copies[j] == InsertBuffer(r[j], s.buffer)
      invariant forall j :: i <= j < |copies| ==> copies[j] == r[j]
    {
      copies := copies[i := InsertBuffer(copies[i], s.buffer)];
    }
    assert copies == Buffered(r, s.buffer);
    r := r + copies;
    r := RedundancyElimination(r);
  }

  /** The loop over the split points of the parent edge. */
  method WalkUp(sols: seq<Solution>, points: seq<Point>, eid: nat, s: Setting) returns (r: seq<Solution>)
    requires |sols| > 0 && AllNonEmpty(sols)
    ensures r == Along(sols, points, eid, s)
  {
    r := sols;
    for i := 0 to |points|
      invariant |r| > 0 && AllNonEmpty(r)
      invariant Along(r, points[i..], eid, s) == Along(sols, points, eid, s)
    {
      assert points[i..][1..] == points[i + 1..];
      r := StepTo(r, points[i], eid, s);
    }
  }

  /** The loop over the root's solutions. */
  method DriveRoot(sols: seq<Solution>, m: Module) returns (r: seq<Solution>)
    requires AllNonEmpty(sols)
    ensures r == Finish(sols, m)
  {
    r := sols;
    for i := 0 to |r|
      invariant |r| == |sols|
      invariant forall j :: 0 <= j < i ==> r[j] == Driven(sols[j], m)
      invariant forall j :: i <= j < |r| ==> r[j] == sols[j]
    {
      var solution := InsertBuffer(r[i], m);
      solution := solution[|solution| - 1 := Last(solution).(hasBuffer := false)];
      r := r[i := solution];
    }
  }

  /** The body of the worklist loop once every child has been visited. */
  method VisitNode(t: Net, s: Setting, top: nat, kids: seq<seq<Solution>>) returns (solutions: seq<Solution>)
    requires Visitable(t, s, top, kids)
    ensures solutions == Visit(t, s, top, kids)
  {
    var node := t.nodes[top].node;
    solutions := MergeSolutions(kids, node);
    MergeNonEmpty(kids, node);
    solutions := RedundancyElimination(solutions);
    PruneNonEmpty(Merge(kids, node));
    if top == t.root {
      solutions := DriveRoot(solutions, s.buffer);
    } else {
      var eid := t.nodes[top].parent;
      var points := SplitEdge(t.edges[eid].edge, s.step);
      solutions := WalkUp(solutions, points, eid, s);
    }
  }

  /** The visited children's solutions, in order. */
  function Found(cs: seq<nat>, visited: map<nat, seq<Solution>>): (r: seq<seq<Solution>>)
    ensures |r| <= |cs|
  {
    if cs == [] then []
    else
      var r := Found(cs[..|cs| - 1], visited);
      var c := cs[|cs| - 1];
      if c in visited then r + [visited[c]] else r
  }

  /** The children not visited yet, in order. */
  function Missing(cs: seq<nat>, visited: map<nat, seq<Solution>>): (r: seq<nat>)
    ensures |Found(cs, visited)| + |r| == |cs|
  {
    if cs == [] then []
    else
      var r := Missing(cs[..|cs| - 1], visited);
      var c := cs[|cs| - 1];
      if c in visited then r else r + [c]
  }

  /** The missing children are exactly those not visited yet, each once
      when the children are distinct. */
  lemma {:induction false} MissingExactly(cs: seq<nat>, visited: map<nat, seq<Solution>>)
    ensures forall c :: c in Missing(cs, visited) <==> c in cs && c !in visited
    ensures NoDuplicates(cs) ==> NoDuplicates(Missing(cs, visited))
  {
    if cs != [] {
      var front := cs[..|cs| - 1];
      MissingExactly(front, visited);
      assert forall x :: x in cs <==> x in front || x == cs[|cs| - 1];
      if NoDuplicates(cs) {
        assert NoDuplicates(front);
      }
    }
  }

  /** With nothing missing, the visited solutions are every child's. */
  lemma {:induction false} FoundAll(cs: seq<nat>, visited: map<nat, seq<Solution>>)
    requires Missing(cs, visited) == []
    ensures |Found(cs, visited)| == |cs|
    ensures forall i :: 0 <= i < |cs| ==> cs[i] in visited && Found(cs, visited)[i] == visited[cs[i]]
  {
    if cs != [] {
      var front := cs[..|cs| - 1];
      assert forall x :: x in front ==> x in cs;
      FoundAll(front, visited);
      assert cs[|cs| - 1] in cs;
    }
  }

  /** The children loop: children already visited contribute their
      solutions, the others are pushed on the worklist. */
  method Gather(children: seq<nat>, visited: map<nat, seq<Solution>>, backtrack: seq<nat>)
    returns (found: seq<seq<Solution>>, stack: seq<nat>)
    ensures found == Found(children, visited)
    ensures stack == backtrack + Missing(children, visited)
  {
    found, stack := [], backtrack;
    for i := 0 to |children|
      invariant found == Found(children[..i], visited)
      invariant stack == backtrack + Missing(children[..i], visited)
    {
      GatherStep(children, i, visited, backtrack, found, stack);
      var child := children[i];
      if child !in visited {
        stack := stack + [child];
      } else {
        found := found + [visited[child]];
      }
    }
    PrefixAll(children);
  }

  /** One child more: a visited child adds its stored list to what was
      found, an unvisited one is pushed. */
  lemma GatherStep(cs: seq<nat>, i: nat, visited: map<nat, seq<Solution>>,
                   backtrack: seq<nat>, found: seq<seq<Solution>>, stack: seq<nat>)
    requires i < |cs| && found == Found(cs[..i], visited) && stack == backtrack + Missing(cs[..i], visited)
    ensures cs[i] in visited ==>
      found + [visited[cs[i]]] == Found(cs[..i + 1], visited) && stack == backtrack + Missing(cs[..i + 1], visited)
    ensures cs[i] !in visited ==>
      found == Found(cs[..i + 1], visited) && stack + [cs[i]] == backtrack + Missing(cs[..i + 1], visited)
  {
    assert cs[..i + 1][..i] == cs[..i];
    if cs[i] !in visited {
      AppendAssoc(backtrack, Missing(cs[..i], visited), [cs[i]]);
    }
  }

  // ---------------------------------------------------------------------
  // the worklist invariant

  /** The worklist: the root at the bottom, no node twice, every node
      solvable, and each node above the bottom pushed by its parent, which
      lies below it. */
  ghost predicate Stacked(t: Net, rank: seq<nat>, st: seq<nat>)
  {
    && |rank| == |t.nodes| && t.root < |t.nodes|
    && (st != [] ==> st[0] == t.root)
    && NoDuplicates(st)
    && (forall j :: 0 <= j < |st| ==> Solvable(t, rank, st[j]))
    && (forall j :: 0 < j < |st| ==> st[j] < |t.nodes| && rank[st[j]] < rank[t.root] && PushedBy(t, st, j))
  }

  ghost predicate PushedBy(t: Net, st: seq<nat>, j: nat)
    requires j < |st| && st[j] < |t.nodes|
  {
    t.nodes[st[j]].parent < |t.edges| && exists i :: 0 <= i < j && st[i] == t.edges[t.nodes[st[j]].parent].first
  }

  /** Every stored solution list is the node's `Solve`. */
  ghost predicate Memo(t: Net, rank: seq<nat>, s: Setting, visited: map<nat, seq<Solution>>)
  {
    s.step > 0 &&
    forall k :: k in visited && k != InvalidNodeId ==> Solvable(t, rank, k) && visited[k] == Solve(t, rank, s, k)
  }

  ghost function Unvisited(t: Net, visited: map<nat, seq<Solution>>, st: seq<nat>): set<nat>
  {
    set n: nat | n < |t.nodes| && n !in visited && n !in st
  }

  /** The children of the node on top of the worklist are not on it. */
  lemma ChildNotStacked(t: Net, rank: seq<nat>, st: seq<nat>, e: nat)
    requires Stacked(t, rank, st) && st != [] && e in t.nodes[st[|st| - 1]].children
    ensures ChildEdge(t, rank, st[|st| - 1], e)
    ensures t.edges[e].last !in st
  {
    var top := st[|st| - 1];
    assert Solvable(t, rank, top);
    var c := t.edges[e].last;
    assert rank[c] < rank[top] <= rank[t.root];
    forall j | 0 < j < |st|
      ensures st[j] != c
    {
      assert PushedBy(t, st, j);
      var i :| 0 <= i < j && st[i] == t.edges[t.nodes[st[j]].parent].first;
      assert st[i] != top;
    }
  }

  /** What a child of the top may be pushed as. */
  ghost predicate Pushable(t: Net, rank: seq<nat>, st: seq<nat>, c: nat)
    requires st != []
  {
    && Solvable(t, rank, c) && t.root < |t.nodes| && rank[c] < rank[t.root] && c !in st
    && t.nodes[c].parent < |t.edges| && t.edges[t.nodes[c].parent].first == st[|st| - 1]
  }

  /** The children of the top are distinct and may all be pushed. */
  lemma ChildrenOfTop(t: Net, rank: seq<nat>, st: seq<nat>)
    requires Stacked(t, rank, st) && st != [] && ChildEdgesExist(t, st[|st| - 1])
    ensures NoDuplicates(ChildNodes(t, st[|st| - 1]))
    ensures forall c :: c in ChildNodes(t, st[|st| - 1]) ==> Pushable(t, rank, st, c)
  {
    var top := st[|st| - 1];
    var cs := t.nodes[top].children;
    var children := ChildNodes(t, top);
    assert Solvable(t, rank, top);
    forall i | 0 <= i < |cs|
      ensures ChildEdge(t, rank, top, cs[i]) && Pushable(t, rank, st, children[i])
    {
      assert cs[i] in cs;
      ChildNotStacked(t, rank, st, cs[i]);
    }
    forall a, b | 0 <= a < b < |children|
      ensures children[a] != children[b]
    {
      assert t.nodes[children[a]].parent == cs[a] && t.nodes[children[b]].parent == cs[b];
    }
  }

  lemma AppendDistinct(st: seq<nat>, pushed: seq<nat>)
    requires NoDuplicates(st) && NoDuplicates(pushed) && forall c :: c in pushed ==> c !in st
    ensures NoDuplicates(st + pushed)
  {
    var st' := st + pushed;
    forall a, b | 0 <= a < b < |st'|
      ensures st'[a] != st'[b]
    {
      if b >= |st| && a < |st| {
        assert st'[b] in pushed;
        assert st'[a] in st;
      }
    }
  }

  /** The entries pushed on top satisfy the worklist invariant. */
  lemma PushedEntries(t: Net, rank: seq<nat>, st: seq<nat>, pushed: seq<nat>)
    requires Stacked(t, rank, st) && st != []
    requires forall c :: c in pushed ==> Pushable(t, rank, st, c)
    ensures forall j :: |st| <= j < |st + pushed| ==>
      Solvable(t, rank, (st + pushed)[j]) && (st + pushed)[j] < |t.nodes|
      && rank[(st + pushed)[j]] < rank[t.root] && PushedBy(t, st + pushed, j)
  {
    var st' := st + pushed;
    forall j | |st| <= j < |st'|
      ensures Solvable(t, rank, st'[j]) && st'[j] < |t.nodes| && rank[st'[j]] < rank[t.root] && PushedBy(t, st', j)
    {
      assert st'[j] in pushed;
      assert Pushable(t, rank, st, st'[j]);
      assert st'[|st| - 1] == st[|st| - 1];
    }
  }

  /** The entries already on the worklist keep their pushing parents. */
  lemma OldEntries(t: Net, rank: seq<nat>, st: seq<nat>, pushed: seq<nat>)
    requires Stacked(t, rank, st)
    ensures forall j :: 0 < j < |st| ==> PushedBy(t, st + pushed, j)
  {
    var st' := st + pushed;
    forall j | 0 < j < |st|
      ensures PushedBy(t, st', j)
    {
      assert PushedBy(t, st, j);
      var i :| 0 <= i < j && st[i] == t.edges[t.nodes[st[j]].parent].first;
      assert st'[i] == st[i];
    }
  }

  /** The nodes the children loop pushes keep the worklist invariant. */
  lemma PushKeepsStacked(t: Net, rank: seq<nat>, st: seq<nat>, visited: map<nat, seq<Solution>>)
    requires Stacked(t, rank, st) && st != []
    requires ChildEdgesExist(t, st[|st| - 1])
    ensures Stacked(t, rank, st + Missing(ChildNodes(t, st[|st| - 1]), visited))
    ensures forall c :: c in Missing(ChildNodes(t, st[|st| - 1]), visited) ==> c < |t.nodes| && c !in st
  {
    var children := ChildNodes(t, st[|st| - 1]);
    ChildrenOfTop(t, rank, st);
    var pushed := Missing(children, visited);
    MissingExactly(children, visited);
    PushedEntries(t, rank, st, pushed);
    OldEntries(t, rank, st, pushed);
    AppendDistinct(st, pushed);
    var st' := st + pushed;
    assert forall j :: 0 <= j < |st| ==> st'[j] == st[j];
  }

  /** Popping the top keeps the worklist invariant. */
  lemma PopKeepsStacked(t: Net, rank: seq<nat>, st: seq<nat>)
    requires Stacked(t, rank, st) && st != []
    ensures Stacked(t, rank, st[..|st| - 1])
  {
    var st' := st[..|st| - 1];
    forall j | 0 < j < |st'|
      ensures PushedBy(t, st', j)
    {
      assert PushedBy(t, st, j);
      var i :| 0 <= i < j && st[i] == t.edges[t.nodes[st[j]].parent].first;
      assert st'[i] == st[i];
    }
  }

  /** `Solve` of a node from its children's `Solve`. */
  lemma SolveUnfold(t: Net, rank: seq<nat>, s: Setting, k: nat, kids: seq<seq<Solution>>)
    requires Solvable(t, rank, k) && s.step > 0
    requires |kids| == |t.nodes[k].children|
    requires forall i :: 0 <= i < |kids| ==>
      (&& t.nodes[k].children[i] in t.nodes[k].children
       && ChildEdge(t, rank, k, t.nodes[k].children[i])
       && kids[i] == Solve(t, rank, s, t.edges[t.nodes[k].children[i]].last))
    ensures Visitable(t, s, k, kids)
    ensures Solve(t, rank, s, k) == Visit(t, s, k, kids)
  {
    var cs := t.nodes[k].children;
    var ks := seq(|cs|, i requires 0 <= i < |cs| =>
      assert cs[i] in cs && ChildEdge(t, rank, k, cs[i]);
      Solve(t, rank, s, t.edges[cs[i]].last));
    assert ks == kids;
  }

  ghost predicate AllChildEdges(t: Net, rank: seq<nat>, k: nat)
    requires |rank| == |t.nodes| && k < |t.nodes|
  {
    var cs := t.nodes[k].children;
    forall i :: 0 <= i < |cs| ==> ChildEdge(t, rank, k, cs[i])
  }

  /** The child edges of the node on top of the worklist exist. */
  lemma TopChildren(t: Net, rank: seq<nat>, st: seq<nat>)
    requires Stacked(t, rank, st) && st != []
    ensures ChildEdgesExist(t, st[|st| - 1])
    ensures AllChildEdges(t, rank, st[|st| - 1])
  {
    var top := st[|st| - 1];
    assert Solvable(t, rank, top);
    var cs := t.nodes[top].children;
    forall i | 0 <= i < |cs|
      ensures ChildEdge(t, rank, top, cs[i])
    {
      assert cs[i] in cs;
    }
  }

  /** Pushing the missing children shrinks the set of nodes neither
      visited nor on the worklist. */
  lemma PushShrinks(t: Net, rank: seq<nat>, st: seq<nat>, visited: map<nat, seq<Solution>>)
    requires Stacked(t, rank, st) && st != [] && ChildEdgesExist(t, st[|st| - 1])
    requires Missing(ChildNodes(t, st[|st| - 1]), visited) != []
    ensures Unvisited(t, visited, st + Missing(ChildNodes(t, st[|st| - 1]), visited)) < Unvisited(t, visited, st)
  {
    var pushed := Missing(ChildNodes(t, st[|st| - 1]), visited);
    MissingExactly(ChildNodes(t, st[|st| - 1]), visited);
    PushKeepsStacked(t, rank, st, visited);
    var c := pushed[0];
    assert c in pushed;
    assert c in Unvisited(t, visited, st);
    assert c !in Unvisited(t, visited, st + pushed);
  }

  /** Once no child is missing, the gathered solutions are the children's
      `Solve`, so the visit computes the node's own. */
  lemma KidsSolved(t: Net, rank: seq<nat>, s: Setting, st: seq<nat>, visited: map<nat, seq<Solution>>,
                   kids: seq<seq<Solution>>)
    requires Stacked(t, rank, st) && st != [] && Memo(t, rank, s, visited)
    requires ChildEdgesExist(t, st[|st| - 1])
    requires Missing(ChildNodes(t, st[|st| - 1]), visited) == []
    requires kids == Found(ChildNodes(t, st[|st| - 1]), visited)
    ensures Visitable(t, s, st[|st| - 1], kids)
    ensures Solve(t, rank, s, st[|st| - 1]) == Visit(t, s, st[|st| - 1], kids)
  {
    var top := st[|st| - 1];
    var children := ChildNodes(t, top);
    TopChildren(t, rank, st);
    FoundAll(children, visited);
    assert Solvable(t, rank, top);
    forall i | 0 <= i < |children|
      ensures t.nodes[top].children[i] in t.nodes[top].children
        && ChildEdge(t, rank, top, t.nodes[top].children[i])
        && kids[i] == Solve(t, rank, s, t.edges[t.nodes[top].children[i]].last)
    {
      assert t.nodes[top].children[i] in t.nodes[top].children;
      assert children[i] in visited && children[i] != InvalidNodeId;
    }
    SolveUnfold(t, rank, s, top, kids);
  }

  /** Storing the top's solutions and popping it keeps the invariants and
      leaves the unvisited set as it was. */
  lemma PopStep(t: Net, rank: seq<nat>, s: Setting, st: seq<nat>, visited: map<nat, seq<Solution>>)
    requires Stacked(t, rank, st) && st != [] && Memo(t, rank, s, visited)
    ensures Stacked(t, rank, st[..|st| - 1])
    ensures Memo(t, rank, s, visited[st[|st| - 1] := Solve(t, rank, s, st[|st| - 1])])
    ensures Unvisited(t, visited[st[|st| - 1] := Solve(t, rank, s, st[|st| - 1])], st[..|st| - 1])
         == Unvisited(t, visited, st)
    ensures st[|st| - 1] == t.root ==> st[..|st| - 1] == []
  {
    var top := st[|st| - 1];
    assert Solvable(t, rank, top);
    PopKeepsStacked(t, rank, st);
    var v' := visited[top := Solve(t, rank, s, top)];
    var st' := st[..|st| - 1];
    assert forall n :: n in st <==> n in st' || n == top;
    assert Unvisited(t, v', st') == Unvisited(t, visited, st);
    if |st| > 1 {
      assert rank[st[|st| - 1]] < rank[t.root];
    }
  }

  /** `bufferInsertion`: a depth-first worklist over the tree that stores
      each node's solutions once all its children's are known, then returns
      the root solution with the largest RAT.  The buffer module is looked
      up once up front; the source looks it up at every buffer `insert`,
      and the root always reaches one, so both fail exactly when it is
      missing. */
  method BufferInsertion(g: RCGraph, step: nat, ghost rank: seq<nat>) returns (r: Result<Solution, string>)
    requires TreeShaped(Snapshot(g), rank) && step > 0
    ensures r.Failure? <==> BufferModule !in g.cfg.modules
    ensures r.Failure? ==> r.error == NoSuchModule
    ensures r.Success? ==>
      var all := Solve(Snapshot(g), rank, Setting(step, g.cfg.tech, g.cfg.modules[BufferModule]), g.root);
      && r.value == all[MaxRat(all, |all|)]
      && forall x :: x in all ==> Last(x).rat <= Last(r.value).rat
  {
    var buffer :- GetModule(g.GetAttrs(), BufferModule);
    var t := Net(g.nodes, g.freeNodeIds, g.edges, g.freeEdgeIds, g.GetRoot());
    var s := Setting(step, GetTechnology(g.GetAttrs()), buffer);
    var backtrack := [t.root];
    var visited: map<nat, seq<Solution>> := map[InvalidNodeId := []];
    while backtrack != []
      invariant Stacked(t, rank, backtrack)
      invariant Memo(t, rank, s, visited)
      invariant backtrack == [] ==> t.root in visited
      decreases Unvisited(t, visited, backtrack), |backtrack|
    {
      var top := backtrack[|backtrack| - 1];
      TopChildren(t, rank, backtrack);
      var children := ChildNodes(t, top);
      var solutions_of, stack := Gather(children, visited, backtrack);
      if |solutions_of| < |children| {
        PushKeepsStacked(t, rank, backtrack, visited);
        PushShrinks(t, rank, backtrack, visited);
        backtrack := stack;
      } else {
        KidsSolved(t, rank, s, backtrack, visited, solutions_of);
        var solutions := VisitNode(t, s, top, solutions_of);
        PopStep(t, rank, s, backtrack, visited);
        visited := visited[top := solutions];
        backtrack := backtrack[..|backtrack| - 1];
      }
    }
    var solutions := visited[t.root];
    var best := MaxRat(solutions, |solutions|);
    r := Success(solutions[best]);
  }

  // ---------------------------------------------------------------------
  // properties of the stored solutions

  /** `Solve` as a visit of the node with its children's `Solve`. */
  lemma SolveVisits(t: Net, rank: seq<nat>, s: Setting, k: nat) returns (kids: seq<seq<Solution>>)
    requires Solvable(t, rank, k) && s.step > 0
    ensures Visitable(t, s, k, kids) && Solve(t, rank, s, k) == Visit(t, s, k, kids)
  {
    var cs := t.nodes[k].children;
    kids := seq(|cs|, i requires 0 <= i < |cs| =>
      assert cs[i] in cs && ChildEdge(t, rank, k, cs[i]);
      Solve(t, rank, s, t.edges[cs[i]].last));
  }

  /** Whatever the split points, the walk up an edge ends in a pruning. */
  lemma {:induction false} AlongPruned(sols: seq<Solution>, points: seq<Point>, eid: nat, s: Setting, y: seq<Solution>)
    returns (x: seq<Solution>)
    requires AllNonEmpty(y) && sols == Prune(y) && |sols| > 0 && AllNonEmpty(sols)
    ensures AllNonEmpty(x) && Along(sols, points, eid, s) == Prune(x)
    decreases |points|
  {
    if points == [] {
      x := y;
    } else {
      var next := Step(sols, points[0], eid, s);
      x := AlongPruned(next, points[1..], eid, s, StepCandidates(sols, points[0], eid, s));
    }
  }

  /** At every node but the root, no stored solution dominates another:
      each is a pruning survivor. */
  lemma SolveIncomparable(t: Net, rank: seq<nat>, s: Setting, k: nat, a: nat, b: nat)
    requires Solvable(t, rank, k) && s.step > 0 && k != t.root
    requires a < |Solve(t, rank, s, k)| && b < |Solve(t, rank, s, k)| && a != b
    ensures !Dominates(Solve(t, rank, s, k)[a], Solve(t, rank, s, k)[b])
  {
    var kids := SolveVisits(t, rank, s, k);
    var node := t.nodes[k].node;
    var merged := Merge(kids, node);
    MergeNonEmpty(kids, node);
    PruneNonEmpty(merged);
    var eid := t.nodes[k].parent;
    var x := AlongPruned(Prune(merged), SplitPoints(t.edges[eid].edge.ps, s.step), eid, s, merged);
    SurvivorsIncomparable(x, a, b);
  }

  lemma PruneMember(s: seq<Solution>, x: Solution)
    requires AllNonEmpty(s) && x in Prune(s)
    ensures x in s
  {
    var t :| 0 <= t < |Prune(s)| && Prune(s)[t] == x;
  }

  /** Every solution's last candidate sits at `p` on edge `eid`. */
  predicate EndAt(sols: seq<Solution>, p: Point, eid: nat)
  {
    forall i :: 0 <= i < |sols| ==> |sols[i]| > 0 && Last(sols[i]).p == p && Last(sols[i]).eid == eid
  }

  lemma PruneKeepsEndAt(sols: seq<Solution>, p: Point, eid: nat)
    requires AllNonEmpty(sols) && EndAt(sols, p, eid)
    ensures EndAt(Prune(sols), p, eid)
  {
  }

  /** After a split point every solution ends there, on edge `eid`. */
  lemma StepEnds(sols: seq<Solution>, p: Point, eid: nat, s: Setting)
    requires |sols| > 0 && AllNonEmpty(sols)
    ensures EndAt(Step(sols, p, eid, s), p, eid)
  {
    var len := Distance(Last(sols[|sols| - 1]).p, p);
    var w := Wired(sols, len, p, eid, s.tech);
    PruneNonEmpty(w);
    PruneKeepsEndAt(w, p, eid);
    var wired := Prune(w);
    var both := wired + Buffered(wired, s.buffer);
    assert EndAt(both, p, eid);
    assert StepCandidates(sols, p, eid, s) == both;
    PruneKeepsEndAt(both, p, eid);
  }

  /** After the walk up an edge with split points, every solution ends at
      the last of them, on that edge. */
  lemma {:induction false} AlongEnds(sols: seq<Solution>, points: seq<Point>, eid: nat, s: Setting)
    requires |sols| > 0 && AllNonEmpty(sols) && points != []
    ensures EndAt(Along(sols, points, eid, s), points[|points| - 1], eid)
    decreases |points|
  {
    var next := Step(sols, points[0], eid, s);
    var rest := points[1..];
    assert Along(sols, points, eid, s) == Along(next, rest, eid, s);
    if rest == [] {
      assert Along(next, rest, eid, s) == next;
      assert points[|points| - 1] == points[0];
      StepEnds(sols, points[0], eid, s);
    } else {
      AlongEnds(next, rest, eid, s);
      assert rest[|rest| - 1] == points[|points| - 1];
    }
  }

  /** The solutions a non-root node hands to its parent sit at the parent's
      end of the edge (its first point) and on that edge, unless the edge
      is degenerate. */
  lemma SolveAtEdgeStart(t: Net, rank: seq<nat>, s: Setting, k: nat)
    requires Solvable(t, rank, k) && s.step > 0 && k != t.root
    requires var ps := t.edges[t.nodes[k].parent].edge.ps; !SamePoint(ps[0], ps[|ps| - 1])
    ensures EndAt(Solve(t, rank, s, k), t.edges[t.nodes[k].parent].edge.ps[0], t.nodes[k].parent)
  {
    var kids := SolveVisits(t, rank, s, k);
    var node := t.nodes[k].node;
    MergeNonEmpty(kids, node);
    PruneNonEmpty(Merge(kids, node));
    var eid := t.nodes[k].parent;
    var ps := t.edges[eid].edge.ps;
    AlongEnds(Prune(Merge(kids, node)), SplitPoints(ps, s.step), eid, s);
  }

  /** At the root every solution has passed the driver: its last candidate
      presents the buffer's input capacity and carries no buffer mark. */
  lemma RootDriven(t: Net, rank: seq<nat>, s: Setting, x: Solution) returns (kids: seq<seq<Solution>>, y: Solution)
    requires Solvable(t, rank, t.root) && s.step > 0 && x in Solve(t, rank, s, t.root)
    ensures Visitable(t, s, t.root, kids)
    ensures Solve(t, rank, s, t.root) == Finish(Prune(Merge(kids, t.nodes[t.root].node)), s.buffer)
    ensures y in Prune(Merge(kids, t.nodes[t.root].node)) && |y| > 0 && x == Driven(y, s.buffer)
    ensures |x| > 0 && Last(x).capacity == s.buffer.c && !Last(x).hasBuffer
  {
    kids := RootFinish(t, rank, s);
    var pruned := Prune(Merge(kids, t.nodes[t.root].node));
    y := FinishedDriven(pruned, s.buffer, x);
  }

  /** The root's solutions are the finished pruned merge of its
      children's. */
  lemma RootFinish(t: Net, rank: seq<nat>, s: Setting) returns (kids: seq<seq<Solution>>)
    requires Solvable(t, rank, t.root) && s.step > 0
    ensures Visitable(t, s, t.root, kids)
    ensures Solve(t, rank, s, t.root) == Finish(Prune(Merge(kids, t.nodes[t.root].node)), s.buffer)
  {
    kids := SolveVisits(t, rank, s, t.root);
    MergeNonEmpty(kids, t.nodes[t.root].node);
    PruneNonEmpty(Merge(kids, t.nodes[t.root].node));
  }

  /** Every finished solution is one of the given solutions with the
      driver applied. */
  lemma FinishedDriven(sols: seq<Solution>, m: Module, x: Solution) returns (y: Solution)
    requires AllNonEmpty(sols) && x in Finish(sols, m)
    ensures y in sols && |y| > 0 && x == Driven(y, m)
    ensures |x| > 0 && Last(x).capacity == m.c && !Last(x).hasBuffer
    ensures Last(x).rat == Last(y).rat - (m.k + m.r * Last(y).capacity)
  {
    var i :| 0 <= i < |sols| && Finish(sols, m)[i] == x;
    y := sols[i];
  }
}
