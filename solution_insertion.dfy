/** Writing the chosen solution back into the tree
    (src/SolutionInsertion.cpp, `insertSolution`): the candidates are
    grouped by the edge they lie on; each group's edge is replaced by a
    chain of new edges through one new buffer node per candidate. */
module SolutionInsertion {
  import opened Wrappers
  import opened Geometry
  import opened Configuration
  import opened Graphs
  import opened Candidates
  import opened SplitPieces
  import opened Seqs

  // ---------------------------------------------------------------------
  // grouping and sorting

  /** The candidates lying on edge `eid`, in solution order: what
      `Grouped[EId]` collects. */
  function Group(sol: Solution, eid: nat): (g: Solution)
    ensures forall c :: c in g <==> c in sol && c.eid == eid
    ensures |g| <= |sol|
  {
    if sol == [] then []
    else
      var rest := Group(sol[1..], eid);
      assert forall c :: c in sol <==> c == sol[0] || c in sol[1..];
      if sol[0].eid == eid then [sol[0]] + rest else rest
  }

  /** How many leading candidates of `s` are no farther from `start` than
      `x`. */
  function Position(start: Point, x: Candidate, s: Solution): (k: nat)
    ensures k <= |s|
    ensures forall i :: 0 <= i < k ==> Distance(start, s[i].p) <= Distance(start, x.p)
    ensures k < |s| ==> Distance(start, x.p) < Distance(start, s[k].p)
  {
    if s == [] || Distance(start, x.p) < Distance(start, s[0].p) then 0
    else 1 + Position(start, x, s[1..])
  }

  /** Insert `x` after every candidate no farther from `start` than it. */
  function InsertByDistance(start: Point, x: Candidate, s: Solution): (r: Solution)
    requires SortedByDistance(start, s)
    ensures SortedByDistance(start, r)
    ensures multiset(r) == multiset(s) + multiset{x}
  {
    var k := Position(start, x, s);
    InsertSorted(start, x, s, k);
    MultisetInsert(s, k, x);
    s[..k] + [x] + s[k..]
  }

  lemma InsertSorted(start: Point, x: Candidate, s: Solution, k: nat)
    requires SortedByDistance(start, s) && k <= |s|
    requires forall i :: 0 <= i < k ==> Distance(start, s[i].p) <= Distance(start, x.p)
    requires k < |s| ==> Distance(start, x.p) < Distance(start, s[k].p)
    ensures SortedByDistance(start, s[..k] + [x] + s[k..])
  {
    var r := s[..k] + [x] + s[k..];
    forall i, j | 0 <= i < j < |r|
      ensures Distance(start, r[i].p) <= Distance(start, r[j].p)
    {
      if j < k {
        assert r[i] == s[i] && r[j] == s[j];
      } else if j == k {
        assert r[i] == s[i];
      } else if i == k {
        assert r[j] == s[j - 1];
        assert Distance(start, s[k].p) <= Distance(start, s[j - 1].p);
      } else if i < k {
        assert r[i] == s[i] && r[j] == s[j - 1];
      } else {
        assert r[i] == s[i - 1] && r[j] == s[j - 1];
      }
    }
  }

  /** The `std::sort` of a group by distance from the edge's start. */
  function SortByDistance(start: Point, s: Solution): (r: Solution)
    ensures SortedByDistance(start, r)
    ensures multiset(r) == multiset(s)
    ensures DistinctDistances(start, s) ==> DistinctDistances(start, r)
  {
    if s == [] then []
    else
      var rest := SortByDistance(start, s[1..]);
      var k := Position(start, s[0], rest);
      assert s == [s[0]] + s[1..];
      InsertKeepsDistinct(start, s, rest, k);
      InsertByDistance(start, s[0], rest)
  }

  /** Inserting the group's first candidate into the sorted rest keeps
      distances distinct. */
  lemma InsertKeepsDistinct(start: Point, s: Solution, rest: Solution, k: nat)
    requires s != [] && k <= |rest| && multiset(rest) == multiset(s[1..])
    requires DistinctDistances(start, s[1..]) ==> DistinctDistances(start, rest)
    ensures DistinctDistances(start, s) ==> DistinctDistances(start, rest[..k] + [s[0]] + rest[k..])
  {
    if DistinctDistances(start, s) {
      var r := rest[..k] + [s[0]] + rest[k..];
      assert DistinctDistances(start, s[1..]) by {
        forall i, j | 0 <= i < |s[1..]| && 0 <= j < |s[1..]| && i != j
          ensures Distance(start, s[1..][i].p) != Distance(start, s[1..][j].p)
        {
          assert s[1..][i] == s[i + 1] && s[1..][j] == s[j + 1];
        }
      }
      forall c | c in rest
        ensures Distance(start, c.p) != Distance(start, s[0].p)
      {
        assert c in multiset(s[1..]);
        var i :| 0 <= i < |s[1..]| && s[1..][i] == c;
        assert s[i + 1] == c;
      }
      forall i, j | 0 <= i < |r| && 0 <= j < |r| && i != j
        ensures Distance(start, r[i].p) != Distance(start, r[j].p)
      {
        if i != k && j != k {
          var a := if i < k then i else i - 1;
          var b := if j < k then j else j - 1;
          assert r[i] == rest[a] && r[j] == rest[b] && a != b;
        } else if i == k {
          var b := if j < k then j else j - 1;
          assert r[j] == rest[b] && rest[b] in rest;
        } else {
          var a := if i < k then i else i - 1;
          assert r[i] == rest[a] && rest[a] in rest;
        }
      }
    }
  }

  // ---------------------------------------------------------------------
  // what one group leaves in the graph

  /** The buffer node `insertSolution` makes for a candidate: the buffer
      module's name, the candidate's position, load and required time. */
  function BufferNode(m: Module, c: Candidate): (n: Node)
    ensures n.kind == Buffer && n.name == m.name && n.p == c.p
    ensures n.capacity == c.capacity && n.rat == c.rat
  {
    Node(Buffer, m.name, c.p, c.capacity, c.rat)
  }

  /** The ids a group's rewiring produced: one buffer node per candidate
      and the chain of edges through them. */
  datatype Rewired = Rewired(buffers: seq<nat>, edges: seq<nat>)

  /** The group's candidates in the order their buffers are chained. */
  function Sorted(old_: EdgeEntry, group: Solution): Solution
    requires |old_.edge.ps| > 0
  {
    SortByDistance(old_.edge.ps[0], group)
  }

  /** The polylines of the chain's edges. */
  function Pieces(old_: EdgeEntry, group: Solution): seq<seq<Point>>
    requires |old_.edge.ps| > 0
  {
    Split(Records(old_.edge.ps, Sorted(old_, group)))
  }

  /** The chain's nodes: the old edge's first node, the buffers, the old
      edge's last node. */
  function Chain(old_: EdgeEntry, w: Rewired): (c: seq<nat>)
    ensures |c| == |w.buffers| + 2 && c[0] == old_.first && c[|c| - 1] == old_.last
    ensures forall i :: 0 <= i < |w.buffers| ==> c[i + 1] == w.buffers[i]
  {
    [old_.first] + w.buffers + [old_.last]
  }

  predicate BufferAt(t: Net, b: nat, m: Module, c: Candidate)
  {
    LiveNode(t, b) && t.nodes[b].node == BufferNode(m, c)
  }

  predicate EdgeAt(t: Net, e: nat, entry: EdgeEntry)
  {
    LiveEdge(t, e) && t.edges[e] == entry
  }

  /** In `t`, the edge `old_` has been replaced by a chain through buffers
      for `sorted` along `pieces`: buffer `i` holds candidate `i`, and edge
      `i` of the chain runs from chain node `i` to chain node `i + 1` along
      piece `i`. */
  ghost predicate Rewiring(t: Net, w: Rewired, old_: EdgeEntry, sorted: Solution, pieces: seq<seq<Point>>, m: Module)
  {
    var chain := Chain(old_, w);
    && |w.buffers| == |sorted| && |w.edges| == |sorted| + 1 && |pieces| == |w.edges|
    && (forall i :: 0 <= i < |w.buffers| ==> BufferAt(t, w.buffers[i], m, sorted[i]))
    && (forall i :: 0 <= i < |w.edges| ==> EdgeAt(t, w.edges[i], EdgeEntry(chain[i], chain[i + 1], Edge(pieces[i]))))
  }

  /** The rewiring `insertSolution` does for `group` on the edge `old_`:
      the candidates sorted by distance from the edge's start, the pieces
      its polyline splits into at them. */
  ghost predicate RewiresIn(t: Net, w: Rewired, old_: EdgeEntry, group: Solution, m: Module)
    requires |old_.edge.ps| > 0
  {
    Rewiring(t, w, old_, Sorted(old_, group), Pieces(old_, group), m)
  }

  /** What one group's rewiring may not disturb: live nodes stay live with
      the same payload, the listed edges stay as they are. */
  ghost predicate Keeps(t: Net, u: Net, kept: seq<nat>)
  {
    && (forall x: nat :: LiveNode(t, x) ==> LiveNode(u, x) && u.nodes[x].node == t.nodes[x].node)
    && (forall i :: 0 <= i < |kept| ==> LiveEdge(t, kept[i]) ==> LiveEdge(u, kept[i]) && u.edges[kept[i]] == t.edges[kept[i]])
  }

  /** A finished group's chain survives later groups that keep its nodes
      and edges. */
  lemma RewiringKept(t: Net, u: Net, w: Rewired, old_: EdgeEntry, sorted: Solution, pieces: seq<seq<Point>>, m: Module)
    requires Rewiring(t, w, old_, sorted, pieces, m) && Keeps(t, u, w.edges)
    ensures Rewiring(u, w, old_, sorted, pieces, m)
  {
    var chain := Chain(old_, w);
    forall i | 0 <= i < |w.buffers|
      ensures BufferAt(u, w.buffers[i], m, sorted[i])
    {
      assert BufferAt(t, w.buffers[i], m, sorted[i]);
    }
    forall i | 0 <= i < |w.edges|
      ensures EdgeAt(u, w.edges[i], EdgeEntry(chain[i], chain[i + 1], Edge(pieces[i])))
    {
      assert EdgeAt(t, w.edges[i], EdgeEntry(chain[i], chain[i + 1], Edge(pieces[i])));
    }
  }

  /** Chain edge `i` ends at buffer `i`, chain edge `i + 1` leaves it, and
      the buffer sits where the first polyline ends and the second starts. */
  predicate Junction(t: Net, w: Rewired, i: nat)
  {
    && i < |w.buffers| && i + 1 < |w.edges|
    && w.edges[i] < |t.edges| && w.edges[i + 1] < |t.edges| && w.buffers[i] < |t.nodes|
    && var a := t.edges[w.edges[i]]; var b := t.edges[w.edges[i + 1]]; var n := t.nodes[w.buffers[i]];
      && a.last == w.buffers[i] && b.first == w.buffers[i]
      && |a.edge.ps| > 0 && a.edge.ps[|a.edge.ps| - 1] == n.node.p
      && |b.edge.ps| > 0 && b.edge.ps[0] == n.node.p
  }

  /** Every buffer sits where its incoming edge's polyline ends and its
      outgoing edge's polyline starts, and the chain starts where the old
      edge did. */
  lemma BuffersAtJunctions(t: Net, w: Rewired, old_: EdgeEntry, group: Solution, m: Module, i: nat)
    requires |old_.edge.ps| > 0 && DistinctDistances(old_.edge.ps[0], group)
    requires RewiresIn(t, w, old_, group, m) && i < |w.buffers|
    ensures Junction(t, w, i)
    ensures w.edges[0] < |t.edges| && |t.edges[w.edges[0]].edge.ps| > 0 && t.edges[w.edges[0]].edge.ps[0] == old_.edge.ps[0]
  {
    var sorted := Sorted(old_, group);
    var pieces := Pieces(old_, group);
    var chain := Chain(old_, w);
    GroupPieces(old_.edge.ps, sorted);
    assert JoinsAt(pieces, i, sorted[i].p);
    assert EdgeAt(t, w.edges[i], EdgeEntry(chain[i], chain[i + 1], Edge(pieces[i])));
    assert EdgeAt(t, w.edges[i + 1], EdgeEntry(chain[i + 1], chain[i + 2], Edge(pieces[i + 1])));
    assert EdgeAt(t, w.edges[0], EdgeEntry(chain[0], chain[1], Edge(pieces[0])));
    assert BufferAt(t, w.buffers[i], m, sorted[i]);
  }

  // ---------------------------------------------------------------------
  // the three phases of one group

  /** Two node vectors with the same payloads (kind, name, position, load,
      required time); only parents and children differ. */
  ghost predicate SamePayloads(ns: seq<NodeEntry>, ns': seq<NodeEntry>)
  {
    |ns| == |ns'| && forall x :: 0 <= x < |ns| ==> ns'[x].node == ns[x].node
  }

  lemma LinkKeepsPayloads(ns0: seq<NodeEntry>, ns: seq<NodeEntry>, first: nat, last: nat, e: nat)
    requires SamePayloads(ns0, ns) && first < |ns| && last < |ns|
    ensures SamePayloads(ns0, Link(ns, first, last, e))
  {
  }

  /** "Fixing nodes": one `addNode` per candidate, in sorted order. */
  method AddBuffers(g: RCGraph, sorted: Solution, m: Module) returns (buffers: seq<nat>)
    requires g.Valid()
    modifies g
    ensures g.Valid() && |buffers| == |sorted| && |g.nodes| >= old(|g.nodes|)
    ensures g.edges == old(g.edges) && g.freeEdgeIds == old(g.freeEdgeIds) && g.root == old(g.root) && g.cfg == old(g.cfg)
    ensures forall x: nat :: old(g.LiveNode(x)) ==> g.LiveNode(x) && g.nodes[x] == old(g.nodes[x])
    ensures forall x: nat :: g.LiveNode(x) <==> old(g.LiveNode(x)) || x in buffers
    ensures forall j :: 0 <= j < |buffers| ==> !old(g.LiveNode(buffers[j])) && BufferAt(Snapshot(g), buffers[j], m, sorted[j])
  {
    buffers := [];
    for i := 0 to |sorted|
      invariant g.Valid() && |buffers| == i && |g.nodes| >= old(|g.nodes|)
      invariant g.edges == old(g.edges) && g.freeEdgeIds == old(g.freeEdgeIds) && g.root == old(g.root) && g.cfg == old(g.cfg)
      invariant forall x: nat :: old(g.LiveNode(x)) ==> g.LiveNode(x) && g.nodes[x] == old(g.nodes[x])
      invariant forall x: nat :: g.LiveNode(x) <==> old(g.LiveNode(x)) || x in buffers
      invariant forall j :: 0 <= j < i ==> !old(g.LiveNode(buffers[j])) && BufferAt(Snapshot(g), buffers[j], m, sorted[j])
    {
      ghost var before := Snapshot(g);
      var b := g.AddNode(BufferNode(m, sorted[i]));
      assert !LiveNode(before, b);
      buffers := buffers + [b];
    }
  }

  /** The edge vectors after adding the edges `added` to `(es0, fes0)`: the
      old live edges as they were, the added ones newly live. */
  ghost predicate Grown(es0: seq<EdgeEntry>, fes0: seq<nat>, es: seq<EdgeEntry>, fes: seq<nat>, added: seq<nat>)
  {
    && |es| >= |es0|
    && (forall x: nat :: IsLive(fes, |es|, x) <==> IsLive(fes0, |es0|, x) || x in added)
    && (forall x: nat :: IsLive(fes0, |es0|, x) ==> es[x] == es0[x])
    && (forall j :: 0 <= j < |added| ==> !IsLive(fes0, |es0|, added[j]))
  }

  /** Edge `j` of `added` is live and runs from chain node `j` to chain
      node `j + 1` along piece `j`. */
  ghost predicate ChainSoFar(es: seq<EdgeEntry>, fes: seq<nat>, added: seq<nat>, chain: seq<nat>, pieces: seq<seq<Point>>)
  {
    && |added| < |chain| && |added| <= |pieces|
    && forall j :: 0 <= j < |added| ==>
      IsLive(fes, |es|, added[j]) && es[added[j]] == EdgeEntry(chain[j], chain[j + 1], Edge(pieces[j]))
  }

  /** One more allocated edge keeps both. */
  lemma ChainStep(es0: seq<EdgeEntry>, fes0: seq<nat>, es: seq<EdgeEntry>, fes: seq<nat>, added: seq<nat>,
                  chain: seq<nat>, pieces: seq<seq<Point>>, es': seq<EdgeEntry>, fes': seq<nat>, e: nat)
    requires Grown(es0, fes0, es, fes, added) && ChainSoFar(es, fes, added, chain, pieces)
    requires |added| + 1 < |chain| && |added| < |pieces|
    requires forall c: nat :: IsLive(fes', |es'|, c) <==> IsLive(fes, |es|, c) || c == e
    requires |es| <= |es'| && forall c: nat :: IsLive(fes, |es|, c) ==> c != e && es'[c] == es[c]
    requires e < |es'| && es'[e] == EdgeEntry(chain[|added|], chain[|added| + 1], Edge(pieces[|added|]))
    ensures Grown(es0, fes0, es', fes', added + [e]) && ChainSoFar(es', fes', added + [e], chain, pieces)
  {
    assert !IsLive(fes, |es|, e);
  }

  /** "Fixing edges": one `addEdge` between each pair of consecutive chain
      nodes, along the matching piece. */
  method AddChain(g: RCGraph, chain: seq<nat>, pieces: seq<seq<Point>>) returns (es: seq<nat>)
    requires g.Valid() && |chain| >= 2 && |pieces| == |chain| - 1
    requires forall i :: 0 <= i < |chain| - 1 ==> g.LiveNode(chain[i])
    requires chain[|chain| - 1] < |g.nodes|
    modifies g
    ensures g.Valid() && |es| == |pieces|
    ensures g.freeNodeIds == old(g.freeNodeIds) && g.root == old(g.root) && g.cfg == old(g.cfg)
    ensures SamePayloads(old(g.nodes), g.nodes)
    ensures Grown(old(g.edges), old(g.freeEdgeIds), g.edges, g.freeEdgeIds, es)
    ensures ChainSoFar(g.edges, g.freeEdgeIds, es, chain, pieces)
  {
    es := [];
    for idx := 0 to |chain| - 1
      invariant g.Valid() && |es| == idx
      invariant g.freeNodeIds == old(g.freeNodeIds) && g.root == old(g.root) && g.cfg == old(g.cfg)
      invariant SamePayloads(old(g.nodes), g.nodes)
      invariant Grown(old(g.edges), old(g.freeEdgeIds), g.edges, g.freeEdgeIds, es)
      invariant ChainSoFar(g.edges, g.freeEdgeIds, es, chain, pieces)
    {
      assert g.LiveNode(chain[idx]) && chain[idx + 1] < |g.nodes|;
      ghost var before := Snapshot(g);
      var entry := EdgeEntry(chain[idx], chain[idx + 1], Edge(pieces[idx]));
      var e := g.AddEdge(chain[idx], chain[idx + 1], Edge(pieces[idx]));
      AllocEdgeIds(before.nodes, before.freeNodes, before.edges, before.freeEdges, g.edges, g.freeEdgeIds, e, entry);
      LinkKeepsPayloads(old(g.nodes), before.nodes, chain[idx], chain[idx + 1], e);
      ChainStep(old(g.edges), old(g.freeEdgeIds), before.edges, before.freeEdges, es, chain, pieces, g.edges, g.freeEdgeIds, e);
      es := es + [e];
    }
  }

  /** The edge side of one group: removing `eid` and growing the chain
      `added` keeps every other live edge and adds only `added`, each of
      which is either `eid` again or was not live before. */
  lemma GroupEdges(es0: seq<EdgeEntry>, fes0: seq<nat>, fes1: seq<nat>, es: seq<EdgeEntry>, fes: seq<nat>, eid: nat, added: seq<nat>)
    requires forall x: nat :: IsLive(fes1, |es0|, x) <==> IsLive(fes0, |es0|, x) && x != eid
    requires Grown(es0, fes1, es, fes, added)
    ensures |es| >= |es0|
    ensures forall x: nat :: IsLive(fes, |es|, x) <==> (IsLive(fes0, |es0|, x) && x != eid) || x in added
    ensures forall x: nat :: IsLive(fes0, |es0|, x) && x != eid ==> es[x] == es0[x]
    ensures forall j :: 0 <= j < |added| ==> added[j] == eid || !IsLive(fes0, |es0|, added[j])
  {
  }

  /** The node side of one group: the buffers are the only new live nodes,
      and no live node's payload changes. */
  lemma GroupNodes(t0: Net, t1: Net, t2: Net, t3: Net, buffers: seq<nat>)
    requires forall x: nat :: LiveNode(t0, x) ==> LiveNode(t1, x) && t1.nodes[x] == t0.nodes[x]
    requires forall x: nat :: LiveNode(t1, x) <==> LiveNode(t0, x) || x in buffers
    requires t2.freeNodes == t1.freeNodes && SamePayloads(t1.nodes, t2.nodes)
    requires t3.freeNodes == t2.freeNodes && SamePayloads(t2.nodes, t3.nodes)
    ensures forall x: nat :: LiveNode(t0, x) ==> LiveNode(t3, x) && t3.nodes[x].node == t0.nodes[x].node
    ensures forall x: nat :: LiveNode(t3, x) <==> LiveNode(t0, x) || x in buffers
    ensures |t3.nodes| == |t1.nodes|
  {
    assert forall x: nat :: LiveNode(t3, x) <==> LiveNode(t1, x);
  }

  /** The chain built on top of the buffers is the group's rewiring. */
  lemma GroupRewiring(t1: Net, t2: Net, t3: Net, w: Rewired, old_: EdgeEntry, sorted: Solution, pieces: seq<seq<Point>>, m: Module)
    requires |w.buffers| == |sorted| && |pieces| == |sorted| + 1 && |w.edges| == |pieces|
    requires forall j :: 0 <= j < |w.buffers| ==> BufferAt(t1, w.buffers[j], m, sorted[j])
    requires t2.freeNodes == t1.freeNodes && SamePayloads(t1.nodes, t2.nodes)
    requires t3.freeNodes == t2.freeNodes && SamePayloads(t2.nodes, t3.nodes)
    requires ChainSoFar(t3.edges, t3.freeEdges, w.edges, Chain(old_, w), pieces)
    ensures Rewiring(t3, w, old_, sorted, pieces, m)
  {
    forall i | 0 <= i < |w.buffers|
      ensures BufferAt(t3, w.buffers[i], m, sorted[i])
    {
      assert BufferAt(t1, w.buffers[i], m, sorted[i]);
    }
  }

  /** The graph side of one pass of the group loop: add a buffer node per
      sorted candidate, remove the edge, and chain the new edges from its
      first node through the buffers to its last node along `pieces`. */
  method Rewire(g: RCGraph, eid: nat, sorted: Solution, pieces: seq<seq<Point>>, m: Module) returns (w: Rewired)
    requires g.Valid() && g.LiveEdge(eid) && |pieces| == |sorted| + 1
    modifies g
    ensures g.Valid()
    ensures Rewiring(Snapshot(g), w, old(g.edges[eid]), sorted, pieces, m)
    ensures forall x: nat :: old(g.LiveNode(x)) ==> g.LiveNode(x) && g.nodes[x].node == old(g.nodes[x].node)
    ensures forall x: nat :: g.LiveNode(x) <==> old(g.LiveNode(x)) || x in w.buffers
    ensures forall x: nat :: g.LiveEdge(x) <==> (old(g.LiveEdge(x)) && x != eid) || x in w.edges
    ensures |g.nodes| >= old(|g.nodes|) && |g.edges| >= old(|g.edges|)
    ensures forall x: nat :: old(g.LiveEdge(x)) && x != eid ==> g.edges[x] == old(g.edges[x])
    ensures forall j :: 0 <= j < |w.edges| ==> w.edges[j] == eid || !old(g.LiveEdge(w.edges[j]))
    ensures g.root == old(g.root) && g.cfg == old(g.cfg)
  {
    ghost var t0 := Snapshot(g);
    var first := g.GetEdgeNodeFirst(eid);
    var last := g.GetEdgeNodeLast(eid);
    var buffers := AddBuffers(g, sorted, m);
    ghost var t1 := Snapshot(g);
    forall x: nat
      ensures LiveNode(t0, x) ==> LiveNode(t1, x) && t1.nodes[x] == t0.nodes[x]
      ensures LiveNode(t1, x) <==> LiveNode(t0, x) || x in buffers
    {
      assert LiveNode(t0, x) == old(g.LiveNode(x)) && LiveNode(t1, x) == g.LiveNode(x);
    }
    g.RemoveEdge(eid);
    ghost var t2 := Snapshot(g);
    assert SamePayloads(t1.nodes, t2.nodes);
    var chain := [first] + buffers + [last];
    var es := AddChain(g, chain, pieces);
    w := Rewired(buffers, es);
    assert chain == Chain(t0.edges[eid], w);
    GroupEdges(t0.edges, t0.freeEdges, t2.freeEdges, g.edges, g.freeEdgeIds, eid, es);
    GroupNodes(t0, t1, t2, Snapshot(g), buffers);
    GroupRewiring(t1, t2, Snapshot(g), w, t0.edges[eid], sorted, pieces, m);
  }

  /** One pass of the group loop of `insertSolution`: sort the group by
      distance from the edge's start, split the edge's polyline at the
      candidates, and rewire the graph.  Equal distances would make the
      source index past the end of the split pieces, so they are
      excluded. */
  method InsertGroup(g: RCGraph, eid: nat, group: Solution, m: Module) returns (w: Rewired)
    requires g.Valid() && g.LiveEdge(eid)
    requires |g.edges[eid].edge.ps| > 1 && |group| > 0
    requires DistinctDistances(g.edges[eid].edge.ps[0], group)
    modifies g
    ensures g.Valid()
    ensures RewiresIn(Snapshot(g), w, old(g.edges[eid]), group, m)
    ensures forall x: nat :: old(g.LiveNode(x)) ==> g.LiveNode(x) && g.nodes[x].node == old(g.nodes[x].node)
    ensures forall x: nat :: g.LiveNode(x) <==> old(g.LiveNode(x)) || x in w.buffers
    ensures forall x: nat :: g.LiveEdge(x) <==> (old(g.LiveEdge(x)) && x != eid) || x in w.edges
    ensures |g.nodes| >= old(|g.nodes|) && |g.edges| >= old(|g.edges|)
    ensures forall x: nat :: old(g.LiveEdge(x)) && x != eid ==> g.edges[x] == old(g.edges[x])
    ensures forall j :: 0 <= j < |w.edges| ==> w.edges[j] == eid || !old(g.LiveEdge(w.edges[j]))
    ensures g.root == old(g.root) && g.cfg == old(g.cfg)
  {
    var edge := g.GetEdge(eid);
    var sorted := SortByDistance(edge.ps[0], group);
    var pieces := SplitPieces.SplitPoints(edge.ps, sorted);
    GroupPieces(edge.ps, sorted);
    w := Rewire(g, eid, sorted, pieces, m);
  }

  // ---------------------------------------------------------------------
  // every group

  /** What one group's rewiring is computed from: the edge it replaces, its
      candidates sorted by distance and the pieces of the edge's polyline. */
  datatype Plan = Plan(edge: EdgeEntry, sorted: Solution, pieces: seq<seq<Point>>)

  function PlanOf(old_: EdgeEntry, group: Solution): (p: Plan)
    requires |old_.edge.ps| > 0
    ensures p.edge == old_ && p.sorted == Sorted(old_, group) && p.pieces == Pieces(old_, group)
  {
    Plan(old_, Sorted(old_, group), Pieces(old_, group))
  }

  /** Plan `i` is the plan of group `order[i]` on its edge as it was in
      `t0`. */
  ghost predicate PlansFor(t0: Net, plans: seq<Plan>, order: seq<nat>, solution: Solution)
  {
    && |plans| <= |order|
    && forall i :: 0 <= i < |plans| ==>
      order[i] < |t0.edges| && |t0.edges[order[i]].edge.ps| > 0 &&
      plans[i] == PlanOf(t0.edges[order[i]], Group(solution, order[i]))
  }

  /** The groups so far have been rewired as `ws` says, following `plans`. */
  ghost predicate Inserted(t: Net, ws: seq<Rewired>, plans: seq<Plan>, m: Module)
  {
    && |ws| == |plans|
    && forall i :: 0 <= i < |ws| ==> Rewiring(t, ws[i], plans[i].edge, plans[i].sorted, plans[i].pieces, m)
  }

  /** Followed plans are the rewirings `insertSolution` promises. */
  lemma PlansFollowed(t0: Net, t: Net, ws: seq<Rewired>, plans: seq<Plan>, order: seq<nat>, solution: Solution, m: Module)
    requires PlansFor(t0, plans, order, solution) && Inserted(t, ws, plans, m)
    ensures forall i :: 0 <= i < |ws| ==>
      order[i] < |t0.edges| && |t0.edges[order[i]].edge.ps| > 0 &&
      RewiresIn(t, ws[i], t0.edges[order[i]], Group(solution, order[i]), m)
  {
  }

  lemma PlansStep(t0: Net, plans: seq<Plan>, order: seq<nat>, solution: Solution)
    requires PlansFor(t0, plans, order, solution) && |plans| < |order|
    requires order[|plans|] < |t0.edges| && |t0.edges[order[|plans|]].edge.ps| > 0
    ensures PlansFor(t0, plans + [PlanOf(t0.edges[order[|plans|]], Group(solution, order[|plans|]))], order, solution)
  {
    var k := |plans|;
    var next := PlanOf(t0.edges[order[k]], Group(solution, order[k]));
    var plans' := plans + [next];
    forall i | 0 <= i < |plans'|
      ensures order[i] < |t0.edges| && |t0.edges[order[i]].edge.ps| > 0
      ensures plans'[i] == PlanOf(t0.edges[order[i]], Group(solution, order[i]))
    {
      if i < k {
        assert plans'[i] == plans[i];
      } else {
        assert plans'[i] == next;
      }
    }
  }

  /** Nodes live in `t0` are live in `t` with the same payload, and every
      node live in `t` was live in `t0` or is one of the buffers of `ws`. */
  ghost predicate NodesKept(t0: Net, t: Net, ws: seq<Rewired>)
  {
    && (forall x: nat :: LiveNode(t0, x) ==> LiveNode(t, x) && t.nodes[x].node == t0.nodes[x].node)
    && (forall x: nat :: LiveNode(t, x) ==> LiveNode(t0, x) || exists i :: 0 <= i < |ws| && x in ws[i].buffers)
  }

  /** Edges live in `t0` whose group has not been handled are untouched,
      and every edge live in `t` is one of those or a chain edge of `ws`. */
  ghost predicate EdgesKept(t0: Net, t: Net, ws: seq<Rewired>, order: seq<nat>)
    requires |ws| <= |order|
  {
    && (forall x: nat :: LiveEdge(t0, x) && x !in order[..|ws|] ==> LiveEdge(t, x) && t.edges[x] == t0.edges[x])
    && (forall x: nat :: LiveEdge(t, x) ==> (LiveEdge(t0, x) && x !in order[..|ws|]) || exists i :: 0 <= i < |ws| && x in ws[i].edges)
  }

  /** No chain edge made so far is an edge still to be replaced. */
  ghost predicate ApartFromRest(ws: seq<Rewired>, order: seq<nat>)
    requires |ws| <= |order|
  {
    forall i, j :: 0 <= i < |ws| && 0 <= j < |ws[i].edges| ==> ws[i].edges[j] !in order[|ws|..]
  }

  lemma EdgesStep(t0: Net, t: Net, u: Net, ws: seq<Rewired>, w: Rewired, order: seq<nat>)
    requires |ws| < |order| && EdgesKept(t0, t, ws, order)
    requires forall x: nat :: LiveEdge(u, x) ==> (LiveEdge(t, x) && x != order[|ws|]) || x in w.edges
    requires forall x: nat :: LiveEdge(t, x) && x != order[|ws|] ==> LiveEdge(u, x) && u.edges[x] == t.edges[x]
    ensures EdgesKept(t0, u, ws + [w], order)
  {
    var k := |ws|;
    var ws' := ws + [w];
    assert order[..k + 1] == order[..k] + [order[k]];
    forall x: nat | LiveEdge(u, x)
      ensures (LiveEdge(t0, x) && x !in order[..k + 1]) || exists i :: 0 <= i < |ws'| && x in ws'[i].edges
    {
      if x in w.edges {
        assert ws'[k] == w;
      } else if !(LiveEdge(t0, x) && x !in order[..k]) {
        var i :| 0 <= i < |ws| && x in ws[i].edges;
        assert ws'[i] == ws[i];
      }
    }
  }

  lemma NodesStep(t0: Net, t: Net, u: Net, ws: seq<Rewired>, w: Rewired)
    requires NodesKept(t0, t, ws)
    requires forall x: nat :: LiveNode(t, x) ==> LiveNode(u, x) && u.nodes[x].node == t.nodes[x].node
    requires forall x: nat :: LiveNode(u, x) ==> LiveNode(t, x) || x in w.buffers
    ensures NodesKept(t0, u, ws + [w])
  {
    var ws' := ws + [w];
    forall x: nat | LiveNode(u, x)
      ensures LiveNode(t0, x) || exists i :: 0 <= i < |ws'| && x in ws'[i].buffers
    {
      if x in w.buffers {
        assert ws'[|ws|] == w;
      } else if !LiveNode(t0, x) {
        var i :| 0 <= i < |ws| && x in ws[i].buffers;
        assert ws'[i] == ws[i];
      }
    }
  }

  lemma ApartStep(t0: Net, t: Net, ws: seq<Rewired>, w: Rewired, order: seq<nat>)
    requires |ws| < |order| && NoDuplicates(order) && ApartFromRest(ws, order)
    requires forall k :: 0 <= k < |order| ==> LiveEdge(t0, order[k])
    requires forall x: nat :: LiveEdge(t0, x) && x !in order[..|ws|] ==> LiveEdge(t, x)
    requires forall j :: 0 <= j < |w.edges| ==> w.edges[j] == order[|ws|] || !LiveEdge(t, w.edges[j])
    ensures ApartFromRest(ws + [w], order)
  {
    var k := |ws|;
    var ws' := ws + [w];
    forall i, j | 0 <= i < |ws'| && 0 <= j < |ws'[i].edges|
      ensures ws'[i].edges[j] !in order[k + 1..]
    {
      var x := ws'[i].edges[j];
      forall q | k + 1 <= q < |order|
        ensures order[q] != x
      {
        if i == k {
          assert forall p :: 0 <= p < k ==> order[..k][p] != order[q];
          assert LiveEdge(t, order[q]);
        } else {
          assert ws'[i] == ws[i] && order[k..][q - k] == order[q];
        }
      }
    }
  }

  /** A finished group's rewiring survives a later group on another edge. */
  lemma RewiringSurvives(t: Net, u: Net, v: Rewired, eid: nat, p: Plan, m: Module)
    requires Rewiring(t, v, p.edge, p.sorted, p.pieces, m) && eid !in v.edges
    requires forall x: nat :: LiveNode(t, x) ==> LiveNode(u, x) && u.nodes[x].node == t.nodes[x].node
    requires forall x: nat :: LiveEdge(t, x) && x != eid ==> LiveEdge(u, x) && u.edges[x] == t.edges[x]
    ensures Rewiring(u, v, p.edge, p.sorted, p.pieces, m)
  {
    assert Keeps(t, u, v.edges);
    RewiringKept(t, u, v, p.edge, p.sorted, p.pieces, m);
  }

  lemma InsertedStep(t: Net, u: Net, ws: seq<Rewired>, w: Rewired, plans: seq<Plan>, p: Plan, order: seq<nat>, m: Module)
    requires |ws| < |order| && Inserted(t, ws, plans, m) && ApartFromRest(ws, order)
    requires forall x: nat :: LiveNode(t, x) ==> LiveNode(u, x) && u.nodes[x].node == t.nodes[x].node
    requires forall x: nat :: LiveEdge(t, x) && x != order[|ws|] ==> LiveEdge(u, x) && u.edges[x] == t.edges[x]
    requires Rewiring(u, w, p.edge, p.sorted, p.pieces, m)
    ensures Inserted(u, ws + [w], plans + [p], m)
  {
    var k := |ws|;
    var ws', plans' := ws + [w], plans + [p];
    forall i | 0 <= i < |ws'|
      ensures Rewiring(u, ws'[i], plans'[i].edge, plans'[i].sorted, plans'[i].pieces, m)
    {
      if i < k {
        assert ws'[i] == ws[i] && plans'[i] == plans[i];
        assert order[k..][0] == order[k];
        assert order[k] !in ws[i].edges;
        RewiringSurvives(t, u, ws[i], order[k], plans[i], m);
      } else {
        assert ws'[i] == w && plans'[i] == p;
      }
    }
  }

  /** Every group of `solution` has been rewired, `ws[k]` for the edge
      `order[k]` as it was in `t0`; the nodes live in `t0` are live with
      the same payloads, the edges live in `t0` that hold no candidate are
      untouched, and nothing else is live but buffers and chain edges. */
  ghost predicate Replaced(t0: Net, t: Net, ws: seq<Rewired>, order: seq<nat>, solution: Solution, m: Module)
  {
    && |ws| == |order|
    && (forall k :: 0 <= k < |order| ==>
      order[k] < |t0.edges| && |t0.edges[order[k]].edge.ps| > 0 &&
      RewiresIn(t, ws[k], t0.edges[order[k]], Group(solution, order[k]), m))
    && (forall x: nat :: LiveNode(t0, x) ==> LiveNode(t, x) && t.nodes[x].node == t0.nodes[x].node)
    && (forall x: nat :: LiveNode(t, x) ==> LiveNode(t0, x) || exists k :: 0 <= k < |ws| && x in ws[k].buffers)
    && (forall x: nat :: LiveEdge(t0, x) && x !in order ==> LiveEdge(t, x) && t.edges[x] == t0.edges[x])
    && (forall x: nat :: LiveEdge(t, x) ==> (LiveEdge(t0, x) && x !in order) || exists k :: 0 <= k < |ws| && x in ws[k].edges)
  }

  /** Every candidate of the solution ends up as a live buffer node at its
      position, with its load and required time. */
  lemma EveryCandidateBuffered(t0: Net, t: Net, ws: seq<Rewired>, order: seq<nat>, solution: Solution, m: Module, c: Candidate)
    requires Replaced(t0, t, ws, order, solution, m) && c in solution
    requires forall i :: 0 <= i < |solution| ==> solution[i].eid in order
    ensures exists b: nat :: LiveNode(t, b) && t.nodes[b].node == BufferNode(m, c)
  {
    var i :| 0 <= i < |solution| && solution[i] == c;
    var k :| 0 <= k < |order| && order[k] == c.eid;
    var old_ := t0.edges[order[k]];
    var group := Group(solution, order[k]);
    assert RewiresIn(t, ws[k], old_, group, m);
    var sorted := Sorted(old_, group);
    assert c in multiset(sorted);
    var j :| 0 <= j < |sorted| && sorted[j] == c;
    assert BufferAt(t, ws[k].buffers[j], m, sorted[j]);
  }

  /** The group loop's state after the last group. */
  lemma LoopDone(t0: Net, t: Net, ws: seq<Rewired>, plans: seq<Plan>, order: seq<nat>, solution: Solution, m: Module)
    requires |ws| == |order| && PlansFor(t0, plans, order, solution) && Inserted(t, ws, plans, m)
    requires NodesKept(t0, t, ws) && EdgesKept(t0, t, ws, order)
    ensures Replaced(t0, t, ws, order, solution, m)
  {
    PlansFollowed(t0, t, ws, plans, order, solution, m);
    assert order[..|ws|] == order;
  }

  /** The body of the group loop for the next group in `order`, with the
      loop's state kept as the predicates above. */
  method NextGroup(g: RCGraph, ghost t0: Net, ws: seq<Rewired>, ghost plans: seq<Plan>, order: seq<nat>,
                   solution: Solution, m: Module) returns (w: Rewired)
    requires g.Valid() && |ws| < |order| && NoDuplicates(order)
    requires forall k :: 0 <= k < |order| ==>
      LiveEdge(t0, order[k]) && |t0.edges[order[k]].edge.ps| > 1 &&
      DistinctDistances(t0.edges[order[k]].edge.ps[0], Group(solution, order[k]))
    requires forall k :: 0 <= k < |order| ==> Group(solution, order[k]) != []
    requires PlansFor(t0, plans, order, solution) && Inserted(Snapshot(g), ws, plans, m)
    requires NodesKept(t0, Snapshot(g), ws) && EdgesKept(t0, Snapshot(g), ws, order) && ApartFromRest(ws, order)
    modifies g
    ensures g.Valid() && g.root == old(g.root) && g.cfg == old(g.cfg)
    ensures var plans' := plans + [PlanOf(t0.edges[order[|ws|]], Group(solution, order[|ws|]))];
      PlansFor(t0, plans', order, solution) && Inserted(Snapshot(g), ws + [w], plans', m)
    ensures NodesKept(t0, Snapshot(g), ws + [w]) && EdgesKept(t0, Snapshot(g), ws + [w], order)
    ensures ApartFromRest(ws + [w], order)
  {
    var eid := order[|ws|];
    ghost var t := Snapshot(g);
    assert eid !in order[..|ws|];
    assert LiveEdge(t, eid) && t.edges[eid] == t0.edges[eid];
    label before:
    w := InsertGroup(g, eid, Group(solution, eid), m);
    ghost var u := Snapshot(g);
    forall x: nat
      ensures LiveNode(t, x) ==> LiveNode(u, x) && u.nodes[x].node == t.nodes[x].node
      ensures LiveNode(u, x) ==> LiveNode(t, x) || x in w.buffers
      ensures LiveEdge(u, x) ==> (LiveEdge(t, x) && x != eid) || x in w.edges
      ensures LiveEdge(t, x) && x != eid ==> LiveEdge(u, x) && u.edges[x] == t.edges[x]
    {
      assert LiveNode(t, x) == old@before(g.LiveNode(x)) && LiveNode(u, x) == g.LiveNode(x);
      assert LiveEdge(t, x) == old@before(g.LiveEdge(x)) && LiveEdge(u, x) == g.LiveEdge(x);
    }
    forall j | 0 <= j < |w.edges|
      ensures w.edges[j] == eid || !LiveEdge(t, w.edges[j])
    {
      assert LiveEdge(t, w.edges[j]) == old@before(g.LiveEdge(w.edges[j]));
    }
    ghost var p := PlanOf(t0.edges[eid], Group(solution, eid));
    PlansStep(t0, plans, order, solution);
    EdgesStep(t0, t, u, ws, w, order);
    NodesStep(t0, t, u, ws, w);
    ApartStep(t0, t, ws, w, order);
    InsertedStep(t, u, ws, w, plans, p, order, m);
  }

  /** `insertSolution`: group the candidates by edge and rewire each group's
      edge in turn.  The source visits the groups in the order of an
      `unordered_map`; `order` is that order, each edge of the solution
      exactly once.  The source looks the buffer module up while handling
      the first group, before it changes anything, and throws when there
      is none; with no candidates there is no group and no lookup. */
  method InsertSolution(solution: Solution, g: RCGraph, order: seq<nat>) returns (r: Result<seq<Rewired>, string>)
    requires g.Valid() && NoDuplicates(order)
    requires forall i :: 0 <= i < |solution| ==> solution[i].eid in order
    requires forall k :: 0 <= k < |order| ==> Group(solution, order[k]) != []
    requires forall k :: 0 <= k < |order| ==>
      g.LiveEdge(order[k]) && |g.edges[order[k]].edge.ps| > 1 &&
      DistinctDistances(g.edges[order[k]].edge.ps[0], Group(solution, order[k]))
    modifies g
    ensures solution == [] ==> r == Success([]) && unchanged(g)
    ensures r.Failure? <==> solution != [] && BufferModule !in old(g.cfg.modules)
    ensures r.Failure? ==> r.error == NoSuchModule && unchanged(g)
    ensures g.Valid() && g.root == old(g.root) && g.cfg == old(g.cfg)
    ensures r.Success? && solution != [] ==>
      BufferModule in g.cfg.modules &&
      Replaced(old(Snapshot(g)), Snapshot(g), r.value, order, solution, g.cfg.modules[BufferModule])
  {
    if solution == [] {
      assert order != [] ==> Group(solution, order[0]) == [];
      return Success([]);
    }
    var found := GetModule(g.GetAttrs(), BufferModule);
    if found.Failure? {
      return Failure(found.error);
    }
    var m := found.value;
    var ws := RewireGroups(g, order, solution, m);
    r := Success(ws);
  }

  /** The group loop: each edge of `order` in turn gets its group of
      candidates, built from module `m`. */
  method RewireGroups(g: RCGraph, order: seq<nat>, solution: Solution, m: Module) returns (ws: seq<Rewired>)
    requires g.Valid() && NoDuplicates(order)
    requires forall k :: 0 <= k < |order| ==> Group(solution, order[k]) != []
    requires forall k :: 0 <= k < |order| ==>
      g.LiveEdge(order[k]) && |g.edges[order[k]].edge.ps| > 1 &&
      DistinctDistances(g.edges[order[k]].edge.ps[0], Group(solution, order[k]))
    modifies g
    ensures g.Valid() && g.root == old(g.root) && g.cfg == old(g.cfg)
    ensures Replaced(old(Snapshot(g)), Snapshot(g), ws, order, solution, m)
  {
    ghost var t0 := Snapshot(g);
    ws := [];
    ghost var plans: seq<Plan> := [];
    for k := 0 to |order|
      invariant g.Valid() && g.root == old(g.root) && g.cfg == old(g.cfg) && |ws| == k
      invariant PlansFor(t0, plans, order, solution) && Inserted(Snapshot(g), ws, plans, m)
      invariant NodesKept(t0, Snapshot(g), ws) && EdgesKept(t0, Snapshot(g), ws, order) && ApartFromRest(ws, order)
    {
      var w := NextGroup(g, t0, ws, plans, order, solution, m);
      ws, plans := ws + [w], plans + [PlanOf(t0.edges[order[k]], Group(solution, order[k]))];
    }
    LoopDone(t0, Snapshot(g), ws, plans, order, solution, m);
  }
}
