/** Reading and writing an RC tree (src/RCGraph.cpp).  The JSON text layer
    is a library and is not modelled: a document is the abstract record the
    source reads fields from and writes fields to, one node record per
    element of the "node" array and one edge record per element of the
    "edge" array. */
module RCGraphIO {
  import opened Wrappers
  import opened Geometry
  import opened Graphs

  // ---------------------------------------------------------------------
  // node kinds as strings

  /** `toString(NodeKindTy)`.  The source's `default` branch throws, but
      the switch covers all three kinds, so it is never taken. */
  function KindName(k: NodeKind): string
  {
    match k
    case Steiner => "s"
    case Terminal => "t"
    case Buffer => "b"
  }

  const UnknownKind: string := "unknown node kind"

  /** `fromString`: the kind written as `s`, or the error the source throws. */
  function ParseKind(s: string): (r: Result<NodeKind, string>)
    ensures r.Failure? ==> r.error == UnknownKind
  {
    if s == "s" then Success(Steiner)
    else if s == "t" then Success(Terminal)
    else if s == "b" then Success(Buffer)
    else Failure(UnknownKind)
  }

  /** Reading back a written kind gives the same kind. */
  lemma KindRoundTrip(k: NodeKind)
    ensures ParseKind(KindName(k)) == Success(k)
  {
  }

  /** Exactly the three one-letter names parse, each as a different kind. */
  lemma ParseKindNames(s: string)
    ensures ParseKind(s).Success? <==> s == "s" || s == "t" || s == "b"
    ensures ParseKind(s).Success? ==> KindName(ParseKind(s).value) == s
  {
  }

  // ---------------------------------------------------------------------
  // the document

  /** An element of the "node" array: "id", "x", "y", "type", "name" and
      the optional "capacitance" and "rat". */
  datatype NodeRecord = NodeRecord(id: int, x: int, y: int, kind: string, name: string,
                                   capacitance: Option<real>, rat: Option<real>)

  /** An element of the "edge" array: the optional "id", the two
      "vertices" and the "segments", one point per segment entry.  The
      source asserts both arrays have exactly two elements, which the
      record's shape keeps. */
  datatype EdgeRecord = EdgeRecord(id: Option<int>, first: int, last: int, segments: seq<Point>)

  datatype Document = Document(nodes: seq<NodeRecord>, edges: seq<EdgeRecord>)

  function OrZero(v: Option<real>): (r: real)
    ensures v.None? ==> r == 0.0
    ensures v.Some? ==> r == v.value
  {
    match v
    case None => 0.0
    case Some(x) => x
  }

  /** The node `readRCGraph` builds from a record whose kind parsed as
      `kind`: absent capacitance and RAT read as 0. */
  function NodeOfRecord(rec: NodeRecord, kind: NodeKind): (n: Node)
    ensures n.kind == kind && n.name == rec.name && n.p == Point(rec.x, rec.y)
    ensures n.capacity == OrZero(rec.capacitance) && n.rat == OrZero(rec.rat)
  {
    Node(kind, rec.name, Point(rec.x, rec.y), OrZero(rec.capacitance), OrZero(rec.rat))
  }

  /** The record `writeRCGraph` emits for node `id`: capacitance and RAT
      only for sinks. */
  function RecordOfNode(id: nat, n: Node): (rec: NodeRecord)
    ensures rec.id == id && rec.x == n.p.x && rec.y == n.p.y
    ensures rec.kind == KindName(n.kind) && rec.name == n.name
    ensures rec.capacitance.Some? <==> n.kind == Terminal
    ensures rec.rat.Some? <==> n.kind == Terminal
  {
    if n.kind == Terminal then NodeRecord(id, n.p.x, n.p.y, KindName(n.kind), n.name, Some(n.capacity), Some(n.rat))
    else NodeRecord(id, n.p.x, n.p.y, KindName(n.kind), n.name, None, None)
  }

  /** The record `writeRCGraph` emits for edge `id`. */
  function RecordOfEdge(id: nat, entry: EdgeEntry): (rec: EdgeRecord)
    ensures rec.id == Some(id) && rec.first == entry.first && rec.last == entry.last
    ensures rec.segments == entry.edge.ps
  {
    EdgeRecord(Some(id), entry.first, entry.last, entry.edge.ps)
  }

  /** A written node reads back as itself when it is a sink; any other
      node loses its capacity and RAT, which read back as 0. */
  lemma NodeRoundTrip(id: nat, n: Node)
    ensures ParseKind(RecordOfNode(id, n).kind) == Success(n.kind)
    ensures n.kind == Terminal ==> NodeOfRecord(RecordOfNode(id, n), n.kind) == n
    ensures n.kind != Terminal ==> NodeOfRecord(RecordOfNode(id, n), n.kind) == n.(capacity := 0.0, rat := 0.0)
  {
    KindRoundTrip(n.kind);
  }

  // ---------------------------------------------------------------------
  // reading

  /** `NodeMapping` after the first `|recs|` records: `emplace` keeps the
      first internal id stored under a document id. */
  function Mapping(recs: seq<NodeRecord>): (m: map<int, nat>)
    ensures forall id :: id in m ==> m[id] < |recs| && recs[m[id]].id == id
    ensures forall i :: 0 <= i < |recs| ==> recs[i].id in m && m[recs[i].id] <= i
  {
    if recs == [] then map[]
    else
      var m := Mapping(recs[..|recs| - 1]);
      var last := recs[|recs| - 1];
      assert forall i :: 0 <= i < |recs| - 1 ==> recs[..|recs| - 1][i] == recs[i];
      if last.id in m then m else m[last.id := |recs| - 1]
  }

  /** The internal id of document node `id` is that of its first record. */
  lemma MappingFirst(recs: seq<NodeRecord>, i: nat)
    requires i < |recs| && forall j :: 0 <= j < i ==> recs[j].id != recs[i].id
    ensures Mapping(recs)[recs[i].id] == i
  {
    var m := Mapping(recs);
    assert recs[m[recs[i].id]].id == recs[i].id;
  }

  /** `NodeMapping[id]`: `operator[]` inserts 0 for an id no node record
      has, so an edge to an unknown vertex is attached to internal node 0. */
  function Lookup(m: map<int, nat>, id: int): (n: nat)
    ensures id in m ==> n == m[id]
    ensures id !in m ==> n == 0
  {
    if id in m then m[id] else 0
  }

  /** The root after the first `|recs|` records: the last buffer node or,
      when there is none, the 0 the graph starts with. */
  function RootOf(recs: seq<NodeRecord>): (r: nat)
    ensures r == 0 || (r < |recs| && recs[r].kind == "b")
    ensures r < |recs| && recs[r].kind == "b" ==> forall j :: r < j < |recs| ==> recs[j].kind != "b"
    ensures r == 0 && (|recs| == 0 || recs[0].kind != "b") ==> forall j :: 0 <= j < |recs| ==> recs[j].kind != "b"
  {
    if recs == [] then 0
    else if recs[|recs| - 1].kind == "b" then |recs| - 1
    else
      assert forall j :: 0 <= j < |recs| - 1 ==> recs[..|recs| - 1][j] == recs[j];
      RootOf(recs[..|recs| - 1])
  }

  predicate KindsParse(recs: seq<NodeRecord>)
  {
    forall i :: 0 <= i < |recs| ==> ParseKind(recs[i].kind).Success?
  }

  /** The edge `readRCGraph` adds for a record, given the node mapping. */
  function EntryOfRecord(m: map<int, nat>, rec: EdgeRecord): (entry: EdgeEntry)
    ensures entry.first == Lookup(m, rec.first) && entry.last == Lookup(m, rec.last)
    ensures entry.edge.ps == rec.segments
  {
    EdgeEntry(Lookup(m, rec.first), Lookup(m, rec.last), Edge(rec.segments))
  }

  lemma MappingStep(recs: seq<NodeRecord>, i: nat)
    requires i < |recs|
    ensures Mapping(recs[..i + 1]) ==
      if recs[i].id in Mapping(recs[..i]) then Mapping(recs[..i]) else Mapping(recs[..i])[recs[i].id := i]
  {
    assert recs[..i + 1][..i] == recs[..i];
  }

  lemma RootStep(recs: seq<NodeRecord>, i: nat)
    requires i < |recs|
    ensures RootOf(recs[..i + 1]) == if recs[i].kind == "b" then i else RootOf(recs[..i])
  {
    assert recs[..i + 1][..i] == recs[..i];
  }

  lemma KindsStep(recs: seq<NodeRecord>, i: nat)
    requires i < |recs|
    ensures KindsParse(recs[..i + 1]) <==> KindsParse(recs[..i]) && ParseKind(recs[i].kind).Success?
  {
    assert forall k :: 0 <= k < i ==> recs[..i + 1][k] == recs[..i][k];
  }

  /** The first `i` node entries are those read from the first `i` records. */
  ghost predicate NodesRead(nodes: seq<NodeEntry>, recs: seq<NodeRecord>, i: nat)
    requires i <= |nodes| && i <= |recs| && KindsParse(recs[..i])
  {
    forall k :: 0 <= k < i ==> nodes[k].node == NodeOfRecord(recs[k], ParseKind(recs[..i][k].kind).value)
  }

  lemma NodesReadStep(nodes: seq<NodeEntry>, recs: seq<NodeRecord>, i: nat, entry: NodeEntry)
    requires i == |nodes| && i < |recs| && KindsParse(recs[..i + 1])
    requires KindsParse(recs[..i]) && NodesRead(nodes, recs, i)
    requires entry.node == NodeOfRecord(recs[i], ParseKind(recs[i].kind).value)
    ensures NodesRead(nodes + [entry], recs, i + 1)
  {
    forall k | 0 <= k < i + 1
      ensures (nodes + [entry])[k].node == NodeOfRecord(recs[k], ParseKind(recs[..i + 1][k].kind).value)
    {
      assert recs[..i + 1][k] == recs[k];
      if k < i {
        assert recs[..i][k] == recs[k];
      }
    }
  }

  /** One iteration of the node loop: parse the type, add the node and,
      for a buffer, make it the root. */
  method ReadNode(g: RCGraph, rec: NodeRecord) returns (ok: bool, n: nat)
    requires g.Valid() && g.freeNodeIds == []
    modifies g
    ensures ok <==> ParseKind(rec.kind).Success?
    ensures !ok ==> unchanged(g)
    ensures ok ==> && g.Valid() && n == old(|g.nodes|) && g.freeNodeIds == []
                   && g.nodes == old(g.nodes) + [NodeEntry(InvalidEdgeId, [], NodeOfRecord(rec, ParseKind(rec.kind).value))]
                   && g.edges == old(g.edges) && g.freeEdgeIds == old(g.freeEdgeIds)
                   && g.root == (if rec.kind == "b" then n else old(g.root))
  {
    var kind := ParseKind(rec.kind);
    if kind.Failure? {
      return false, 0;
    }
    ParseKindNames(rec.kind);
    n := g.AddNode(NodeOfRecord(rec, kind.value));
    if kind.value == Buffer {
      g.SetRoot(n);
    }
    ok := true;
  }

  /** The node loop of `readRCGraph` on a new graph: one `addNode` per
      record, in order, making each buffer node the root.  It stops at the
      first record whose type does not parse. */
  method ReadNodes(g: RCGraph, recs: seq<NodeRecord>) returns (ok: bool, mapping: map<int, nat>)
    requires g.Valid() && g.nodes == [] && g.freeNodeIds == [] && g.edges == [] && g.freeEdgeIds == [] && g.root == 0
    modifies g
    ensures ok <==> KindsParse(recs)
    ensures ok ==> g.Valid() && |g.nodes| == |recs| && g.freeNodeIds == [] && g.edges == [] && g.freeEdgeIds == []
    ensures ok ==> g.root == RootOf(recs) && mapping == Mapping(recs)
    ensures ok ==> forall k :: 0 <= k < |recs| ==> g.nodes[k].node == NodeOfRecord(recs[k], ParseKind(recs[k].kind).value)
  {
    mapping := map[];
    for i := 0 to |recs|
      invariant g.Valid() && |g.nodes| == i && g.freeNodeIds == [] && g.edges == [] && g.freeEdgeIds == []
      invariant KindsParse(recs[..i])
      invariant NodesRead(g.nodes, recs, i)
      invariant mapping == Mapping(recs[..i]) && g.root == RootOf(recs[..i])
    {
      var rec := recs[i];
      KindsStep(recs, i);
      MappingStep(recs, i);
      RootStep(recs, i);
      ghost var nodes0 := g.nodes;
      var ok', n := ReadNode(g, rec);
      if !ok' {
        assert !KindsParse(recs) by {
          assert ParseKind(recs[i].kind).Failure?;
        }
        return false, mapping;
      }
      NodesReadStep(nodes0, recs, i, g.nodes[n]);
      if rec.id !in mapping {
        mapping := mapping[rec.id := n];
      }
    }
    assert recs[..|recs|] == recs;
    assert NodesRead(g.nodes, recs, |recs|);
    return true, mapping;
  }

  /** The edge loop of `readRCGraph`: one `addEdge` per record, through the
      node mapping. */
  method ReadEdges(g: RCGraph, mapping: map<int, nat>, recs: seq<EdgeRecord>)
    requires g.Valid() && g.freeNodeIds == [] && g.edges == [] && g.freeEdgeIds == []
    requires |recs| > 0 ==> |g.nodes| > 0
    requires forall id :: id in mapping ==> mapping[id] < |g.nodes|
    modifies g
    ensures g.Valid() && |g.nodes| == old(|g.nodes|) && g.freeNodeIds == [] && g.root == old(g.root)
    ensures forall k :: 0 <= k < |g.nodes| ==> g.nodes[k].node == old(g.nodes[k].node)
    ensures |g.edges| == |recs| && g.freeEdgeIds == []
    ensures forall k :: 0 <= k < |recs| ==> g.edges[k] == EntryOfRecord(mapping, recs[k])
  {
    for j := 0 to |recs|
      invariant g.Valid() && |g.nodes| == old(|g.nodes|) && g.freeNodeIds == [] && g.root == old(g.root)
      invariant forall k :: 0 <= k < |g.nodes| ==> g.nodes[k].node == old(g.nodes[k].node)
      invariant |g.edges| == j && g.freeEdgeIds == []
      invariant forall k :: 0 <= k < j ==> g.edges[k] == EntryOfRecord(mapping, recs[k])
    {
      var rec := recs[j];
      var first := Lookup(mapping, rec.first);
      var last := Lookup(mapping, rec.last);
      assert g.LiveNode(first);
      var e := g.AddEdge(first, last, Edge(rec.segments));
    }
  }

  /** `readRCGraph`: the nodes, then the edges.  A node type other than
      "s", "t" or "b" throws.  An edge in a document without nodes would
      index an empty node vector, so that is excluded. */
  method ReadRCGraph(doc: Document) returns (r: Result<RCGraph, string>)
    requires |doc.edges| > 0 ==> |doc.nodes| > 0
    ensures r.Failure? <==> !KindsParse(doc.nodes)
    ensures r.Failure? ==> r.error == UnknownKind
    ensures r.Success? ==> fresh(r.value) && r.value.Valid()
    ensures r.Success? ==>
      var g := r.value;
      && |g.nodes| == |doc.nodes| && g.freeNodeIds == [] && g.root == RootOf(doc.nodes)
      && (forall i :: 0 <= i < |doc.nodes| ==> g.nodes[i].node == NodeOfRecord(doc.nodes[i], ParseKind(doc.nodes[i].kind).value))
      && |g.edges| == |doc.edges| && g.freeEdgeIds == []
      && (forall j :: 0 <= j < |doc.edges| ==> g.edges[j] == EntryOfRecord(Mapping(doc.nodes), doc.edges[j]))
  {
    var g := new RCGraph();
    var ok, mapping := ReadNodes(g, doc.nodes);
    if !ok {
      return Failure(UnknownKind);
    }
    ReadEdges(g, mapping, doc.edges);
    return Success(g);
  }

  // ---------------------------------------------------------------------
  // collecting the tree

  /** Below `k` ranks decrease along child edges, so the tree below `k`
      is finite and acyclic. */
  ghost predicate Below(t: Net, rank: seq<nat>, k: nat)
    requires |rank| == |t.nodes| && k < |t.nodes|
    decreases rank[k]
  {
    forall e :: e in t.nodes[k].children ==>
      && e < |t.edges| && t.edges[e].last < |t.nodes|
      && rank[t.edges[e].last] < rank[k] && Below(t, rank, t.edges[e].last)
  }

  /** The number of nodes in the subtree below `k`, counting repeats. */
  ghost function Size(t: Net, rank: seq<nat>, k: nat): nat
    requires |rank| == |t.nodes| && k < |t.nodes| && Below(t, rank, k)
    decreases rank[k], |t.nodes[k].children| + 1
  {
    1 + Sizes(t, rank, k, t.nodes[k].children)
  }

  /** The sizes of the subtrees below the child edges `cs` of `k`. */
  ghost function Sizes(t: Net, rank: seq<nat>, k: nat, cs: seq<nat>): nat
    requires |rank| == |t.nodes| && k < |t.nodes| && Below(t, rank, k)
    requires forall e :: e in cs ==> e in t.nodes[k].children
    decreases rank[k], |cs|
  {
    if cs == [] then 0
    else
      var e := cs[|cs| - 1];
      assert e in t.nodes[k].children;
      Sizes(t, rank, k, cs[..|cs| - 1]) + Size(t, rank, t.edges[e].last)
  }

  ghost predicate AllBelow(t: Net, rank: seq<nat>, st: seq<nat>)
  {
    |rank| == |t.nodes| && forall j :: 0 <= j < |st| ==> st[j] < |t.nodes| && Below(t, rank, st[j])
  }

  /** What is left to collect from the stack `st`. */
  ghost function Weight(t: Net, rank: seq<nat>, st: seq<nat>): nat
    requires AllBelow(t, rank, st)
  {
    if st == [] then 0 else Weight(t, rank, st[..|st| - 1]) + Size(t, rank, st[|st| - 1])
  }

  lemma WeightPush(t: Net, rank: seq<nat>, st: seq<nat>, x: nat)
    requires AllBelow(t, rank, st) && x < |t.nodes| && Below(t, rank, x)
    ensures AllBelow(t, rank, st + [x])
    ensures Weight(t, rank, st + [x]) == Weight(t, rank, st) + Size(t, rank, x)
  {
    assert (st + [x])[..|st|] == st;
  }

  lemma WeightPop(t: Net, rank: seq<nat>, st: seq<nat>)
    requires AllBelow(t, rank, st) && st != []
    ensures AllBelow(t, rank, st[..|st| - 1])
    ensures Weight(t, rank, st) ==
      Weight(t, rank, st[..|st| - 1]) + 1 + Sizes(t, rank, st[|st| - 1], t.nodes[st[|st| - 1]].children)
  {
  }

  lemma SizesStep(t: Net, rank: seq<nat>, k: nat, cs: seq<nat>, i: nat)
    requires |rank| == |t.nodes| && k < |t.nodes| && Below(t, rank, k)
    requires forall e :: e in cs ==> e in t.nodes[k].children
    requires i < |cs|
    ensures cs[i] < |t.edges| && t.edges[cs[i]].last < |t.nodes| && Below(t, rank, t.edges[cs[i]].last)
    ensures Sizes(t, rank, k, cs[..i + 1]) == Sizes(t, rank, k, cs[..i]) + Size(t, rank, t.edges[cs[i]].last)
  {
    assert cs[..i + 1][..i] == cs[..i];
    assert cs[i] in t.nodes[k].children;
  }

  /** The lists `collect` builds: edge `k` leads to node `k + 1` from a node
      listed before it. */
  ghost predicate Listed(t: Net, nids: seq<nat>, eids: seq<nat>)
  {
    && |nids| == |eids| + 1
    && (forall k :: 0 <= k < |nids| ==> nids[k] < |t.nodes|)
    && (forall k :: 0 <= k < |eids| ==>
          && LiveEdge(t, eids[k]) && eids[k] < |t.edges|
          && t.edges[eids[k]].last == nids[k + 1] && t.edges[eids[k]].first in nids[..k + 1])
  }

  lemma ListedStep(t: Net, nids: seq<nat>, eids: seq<nat>, e: nat)
    requires Listed(t, nids, eids)
    requires LiveEdge(t, e) && e < |t.edges| && t.edges[e].first in nids && t.edges[e].last < |t.nodes|
    ensures Listed(t, nids + [t.edges[e].last], eids + [e])
  {
    var nids', eids' := nids + [t.edges[e].last], eids + [e];
    forall k | 0 <= k < |eids'|
      ensures t.edges[eids'[k]].first in nids'[..k + 1]
    {
      if k < |eids| {
        assert nids'[..k + 1] == nids[..k + 1];
      } else {
        assert nids'[..k + 1] == nids;
      }
    }
  }

  /** Every child edge of a listed node is listed, unless the node is still
      waiting in `pending`. */
  ghost predicate Covered(t: Net, nids: seq<nat>, eids: seq<nat>, pending: seq<nat>)
    requires forall k :: 0 <= k < |nids| ==> nids[k] < |t.nodes|
  {
    forall k, e :: 0 <= k < |nids| && e in t.nodes[nids[k]].children ==> e in eids || nids[k] in pending
  }

  lemma CoveredStep(t: Net, nids: seq<nat>, eids: seq<nat>, stack: seq<nat>, n: nat, e: nat, last: nat)
    requires forall k :: 0 <= k < |nids| ==> nids[k] < |t.nodes|
    requires last < |t.nodes| && Covered(t, nids, eids, stack + [n])
    ensures Covered(t, nids + [last], eids + [e], stack + [last] + [n])
  {
    var nids' := nids + [last];
    forall k, c | 0 <= k < |nids'| && c in t.nodes[nids'[k]].children
      ensures c in eids + [e] || nids'[k] in stack + [last] + [n]
    {
      if k < |nids| {
        assert nids'[k] == nids[k];
      }
    }
  }

  lemma CoveredDone(t: Net, nids: seq<nat>, eids: seq<nat>, stack: seq<nat>, n: nat)
    requires forall k :: 0 <= k < |nids| ==> nids[k] < |t.nodes|
    requires Covered(t, nids, eids, stack + [n]) && n < |t.nodes|
    requires forall e :: e in t.nodes[n].children ==> e in eids
    ensures Covered(t, nids, eids, stack)
  {
  }

  predicate OnList(stack: seq<nat>, nids: seq<nat>)
  {
    forall j :: 0 <= j < |stack| ==> stack[j] in nids
  }

  /** The state of the inner loop of `collect` after the first `i` child
      edges `cs` of `n`. */
  ghost predicate Pushed(t: Net, rank: seq<nat>, n: nat, cs: seq<nat>, i: nat,
                         nids0: seq<nat>, eids0: seq<nat>, stack0: seq<nat>,
                         nids: seq<nat>, eids: seq<nat>, stack: seq<nat>)
  {
    && n < |t.nodes| && |rank| == |t.nodes| && Below(t, rank, n) && i <= |cs|
    && (forall e :: e in cs ==> e in t.nodes[n].children)
    && Listed(t, nids, eids) && |nids| >= |nids0| && nids[..|nids0|] == nids0
    && eids == eids0 + cs[..i]
    && OnList(stack, nids) && Covered(t, nids, eids, stack + [n])
    && AllBelow(t, rank, stack) && AllBelow(t, rank, stack0)
    && Weight(t, rank, stack) == Weight(t, rank, stack0) + Sizes(t, rank, n, cs[..i])
  }

  lemma PushedStep(t: Net, rank: seq<nat>, n: nat, cs: seq<nat>, i: nat,
                   nids0: seq<nat>, eids0: seq<nat>, stack0: seq<nat>,
                   nids: seq<nat>, eids: seq<nat>, stack: seq<nat>)
    requires Pushed(t, rank, n, cs, i, nids0, eids0, stack0, nids, eids, stack) && i < |cs|
    requires LiveEdge(t, cs[i]) && cs[i] < |t.edges| && t.edges[cs[i]].first == n && n in nids
    ensures var last := t.edges[cs[i]].last;
      Pushed(t, rank, n, cs, i + 1, nids0, eids0, stack0, nids + [last], eids + [cs[i]], stack + [last])
  {
    var e := cs[i];
    var last := t.edges[e].last;
    SizesStep(t, rank, n, cs, i);
    ListedStep(t, nids, eids, e);
    CoveredStep(t, nids, eids, stack, n, e, last);
    WeightPush(t, rank, stack, last);
    assert cs[..i + 1] == cs[..i] + [e];
    assert (nids + [last])[..|nids0|] == nids[..|nids0|];
    assert stack + [last] + [n] == (stack + [last]) + [n];
  }

  /** The inner loop of `collect`: list every child edge of the popped node
      `n` and its last node, and push that node. */
  method PushChildren(g: RCGraph, ghost rank: seq<nat>, n: nat, nids: seq<nat>, eids: seq<nat>, stack: seq<nat>)
    returns (nids': seq<nat>, eids': seq<nat>, stack': seq<nat>)
    requires g.Valid() && n < |g.nodes| && n in nids
    requires Listed(Snapshot(g), nids, eids) && OnList(stack, nids) && Covered(Snapshot(g), nids, eids, stack + [n])
    requires AllBelow(Snapshot(g), rank, stack) && Below(Snapshot(g), rank, n)
    ensures Listed(Snapshot(g), nids', eids') && |nids'| >= |nids| && nids'[..|nids|] == nids
    ensures OnList(stack', nids') && Covered(Snapshot(g), nids', eids', stack')
    ensures AllBelow(Snapshot(g), rank, stack')
    ensures Weight(Snapshot(g), rank, stack') == Weight(Snapshot(g), rank, stack) + Sizes(Snapshot(g), rank, n, g.nodes[n].children)
  {
    ghost var t := Snapshot(g);
    var children := g.GetChildren(n);
    assert forall e :: e in children ==> LiveEdge(t, e) && e < |t.edges| && t.edges[e].first == n;
    nids', eids', stack' := nids, eids, stack;
    assert eids' == eids + children[..0];
    assert nids'[..|nids|] == nids;
    for i := 0 to |children|
      invariant Pushed(t, rank, n, children, i, nids, eids, stack, nids', eids', stack')
    {
      var e := children[i];
      assert e in children;
      var last := g.GetEdgeNodeLast(e);
      PushedStep(t, rank, n, children, i, nids, eids, stack, nids', eids', stack');
      eids' := eids' + [e];
      nids' := nids' + [last];
      stack' := stack' + [last];
    }
    assert children[..|children|] == children;
    CoveredDone(t, nids', eids', stack', n);
  }

  /** `collect`: a depth-first walk from the root with an explicit stack,
      listing the root, then for every child edge of a popped node the edge
      and its last node.  The root's tree must be finite, which the ranks
      witness. */
  method Collect(g: RCGraph, ghost rank: seq<nat>) returns (nids: seq<nat>, eids: seq<nat>)
    requires g.Valid() && g.root < |g.nodes| && |rank| == |g.nodes| && Below(Snapshot(g), rank, g.root)
    ensures |nids| == |eids| + 1 && nids[0] == g.root
    ensures forall k :: 0 <= k < |nids| ==> nids[k] < |g.nodes|
    ensures forall k :: 0 <= k < |eids| ==>
      g.LiveEdge(eids[k]) && g.edges[eids[k]].last == nids[k + 1] && g.edges[eids[k]].first in nids[..k + 1]
    ensures forall k, e :: 0 <= k < |nids| && e in g.nodes[nids[k]].children ==> e in eids
    ensures Listed(Snapshot(g), nids, eids) && Covered(Snapshot(g), nids, eids, [])
  {
    nids, eids := CollectFromRoot(g, rank);
  }

  /** The worklist loop of `collect`, its state kept as `Listed` and
      `Covered`. */
  method CollectFromRoot(g: RCGraph, ghost rank: seq<nat>) returns (nids: seq<nat>, eids: seq<nat>)
    requires g.Valid() && g.root < |g.nodes| && |rank| == |g.nodes| && Below(Snapshot(g), rank, g.root)
    ensures nids != [] && nids[0] == g.root
    ensures Listed(Snapshot(g), nids, eids) && Covered(Snapshot(g), nids, eids, [])
  {
    ghost var t := Snapshot(g);
    var root := g.GetRoot();
    var stack := [root];
    nids := [root];
    eids := [];
    while stack != []
      invariant Listed(t, nids, eids) && nids[0] == root
      invariant AllBelow(t, rank, stack) && OnList(stack, nids) && Covered(t, nids, eids, stack)
      decreases Weight(t, rank, stack)
    {
      nids, eids, stack := PopAndPush(g, rank, nids, eids, stack);
    }
    assert Covered(t, nids, eids, []);
  }

  /** One turn of the worklist loop: take the node on top of the stack and
      push the far ends of its child edges. */
  method PopAndPush(g: RCGraph, ghost rank: seq<nat>, nids: seq<nat>, eids: seq<nat>, stack: seq<nat>)
    returns (nids': seq<nat>, eids': seq<nat>, stack': seq<nat>)
    requires g.Valid() && stack != [] && nids != []
    requires Listed(Snapshot(g), nids, eids) && AllBelow(Snapshot(g), rank, stack)
    requires OnList(stack, nids) && Covered(Snapshot(g), nids, eids, stack)
    ensures Listed(Snapshot(g), nids', eids') && nids' != [] && nids'[0] == nids[0]
    ensures AllBelow(Snapshot(g), rank, stack') && OnList(stack', nids') && Covered(Snapshot(g), nids', eids', stack')
    ensures Weight(Snapshot(g), rank, stack') < Weight(Snapshot(g), rank, stack)
  {
    ghost var t := Snapshot(g);
    WeightPop(t, rank, stack);
    var n := stack[|stack| - 1];
    assert stack == stack[..|stack| - 1] + [n];
    var rest := stack[..|stack| - 1];
    nids', eids', stack' := PushChildren(g, rank, n, nids, eids, rest);
    assert nids'[0] == nids'[..|nids|][0];
  }

  // ---------------------------------------------------------------------
  // writing

  function NodeIds(recs: seq<NodeRecord>): (ids: seq<int>)
    ensures |ids| == |recs| && forall i :: 0 <= i < |recs| ==> ids[i] == recs[i].id
  {
    if recs == [] then [] else NodeIds(recs[..|recs| - 1]) + [recs[|recs| - 1].id]
  }

  function EdgeIds(recs: seq<EdgeRecord>): (ids: seq<Option<int>>)
    ensures |ids| == |recs| && forall k :: 0 <= k < |recs| ==> ids[k] == recs[k].id
  {
    if recs == [] then [] else EdgeIds(recs[..|recs| - 1]) + [recs[|recs| - 1].id]
  }

  /** The node loop of `writeRCGraph`. */
  method NodeRecords(g: RCGraph, nids: seq<nat>) returns (nodes: seq<NodeRecord>)
    requires forall i :: 0 <= i < |nids| ==> nids[i] < |g.nodes|
    ensures |nodes| == |nids|
    ensures forall i :: 0 <= i < |nids| ==> nodes[i] == RecordOfNode(nids[i], g.nodes[nids[i]].node)
  {
    nodes := [];
    for i := 0 to |nids|
      invariant |nodes| == i
      invariant forall j :: 0 <= j < i ==> nodes[j] == RecordOfNode(nids[j], g.nodes[nids[j]].node)
    {
      var n := nids[i];
      nodes := nodes + [RecordOfNode(n, g.GetNode(n))];
    }
  }

  /** The edge loop of `writeRCGraph`. */
  method EdgeRecords(g: RCGraph, eids: seq<nat>) returns (edges: seq<EdgeRecord>)
    requires forall k :: 0 <= k < |eids| ==> eids[k] < |g.edges|
    ensures |edges| == |eids|
    ensures forall k :: 0 <= k < |eids| ==> edges[k] == RecordOfEdge(eids[k], g.edges[eids[k]])
  {
    edges := [];
    for k := 0 to |eids|
      invariant |edges| == k
      invariant forall j :: 0 <= j < k ==> edges[j] == RecordOfEdge(eids[j], g.edges[eids[j]])
    {
      var e := eids[k];
      var entry := EdgeEntry(g.GetEdgeNodeFirst(e), g.GetEdgeNodeLast(e), g.GetEdge(e));
      edges := edges + [RecordOfEdge(e, entry)];
    }
  }

  /** Every written edge leaves a node written before it. */
  lemma WrittenOrder(t: Net, nids: seq<nat>, eids: seq<nat>, nodes: seq<NodeRecord>, edges: seq<EdgeRecord>)
    requires Listed(t, nids, eids)
    requires |nodes| == |nids| && forall i :: 0 <= i < |nids| ==> nodes[i].id == nids[i]
    requires |edges| == |eids| && forall k :: 0 <= k < |eids| ==> edges[k].first == t.edges[eids[k]].first
    ensures forall k :: 0 <= k < |edges| ==> edges[k].first in NodeIds(nodes[..k + 1])
  {
    forall k | 0 <= k < |eids|
      ensures edges[k].first in NodeIds(nodes[..k + 1])
    {
      var j :| 0 <= j < k + 1 && nids[..k + 1][j] == t.edges[eids[k]].first;
      assert NodeIds(nodes[..k + 1])[j] == nids[j];
    }
  }

  /** Every child edge of a written node is written. */
  lemma WrittenComplete(t: Net, nids: seq<nat>, eids: seq<nat>, nodes: seq<NodeRecord>, edges: seq<EdgeRecord>)
    requires forall k :: 0 <= k < |nids| ==> nids[k] < |t.nodes|
    requires Covered(t, nids, eids, [])
    requires |nodes| == |nids| && forall i :: 0 <= i < |nids| ==> nodes[i].id == nids[i]
    requires |edges| == |eids| && forall k :: 0 <= k < |eids| ==> edges[k].id == Some(eids[k] as int)
    ensures forall i, e :: 0 <= i < |nodes| && 0 <= nodes[i].id < |t.nodes| && e in t.nodes[nodes[i].id].children ==>
      Some(e) in EdgeIds(edges)
  {
    forall i, e | 0 <= i < |nodes| && 0 <= nodes[i].id < |t.nodes| && e in t.nodes[nodes[i].id].children
      ensures Some(e) in EdgeIds(edges)
    {
      assert e in t.nodes[nids[i]].children;
      assert e in eids;
      var k :| 0 <= k < |eids| && eids[k] == e;
      assert EdgeIds(edges)[k] == Some(e);
    }
  }

  /** Every written node type reads back. */
  lemma WrittenKinds(t: Net, nids: seq<nat>, nodes: seq<NodeRecord>)
    requires forall k :: 0 <= k < |nids| ==> nids[k] < |t.nodes|
    requires |nodes| == |nids| && forall i :: 0 <= i < |nids| ==> nodes[i] == RecordOfNode(nids[i], t.nodes[nids[i]].node)
    ensures KindsParse(nodes)
  {
    forall i | 0 <= i < |nodes|
      ensures ParseKind(nodes[i].kind).Success?
    {
      NodeRoundTrip(nids[i], t.nodes[nids[i]].node);
    }
  }

  /** `writeRCGraph`: the nodes and edges `collect` lists, in its order, as
      node and edge records.  The document lists the root first, every
      edge after the node it leaves and right before the node it enters,
      every child edge of a written node, and only node types the reader
      accepts. */
  method WriteRCGraph(g: RCGraph, ghost rank: seq<nat>) returns (doc: Document)
    requires g.Valid() && g.root < |g.nodes| && |rank| == |g.nodes| && Below(Snapshot(g), rank, g.root)
    ensures |doc.nodes| == |doc.edges| + 1 && doc.nodes[0].id == g.root
    ensures forall i :: 0 <= i < |doc.nodes| ==>
      0 <= doc.nodes[i].id < |g.nodes| && doc.nodes[i] == RecordOfNode(doc.nodes[i].id, g.nodes[doc.nodes[i].id].node)
    ensures forall k :: 0 <= k < |doc.edges| ==>
      && doc.edges[k].id.Some? && 0 <= doc.edges[k].id.value && g.LiveEdge(doc.edges[k].id.value)
      && doc.edges[k] == RecordOfEdge(doc.edges[k].id.value, g.edges[doc.edges[k].id.value])
      && doc.edges[k].last == doc.nodes[k + 1].id && doc.edges[k].first in NodeIds(doc.nodes[..k + 1])
    ensures forall i, e :: 0 <= i < |doc.nodes| && 0 <= doc.nodes[i].id < |g.nodes| && e in g.nodes[doc.nodes[i].id].children ==>
      Some(e) in EdgeIds(doc.edges)
    ensures KindsParse(doc.nodes)
  {
    var nids, eids := Collect(g, rank);
    var nodes := NodeRecords(g, nids);
    var edges := EdgeRecords(g, eids);
    doc := Document(nodes, edges);
    WrittenOrder(Snapshot(g), nids, eids, nodes, edges);
    WrittenComplete(Snapshot(g), nids, eids, nodes, edges);
    WrittenKinds(Snapshot(g), nids, nodes);
  }
}
