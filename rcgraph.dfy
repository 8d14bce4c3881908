/** The RC-tree container (include/IRCGraph.h, class `RCGraph`).  Node and
    edge entries live in two vectors indexed by id; ids of removed entries go
    to two free lists that are kept in ascending order, and `addNode` /
    `addEdge` reuse the largest free id before growing a vector.  Each node
    entry records its parent edge and its child edges, each edge entry its
    first and last node. */
module Graphs {
  import opened Geometry
  import opened Configuration

  /** `invalidNodeId()` and `invalidEdgeId()`: the largest 32-bit unsigned value. */
  const InvalidNodeId: nat := 0xFFFF_FFFF
  const InvalidEdgeId: nat := 0xFFFF_FFFF

  /** `NodeEntryTy`: the node record plus its parent edge and child edges. */
  datatype NodeEntry = NodeEntry(parent: nat, children: seq<nat>, node: Node)

  /** `EdgeEntryTy`: the edge record plus the ids of its two nodes. */
  datatype EdgeEntry = EdgeEntry(first: nat, last: nat, edge: Edge)

  predicate StrictlyAscending(s: seq<nat>)
  {
    forall i, j :: 0 <= i < j < |s| ==> s[i] < s[j]
  }

  predicate NoDuplicates(s: seq<nat>)
  {
    forall i, j :: 0 <= i < j < |s| ==> s[i] != s[j]
  }

  /** `push_back` followed by `std::sort` on a free list: the unique ascending
      arrangement of the old ids and the new one. */
  function InsertAscending(s: seq<nat>, x: nat): (r: seq<nat>)
    requires StrictlyAscending(s) && x !in s
    ensures StrictlyAscending(r)
    ensures forall y :: y in r <==> y in s || y == x
  {
    if s == [] then [x]
    else if x < s[0] then
      AscendingCons(x, s);
      [x] + s
    else
      var t := InsertAscending(s[1..], x);
      assert forall y :: y in s[1..] ==> s[0] < y by {
        forall y | y in s[1..] ensures s[0] < y {
          var i :| 0 <= i < |s[1..]| && s[1..][i] == y;
          assert s[i + 1] == y;
        }
      }
      AscendingCons(s[0], t);
      [s[0]] + t
  }

  /** Putting a value below every element in front of an ascending list. */
  lemma AscendingCons(x: nat, s: seq<nat>)
    requires StrictlyAscending(s) && forall y :: y in s ==> x < y
    ensures StrictlyAscending([x] + s)
  {
    var r := [x] + s;
    forall i, j | 0 <= i < j < |r|
      ensures r[i] < r[j]
    {
      assert r[j] == s[j - 1];
      if i > 0 {
        assert r[i] == s[i - 1];
      } else {
        assert s[j - 1] in s;
      }
    }
  }

  /** The elements of `s` that are not in `r`, in their order. */
  function Without(s: seq<nat>, r: set<nat>): (t: seq<nat>)
    ensures forall y :: y in t <==> y in s && y !in r
    ensures NoDuplicates(s) ==> NoDuplicates(t)
  {
    if s == [] then []
    else
      var rest := Without(s[1..], r);
      assert forall y :: y in s[1..] ==> y in s;
      if s[0] in r then rest else [s[0]] + rest
  }

  /** `removeChild`: `erase(remove(...))` on a list that holds `e` exactly once
      drops that occurrence and keeps the order of the rest. */
  function RemoveChild(s: seq<nat>, e: nat): (t: seq<nat>)
    requires e in s && NoDuplicates(s)
    ensures t == Without(s, {e}) && |t| == |s| - 1
  {
    if s[0] == e then
      assert e !in s[1..];
      WithoutAbsent(s[1..], {e});
      s[1..]
    else
      [s[0]] + RemoveChild(s[1..], e)
  }

  lemma {:induction false} WithoutAbsent(s: seq<nat>, r: set<nat>)
    requires forall y :: y in s ==> y !in r
    ensures Without(s, r) == s
  {
    if s != [] {
      WithoutAbsent(s[1..], r);
    }
  }

  /** `EdgeEntryTy::connect`: append the edge to its first node's children,
      then make it the parent of its last node. */
  function Link(ns: seq<NodeEntry>, first: nat, last: nat, e: nat): (r: seq<NodeEntry>)
    requires first < |ns| && last < |ns|
    ensures |r| == |ns|
    ensures forall n :: 0 <= n < |ns| ==>
      && r[n].node == ns[n].node
      && r[n].children == (if n == first then ns[n].children + [e] else ns[n].children)
      && r[n].parent == (if n == last then e else ns[n].parent)
  {
    var ns1 := ns[first := ns[first].(children := ns[first].children + [e])];
    ns1[last := ns1[last].(parent := e)]
  }

  /** The node-side half of `removeEdge`: drop the edge from its first node's
      children, then reset its last node's parent. */
  function Unlink(ns: seq<NodeEntry>, first: nat, last: nat, e: nat): (r: seq<NodeEntry>)
    requires first < |ns| && last < |ns|
    requires e in ns[first].children && NoDuplicates(ns[first].children)
    ensures |r| == |ns|
    ensures forall n :: 0 <= n < |ns| ==>
      && r[n].node == ns[n].node
      && r[n].children == (if n == first then Without(ns[n].children, {e}) else ns[n].children)
      && r[n].parent == (if n == last then InvalidEdgeId else ns[n].parent)
  {
    var ns1 := ns[first := ns[first].(children := RemoveChild(ns[first].children, e))];
    ns1[last := ns1[last].(parent := InvalidEdgeId)]
  }

  /** An id that is in range and not on its free list. */
  predicate IsLive(free: seq<nat>, size: nat, id: nat)
  {
    id < size && id !in free
  }

  /** A free list: ascending, each id below the vector's size. */
  ghost predicate FreeList(free: seq<nat>, size: nat)
  {
    StrictlyAscending(free) && forall i :: 0 <= i < |free| ==> free[i] < size
  }

  ghost predicate DistinctChildren(ns: seq<NodeEntry>)
  {
    forall n :: 0 <= n < |ns| ==> NoDuplicates(ns[n].children)
  }

  /** The children of a node are live edges leaving it. */
  ghost predicate ChildrenLeave(ns: seq<NodeEntry>, es: seq<EdgeEntry>, fes: seq<nat>)
  {
    forall n, e :: 0 <= n < |ns| && e in ns[n].children ==> IsLive(fes, |es|, e) && es[e].first == n
  }

  /** A node's parent, when set, is a live edge entering it. */
  ghost predicate ParentsEnter(ns: seq<NodeEntry>, es: seq<EdgeEntry>, fes: seq<nat>)
  {
    forall n :: 0 <= n < |ns| && ns[n].parent != InvalidEdgeId ==>
      IsLive(fes, |es|, ns[n].parent) && es[ns[n].parent].last == n
  }

  /** A live edge leaves a live node, is listed among its children and ends
      at an existing node. */
  ghost predicate EdgesListed(ns: seq<NodeEntry>, fns: seq<nat>, es: seq<EdgeEntry>, fes: seq<nat>)
  {
    forall e: nat :: IsLive(fes, |es|, e) ==>
      IsLive(fns, |ns|, es[e].first) && es[e].last < |ns| && e in ns[es[e].first].children
  }

  /** The container's invariant over its four vectors. */
  ghost predicate Wf(ns: seq<NodeEntry>, fns: seq<nat>, es: seq<EdgeEntry>, fes: seq<nat>)
  {
    && FreeList(fns, |ns|)
    && FreeList(fes, |es|)
    && DistinctChildren(ns)
    && ChildrenLeave(ns, es, fes)
    && ParentsEnter(ns, es, fes)
    && EdgesListed(ns, fns, es, fes)
  }

  lemma PopKeepsAscending(s: seq<nat>)
    requires StrictlyAscending(s) && s != []
    ensures StrictlyAscending(s[..|s| - 1])
    ensures s[|s| - 1] !in s[..|s| - 1]
    ensures forall f :: f in s ==> f <= s[|s| - 1]
    ensures forall y :: y in s[..|s| - 1] <==> y in s && y != s[|s| - 1]
  {
    assert forall i :: 0 <= i < |s| - 1 ==> s[i] < s[|s| - 1];
    assert s == s[..|s| - 1] + [s[|s| - 1]];
  }

  /** Reusing the largest free node id, or appending, keeps the invariant. */
  lemma AllocNodeWf(ns: seq<NodeEntry>, fns: seq<nat>, es: seq<EdgeEntry>, fes: seq<nat>, entry: NodeEntry)
    requires Wf(ns, fns, es, fes)
    requires entry.parent == InvalidEdgeId && entry.children == []
    ensures fns == [] ==> Wf(ns + [entry], fns, es, fes)
    ensures fns != [] ==> Wf(ns[fns[|fns| - 1] := entry], fns[..|fns| - 1], es, fes)
  {
    if fns != [] {
      var n := fns[|fns| - 1];
      PopKeepsAscending(fns);
      var ns' := ns[n := entry];
      assert forall e: nat :: IsLive(fes, |es|, e) ==> es[e].first != n;
      assert forall m :: 0 <= m < |ns| && m != n ==> ns'[m] == ns[m];
    } else {
      var ns' := ns + [entry];
      assert forall m :: 0 <= m < |ns| ==> ns'[m] == ns[m];
    }
  }

  /** Allocating edge id `e` (the largest free id, or a fresh one) yields a
      live id outside every child list. */
  lemma AllocEdgeIds(ns: seq<NodeEntry>, fns: seq<nat>, es: seq<EdgeEntry>, fes: seq<nat>,
                     es': seq<EdgeEntry>, fes': seq<nat>, e: nat, entry: EdgeEntry)
    requires Wf(ns, fns, es, fes)
    requires fes == [] ==> e == |es| && es' == es + [entry] && fes' == fes
    requires fes != [] ==> e == fes[|fes| - 1] && es' == es[e := entry] && fes' == fes[..|fes| - 1]
    ensures forall n :: 0 <= n < |ns| ==> e !in ns[n].children
    ensures forall c: nat :: IsLive(fes', |es'|, c) <==> IsLive(fes, |es|, c) || c == e
    ensures |es| <= |es'|
    ensures forall c: nat :: IsLive(fes, |es|, c) ==> c != e && es'[c] == es[c]
    ensures e < |es'| && es'[e] == entry
    ensures FreeList(fes', |es'|)
  {
    if fes != [] {
      PopKeepsAscending(fes);
      assert e in fes;
    }
    assert !IsLive(fes, |es|, e);
    forall n, c | 0 <= n < |ns| && c in ns[n].children
      ensures c != e
    {
      assert IsLive(fes, |es|, c);
    }
  }

  // The three lemmas below share the facts `AllocEdgeIds` provides about a
  // newly allocated edge id `e`.

  lemma LinkChildren(ns: seq<NodeEntry>, es: seq<EdgeEntry>, fes: seq<nat>,
                     es': seq<EdgeEntry>, fes': seq<nat>, e: nat, entry: EdgeEntry)
    requires DistinctChildren(ns) && ChildrenLeave(ns, es, fes)
    requires entry.first < |ns| && entry.last < |ns|
    requires forall n :: 0 <= n < |ns| ==> e !in ns[n].children
    requires forall c: nat :: IsLive(fes', |es'|, c) <==> IsLive(fes, |es|, c) || c == e
    requires |es| <= |es'| && forall c: nat :: IsLive(fes, |es|, c) ==> c != e && es'[c] == es[c]
    requires e < |es'| && es'[e] == entry
    ensures DistinctChildren(Link(ns, entry.first, entry.last, e))
    ensures ChildrenLeave(Link(ns, entry.first, entry.last, e), es', fes')
  {
    var f := entry.first;
    var ns' := Link(ns, f, entry.last, e);
    forall n | 0 <= n < |ns'|
      ensures NoDuplicates(ns'[n].children)
    {
      if n == f {
        var cs := ns[n].children + [e];
        assert forall i :: 0 <= i < |ns[n].children| ==> cs[i] == ns[n].children[i];
      }
    }
    forall n, c | 0 <= n < |ns'| && c in ns'[n].children
      ensures IsLive(fes', |es'|, c) && es'[c].first == n
    {
      if c != e {
        assert c in ns[n].children;
        assert IsLive(fes, |es|, c) && es[c].first == n;
      }
    }
  }

  lemma LinkParents(ns: seq<NodeEntry>, es: seq<EdgeEntry>, fes: seq<nat>,
                    es': seq<EdgeEntry>, fes': seq<nat>, e: nat, entry: EdgeEntry)
    requires ParentsEnter(ns, es, fes)
    requires entry.first < |ns| && entry.last < |ns|
    requires forall c: nat :: IsLive(fes', |es'|, c) <==> IsLive(fes, |es|, c) || c == e
    requires |es| <= |es'| && forall c: nat :: IsLive(fes, |es|, c) ==> c != e && es'[c] == es[c]
    requires e < |es'| && es'[e] == entry
    ensures ParentsEnter(Link(ns, entry.first, entry.last, e), es', fes')
  {
    var l := entry.last;
    var ns' := Link(ns, entry.first, l, e);
    forall n | 0 <= n < |ns'| && ns'[n].parent != InvalidEdgeId
      ensures IsLive(fes', |es'|, ns'[n].parent) && es'[ns'[n].parent].last == n
    {
      if n != l {
        assert ns'[n].parent == ns[n].parent;
        assert IsLive(fes, |es|, ns[n].parent);
      }
    }
  }

  lemma LinkEdges(ns: seq<NodeEntry>, fns: seq<nat>, es: seq<EdgeEntry>, fes: seq<nat>,
                  es': seq<EdgeEntry>, fes': seq<nat>, e: nat, entry: EdgeEntry)
    requires EdgesListed(ns, fns, es, fes)
    requires IsLive(fns, |ns|, entry.first) && entry.last < |ns|
    requires forall c: nat :: IsLive(fes', |es'|, c) <==> IsLive(fes, |es|, c) || c == e
    requires |es| <= |es'| && forall c: nat :: IsLive(fes, |es|, c) ==> c != e && es'[c] == es[c]
    requires e < |es'| && es'[e] == entry
    ensures EdgesListed(Link(ns, entry.first, entry.last, e), fns, es', fes')
  {
    var ns' := Link(ns, entry.first, entry.last, e);
    forall c: nat | IsLive(fes', |es'|, c)
      ensures IsLive(fns, |ns'|, es'[c].first) && es'[c].last < |ns'| && c in ns'[es'[c].first].children
    {
      if c != e {
        assert IsLive(fes, |es|, c) && es'[c] == es[c];
        assert c in ns[es[c].first].children;
      }
    }
  }

  /** Linking a newly live edge into its two nodes keeps the invariant. */
  lemma LinkWf(ns: seq<NodeEntry>, fns: seq<nat>, es: seq<EdgeEntry>, fes: seq<nat>,
               es': seq<EdgeEntry>, fes': seq<nat>, e: nat, entry: EdgeEntry)
    requires Wf(ns, fns, es, fes)
    requires IsLive(fns, |ns|, entry.first) && entry.last < |ns|
    requires forall n :: 0 <= n < |ns| ==> e !in ns[n].children
    requires forall c: nat :: IsLive(fes', |es'|, c) <==> IsLive(fes, |es|, c) || c == e
    requires |es| <= |es'|
    requires forall c: nat :: IsLive(fes, |es|, c) ==> c != e && es'[c] == es[c]
    requires e < |es'| && es'[e] == entry
    requires FreeList(fes', |es'|)
    ensures Wf(Link(ns, entry.first, entry.last, e), fns, es', fes')
  {
    LinkChildren(ns, es, fes, es', fes', e, entry);
    LinkParents(ns, es, fes, es', fes', e, entry);
    LinkEdges(ns, fns, es, fes, es', fes', e, entry);
  }

  /** Putting an in-range id on a free list keeps it a free list and takes
      exactly that id out of the live ones. */
  lemma FreeIdInRange(fes: seq<nat>, size: nat, e: nat)
    requires FreeList(fes, size) && e !in fes && e < size
    ensures FreeList(InsertAscending(fes, e), size)
    ensures forall c: nat :: IsLive(InsertAscending(fes, e), size, c) <==> IsLive(fes, size, c) && c != e
  {
    var fes' := InsertAscending(fes, e);
    forall i | 0 <= i < |fes'|
      ensures fes'[i] < size
    {
      assert fes'[i] in fes';
      if fes'[i] != e {
        var j :| 0 <= j < |fes| && fes[j] == fes'[i];
      }
    }
  }

  lemma UnlinkChildren(ns: seq<NodeEntry>, es: seq<EdgeEntry>, fes: seq<nat>, fes': seq<nat>, e: nat)
    requires DistinctChildren(ns) && ChildrenLeave(ns, es, fes)
    requires e < |es| && es[e].first < |ns| && es[e].last < |ns| && e in ns[es[e].first].children
    requires forall c: nat :: IsLive(fes', |es|, c) <==> IsLive(fes, |es|, c) && c != e
    ensures DistinctChildren(Unlink(ns, es[e].first, es[e].last, e))
    ensures ChildrenLeave(Unlink(ns, es[e].first, es[e].last, e), es, fes')
  {
    var f := es[e].first;
    var ns' := Unlink(ns, f, es[e].last, e);
    forall n, c | 0 <= n < |ns'| && c in ns'[n].children
      ensures IsLive(fes', |es|, c) && es[c].first == n
    {
      assert c in ns[n].children;
      assert IsLive(fes, |es|, c) && es[c].first == n;
    }
  }

  lemma UnlinkParents(ns: seq<NodeEntry>, es: seq<EdgeEntry>, fes: seq<nat>, fes': seq<nat>, e: nat)
    requires ParentsEnter(ns, es, fes) && DistinctChildren(ns)
    requires e < |es| && es[e].first < |ns| && es[e].last < |ns| && e in ns[es[e].first].children
    requires forall c: nat :: IsLive(fes', |es|, c) <==> IsLive(fes, |es|, c) && c != e
    ensures ParentsEnter(Unlink(ns, es[e].first, es[e].last, e), es, fes')
  {
    var l := es[e].last;
    var ns' := Unlink(ns, es[e].first, l, e);
    forall n | 0 <= n < |ns'| && ns'[n].parent != InvalidEdgeId
      ensures IsLive(fes', |es|, ns'[n].parent) && es[ns'[n].parent].last == n
    {
      assert n != l && ns'[n].parent == ns[n].parent;
    }
  }

  lemma UnlinkEdges(ns: seq<NodeEntry>, fns: seq<nat>, es: seq<EdgeEntry>, fes: seq<nat>, fes': seq<nat>, e: nat)
    requires EdgesListed(ns, fns, es, fes) && DistinctChildren(ns)
    requires e < |es| && es[e].first < |ns| && es[e].last < |ns| && e in ns[es[e].first].children
    requires forall c: nat :: IsLive(fes', |es|, c) <==> IsLive(fes, |es|, c) && c != e
    ensures EdgesListed(Unlink(ns, es[e].first, es[e].last, e), fns, es, fes')
  {
    var f := es[e].first;
    var ns' := Unlink(ns, f, es[e].last, e);
    forall c: nat | IsLive(fes', |es|, c)
      ensures IsLive(fns, |ns'|, es[c].first) && es[c].last < |ns'| && c in ns'[es[c].first].children
    {
      var fc := es[c].first;
      assert c in ns[fc].children;
      assert fc == f ==> c in Without(ns[fc].children, {e});
    }
  }

  /** Removing a live edge (`removeEdge`) keeps the invariant. */
  lemma UnlinkWf(ns: seq<NodeEntry>, fns: seq<nat>, es: seq<EdgeEntry>, fes: seq<nat>, e: nat)
    requires Wf(ns, fns, es, fes)
    requires e < |es| && es[e].first < |ns| && e in ns[es[e].first].children
    ensures IsLive(fes, |es|, e) && es[e].last < |ns|
    ensures e !in fes
    ensures Wf(Unlink(ns, es[e].first, es[e].last, e), fns, es, InsertAscending(fes, e))
  {
    assert IsLive(fes, |es|, e);
    var fes' := InsertAscending(fes, e);
    FreeIdInRange(fes, |es|, e);
    UnlinkChildren(ns, es, fes, fes', e);
    UnlinkParents(ns, es, fes, fes', e);
    UnlinkEdges(ns, fns, es, fes, fes', e);
  }

  /** A list without duplicates loses exactly its head when the head is removed. */
  lemma DropFirst(s: seq<nat>)
    requires s != [] && NoDuplicates(s)
    ensures Without(s, {s[0]}) == s[1..]
  {
    assert s[0] !in s[1..];
    WithoutAbsent(s[1..], {s[0]});
  }

  /** Freeing a live node that no edge leaves any more keeps the invariant. */
  lemma FreeNodeWf(ns: seq<NodeEntry>, fns: seq<nat>, es: seq<EdgeEntry>, fes: seq<nat>, n: nat)
    requires Wf(ns, fns, es, fes) && IsLive(fns, |ns|, n) && ns[n].children == []
    ensures Wf(ns, InsertAscending(fns, n), es, fes)
  {
    var fns' := InsertAscending(fns, n);
    forall i | 0 <= i < |fns'|
      ensures fns'[i] < |ns|
    {
      assert fns'[i] in fns';
      if fns'[i] != n {
        var j :| 0 <= j < |fns| && fns[j] == fns'[i];
      }
    }
    forall e: nat | IsLive(fes, |es|, e)
      ensures IsLive(fns', |ns|, es[e].first)
    {
      assert e in ns[es[e].first].children;
    }
  }

  class RCGraph {
    var nodes: seq<NodeEntry>
    var freeNodeIds: seq<nat>
    var edges: seq<EdgeEntry>
    var freeEdgeIds: seq<nat>
    var root: nat
    var cfg: Config

    predicate LiveNode(n: nat)
      reads this
    {
      IsLive(freeNodeIds, |nodes|, n)
    }

    predicate LiveEdge(e: nat)
      reads this
    {
      IsLive(freeEdgeIds, |edges|, e)
    }

    ghost predicate Valid()
      reads this
    {
      Wf(nodes, freeNodeIds, edges, freeEdgeIds)
    }

    /** A default-constructed graph.  The source leaves `Root` uninitialised;
        it starts at 0 here. */
    constructor ()
      ensures Valid()
      ensures nodes == [] && freeNodeIds == [] && edges == [] && freeEdgeIds == [] && root == 0
    {
      nodes, freeNodeIds, edges, freeEdgeIds := [], [], [], [];
      root := 0;
      cfg := Config(map[], Technology(0.0, 0.0, "", ""));
    }

    function GetAttrs(): (c: Config)
      reads this
      ensures c == cfg
    {
      cfg
    }

    method SetAttrs(c: Config)
      modifies this`cfg
      ensures cfg == c
    {
      cfg := c;
    }

    function GetNode(n: nat): (r: Node)
      requires n < |nodes|
      reads this
      ensures r == nodes[n].node
    {
      nodes[n].node
    }

    function GetEdge(e: nat): (r: Edge)
      requires e < |edges|
      reads this
      ensures r == edges[e].edge
    {
      edges[e].edge
    }

    /** `getEdgeNodeFirst`: in a valid graph, a live edge's first node is live
        and lists the edge among its children. */
    function GetEdgeNodeFirst(e: nat): (n: nat)
      requires e < |edges|
      reads this
      ensures Valid() && LiveEdge(e) ==> LiveNode(n) && e in nodes[n].children
    {
      edges[e].first
    }

    /** `getEdgeNodeLast`: in a valid graph, a live edge's last node is in range. */
    function GetEdgeNodeLast(e: nat): (n: nat)
      requires e < |edges|
      reads this
      ensures Valid() && LiveEdge(e) ==> n < |nodes|
    {
      edges[e].last
    }

    /** `getParent`: the invalid id, or a live edge whose last node is `n`. */
    function GetParent(n: nat): (e: nat)
      requires n < |nodes|
      reads this
      ensures Valid() ==> e == InvalidEdgeId || (LiveEdge(e) && edges[e].last == n)
    {
      nodes[n].parent
    }

    /** `getChildren`: distinct live edges whose first node is `n`. */
    function GetChildren(n: nat): (es: seq<nat>)
      requires n < |nodes|
      reads this
      ensures Valid() ==> NoDuplicates(es) && forall e :: e in es ==> LiveEdge(e) && edges[e].first == n
    {
      nodes[n].children
    }

    function GetRoot(): (n: nat)
      reads this
      ensures n == root
    {
      root
    }

    method SetRoot(n: nat)
      modifies this`root
      ensures root == n
    {
      root := n;
    }

    /** `addConstructedNode`: reuse the largest free id (the back of the
        ascending free list) or append. */
    method AddConstructedNode(entry: NodeEntry) returns (n: nat)
      requires Valid()
      requires entry.parent == InvalidEdgeId && entry.children == []
      modifies this
      ensures Valid() && LiveNode(n)
      ensures old(freeNodeIds) == [] ==>
        n == old(|nodes|) && nodes == old(nodes) + [entry] && freeNodeIds == []
      ensures old(freeNodeIds) != [] ==>
        && n == old(freeNodeIds[|freeNodeIds| - 1])
        && (forall f :: f in old(freeNodeIds) ==> f <= n)
        && freeNodeIds == old(freeNodeIds[..|freeNodeIds| - 1])
        && nodes == old(nodes[n := entry])
      ensures edges == old(edges) && freeEdgeIds == old(freeEdgeIds) && root == old(root) && cfg == old(cfg)
    {
      AllocNodeWf(nodes, freeNodeIds, edges, freeEdgeIds, entry);
      if freeNodeIds != [] {
        PopKeepsAscending(freeNodeIds);
        n := freeNodeIds[|freeNodeIds| - 1];
        nodes := nodes[n := entry];
        freeNodeIds := freeNodeIds[..|freeNodeIds| - 1];
      } else {
        n := |nodes|;
        nodes := nodes + [entry];
      }
    }

    /** `addNode`: a new entry with no parent and no children. */
    method AddNode(node: Node) returns (n: nat)
      requires Valid()
      modifies this
      ensures Valid() && LiveNode(n)
      ensures nodes[n] == NodeEntry(InvalidEdgeId, [], node)
      ensures old(freeNodeIds) == [] ==>
        n == old(|nodes|) && nodes == old(nodes) + [NodeEntry(InvalidEdgeId, [], node)] && freeNodeIds == []
      ensures old(freeNodeIds) != [] ==>
        && n == old(freeNodeIds[|freeNodeIds| - 1])
        && (forall f :: f in old(freeNodeIds) ==> f <= n)
        && freeNodeIds == old(freeNodeIds[..|freeNodeIds| - 1])
        && nodes == old(nodes[n := NodeEntry(InvalidEdgeId, [], node)])
      ensures edges == old(edges) && freeEdgeIds == old(freeEdgeIds) && root == old(root) && cfg == old(cfg)
    {
      n := AddConstructedNode(NodeEntry(InvalidEdgeId, [], node));
    }

    /** `connect`: register live edge `e` with its two nodes.  The source's
        "Edge exists" assertion holds: a freshly allocated id is in no
        child list. */
    method Connect(e: nat)
      requires e < |edges| && edges[e].first < |nodes| && edges[e].last < |nodes|
      requires e !in nodes[edges[e].first].children
      modifies this`nodes
      ensures nodes == Link(old(nodes), edges[e].first, edges[e].last, e)
    {
      var first, last := edges[e].first, edges[e].last;
      nodes := nodes[first := nodes[first].(children := nodes[first].children + [e])];
      nodes := nodes[last := nodes[last].(parent := e)];
    }

    /** `addConstructedEdge`: reuse the largest free edge id or append, then
        connect the edge to its nodes. */
    method AddConstructedEdge(entry: EdgeEntry) returns (e: nat)
      requires Valid() && LiveNode(entry.first) && entry.last < |nodes|
      modifies this
      ensures Valid() && LiveEdge(e)
      ensures old(freeEdgeIds) == [] ==>
        e == old(|edges|) && edges == old(edges) + [entry] && freeEdgeIds == []
      ensures old(freeEdgeIds) != [] ==>
        && e == old(freeEdgeIds[|freeEdgeIds| - 1])
        && (forall f :: f in old(freeEdgeIds) ==> f <= e)
        && freeEdgeIds == old(freeEdgeIds[..|freeEdgeIds| - 1])
        && edges == old(edges[e := entry])
      ensures nodes == Link(old(nodes), entry.first, entry.last, e)
      ensures freeNodeIds == old(freeNodeIds) && root == old(root) && cfg == old(cfg)
    {
      ghost var ns, es, fes := nodes, edges, freeEdgeIds;
      if freeEdgeIds != [] {
        e := freeEdgeIds[|freeEdgeIds| - 1];
        edges := edges[e := entry];
        freeEdgeIds := freeEdgeIds[..|freeEdgeIds| - 1];
      } else {
        e := |edges|;
        edges := edges + [entry];
      }
      AllocEdgeIds(ns, freeNodeIds, es, fes, edges, freeEdgeIds, e, entry);
      LinkWf(ns, freeNodeIds, es, fes, edges, freeEdgeIds, e, entry);
      Connect(e);
    }

    /** `addEdge(First, Last, Edge)`. */
    method AddEdge(first: nat, last: nat, edge: Edge) returns (e: nat)
      requires Valid() && LiveNode(first) && last < |nodes|
      modifies this
      ensures Valid() && LiveEdge(e)
      ensures GetEdgeNodeFirst(e) == first && GetEdgeNodeLast(e) == last && GetEdge(e) == edge
      ensures old(freeEdgeIds) == [] ==>
        e == old(|edges|) && edges == old(edges) + [EdgeEntry(first, last, edge)] && freeEdgeIds == []
      ensures old(freeEdgeIds) != [] ==>
        && e == old(freeEdgeIds[|freeEdgeIds| - 1])
        && (forall f :: f in old(freeEdgeIds) ==> f <= e)
        && freeEdgeIds == old(freeEdgeIds[..|freeEdgeIds| - 1])
        && edges == old(edges[e := EdgeEntry(first, last, edge)])
      ensures nodes == Link(old(nodes), first, last, e)
      ensures freeNodeIds == old(freeNodeIds) && root == old(root) && cfg == old(cfg)
    {
      e := AddConstructedEdge(EdgeEntry(first, last, edge));
    }

    /** `removeEdge(E)`: drop E from its first node's children, reset its
        last node's parent and put E on the edge free list.  The source's
        `erase(remove(...))` is undefined when E is not a child of its first
        node, so that is required. */
    method RemoveEdge(e: nat)
      requires Valid()
      requires e < |edges| && edges[e].first < |nodes| && e in nodes[edges[e].first].children
      modifies this
      ensures Valid() && old(LiveEdge(e)) && !LiveEdge(e)
      ensures old(edges[e].last) < |old(nodes)| && e !in old(freeEdgeIds)
      ensures nodes == Unlink(old(nodes), old(edges[e].first), old(edges[e].last), e)
      ensures freeEdgeIds == InsertAscending(old(freeEdgeIds), e)
      ensures edges == old(edges) && freeNodeIds == old(freeNodeIds) && root == old(root) && cfg == old(cfg)
    {
      UnlinkWf(nodes, freeNodeIds, edges, freeEdgeIds, e);
      var first := edges[e].first;
      nodes := nodes[first := nodes[first].(children := RemoveChild(nodes[first].children, e))];
      var last := edges[e].last;
      nodes := nodes[last := nodes[last].(parent := InvalidEdgeId)];
      freeEdgeIds := InsertAscending(freeEdgeIds, e);
    }

    /** `removeNode(N)`: remove N's parent edge if it has one, then every
        child edge, then put N on the node free list.  Removing a node twice
        would put its id on the free list twice, so N must be live. */
    method RemoveNode(n: nat)
      requires Valid() && LiveNode(n)
      modifies this
      ensures Valid() && !LiveNode(n)
      ensures freeNodeIds == InsertAscending(old(freeNodeIds), n)
      ensures edges == old(edges) && root == old(root) && cfg == old(cfg)
      ensures |nodes| == |old(nodes)| && forall m :: 0 <= m < |nodes| ==> nodes[m].node == old(nodes[m].node)
      ensures nodes[n].children == [] && nodes[n].parent == InvalidEdgeId
      ensures forall x: nat :: LiveEdge(x) <==>
        && old(LiveEdge(x))
        && (old(nodes[n].parent) == InvalidEdgeId || x != old(nodes[n].parent))
        && x !in old(nodes[n].children)
    {
      ghost var ns0 := nodes;
      var parent := nodes[n].parent;
      if parent != InvalidEdgeId {
        RemoveEdge(parent);
      }
      assert forall x :: x in nodes[n].children <==> x in ns0[n].children && (parent == InvalidEdgeId || x != parent) by {
        if parent != InvalidEdgeId && parent in ns0[n].children {
          assert edges[parent].first == n;
        }
      }
      RemoveChildEdges(n);
      FreeNodeWf(nodes, freeNodeIds, edges, freeEdgeIds, n);
      freeNodeIds := InsertAscending(freeNodeIds, n);
    }

    /** The loop of `removeNode` over a copy of N's children, each removed
        with `removeEdge`.  N's parent is already gone at that point. */
    method RemoveChildEdges(n: nat)
      requires Valid() && LiveNode(n) && nodes[n].parent == InvalidEdgeId
      modifies this
      ensures Valid() && LiveNode(n)
      ensures edges == old(edges) && freeNodeIds == old(freeNodeIds) && root == old(root) && cfg == old(cfg)
      ensures |nodes| == |old(nodes)| && forall m :: 0 <= m < |nodes| ==> nodes[m].node == old(nodes[m].node)
      ensures nodes[n].children == [] && nodes[n].parent == InvalidEdgeId
      ensures forall x: nat :: LiveEdge(x) <==> old(LiveEdge(x)) && x !in old(nodes[n].children)
    {
      var children := nodes[n].children;
      for i := 0 to |children|
        invariant Valid() && LiveNode(n)
        invariant edges == old(edges) && freeNodeIds == old(freeNodeIds) && root == old(root) && cfg == old(cfg)
        invariant |nodes| == |old(nodes)| && forall m :: 0 <= m < |nodes| ==> nodes[m].node == old(nodes[m].node)
        invariant nodes[n].children == children[i..] && nodes[n].parent == InvalidEdgeId
        invariant forall x: nat :: LiveEdge(x) <==> old(LiveEdge(x)) && x !in children[..i]
      {
        var c := children[i];
        assert c in nodes[n].children;
        assert LiveEdge(c) && edges[c].first == n;
        DropFirst(children[i..]);
        assert children[i..][1..] == children[i + 1..];
        RemoveEdge(c);
        assert forall x :: x in children[..i + 1] <==> x in children[..i] || x == c;
      }
      assert children[..|children|] == children;
    }
  }

  /** The four vectors and the root of an `RCGraph`, read once. */
  datatype Net = Net(nodes: seq<NodeEntry>, freeNodes: seq<nat>, edges: seq<EdgeEntry>, freeEdges: seq<nat>, root: nat)

  function Snapshot(g: RCGraph): Net
    reads g
  {
    Net(g.nodes, g.freeNodeIds, g.edges, g.freeEdgeIds, g.root)
  }

  predicate LiveNode(t: Net, n: nat)
  {
    IsLive(t.freeNodes, |t.nodes|, n)
  }

  predicate LiveEdge(t: Net, e: nat)
  {
    IsLive(t.freeEdges, |t.edges|, e)
  }
}
