/** Points on the integer grid and the node and edge records of an RC tree
    (include/RCGraph.h).  Coordinates are unbounded integers: where the
    source's 32-bit `int` arithmetic would overflow, the model goes on
    computing the exact value. */
module Geometry {

  datatype Point = Point(x: int, y: int)

  function Abs(v: int): (r: nat)
    ensures r == v || r == -v
  {
    if v < 0 then -v else v
  }

  /** `PointTy::operator==`: coordinate-wise equality. */
  predicate SamePoint(p: Point, q: Point)
    ensures SamePoint(p, q) <==> p == q
  {
    p.x == q.x && p.y == q.y
  }

  /** `PointTy::distance`: the Manhattan (rectilinear) distance. */
  function Distance(p: Point, q: Point): (d: nat)
    ensures d == 0 <==> SamePoint(p, q)
    ensures d >= Abs(p.x - q.x) && d >= Abs(p.y - q.y)
  {
    Abs(p.x - q.x) + Abs(p.y - q.y)
  }

  lemma DistanceSymmetric(p: Point, q: Point)
    ensures Distance(p, q) == Distance(q, p)
  {
  }

  lemma DistanceToSelf(p: Point)
    ensures Distance(p, p) == 0
  {
  }

  lemma TriangleInequality(p: Point, q: Point, s: Point)
    ensures Distance(p, s) <= Distance(p, q) + Distance(q, s)
  {
  }

  /** The three node kinds.  The source calls a sink `Point` (written "t");
      it is `Terminal` here so as not to clash with the coordinate type. */
  datatype NodeKind = Buffer | Steiner | Terminal

  /** `NodeTy`: a tree node.  Capacity and RAT are `float` in the source and
      `real` here. */
  datatype Node = Node(kind: NodeKind, name: string, p: Point, capacity: real, rat: real)

  /** `EdgeTy`: a rectilinear polyline from the edge's first node to its last. */
  datatype Edge = Edge(ps: seq<Point>)
}
