/** Candidate buffer positions along an edge and the two ways a partial
    solution is extended (src/BufferAlgorithm.cpp, `splitEdge` and both
    `insert` overloads; the records are include/BufferAlgorithm.h). */
module Candidates {
  import opened Geometry
  import opened Configuration
  import opened Seqs

  /** `CandidateTy`: the load capacity and required arrival time seen at
      position `p` on edge `eid`, and whether a buffer is placed there. */
  datatype Candidate = Candidate(capacity: real, rat: real, p: Point, eid: nat, hasBuffer: bool)

  /** `SolutionTy`: the candidates of one partial solution, the most recent
      last. */
  type Solution = seq<Candidate>

  function Last(s: Solution): Candidate
    requires |s| > 0
  {
    s[|s| - 1]
  }

  // ---------------------------------------------------------------------
  // splitEdge

  /** C++ `int` division, which truncates toward zero. */
  function TruncDiv(a: int, b: int): int
    requires b != 0
  {
    if (a < 0) == (b < 0) then Abs(a) / Abs(b) else -(Abs(a) / Abs(b))
  }

  /** A segment runs along X when its end points differ in X, else along Y. */
  predicate AlongX(lhs: Point, rhs: Point)
  {
    lhs.x != rhs.x
  }

  /** The signed offset from `lhs` to `rhs` on the segment's axis. */
  function AxisOffset(lhs: Point, rhs: Point): int
  {
    if AlongX(lhs, rhs) then rhs.x - lhs.x else rhs.y - lhs.y
  }

  /** `adjustment`: one step toward `rhs` on the segment's axis. */
  function Adjustment(lhs: Point, rhs: Point, step: nat): (adj: int)
    requires step > 0
    ensures Abs(adj) == step
  {
    if AxisOffset(lhs, rhs) > 0 then step else -(step as int)
  }

  /** The loop bound `(rhs - lhs) / adjustment`, which is always the number of
      whole steps in the axis offset. */
  function StepCount(lhs: Point, rhs: Point, step: nat): (q: nat)
    requires step > 0
    ensures q == Abs(AxisOffset(lhs, rhs)) / step
  {
    var d, adj := AxisOffset(lhs, rhs), Adjustment(lhs, rhs, step);
    assert (d < 0) == (adj < 0) || d == 0;
    TruncDiv(d, adj)
  }

  /** The point `cnt` steps from `lhs` toward `rhs` on the segment's axis. */
  function SegmentPoint(lhs: Point, rhs: Point, step: nat, cnt: int): Point
    requires step > 0
  {
    var adj := Adjustment(lhs, rhs, step);
    if AlongX(lhs, rhs) then Point(lhs.x + cnt * adj, lhs.y) else Point(lhs.x, lhs.y + cnt * adj)
  }

  /** The points `1` to `n` steps from `lhs` toward `rhs`, in that order. */
  function Steps(lhs: Point, rhs: Point, step: nat, n: nat): (r: seq<Point>)
    requires step > 0
    ensures |r| == n
  {
    if n == 0 then [] else Steps(lhs, rhs, step, n - 1) + [SegmentPoint(lhs, rhs, step, n)]
  }

  lemma {:induction false} StepsAt(lhs: Point, rhs: Point, step: nat, n: nat, k: nat)
    requires step > 0 && k < n
    ensures Steps(lhs, rhs, step, n)[k] == SegmentPoint(lhs, rhs, step, k + 1)
  {
    if k < n - 1 {
      StepsAt(lhs, rhs, step, n - 1, k);
    }
  }

  /** The inner loop of `splitEdge`: the points `cnt` steps from `lhs`, for
      `1 <= cnt < StepCount`, in that order. */
  function SegmentPoints(lhs: Point, rhs: Point, step: nat): seq<Point>
    requires step > 0
  {
    var q := StepCount(lhs, rhs, step);
    Steps(lhs, rhs, step, if q > 1 then q - 1 else 0)
  }

  /** The outer loop of `splitEdge`: the segments of `ps` walked from its last
      point toward its first, each with the later point as `lhs`. */
  function Walk(ps: seq<Point>, step: nat): seq<Point>
    requires step > 0
  {
    if |ps| < 2 then []
    else SegmentPoints(ps[|ps| - 1], ps[|ps| - 2], step) + Walk(ps[..|ps| - 1], step)
  }

  /** What `splitEdge` returns: nothing for a closed polyline, otherwise the
      walk followed by the polyline's first point. */
  function SplitPoints(ps: seq<Point>, step: nat): (r: seq<Point>)
    requires |ps| > 0 && step > 0
    ensures r == [] <==> SamePoint(ps[0], ps[|ps| - 1])
    ensures r != [] ==> r[|r| - 1] == ps[0]
  {
    if SamePoint(ps[0], ps[|ps| - 1]) then [] else Walk(ps, step) + [ps[0]]
  }

  /** `splitEdge(edge, step)`.  The source reads `Ps.front()` and divides by
      the step, so the polyline must be non-empty and the step positive. */
  method SplitEdge(edge: Edge, step: nat) returns (candidates: seq<Point>)
    requires |edge.ps| > 0 && step > 0
    ensures candidates == SplitPoints(edge.ps, step)
  {
    var ps := edge.ps;
    if ps[0] == ps[|ps| - 1] {
      return [];
    }
    candidates := [];
    var i := |ps|;
    ghost var walk := Walk(ps, step);
    assert ps[..i] == ps;
    while i > 1
      invariant 1 <= i <= |ps|
      invariant candidates + Walk(ps[..i], step) == walk
    {
      var lhs, rhs := ps[i - 1], ps[i - 2];
      WalkStep(candidates, ps, i, step);
      candidates := AppendSegment(candidates, lhs, rhs, step);
      i := i - 1;
    }
    assert Walk(ps[..i], step) == [];
    candidates := candidates + [ps[0]];
  }

  lemma WalkStep(before: seq<Point>, ps: seq<Point>, i: nat, step: nat)
    requires 2 <= i <= |ps| && step > 0
    ensures (before + SegmentPoints(ps[i - 1], ps[i - 2], step)) + Walk(ps[..i - 1], step) == before + Walk(ps[..i], step)
  {
    assert ps[..i][..i - 1] == ps[..i - 1];
    AppendAssoc(before, SegmentPoints(ps[i - 1], ps[i - 2], step), Walk(ps[..i - 1], step));
  }

  /** The inner loop of `splitEdge` for the segment from `lhs` to `rhs`. */
  method AppendSegment(candidates: seq<Point>, lhs: Point, rhs: Point, step: nat) returns (r: seq<Point>)
    requires step > 0
    ensures r == candidates + SegmentPoints(lhs, rhs, step)
  {
    r := candidates;
    var adj: int;
    var bound: int;
    if lhs.x != rhs.x {
      adj := if rhs.x > lhs.x then step else -(step as int);
      bound := TruncDiv(rhs.x - lhs.x, adj);
    } else {
      adj := if rhs.y > lhs.y then step else -(step as int);
      bound := TruncDiv(rhs.y - lhs.y, adj);
    }
    assert adj == Adjustment(lhs, rhs, step) && bound == StepCount(lhs, rhs, step);
    var cnt := 1;
    while cnt < bound
      invariant 1 <= cnt <= (if bound > 1 then bound else 1)
      invariant r == candidates + Steps(lhs, rhs, step, cnt - 1)
    {
      if lhs.x != rhs.x {
        r := r + [Point(lhs.x + cnt * adj, lhs.y)];
      } else {
        r := r + [Point(lhs.x, lhs.y + cnt * adj)];
      }
      assert r == candidates + Steps(lhs, rhs, step, cnt);
      cnt := cnt + 1;
    }
  }

  /** `p` lies on a shortest rectilinear path from `a` to `b` and is neither
      of its ends. */
  predicate StrictlyBetween(a: Point, p: Point, b: Point)
  {
    0 < Distance(a, p) < Distance(a, b) && Distance(a, p) + Distance(p, b) == Distance(a, b)
  }

  /** Every point of a segment lies on the segment's axis strictly between
      its ends: `cnt * step` from `lhs`, and the rest of the way to `rhs`. */
  lemma SegmentPointsInside(lhs: Point, rhs: Point, step: nat, k: nat)
    requires step > 0 && k < |SegmentPoints(lhs, rhs, step)|
    ensures var p := SegmentPoints(lhs, rhs, step)[k];
      && (if AlongX(lhs, rhs) then p.y == lhs.y else p.x == lhs.x)
      && 0 < (k + 1) * step < Abs(AxisOffset(lhs, rhs))
      && Distance(lhs, p) == (k + 1) * step
      && Distance(p, rhs) == Distance(lhs, rhs) - (k + 1) * step
  {
    var q := StepCount(lhs, rhs, step);
    StepsAt(lhs, rhs, step, q - 1, k);
    PointInside(lhs, rhs, step, k + 1);
  }

  lemma PointInside(lhs: Point, rhs: Point, step: nat, cnt: nat)
    requires step > 0 && 0 < cnt < StepCount(lhs, rhs, step)
    ensures var p := SegmentPoint(lhs, rhs, step, cnt);
      && (if AlongX(lhs, rhs) then p.y == lhs.y else p.x == lhs.x)
      && 0 < cnt * step < Abs(AxisOffset(lhs, rhs))
      && Distance(lhs, p) == cnt * step
      && Distance(p, rhs) == Distance(lhs, rhs) - cnt * step
  {
    var d := AxisOffset(lhs, rhs);
    var m := cnt * step;
    assert 0 < m < Abs(d) by {
      MulBelowQuotient(cnt, StepCount(lhs, rhs, step), step, Abs(d));
    }
    var adj := Adjustment(lhs, rhs, step);
    var e := cnt * adj;
    if d > 0 {
      assert adj == step;
      assert e == m;
    } else {
      assert adj == -(step as int);
      assert e == -m;
    }
    assert Abs(e) == m && Abs(d - e) == Abs(d) - m;
    var p := SegmentPoint(lhs, rhs, step, cnt);
    if AlongX(lhs, rhs) {
      assert p == Point(lhs.x + e, lhs.y);
      assert Distance(p, rhs) == Abs(d - e) + Abs(lhs.y - rhs.y);
    } else {
      assert p == Point(lhs.x, lhs.y + e);
      assert Distance(p, rhs) == Abs(d - e);
    }
  }

  /** `c < n / s` gives `c * s < n`. */
  lemma MulBelowQuotient(c: nat, q: nat, s: nat, n: nat)
    requires s > 0 && q == n / s && c < q
    ensures 0 < c * s < n || c == 0
    ensures c * s < n
  {
    assert (c + 1) * s <= q * s;
    assert q * s <= n;
  }

  /** Every walked point belongs to one segment of the polyline. */
  lemma {:induction false} WalkFromSegments(ps: seq<Point>, step: nat, p: Point)
    requires step > 0 && p in Walk(ps, step)
    ensures exists i :: 1 <= i < |ps| && p in SegmentPoints(ps[i], ps[i - 1], step)
  {
    var n := |ps|;
    if p !in SegmentPoints(ps[n - 1], ps[n - 2], step) {
      WalkFromSegments(ps[..n - 1], step, p);
      var i :| 1 <= i < n - 1 && p in SegmentPoints(ps[..n - 1][i], ps[..n - 1][i - 1], step);
      assert ps[..n - 1][i] == ps[i] && ps[..n - 1][i - 1] == ps[i - 1];
    }
  }

  /** No point `splitEdge` emits, except the final `Ps.front()`, is an end of
      the segment it was generated on: polyline vertices are never emitted. */
  lemma SplitPointsInterior(ps: seq<Point>, step: nat, k: nat)
    requires |ps| > 0 && step > 0 && k + 1 < |SplitPoints(ps, step)|
    ensures exists i :: 1 <= i < |ps| && StrictlyBetween(ps[i], SplitPoints(ps, step)[k], ps[i - 1])
  {
    var r := SplitPoints(ps, step);
    var p := r[k];
    assert p in Walk(ps, step);
    WalkFromSegments(ps, step, p);
    var i :| 1 <= i < |ps| && p in SegmentPoints(ps[i], ps[i - 1], step);
    var j :| 0 <= j < |SegmentPoints(ps[i], ps[i - 1], step)| && SegmentPoints(ps[i], ps[i - 1], step)[j] == p;
    SegmentPointsInside(ps[i], ps[i - 1], step, j);
  }

  /** A straight edge from (0,0) to (L,0) split with step 1 yields
      (L-1,0), ..., (1,0), (0,0). */
  lemma SplitStraightLine(len: nat)
    requires len > 0
    ensures SplitPoints([Point(0, 0), Point(len, 0)], 1) == seq(len, k => Point(len - 1 - k, 0))
  {
    var ps := [Point(0, 0), Point(len, 0)];
    var seg := SegmentPoints(ps[1], ps[0], 1);
    assert StepCount(ps[1], ps[0], 1) == len;
    assert Walk(ps[..1], 1) == [];
    assert Walk(ps, 1) == seg;
    var r := SplitPoints(ps, 1);
    assert |r| == len;
    forall k | 0 <= k < len
      ensures r[k] == Point(len - 1 - k, 0)
    {
      if k < len - 1 {
        StepsAt(ps[1], ps[0], 1, len - 1, k);
        assert r[k] == seg[k] == SegmentPoint(ps[1], ps[0], 1, k + 1);
      }
    }
  }

  // ---------------------------------------------------------------------
  // insert (wire) and insert (buffer)

  /** The Elmore delay of a wire of length `len` driving load `cap`:
      `UnitR * UnitC * len^2 / 2 + UnitR * len * cap`, with the square exact. */
  function WireDelay(t: Technology, len: nat, cap: real): real
  {
    t.unitR * t.unitC * (len * len) as real / 2.0 + t.unitR * len as real * cap
  }

  /** The same delay as the source computes it: `length` is `unsigned`, so
      `length * length` wraps modulo 2^32 before it is converted. */
  function WireDelayAsWritten(t: Technology, len: nat, cap: real): real
  {
    t.unitR * t.unitC * ((len * len) % 0x1_0000_0000) as real / 2.0 + t.unitR * len as real * cap
  }

  /** Wire `insert`: append a candidate at `pos` on edge `eid` whose load
      grows by the wire's capacity and whose RAT shrinks by its delay. */
  function InsertWire(s: Solution, len: nat, pos: Point, eid: nat, t: Technology): (r: Solution)
    requires |s| > 0
    ensures |r| == |s| + 1 && r[..|s|] == s
    ensures r[|s|].p == pos && r[|s|].eid == eid && !r[|s|].hasBuffer
    ensures r[|s|].capacity == Last(s).capacity + t.unitC * len as real
    ensures r[|s|].rat == Last(s).rat - WireDelay(t, len, Last(s).capacity)
  {
    var c := Last(s);
    s + [Candidate(c.capacity + t.unitC * len as real, c.rat - WireDelay(t, len, c.capacity), pos, eid, false)]
  }

  /** The as-written wire `insert`, with the wrapping square. */
  function InsertWireAsWritten(s: Solution, len: nat, pos: Point, eid: nat, t: Technology): (r: Solution)
    requires |s| > 0
    ensures |r| == |s| + 1 && r[..|s|] == s
    ensures r[|s|].p == pos && r[|s|].eid == eid && !r[|s|].hasBuffer
    ensures r[|s|].capacity == Last(s).capacity + t.unitC * len as real
    ensures r[|s|].rat == Last(s).rat - WireDelayAsWritten(t, len, Last(s).capacity)
  {
    var c := Last(s);
    s + [Candidate(c.capacity + t.unitC * len as real, c.rat - WireDelayAsWritten(t, len, c.capacity), pos, eid, false)]
  }

  /** With non-negative wire parameters and load, a longer wire never has a
      smaller delay, and appending one never raises the RAT or lowers the
      load. */
  lemma WireDelayMonotone(t: Technology, a: nat, b: nat, cap: real)
    requires t.unitR >= 0.0 && t.unitC >= 0.0 && cap >= 0.0 && a <= b
    ensures 0.0 <= WireDelay(t, a, cap) <= WireDelay(t, b, cap)
  {
    MulLe(a, b, a, b);
    DelayMonotone(t.unitR, t.unitC, cap, (a * a) as real, (b * b) as real, a as real, b as real);
  }

  /** The delay formula grows with the square and the length it is given. */
  lemma DelayMonotone(r: real, c: real, cap: real, sa: real, sb: real, la: real, lb: real)
    requires r >= 0.0 && c >= 0.0 && cap >= 0.0 && 0.0 <= sa <= sb && 0.0 <= la <= lb
    ensures 0.0 <= r * c * sa / 2.0 + r * la * cap <= r * c * sb / 2.0 + r * lb * cap
  {
    var rc := r * c;
    RealMulLe(r, 0.0, c);
    RealMulLe(rc, 0.0, sa);
    RealMulLe(rc, sa, sb);
    var rcap := r * cap;
    RealMulLe(r, 0.0, cap);
    RealMulLe(rcap, 0.0, la);
    RealMulLe(rcap, la, lb);
    assert r * la * cap == rcap * la;
    assert r * lb * cap == rcap * lb;
  }

  lemma RealMulLe(k: real, x: real, y: real)
    requires k >= 0.0 && x <= y
    ensures k * x <= k * y
  {
  }

  lemma InsertWireMonotone(s: Solution, len: nat, pos: Point, eid: nat, t: Technology)
    requires |s| > 0 && t.unitR >= 0.0 && t.unitC >= 0.0 && Last(s).capacity >= 0.0
    ensures Last(InsertWire(s, len, pos, eid, t)).rat <= Last(s).rat
    ensures Last(InsertWire(s, len, pos, eid, t)).capacity >= Last(s).capacity
  {
    WireDelayMonotone(t, 0, len, Last(s).capacity);
    assert t.unitC * len as real >= 0.0;
  }

  /** Below 2^16 the as-written square is exact and both delays agree. */
  lemma WireDelayAgreesBelowWrap(t: Technology, len: nat, cap: real)
    requires len < 0x1_0000
    ensures WireDelayAsWritten(t, len, cap) == WireDelay(t, len, cap)
  {
    MulLe(len, 0xFFFF, len, 0xFFFF);
    var sq := len * len;
    assert sq < 0x1_0000_0000;
    assert sq % 0x1_0000_0000 == sq;
  }

  lemma MulLe(a: nat, b: nat, c: nat, d: nat)
    requires a <= b && c <= d
    ensures a * c <= b * d
  {
    assert a * c <= b * c;
    assert b * c <= b * d;
  }

  /** At length 2^16 the wrapped square is 0, so the as-written delay of a
      longer wire is smaller than that of a shorter one. */
  lemma WireDelayAsWrittenNotMonotone(t: Technology)
    requires t.unitR * t.unitC > 0.0
    ensures WireDelayAsWritten(t, 0x1_0000, 0.0) < WireDelayAsWritten(t, 0xFFFF, 0.0)
  {
    assert (0x1_0000 * 0x1_0000) % 0x1_0000_0000 == 0;
    assert (0xFFFF * 0xFFFF) % 0x1_0000_0000 == 0xFFFE_0001;
    var rc := t.unitR * t.unitC;
    assert rc * (0xFFFE_0001 as real) > 0.0;
  }

  /** Buffer `insert`: the last candidate now holds a buffer, which pays its
      intrinsic delay plus its resistance times the load and then presents
      only its input capacity upstream. */
  function InsertBuffer(s: Solution, m: Module): (r: Solution)
    requires |s| > 0
    ensures |r| == |s| && r[..|s| - 1] == s[..|s| - 1]
    ensures Last(r) == Last(s).(rat := Last(s).rat - (m.k + m.r * Last(s).capacity),
                                capacity := m.c, hasBuffer := true)
  {
    var c := Last(s);
    s[..|s| - 1] + [c.(rat := c.rat - (m.k + m.r * c.capacity), capacity := m.c, hasBuffer := true)]
  }

  /** After a buffer the upstream load no longer depends on what lies
      downstream: two solutions that differ only in their last candidate's
      load and RAT present the same capacity, and with a non-negative buffer
      the one that started with the better RAT-minus-delay keeps it. */
  lemma InsertBufferDecouples(s1: Solution, s2: Solution, m: Module)
    requires |s1| > 0 && |s2| > 0
    ensures Last(InsertBuffer(s1, m)).capacity == Last(InsertBuffer(s2, m)).capacity == m.c
    ensures Last(InsertBuffer(s1, m)).rat - Last(InsertBuffer(s2, m)).rat
         == (Last(s1).rat - m.r * Last(s1).capacity) - (Last(s2).rat - m.r * Last(s2).capacity)
  {
  }

  lemma InsertBufferDelays(s: Solution, m: Module)
    requires |s| > 0 && m.k >= 0.0 && m.r >= 0.0 && Last(s).capacity >= 0.0
    ensures Last(InsertBuffer(s, m)).rat <= Last(s).rat
  {
    assert m.r * Last(s).capacity >= 0.0;
  }
}
