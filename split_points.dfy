/** Cutting an edge polyline at buffer positions (src/SolutionInsertion.cpp,
    `PointRecord` and `splitPoints`).  The `std::set` of records is an
    ascending sequence keyed by Manhattan distance from the polyline's
    first point: two records at the same distance are the same element, so
    the one inserted first stays. */
module SplitPieces {
  import opened Geometry
  import opened Candidates
  import Graphs

  datatype PointKind = Simple | BufferPoint

  /** A record also carries its distance from `start`, the key
      `PointRecord::operator<` compares; `MakeRecord` is the only way the
      model builds one. */
  datatype PointRecord = PointRecord(kind: PointKind, start: Point, p: Point, dist: nat)

  function MakeRecord(kind: PointKind, start: Point, p: Point): (r: PointRecord)
    ensures r.kind == kind && r.start == start && r.p == p && r.dist == Distance(start, p)
  {
    PointRecord(kind, start, p, Distance(start, p))
  }

  /** The ordering key of `PointRecord::operator<`. */
  function Key(r: PointRecord): nat
  {
    r.dist
  }

  /** The record set's order: strictly ascending keys. */
  predicate Ascending(rs: seq<PointRecord>)
  {
    forall i, j :: 0 <= i < j < |rs| ==> Key(rs[i]) < Key(rs[j])
  }

  function Keys(rs: seq<PointRecord>): set<nat>
  {
    set x | x in rs :: Key(x)
  }

  lemma KeysOfFront(rs: seq<PointRecord>)
    requires |rs| > 0
    ensures Keys(rs) == Keys(rs[..|rs| - 1]) + {Key(rs[|rs| - 1])}
  {
    assert rs == rs[..|rs| - 1] + [rs[|rs| - 1]];
    forall x | x in rs
      ensures x in rs[..|rs| - 1] || x == rs[|rs| - 1]
    {
    }
  }


  /** `std::set::insert`: a record whose key is already present is dropped;
      otherwise it goes to its place in key order. */
  function AddRecord(rs: seq<PointRecord>, r: PointRecord): (t: seq<PointRecord>)
    requires Ascending(rs)
    ensures Ascending(t)
    ensures forall x :: x in t ==> x in rs || x == r
  {
    if rs == [] then [r]
    else if Key(r) < Key(rs[0]) then [r] + rs
    else if Key(r) == Key(rs[0]) then rs
    else
      var rest := AddRecord(rs[1..], r);
      assert forall x :: x in rest ==> Key(rs[0]) < Key(x);
      [rs[0]] + rest
  }

  /** The record is added exactly when no record has its key; nothing is
      lost. */
  lemma {:induction false} AddRecordMembers(rs: seq<PointRecord>, r: PointRecord)
    requires Ascending(rs)
    ensures forall x :: x in AddRecord(rs, r) <==> x in rs || (x == r && Key(r) !in Keys(rs))
    ensures Key(r) in Keys(rs) ==> AddRecord(rs, r) == rs
  {
    if rs != [] && Key(r) > Key(rs[0]) {
      AddRecordMembers(rs[1..], r);
      assert rs == [rs[0]] + rs[1..];
      assert Keys(rs) == {Key(rs[0])} + Keys(rs[1..]);
    } else if rs != [] && Key(r) < Key(rs[0]) {
      assert forall x :: x in rs ==> Key(r) < Key(x);
    }
  }

  lemma AddRecordKeys(rs: seq<PointRecord>, r: PointRecord)
    requires Ascending(rs)
    ensures Keys(AddRecord(rs, r)) == Keys(rs) + {Key(r)}
  {
    AddRecordMembers(rs, r);
  }

  /** Inserting `recs` one after another. */
  function AddAll(rs: seq<PointRecord>, recs: seq<PointRecord>): (t: seq<PointRecord>)
    requires Ascending(rs)
    ensures Ascending(t)
    ensures forall x :: x in t ==> x in rs || x in recs
  {
    if recs == [] then rs
    else AddRecord(AddAll(rs, recs[..|recs| - 1]), recs[|recs| - 1])
  }

  /** Inserting keeps what was there. */
  lemma {:induction false} AddAllKeeps(rs: seq<PointRecord>, recs: seq<PointRecord>)
    requires Ascending(rs)
    ensures forall x :: x in rs ==> x in AddAll(rs, recs)
  {
    if recs != [] {
      var front := recs[..|recs| - 1];
      AddAllKeeps(rs, front);
      AddRecordMembers(AddAll(rs, front), recs[|recs| - 1]);
    }
  }

  /** Inserting adds the key of every record. */
  lemma {:induction false} AddAllKeys(rs: seq<PointRecord>, recs: seq<PointRecord>)
    requires Ascending(rs)
    ensures Keys(AddAll(rs, recs)) == Keys(rs) + Keys(recs)
  {
    if recs != [] {
      var front := recs[..|recs| - 1];
      var last := recs[|recs| - 1];
      AddAllKeys(rs, front);
      AddRecordKeys(AddAll(rs, front), last);
      KeysOfFront(recs);
    }
  }

  /** A buffer record for every candidate, as the source's first
      `std::transform` makes them. */
  function BufferRecords(start: Point, sols: Solution): (r: seq<PointRecord>)
    ensures |r| == |sols|
  {
    seq(|sols|, i requires 0 <= i < |sols| => MakeRecord(BufferPoint, start, sols[i].p))
  }

  /** A plain record for every polyline point. */
  function SimpleRecords(start: Point, ps: seq<Point>): (r: seq<PointRecord>)
    ensures |r| == |ps|
  {
    seq(|ps|, i requires 0 <= i < |ps| => MakeRecord(Simple, start, ps[i]))
  }

  /** The record set `splitPoints` walks. */
  function Records(ps: seq<Point>, sols: Solution): seq<PointRecord>
    requires |ps| > 0
  {
    AddAll(AddAll([], BufferRecords(ps[0], sols)), SimpleRecords(ps[0], ps))
  }

  function PointsOf(rs: seq<PointRecord>): (r: seq<Point>)
    ensures |r| == |rs| && forall i :: 0 <= i < |rs| ==> r[i] == rs[i].p
  {
    seq(|rs|, i requires 0 <= i < |rs| => rs[i].p)
  }

  /** The indices of the buffer records below `i`, ascending. */
  function Cuts(rs: seq<PointRecord>, i: nat): (c: seq<nat>)
    requires i <= |rs|
    ensures CutsBelow(c, i)
    ensures forall j :: 0 <= j < |c| ==> rs[c[j]].kind == BufferPoint
  {
    if i == 0 then []
    else
      var c := Cuts(rs, i - 1);
      if rs[i - 1].kind == BufferPoint then c + [i - 1] else c
  }

  /** Cut indices: ascending and inside the records. */
  predicate CutsBelow(c: seq<nat>, n: nat)
  {
    Graphs.StrictlyAscending(c) && forall j :: 0 <= j < |c| ==> c[j] < n
  }

  /** Where piece `j` starts: at the first record, then at each cut. */
  function PieceStart(c: seq<nat>, j: nat): nat
    requires j <= |c|
  {
    if j == 0 then 0 else c[j - 1]
  }

  /** Where piece `j` ends (exclusive): just after its cut, or at the end
      of the records for the last piece. */
  function PieceEnd(c: seq<nat>, j: nat, n: nat): (e: nat)
    requires j <= |c| && CutsBelow(c, n)
    ensures PieceStart(c, j) < e <= n || (j == |c| && PieceStart(c, j) == e == n)
  {
    assert j > 0 && j < |c| ==> c[j - 1] < c[j];
    if j < |c| then c[j] + 1 else n
  }

  function Piece(rs: seq<PointRecord>, c: seq<nat>, j: nat): seq<Point>
    requires j <= |c| && CutsBelow(c, |rs|)
  {
    PointsOf(rs[PieceStart(c, j)..PieceEnd(c, j, |rs|)])
  }

  /** The pieces closed by the cuts below `i`. */
  function Closed(rs: seq<PointRecord>, i: nat): (r: seq<seq<Point>>)
    requires i <= |rs|
    ensures |r| == |Cuts(rs, i)|
  {
    var c := Cuts(rs, i);
    seq(|c|, j requires 0 <= j < |c| => Piece(rs, c, j))
  }

  /** What `splitPoints` returns: one piece per cut, each from the previous
      cut (or the first record) to its own cut, both included, and a last
      one from the last cut to the end. */
  function Split(rs: seq<PointRecord>): (r: seq<seq<Point>>)
  {
    var c := Cuts(rs, |rs|);
    seq(|c| + 1, j requires 0 <= j <= |c| => Piece(rs, c, j))
  }

  method SplitPoints(points: seq<Point>, solutions: Solution) returns (res: seq<seq<Point>>)
    requires |points| > 1 && |solutions| > 0
    ensures res == Split(Records(points, solutions))
  {
    var start := points[0];
    var records: seq<PointRecord> := [];
    var bufferRecords := BufferRecords(start, solutions);
    for i := 0 to |solutions|
      invariant records == AddAll([], bufferRecords[..i])
    {
      assert bufferRecords[..i + 1][..i] == bufferRecords[..i];
      assert AddAll([], bufferRecords[..i + 1]) == AddRecord(AddAll([], bufferRecords[..i]), bufferRecords[i]);
      records := AddRecord(records, MakeRecord(BufferPoint, start, solutions[i].p));
    }
    assert bufferRecords[..|solutions|] == bufferRecords;
    ghost var candidates := records;
    var simpleRecords := SimpleRecords(start, points);
    for i := 0 to |points|
      invariant records == AddAll(candidates, simpleRecords[..i])
    {
      assert simpleRecords[..i + 1][..i] == simpleRecords[..i];
      assert AddAll(candidates, simpleRecords[..i + 1]) == AddRecord(AddAll(candidates, simpleRecords[..i]), simpleRecords[i]);
      var tmp := MakeRecord(Simple, start, points[i]);
      assert tmp == simpleRecords[i];
      if Key(tmp) !in Keys(records) {
        records := AddRecord(records, tmp);
      } else {
        AddRecordMembers(records, tmp);
      }
    }
    assert simpleRecords[..|points|] == simpleRecords;
    res := [];
    var prev := 0;
    for i := 0 to |records|
      invariant res == Closed(records, i)
      invariant prev == PieceStart(Cuts(records, i), |Cuts(records, i)|)
    {
      if records[i].kind == BufferPoint {
        ClosedStep(records, i);
        res := res + [PointsOf(records[prev..i + 1])];
        prev := i;
      }
    }
    SplitLast(records);
    res := res + [PointsOf(records[prev..])];
  }

  // ---------------------------------------------------------------------
  // the shape of the records

  /** The buffer records are exactly those at a candidate's distance. */
  lemma RecordKinds(ps: seq<Point>, sols: Solution, x: PointRecord)
    requires |ps| > 0 && x in Records(ps, sols)
    ensures x.start == ps[0] && Key(x) == Distance(ps[0], x.p)
    ensures x.kind == BufferPoint <==> Key(x) in Keys(BufferRecords(ps[0], sols))
    ensures x.kind == BufferPoint ==> exists i :: 0 <= i < |sols| && x.p == sols[i].p
  {
    var b := BufferRecords(ps[0], sols);
    var c := AddAll([], b);
    var r := Records(ps, sols);
    AddAllKeys([], b);
    AddAllKeeps(c, SimpleRecords(ps[0], ps));
    assert Keys(c) == Keys(b);
    if x in c {
      assert x in b;
      var i :| 0 <= i < |b| && b[i] == x;
      assert x.kind == BufferPoint && x.p == sols[i].p;
    } else {
      assert x in SimpleRecords(ps[0], ps);
      var i :| 0 <= i < |ps| && SimpleRecords(ps[0], ps)[i] == x;
      forall y | y in c
        ensures Key(y) != Key(x)
      {
        var a, k :| 0 <= a < |r| && r[a] == x && 0 <= k < |r| && r[k] == y;
        assert a != k;
      }
      assert Key(x) !in Keys(c);
    }
  }

  /** Every candidate's distance and every polyline point's distance has a
      record, and no other distance does. */
  lemma RecordKeys(ps: seq<Point>, sols: Solution)
    requires |ps| > 0
    ensures Keys(Records(ps, sols)) == Keys(BufferRecords(ps[0], sols)) + Keys(SimpleRecords(ps[0], ps))
  {
    AddAllKeys([], BufferRecords(ps[0], sols));
    AddAllKeys(AddAll([], BufferRecords(ps[0], sols)), SimpleRecords(ps[0], ps));
  }

  /** Within one piece the points are strictly farther and farther from
      the start. */
  lemma PieceAscending(rs: seq<PointRecord>, lo: nat, hi: nat, a: nat, b: nat)
    requires Ascending(rs) && lo <= hi <= |rs| && a < b < hi - lo
    ensures Key(rs[lo..hi][a]) < Key(rs[lo..hi][b])
  {
    assert rs[lo..hi][a] == rs[lo + a] && rs[lo..hi][b] == rs[lo + b];
  }

  // ---------------------------------------------------------------------
  // the shape of the pieces

  /** A buffer record closes one more piece, ending at itself. */
  lemma ClosedStep(rs: seq<PointRecord>, i: nat)
    requires i < |rs| && rs[i].kind == BufferPoint
    ensures var c := Cuts(rs, i);
      PieceStart(c, |c|) <= i && Closed(rs, i + 1) == Closed(rs, i) + [PointsOf(rs[PieceStart(c, |c|)..i + 1])]
  {
    var c := Cuts(rs, i);
    var d := Cuts(rs, i + 1);
    assert d == c + [i];
    if |c| > 0 {
      assert c[|c| - 1] < i;
    }
    var k := PieceStart(c, |c|);
    var want := Closed(rs, i) + [PointsOf(rs[k..i + 1])];
    forall j | 0 <= j <= |c|
      ensures Closed(rs, i + 1)[j] == want[j]
    {
      if j < |c| {
        PieceBeforeCut(rs, c, i, j);
      } else {
        LastPieceAtCut(rs, c, i);
      }
    }
  }

  /** A further cut leaves the pieces before it as they were. */
  lemma PieceBeforeCut(rs: seq<PointRecord>, c: seq<nat>, i: nat, j: nat)
    requires CutsBelow(c + [i], |rs|) && CutsBelow(c, |rs|) && j < |c|
    ensures Piece(rs, c + [i], j) == Piece(rs, c, j)
  {
    var d := c + [i];
    assert d[j] == c[j];
    assert j > 0 ==> d[j - 1] == c[j - 1];
    assert PieceStart(d, j) == PieceStart(c, j);
  }

  /** The piece a further cut `i` closes ends just after `i`. */
  lemma LastPieceAtCut(rs: seq<PointRecord>, c: seq<nat>, i: nat)
    requires CutsBelow(c + [i], |rs|) && CutsBelow(c, |rs|) && i < |rs|
    ensures PieceStart(c + [i], |c|) == PieceStart(c, |c|) <= i
    ensures Piece(rs, c + [i], |c|) == PointsOf(rs[PieceStart(c, |c|)..i + 1])
  {
    var d := c + [i];
    assert d[|c|] == i;
    if |c| > 0 {
      assert d[|c| - 1] == c[|c| - 1] && d[|c| - 1] < d[|c|];
    }
  }

  /** The last piece runs from the last cut to the end. */
  lemma SplitLast(rs: seq<PointRecord>)
    ensures var c := Cuts(rs, |rs|);
      PieceStart(c, |c|) <= |rs| && Split(rs) == Closed(rs, |rs|) + [PointsOf(rs[PieceStart(c, |c|)..])]
  {
    var c := Cuts(rs, |rs|);
    var k := PieceStart(c, |c|);
    assert rs[k..|rs|] == rs[k..];
    var want := Closed(rs, |rs|) + [PointsOf(rs[k..])];
    forall j | 0 <= j <= |c|
      ensures Split(rs)[j] == want[j]
    {
    }
  }

  /** `splitPoints` yields one piece per buffer record plus one; piece `j`
      ends at the `j`-th buffer record and piece `j + 1` starts there. */
  lemma SplitShape(rs: seq<PointRecord>, j: nat)
    requires j < |Cuts(rs, |rs|)|
    ensures |Split(rs)| == |Cuts(rs, |rs|)| + 1
    ensures |Split(rs)[j]| > 0 && Split(rs)[j][|Split(rs)[j]| - 1] == rs[Cuts(rs, |rs|)[j]].p
    ensures |Split(rs)[j + 1]| > 0 && Split(rs)[j + 1][0] == rs[Cuts(rs, |rs|)[j]].p
  {
    var c := Cuts(rs, |rs|);
    var k := PieceStart(c, j);
    assert rs[k..c[j] + 1][c[j] - k] == rs[c[j]];
    assert PieceStart(c, j + 1) == c[j];
  }

  /** The first piece starts at the first record and the last ends at the
      last record. */
  lemma SplitCount(rs: seq<PointRecord>)
    ensures |Split(rs)| == |Cuts(rs, |rs|)| + 1
    ensures |rs| > 0 ==> Split(rs)[0][0] == rs[0].p
    ensures |rs| > 0 ==> var last := Split(rs)[|Split(rs)| - 1]; |last| > 0 && last[|last| - 1] == rs[|rs| - 1].p
  {
    var c := Cuts(rs, |rs|);
    if |rs| > 0 {
      var k := PieceStart(c, |c|);
      if |c| > 0 {
        assert c[|c| - 1] < |rs|;
      }
      assert rs[k..|rs|][|rs| - k - 1] == rs[|rs| - 1];
    }
  }

  // ---------------------------------------------------------------------
  // the pieces of one edge's group of candidates

  /** No two candidates lie at the same distance from the edge's start. */
  predicate DistinctDistances(start: Point, sols: Solution)
  {
    forall i, j :: 0 <= i < |sols| && 0 <= j < |sols| && i != j ==> Distance(start, sols[i].p) != Distance(start, sols[j].p)
  }

  /** Candidates ordered by distance from the edge's start. */
  predicate SortedByDistance(start: Point, sols: Solution)
  {
    forall i, j :: 0 <= i < j < |sols| ==> Distance(start, sols[i].p) <= Distance(start, sols[j].p)
  }

  /** Every buffer record below `i` is a cut. */
  lemma {:induction false} CutsComplete(rs: seq<PointRecord>, i: nat, m: nat)
    requires m < i <= |rs| && rs[m].kind == BufferPoint
    ensures m in Cuts(rs, i)
  {
    if m < i - 1 {
      CutsComplete(rs, i - 1, m);
    }
  }

  /** Two strictly ascending sequences with the same elements are equal. */
  lemma {:induction false} AscendingSame(a: seq<nat>, b: seq<nat>)
    requires Graphs.StrictlyAscending(a) && Graphs.StrictlyAscending(b)
    requires forall x :: x in a <==> x in b
    ensures a == b
  {
    assert a != [] ==> a[0] in a;
    assert b != [] ==> b[0] in b;
    if a != [] && b != [] {
      assert a[0] in b && b[0] in a;
      assert a[0] == b[0];
      forall x
        ensures x in a[1..] <==> x in b[1..]
      {
        if x in a[1..] {
          TailMember(a, b, x);
        }
        if x in b[1..] {
          TailMember(b, a, x);
        }
      }
      AscendingSame(a[1..], b[1..]);
      assert a == [a[0]] + a[1..] && b == [b[0]] + b[1..];
    }
  }

  /** With the same first element, what follows it in `a` follows it in
      any ascending `b` holding all of `a`. */
  lemma TailMember(a: seq<nat>, b: seq<nat>, x: nat)
    requires Graphs.StrictlyAscending(a) && a != [] && b != [] && a[0] == b[0]
    requires forall y :: y in a ==> y in b
    requires x in a[1..]
    ensures x in b[1..]
  {
    var i :| 0 <= i < |a[1..]| && a[1..][i] == x;
    assert a[i + 1] == x && a[0] < a[i + 1];
    assert x in a;
    var k :| 0 <= k < |b| && b[k] == x;
    assert k != 0;
    assert b[1..][k - 1] == x;
  }

  function CutKeys(rs: seq<PointRecord>, c: seq<nat>): (k: seq<nat>)
    requires forall j :: 0 <= j < |c| ==> c[j] < |rs|
    ensures |k| == |c|
  {
    seq(|c|, j requires 0 <= j < |c| => Key(rs[c[j]]))
  }

  function Distances(start: Point, sols: Solution): (k: seq<nat>)
    ensures |k| == |sols|
  {
    seq(|sols|, i requires 0 <= i < |sols| => Distance(start, sols[i].p))
  }

  /** The buffer records' keys are the candidates' distances. */
  lemma CutKeysAreDistances(ps: seq<Point>, sols: Solution)
    requires |ps| > 0
    ensures var rs := Records(ps, sols); var c := Cuts(rs, |rs|);
      forall x :: x in CutKeys(rs, c) <==> x in Distances(ps[0], sols)
  {
    var rs := Records(ps, sols);
    var c := Cuts(rs, |rs|);
    forall x
      ensures x in CutKeys(rs, c) <==> x in Distances(ps[0], sols)
    {
      if x in CutKeys(rs, c) {
        CutKeyIsDistance(ps, sols, x);
      }
      if x in Distances(ps[0], sols) {
        DistanceIsCutKey(ps, sols, x);
      }
    }
  }

  lemma CutKeyIsDistance(ps: seq<Point>, sols: Solution, x: nat)
    requires |ps| > 0
    requires var rs := Records(ps, sols); x in CutKeys(rs, Cuts(rs, |rs|))
    ensures x in Distances(ps[0], sols)
  {
    var rs := Records(ps, sols);
    var c := Cuts(rs, |rs|);
    var b := BufferRecords(ps[0], sols);
    var ck := CutKeys(rs, c);
    RecordKeys(ps, sols);
    var j :| 0 <= j < |c| && ck[j] == x;
    RecordKinds(ps, sols, rs[c[j]]);
    var y :| y in b && Key(y) == x;
    var i :| 0 <= i < |b| && b[i] == y;
    assert Distances(ps[0], sols)[i] == x;
  }

  lemma DistanceIsCutKey(ps: seq<Point>, sols: Solution, x: nat)
    requires |ps| > 0 && x in Distances(ps[0], sols)
    ensures var rs := Records(ps, sols); x in CutKeys(rs, Cuts(rs, |rs|))
  {
    var rs := Records(ps, sols);
    var c := Cuts(rs, |rs|);
    var b := BufferRecords(ps[0], sols);
    var ds := Distances(ps[0], sols);
    RecordKeys(ps, sols);
    var i :| 0 <= i < |sols| && ds[i] == x;
    assert b[i] in b;
    assert x in Keys(b);
    assert x in Keys(rs);
    var y :| y in rs && Key(y) == x;
    var m :| 0 <= m < |rs| && rs[m] == y;
    RecordKinds(ps, sols, y);
    CutsComplete(rs, |rs|, m);
    var j :| 0 <= j < |c| && c[j] == m;
    assert CutKeys(rs, c)[j] == x;
  }

  /** For a group of candidates at distinct distances, sorted by distance,
      the buffer records are the candidates themselves, in order. */
  lemma CutsAreCandidates(ps: seq<Point>, sols: Solution)
    requires |ps| > 0 && DistinctDistances(ps[0], sols) && SortedByDistance(ps[0], sols)
    ensures var rs := Records(ps, sols); var c := Cuts(rs, |rs|);
      |c| == |sols| && forall j :: 0 <= j < |c| ==> rs[c[j]].p == sols[j].p
  {
    var rs := Records(ps, sols);
    var c := Cuts(rs, |rs|);
    var ck := CutKeys(rs, c);
    var ds := Distances(ps[0], sols);
    CutKeysAreDistances(ps, sols);
    assert Ascending(rs);
    forall a, b | 0 <= a < b < |ck|
      ensures ck[a] < ck[b]
    {
      assert c[a] < c[b];
    }
    forall a, b | 0 <= a < b < |ds|
      ensures ds[a] < ds[b]
    {
    }
    AscendingSame(ck, ds);
    forall j | 0 <= j < |c|
      ensures rs[c[j]].p == sols[j].p
    {
      RecordKinds(ps, sols, rs[c[j]]);
      var i :| 0 <= i < |sols| && rs[c[j]].p == sols[i].p;
      assert ds[i] == ck[j] == ds[j];
    }
  }

  /** The first piece always starts at the edge's first point: the record
      at distance 0 is at that point, whichever kind it is. */
  lemma SplitStartsAtSource(ps: seq<Point>, sols: Solution)
    requires |ps| > 0
    ensures |Split(Records(ps, sols))[0]| > 0 && Split(Records(ps, sols))[0][0] == ps[0]
  {
    var rs := Records(ps, sols);
    var s := SimpleRecords(ps[0], ps);
    RecordKeys(ps, sols);
    assert s[0] in s && Key(s[0]) == 0;
    assert 0 in Keys(rs);
    var y :| y in rs && Key(y) == 0;
    RecordKinds(ps, sols, y);
    var m :| 0 <= m < |rs| && rs[m] == y;
    assert Key(rs[0]) <= Key(rs[m]);
    RecordKinds(ps, sols, rs[0]);
    SplitCount(rs);
  }

  /** Piece `j` ends at `q` and piece `j + 1` starts there. */
  predicate JoinsAt(pieces: seq<seq<Point>>, j: nat, q: Point)
  {
    j + 1 < |pieces| && |pieces[j]| > 0 && pieces[j][|pieces[j]| - 1] == q && |pieces[j + 1]| > 0 && pieces[j + 1][0] == q
  }

  /** The pieces `splitPoints` cuts for a group of candidates at distinct
      distances, sorted by distance: one more than the candidates, the
      first from the edge's start, and each candidate where one piece ends
      and the next begins. */
  lemma GroupPieces(ps: seq<Point>, sols: Solution)
    requires |ps| > 0 && DistinctDistances(ps[0], sols) && SortedByDistance(ps[0], sols)
    ensures var pieces := Split(Records(ps, sols));
      && |pieces| == |sols| + 1
      && |pieces[0]| > 0 && pieces[0][0] == ps[0]
      && forall j :: 0 <= j < |sols| ==> JoinsAt(pieces, j, sols[j].p)
  {
    var rs := Records(ps, sols);
    CutsAreCandidates(ps, sols);
    SplitCount(rs);
    SplitStartsAtSource(ps, sols);
    forall j | 0 <= j < |sols|
      ensures JoinsAt(Split(rs), j, sols[j].p)
    {
      SplitShape(rs, j);
    }
  }
}
