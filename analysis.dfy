/** The benchmark scripts (analysis/Analysis.py): the test document for a
    wire of a given length, the scan of the inserter's standard output for
    the RAT and time lines, the average over repeated runs, the sweep over
    lengths and the results table.  Running the inserter, the thread pool
    and the plot are I/O: the outputs of the runs, the completion order of
    the pool and Python's float formatting and parsing are parameters. */
module Analysis {
  import opened Wrappers
  import opened Seqs
  import opened Geometry
  import opened Text
  import opened Candidates
  import opened Graphs
  import RCGraphIO
  import Driver

  // ---------------------------------------------------------------------
  // prepare_data

  /** `prepare_data`: a buffer source at the origin driving one sink at
      distance `len` along the x axis, through one straight edge. */
  function PrepareData(len: int): (doc: RCGraphIO.Document)
  {
    RCGraphIO.Document(
      [RCGraphIO.NodeRecord(0, 0, 0, "b", "buf1x", None, None),
       RCGraphIO.NodeRecord(1, len, 0, "t", "z0", Some(0.5), Some(200.0))],
      [RCGraphIO.EdgeRecord(Some(0), 0, 1, [Point(0, 0), Point(len, 0)])])
  }

  /** The file `prepare_data` writes the document to. */
  function TestPath(dir: string, len: int): string
  {
    dir + "/test" + ShowInt(len) + ".json"
  }

  /** The inserter reads the prepared document as a two-node tree: the
      source is the root, the sink carries the load and the required time,
      and the one edge runs from the source to the sink. */
  method ReadPrepared(len: int) returns (g: RCGraph)
    ensures g.Valid() && |g.nodes| == 2 && g.root == 0 && |g.edges| == 1
    ensures g.nodes[0].node == Node(Buffer, "buf1x", Point(0, 0), 0.0, 0.0)
    ensures g.nodes[1].node == Node(Terminal, "z0", Point(len, 0), 0.5, 200.0)
    ensures g.edges[0] == EdgeEntry(0, 1, Edge([Point(0, 0), Point(len, 0)]))
  {
    var doc := PrepareData(len);
    assert RCGraphIO.ParseKind(doc.nodes[0].kind) == Success(Buffer);
    assert RCGraphIO.ParseKind(doc.nodes[1].kind) == Success(Terminal);
    assert RCGraphIO.KindsParse(doc.nodes);
    assert doc.nodes[..1] == [doc.nodes[0]];
    assert RCGraphIO.RootOf(doc.nodes[..1]) == 0;
    assert RCGraphIO.RootOf(doc.nodes) == 0;
    var m := RCGraphIO.Mapping(doc.nodes);
    assert m[0] == 0 && m[1] == 1;
    var r := RCGraphIO.ReadRCGraph(doc);
    g := r.value;
  }

  /** The inserter run on the prepared file writes `test<len>_out.json`
      into its working directory. */
  lemma PreparedOutput(cwd: string, dir: string, len: int)
    ensures Driver.OutputFilePath(cwd, TestPath(dir, len)) == Driver.JoinPath(cwd, "test" + ShowInt(len) + Driver.OutSuffix)
  {
    var name := "test" + ShowInt(len);
    forall i | 0 <= i < |name|
      ensures name[i] != '/' && name[i] != '.'
    {
      if i >= 4 {
        assert name[i] == ShowInt(len)[i - 4];
      }
    }
    assert TestPath(dir, len) == dir + "/" + name + ".json";
    Driver.OutputOfJsonFile(cwd, dir, name);
  }

  // ---------------------------------------------------------------------
  // the scan for the two result lines

  /** The rest of `t` after the literal `l`, when `t` starts with it. */
  function Labelled(t: string, l: string): (r: Option<string>)
    ensures r.Some? ==> |l| <= |t| && t[..|l|] == l && r.value == t[|l|..]
  {
    if |l| <= |t| && t[..|l|] == l then Some(t[|l|..]) else None
  }

  /** `(.*)\n` at the start of `u`: the rest of the line, and what follows
      its newline; `.` stops at a newline, and the line must end in one. */
  function GroupLine(u: string): (r: Option<(string, string)>)
  {
    var e := LineEnd(u);
    if e == |u| then None else Some((u[..e], u[e + 1..]))
  }

  /** A match of `<l1>(.*)\n<l2>(.*)\n` at the start of `t`. */
  function MatchFrom(t: string, l1: string, l2: string): (r: Option<(string, string)>)
    ensures r.Some? ==> |l1| <= |t| && t[..|l1|] == l1
  {
    match Labelled(t, l1)
    case None => None
    case Some(u) =>
      match GroupLine(u)
      case None => None
      case Some((g1, v)) =>
        match Labelled(v, l2)
        case None => None
        case Some(w) =>
          match GroupLine(w)
          case None => None
          case Some((g2, _)) => Some((g1, g2))
  }

  /** The pattern `Resulting RAT = (.*)\nResulting AlgoTime = (.*)\n`
      matched at `i`. */
  function MatchAt(s: string, i: nat): (r: Option<(string, string)>)
    requires i <= |s|
  {
    MatchFrom(s[i..], Driver.RatLabel, Driver.TimeLabel)
  }

  /** `re.findall(...)[0]`: the leftmost match at or after `i`. */
  function FirstMatch(s: string, i: nat): (r: Option<(string, string)>)
    requires i <= |s|
    decreases |s| - i
  {
    if i == |s| then None
    else if MatchAt(s, i).Some? then MatchAt(s, i)
    else FirstMatch(s, i + 1)
  }

  lemma {:induction false} FirstMatchSkips(s: string, i: nat, j: nat)
    requires i <= j <= |s| && forall k :: i <= k < j ==> MatchAt(s, k).None?
    ensures FirstMatch(s, i) == FirstMatch(s, j)
    decreases j - i
  {
    if i < j {
      FirstMatchSkips(s, i + 1, j);
    }
  }

  /** No "Re" anywhere in `s`, so no match can start inside it. */
  predicate NoRe(s: string)
  {
    forall i :: 0 <= i < |s| - 1 ==> !(s[i] == 'R' && s[i + 1] == 'e')
  }

  /** No match starts in `s`, not even one running into what follows. */
  predicate Safe(s: string)
  {
    NoRe(s) && (s == [] || s[|s| - 1] != 'R')
  }

  predicate NoR(s: string)
  {
    forall i :: 0 <= i < |s| ==> s[i] != 'R'
  }

  lemma SafeCat(a: string, b: string)
    requires Safe(a) && Safe(b)
    ensures Safe(a + b)
  {
    var s := a + b;
    forall i | 0 <= i < |s| - 1
      ensures !(s[i] == 'R' && s[i + 1] == 'e')
    {
      if i + 1 < |a| {
        assert s[i] == a[i] && s[i + 1] == a[i + 1];
      } else if i >= |a| {
        assert s[i] == b[i - |a|] && s[i + 1] == b[i + 1 - |a|];
      } else {
        assert s[i] == a[|a| - 1];
      }
    }
    if b == [] {
      assert s == a;
    } else {
      assert s[|s| - 1] == b[|b| - 1];
    }
  }

  lemma SafeNoR(s: string)
    requires NoR(s)
    ensures Safe(s)
  {
  }

  lemma SafeShowInt(i: int)
    ensures Safe(ShowInt(i))
  {
    var s := ShowInt(i);
    if i < 0 {
      assert forall k :: 1 <= k < |s| ==> s[k] == ShowNat(-i)[k - 1];
    }
    assert NoR(s);
  }

  lemma SafeLiterals()
    ensures Safe("Buffer (") && Safe(" ,") && Safe(")\n") && Safe("\t RAT == ") && Safe("\n")
    ensures Safe("\t Capacity == ") && Safe("\t EdgeId == ") && Safe("\t INSERT == ") && Safe("1") && Safe("0")
    ensures Safe(Driver.Header) && Safe(Driver.Footer)
  {
  }

  lemma SafeCandidate(c: Candidate, show: real -> string)
    requires forall x :: NoR(show(x))
    ensures Safe(Driver.CandidateText(c, show))
  {
    SafeLiterals();
    SafeShowInt(c.p.x);
    SafeShowInt(c.p.y);
    SafeShowInt(c.eid);
    SafeNoR(show(c.rat));
    SafeNoR(show(c.capacity));
    var s1 := "Buffer (" + ShowInt(c.p.x);
    SafeCat("Buffer (", ShowInt(c.p.x));
    SafeCat(s1, " ,");
    SafeCat(s1 + " ,", ShowInt(c.p.y));
    var s2 := s1 + " ," + ShowInt(c.p.y) + ")\n";
    SafeCat(s1 + " ," + ShowInt(c.p.y), ")\n");
    SafeCat(s2, "\t RAT == ");
    SafeCat(s2 + "\t RAT == ", show(c.rat));
    SafeCat(s2 + "\t RAT == " + show(c.rat), "\n");
    var s3 := s2 + "\t RAT == " + show(c.rat) + "\n";
    SafeCat(s3, "\t Capacity == ");
    SafeCat(s3 + "\t Capacity == ", show(c.capacity));
    SafeCat(s3 + "\t Capacity == " + show(c.capacity), "\n");
    var s4 := s3 + "\t Capacity == " + show(c.capacity) + "\n";
    SafeCat(s4, "\t EdgeId == ");
    SafeCat(s4 + "\t EdgeId == ", ShowInt(c.eid));
    SafeCat(s4 + "\t EdgeId == " + ShowInt(c.eid), "\n");
    var s5 := s4 + "\t EdgeId == " + ShowInt(c.eid) + "\n";
    SafeCat(s5, "\t INSERT == ");
    SafeCat(s5 + "\t INSERT == ", if c.hasBuffer then "1" else "0");
  }

  lemma {:induction false} SafeListing(solution: Solution, show: real -> string)
    requires forall x :: NoR(show(x))
    ensures Safe(Driver.Listing(solution, show))
  {
    if solution != [] {
      SafeListing(solution[..|solution| - 1], show);
      SafeCandidate(solution[|solution| - 1], show);
      SafeLiterals();
      var l := Driver.Listing(solution[..|solution| - 1], show);
      var c := Driver.CandidateText(solution[|solution| - 1], show);
      SafeCat(l, c);
      SafeCat(l + c, "\n");
    }
  }

  lemma NoMatchInSafe(p: string, q: string, i: nat)
    requires Safe(p) && i < |p|
    ensures MatchAt(p + q, i).None?
  {
    var t := (p + q)[i..];
    var l1 := Driver.RatLabel;
    assert |l1| == 16 && l1[0] == 'R' && l1[1] == 'e';
    assert t[0] == p[i];
    if i + 1 < |p| {
      assert t[1] == p[i + 1];
      assert !(t[0] == 'R' && t[1] == 'e');
    } else {
      assert t[0] != 'R';
    }
    assert Labelled(t, l1).None? by {
      if |l1| <= |t| {
        assert t[..|l1|][0] == t[0] && t[..|l1|][1] == t[1];
      }
    }
  }

  lemma LabelledOf(l: string, rest: string)
    ensures Labelled(l + rest, l) == Some(rest)
  {
    assert (l + rest)[..|l|] == l;
    assert (l + rest)[|l|..] == rest;
  }

  lemma GroupLineOf(r: string, rest: string)
    requires forall k :: 0 <= k < |r| ==> r[k] != '\n'
    ensures GroupLine(r + "\n" + rest) == Some((r, rest))
  {
    var u := r + "\n" + rest;
    assert IsLine(r + "\n");
    assert u == (r + "\n") + rest;
    LineEndOf(r + "\n", rest);
    assert u[..|r|] == r;
    assert u[|r| + 1..] == rest;
  }

  lemma MatchFromTail(l1: string, r: string, l2: string, m: string)
    requires forall k :: 0 <= k < |r| ==> r[k] != '\n'
    requires forall k :: 0 <= k < |m| ==> m[k] != '\n'
    ensures MatchFrom((l1 + r + "\n") + (l2 + m + "\n"), l1, l2) == Some((r, m))
  {
    var rest2 := l2 + m + "\n";
    var rest1 := r + "\n" + rest2;
    assert (l1 + r + "\n") + rest2 == l1 + rest1;
    LabelledOf(l1, rest1);
    GroupLineOf(r, rest2);
    LabelledOf(l2, m + "\n");
    assert rest2 == l2 + (m + "\n");
    GroupLineOf(m, []);
    assert m + "\n" + [] == m + "\n";
  }

  lemma MatchTail(p: string, ratText: string, msText: string)
    requires forall k :: 0 <= k < |ratText| ==> ratText[k] != '\n'
    requires forall k :: 0 <= k < |msText| ==> msText[k] != '\n'
    ensures MatchAt(p + Driver.Tail(ratText, msText), |p|) == Some((ratText, msText))
  {
    var t := Driver.Tail(ratText, msText);
    assert (p + t)[|p|..] == t;
    MatchFromTail(Driver.RatLabel, ratText, Driver.TimeLabel, msText);
  }

  /** What the benchmark scripts scan out of the inserter's report is exactly the
      RAT text and the time it printed, whatever buffers are listed before,
      provided number formatting never produces an 'R' and the RAT text
      stays on its line. */
  lemma ScanReport(solution: Solution, ratText: string, ms: int, show: real -> string)
    requires forall x :: NoR(show(x))
    requires forall k :: 0 <= k < |ratText| ==> ratText[k] != '\n'
    ensures FirstMatch(Driver.Stdout(solution, ratText, ShowInt(ms), show), 0) == Some((ratText, ShowInt(ms)))
  {
    var msText := ShowInt(ms);
    SafeListing(solution, show);
    SafeLiterals();
    var l := Driver.Listing(solution, show);
    SafeCat(Driver.Header, l);
    SafeCat(Driver.Header + l, Driver.Footer);
    var p := Driver.Header + l + Driver.Footer;
    var s := p + Driver.Tail(ratText, msText);
    assert s == Driver.Stdout(solution, ratText, msText, show);
    forall k | 0 <= k < |p|
      ensures MatchAt(s, k).None?
    {
      NoMatchInSafe(p, Driver.Tail(ratText, msText), k);
    }
    FirstMatchSkips(s, 0, |p|);
    assert NoSpace(msText);
    MatchTail(p, ratText, msText);
  }

  /** The number formatting of the output stream prints no `R` and no
      whitespace, so the listing cannot imitate the result lines. */
  ghost predicate Printable(show: real -> string)
  {
    forall x :: NoR(show(x)) && NoSpace(show(x))
  }

  /** The text the inserter prints for one run: the candidate list it found
      and the milliseconds the search took. */
  function ReportOf(candidates: Solution, ms: int, show: real -> string): string
    requires |candidates| > 0
  {
    Driver.Stdout(Driver.ExtractSolution(candidates), show(Driver.ResultingRAT(candidates)), ShowInt(ms), show)
  }

  // ---------------------------------------------------------------------
  // get_result

  /** How many times `get_result` runs the inserter on each length. */
  const Average: nat := 10

  /** `TestResult`: a wire length, the mean run time and the RAT. */
  datatype TestResult = TestResult(len: int, time: real, rat: real)

  /** What `get_result` raises on: an output without the two result lines,
      a time `int()` rejects, or a RAT `float()` rejects. */
  datatype TrialError = NoMatch(output: string) | NotAnInt(text: string) | NotAFloat(text: string)

  /** One run: the RAT text and the time the result lines report. */
  function Trial(output: string): Result<(string, int), TrialError>
  {
    match FirstMatch(output, 0)
    case None => Failure(NoMatch(output))
    case Some((rat, time)) =>
      match ParseInt(time)
      case None => Failure(NotAnInt(time))
      case Some(t) => Success((rat, t))
  }

  function Sum(ts: seq<int>): int
  {
    if ts == [] then 0 else Sum(ts[..|ts| - 1]) + ts[|ts| - 1]
  }

  /** The runs in order, stopping at the first that raises: the RAT text of
      the last run and the sum of the times. */
  function Series(trials: seq<Result<(string, int), TrialError>>): Result<(string, int), TrialError>
    requires |trials| > 0
  {
    var last := trials[|trials| - 1];
    if |trials| == 1 then last
    else
      var before :- Series(trials[..|trials| - 1]);
      var run :- last;
      Success((run.0, before.1 + run.1))
  }

  function TrialsOf(outputs: seq<string>): (ts: seq<Result<(string, int), TrialError>>)
    ensures |ts| == |outputs| && forall k :: 0 <= k < |ts| ==> ts[k] == Trial(outputs[k])
  {
    seq(|outputs|, k requires 0 <= k < |outputs| => Trial(outputs[k]))
  }

  /** `get_result`: the mean of the times and the RAT of the last run; the
      mean is over the number of runs, which the callers fix. */
  function Averaged(len: int, outputs: seq<string>, parseFloat: string -> Option<real>): (r: Result<TestResult, TrialError>)
    requires |outputs| > 0
    ensures r.Success? ==> r.value.len == len
  {
    var t :- Series(TrialsOf(outputs));
    match parseFloat(t.0)
    case None => Failure(NotAFloat(t.0))
    case Some(rat) => Success(TestResult(len, t.1 as real / |outputs| as real, rat))
  }

  /** A failing run ends the series with its error. */
  lemma {:induction false} SeriesPrefix(ts: seq<Result<(string, int), TrialError>>, n: nat, m: nat)
    requires 0 < n <= m <= |ts| && Series(ts[..n]).Failure?
    ensures Series(ts[..m]) == Series(ts[..n])
    decreases m
  {
    if m > n {
      SeriesPrefix(ts, n, m - 1);
      assert ts[..m][..m - 1] == ts[..m - 1];
    }
  }

  /** The series fails exactly when some run fails, and then with the
      error of the first failing run. */
  lemma {:induction false} SeriesFailure(ts: seq<Result<(string, int), TrialError>>)
    requires |ts| > 0
    ensures Series(ts).Failure? <==> exists k :: 0 <= k < |ts| && ts[k].Failure?
    ensures Series(ts).Failure? ==>
      exists k :: 0 <= k < |ts| && ts[k] == Failure(Series(ts).error) &&
        forall j :: 0 <= j < k ==> ts[j].Success?
  {
    var n := |ts|;
    if n > 1 {
      var init := ts[..n - 1];
      SeriesFailure(init);
      assert forall k :: 0 <= k < n - 1 ==> init[k] == ts[k];
      if Series(init).Failure? {
        var k :| 0 <= k < n - 1 && init[k] == Failure(Series(init).error) &&
          forall j :: 0 <= j < k ==> init[j].Success?;
        assert ts[k] == Failure(Series(ts).error);
      } else if ts[n - 1].Failure? {
        assert forall j :: 0 <= j < n - 1 ==> ts[j].Success?;
      }
    }
  }

  /** Runs that each report a RAT text and a time give the last RAT text
      and the sum of the times. */
  lemma {:induction false} SeriesOfSuccesses(ts: seq<Result<(string, int), TrialError>>, rats: seq<string>, times: seq<int>)
    requires |ts| == |rats| == |times| > 0
    requires forall k :: 0 <= k < |ts| ==> ts[k] == Success((rats[k], times[k]))
    ensures Series(ts) == Success((rats[|rats| - 1], Sum(times)))
  {
    var n := |ts|;
    if n == 1 {
      assert times[..0] == [];
    } else {
      SeriesOfSuccesses(ts[..n - 1], rats[..n - 1], times[..n - 1]);
    }
  }

  /** The benchmark scripts read back from the inserter's report the RAT text it
      printed and the milliseconds it printed. */
  lemma TrialOfReport(candidates: Solution, ms: int, show: real -> string)
    requires |candidates| > 0 && Printable(show)
    ensures Trial(ReportOf(candidates, ms, show)) == Success((show(Driver.ResultingRAT(candidates)), ms))
  {
    var ratText := show(Driver.ResultingRAT(candidates));
    assert NoSpace(ratText);
    assert forall x :: NoR(show(x));
    ScanReport(Driver.ExtractSolution(candidates), ratText, ms, show);
    ParseShowInt(ms);
  }

  /** The RAT text each run reports. */
  function RatTexts(runs: seq<Solution>, show: real -> string): (rs: seq<string>)
    requires forall k :: 0 <= k < |runs| ==> |runs[k]| > 0
    ensures |rs| == |runs| && forall k :: 0 <= k < |runs| ==> rs[k] == show(Driver.ResultingRAT(runs[k]))
  {
    if runs == [] then [] else RatTexts(runs[..|runs| - 1], show) + [show(Driver.ResultingRAT(runs[|runs| - 1]))]
  }

  /** Averaging the reports of runs of the inserter: the time is the mean of
      the milliseconds they print, the RAT is the last run's RAT read back,
      and only a RAT the float parser rejects makes it fail. */
  lemma AveragedOfReports(len: int, outputs: seq<string>, runs: seq<Solution>, ms: seq<int>,
                          show: real -> string, parseFloat: string -> Option<real>)
    requires |outputs| == |runs| == |ms| > 0 && Printable(show)
    requires forall k :: 0 <= k < |runs| ==> |runs[k]| > 0 && outputs[k] == ReportOf(runs[k], ms[k], show)
    ensures var ratText := show(Driver.ResultingRAT(runs[|runs| - 1]));
      Averaged(len, outputs, parseFloat) ==
        if parseFloat(ratText).None? then Failure(NotAFloat(ratText))
        else Success(TestResult(len, Sum(ms) as real / |ms| as real, parseFloat(ratText).value))
  {
    var ts := TrialsOf(outputs);
    var rats := RatTexts(runs, show);
    forall k | 0 <= k < |ts|
      ensures ts[k] == Success((rats[k], ms[k]))
    {
      TrialOfReport(runs[k], ms[k], show);
    }
    SeriesOfSuccesses(ts, rats, ms);
    var ratText := show(Driver.ResultingRAT(runs[|runs| - 1]));
    AveragedOfSeries(len, outputs, parseFloat, ratText, Sum(ms));
  }

  lemma AveragedOfSeries(len: int, outputs: seq<string>, parseFloat: string -> Option<real>, ratText: string, sum: int)
    requires |outputs| > 0 && Series(TrialsOf(outputs)) == Success((ratText, sum))
    ensures Averaged(len, outputs, parseFloat) ==
      if parseFloat(ratText).None? then Failure(NotAFloat(ratText))
      else Success(TestResult(len, sum as real / |outputs| as real, parseFloat(ratText).value))
  {
  }

  lemma AveragedOfFailure(len: int, outputs: seq<string>, parseFloat: string -> Option<real>)
    requires |outputs| > 0 && Series(TrialsOf(outputs)).Failure?
    ensures Averaged(len, outputs, parseFloat) == Failure(Series(TrialsOf(outputs)).error)
  {
  }

  /** One more run extends the series. */
  lemma SeriesStep(ts: seq<Result<(string, int), TrialError>>, i: nat)
    requires i < |ts|
    ensures ts[i].Failure? && (i > 0 ==> Series(ts[..i]).Success?) ==> Series(ts[..i + 1]) == ts[i]
    ensures ts[i].Success? && i == 0 ==> Series(ts[..i + 1]) == ts[i]
    ensures ts[i].Success? && i > 0 && Series(ts[..i]).Success? ==>
      Series(ts[..i + 1]) == Success((ts[i].value.0, Series(ts[..i]).value.1 + ts[i].value.1))
  {
    assert ts[..i + 1][..i] == ts[..i];
    assert ts[..i + 1][i] == ts[i];
  }

  /** The first run that fails decides the average. */
  lemma FailedRunEnds(len: int, outputs: seq<string>, parseFloat: string -> Option<real>, i: nat)
    requires i < |outputs| && Trial(outputs[i]).Failure?
    requires i > 0 ==> Series(TrialsOf(outputs)[..i]).Success?
    ensures Averaged(len, outputs, parseFloat) == Failure(Trial(outputs[i]).error)
  {
    var ts := TrialsOf(outputs);
    SeriesStep(ts, i);
    SeriesPrefix(ts, i + 1, |ts|);
    assert ts[..|ts|] == ts;
    AveragedOfFailure(len, outputs, parseFloat);
  }

  /** `get_result` over the outputs of its runs of the inserter. */
  method GetResult(len: int, outputs: seq<string>, parseFloat: string -> Option<real>) returns (r: Result<TestResult, TrialError>)
    requires |outputs| > 0
    ensures r == Averaged(len, outputs, parseFloat)
  {
    ghost var ts := TrialsOf(outputs);
    var resTime := 0;
    var rat := "";
    for i := 0 to |outputs|
      invariant i == 0 ==> resTime == 0
      invariant i > 0 ==> Series(ts[..i]) == Success((rat, resTime))
    {
      SeriesStep(ts, i);
      var run := Trial(outputs[i]);
      assert run == ts[i];
      if run.Failure? {
        FailedRunEnds(len, outputs, parseFloat, i);
        return Failure(run.error);
      }
      resTime := resTime + run.value.1;
      rat := run.value.0;
    }
    assert ts[..|ts|] == ts;
    AveragedOfSeries(len, outputs, parseFloat, rat, resTime);
    var x := parseFloat(rat);
    if x.None? {
      return Failure(NotAFloat(rat));
    }
    r := Success(TestResult(len, resTime as real / |outputs| as real, x.value));
  }

  // ---------------------------------------------------------------------
  // get_results

  /** The upper bound of the lengths swept. */
  const MaxLen: int := 1000

  /** Python's `range(lo, hi, step)` for a positive step. */
  function Range(lo: int, hi: int, step: nat): (r: seq<int>)
    requires step > 0
    ensures forall k :: 0 <= k < |r| ==> r[k] == lo + k * step && r[k] < hi
    ensures |r| == 0 <==> lo >= hi
    ensures |r| > 0 ==> r[|r| - 1] + step >= hi
  {
    var n := if lo >= hi then 0 else (hi - lo - 1) / step + 1;
    var r := seq(n, k => lo + k * step);
    RangeShape(lo, hi, step, n, r);
    r
  }

  /** The `n` values `lo, lo + step, ...` are exactly the ones below `hi`. */
  lemma RangeShape(lo: int, hi: int, step: nat, n: nat, r: seq<int>)
    requires step > 0 && n == (if lo >= hi then 0 else (hi - lo - 1) / step + 1)
    requires r == seq(n, k => lo + k * step)
    ensures forall k :: 0 <= k < |r| ==> r[k] == lo + k * step && r[k] < hi
    ensures |r| == 0 <==> lo >= hi
    ensures |r| > 0 ==> r[|r| - 1] + step >= hi
  {
    RangeCount(hi - lo, step, n);
  }

  /** `n` steps of `step` from 0 stay below `d`, and one more reaches it. */
  lemma RangeCount(d: int, step: nat, n: nat)
    requires step > 0 && n == if d <= 0 then 0 else (d - 1) / step + 1
    ensures forall k :: 0 <= k < n ==> k * step < d
    ensures n > 0 ==> n * step >= d
    ensures n == 0 <==> d <= 0
  {
    if d > 0 {
      var q := (d - 1) / step;
      assert q * step <= d - 1 < q * step + step;
      forall k | 0 <= k < n
        ensures k * step < d
      {
        assert k <= q;
        assert k * step <= q * step;
      }
      assert n * step == q * step + step;
    }
  }

  /** The lengths `get_results` submits to the pool. */
  function Lengths(): (ls: seq<int>)
  {
    Range(25, MaxLen, 100)
  }

  lemma LengthsAre()
    ensures |Lengths()| == 10
    ensures forall k :: 0 <= k < |Lengths()| ==> Lengths()[k] == 25 + 100 * k
  {
    var ls := Lengths();
    var n := |ls|;
    assert ls[n - 1] == 25 + (n - 1) * 100 && ls[n - 1] + 100 >= MaxLen;
  }

  /** `0, 1, ..., n - 1`. */
  function Indices(n: nat): (r: seq<nat>)
    ensures |r| == n && forall k :: 0 <= k < n ==> r[k] == k
  {
    if n == 0 then [] else Indices(n - 1) + [n - 1]
  }

  /** The order `as_completed` hands the futures back in: each index once. */
  ghost predicate IsOrder(order: seq<nat>, n: nat)
  {
    multiset(order) == multiset(Indices(n))
  }

  lemma OrderInRange(order: seq<nat>, n: nat)
    requires IsOrder(order, n)
    ensures |order| == n && forall i :: 0 <= i < |order| ==> order[i] < n
  {
    assert |order| == |multiset(order)| == |Indices(n)|;
    forall i | 0 <= i < |order|
      ensures order[i] < n
    {
      assert order[i] in multiset(order);
      assert order[i] in multiset(Indices(n));
      assert order[i] in Indices(n);
    }
  }

  predicate Runs(lengths: seq<int>, runs: seq<seq<string>>)
  {
    |runs| == |lengths| && forall k :: 0 <= k < |runs| ==> |runs[k]| > 0
  }

  predicate InRange(order: seq<nat>, n: nat)
  {
    forall i :: 0 <= i < |order| ==> order[i] < n
  }

  type Outcome = Result<TestResult, TrialError>

  /** What `get_result` returns or raises for each submitted length. */
  function Outcomes(lengths: seq<int>, runs: seq<seq<string>>, parseFloat: string -> Option<real>): (os: seq<Outcome>)
    requires Runs(lengths, runs)
    ensures |os| == |runs| && forall k :: 0 <= k < |os| ==> os[k] == Averaged(lengths[k], runs[k], parseFloat)
  {
    seq(|runs|, k requires 0 <= k < |runs| => Averaged(lengths[k], runs[k], parseFloat))
  }

  /** The results of the futures that return, in the order they complete. */
  function Kept(outcomes: seq<Outcome>, order: seq<nat>): seq<TestResult>
    requires InRange(order, |outcomes|)
  {
    if order == [] then []
    else
      Kept(outcomes, order[..|order| - 1]) +
        match outcomes[order[|order| - 1]]
        case Success(t) => [t]
        case Failure(_) => []
  }

  /** The futures that raise, with their errors, in the order they
      complete. */
  function Failed(outcomes: seq<Outcome>, order: seq<nat>): seq<(nat, TrialError)>
    requires InRange(order, |outcomes|)
  {
    if order == [] then []
    else
      var k := order[|order| - 1];
      Failed(outcomes, order[..|order| - 1]) +
        match outcomes[k]
        case Success(_) => []
        case Failure(e) => [(k, e)]
  }

  /** Every future is either kept or reported as failed. */
  lemma {:induction false} KeptAndFailed(outcomes: seq<Outcome>, order: seq<nat>)
    requires InRange(order, |outcomes|)
    ensures |Kept(outcomes, order)| + |Failed(outcomes, order)| == |order|
  {
    if order != [] {
      KeptAndFailed(outcomes, order[..|order| - 1]);
    }
  }

  /** A result is kept exactly when some completed future returned it. */
  lemma {:induction false} KeptMembers(outcomes: seq<Outcome>, order: seq<nat>, t: TestResult)
    requires InRange(order, |outcomes|)
    ensures t in Kept(outcomes, order) <==> exists i :: 0 <= i < |order| && outcomes[order[i]] == Success(t)
  {
    if order != [] {
      var init := order[..|order| - 1];
      KeptMembers(outcomes, init, t);
      KeptLastMember(outcomes, order, t);
      ReturnedSplit(outcomes, order, init, t);
    }
  }

  /** The kept results of a completion order are those of its front and
      possibly its last future's. */
  lemma KeptLastMember(outcomes: seq<Outcome>, order: seq<nat>, t: TestResult)
    requires InRange(order, |outcomes|) && order != []
    ensures InRange(order[..|order| - 1], |outcomes|)
    ensures t in Kept(outcomes, order) <==>
      t in Kept(outcomes, order[..|order| - 1]) || outcomes[order[|order| - 1]] == Success(t)
  {
  }

  /** Some future of a completion order returned `t` exactly when one of
      its front did or its last one did. */
  lemma ReturnedSplit(outcomes: seq<Outcome>, order: seq<nat>, init: seq<nat>, t: TestResult)
    requires InRange(order, |outcomes|) && order != [] && init == order[..|order| - 1]
    ensures (exists i :: 0 <= i < |order| && outcomes[order[i]] == Success(t)) <==>
      (exists i :: 0 <= i < |init| && outcomes[init[i]] == Success(t)) ||
      outcomes[order[|order| - 1]] == Success(t)
  {
    var n := |order|;
    if exists i :: 0 <= i < n && outcomes[order[i]] == Success(t) {
      var i :| 0 <= i < n && outcomes[order[i]] == Success(t);
      if i < n - 1 {
        assert init[i] == order[i];
      }
    }
    if exists i :: 0 <= i < n - 1 && outcomes[init[i]] == Success(t) {
      var i :| 0 <= i < n - 1 && outcomes[init[i]] == Success(t);
      assert order[i] == init[i];
    }
  }

  lemma {:induction false} KeptConcat(outcomes: seq<Outcome>, a: seq<nat>, b: seq<nat>)
    requires InRange(a, |outcomes|) && InRange(b, |outcomes|)
    ensures InRange(a + b, |outcomes|)
    ensures Kept(outcomes, a + b) == Kept(outcomes, a) + Kept(outcomes, b)
    decreases |b|
  {
    if b == [] {
      assert a + b == a;
    } else {
      var n := |b|;
      assert (a + b)[..|a + b| - 1] == a + b[..n - 1];
      KeptConcat(outcomes, a, b[..n - 1]);
    }
  }

  lemma MultisetRemove(o1: seq<nat>, o2: seq<nat>, j: nat)
    requires |o1| > 0 && j < |o2| && o2[j] == o1[|o1| - 1] && multiset(o1) == multiset(o2)
    ensures multiset(o1[..|o1| - 1]) == multiset(o2[..j] + o2[j + 1..])
  {
    var n := |o1|;
    var x := o1[n - 1];
    var init, before, after := o1[..n - 1], o2[..j], o2[j + 1..];
    assert o1 == init + [x];
    assert o2 == before + [x] + after;
    assert multiset(o1) == multiset(init) + multiset{x};
    assert multiset(o2) == multiset(before + after) + multiset{x};
    assert multiset(init) == multiset(o1) - multiset{x};
    assert multiset(before + after) == multiset(o2) - multiset{x};
  }

  lemma KeptLast(outcomes: seq<Outcome>, o: seq<nat>)
    requires InRange(o, |outcomes|) && o != []
    ensures Kept(outcomes, o) == Kept(outcomes, o[..|o| - 1]) + Kept(outcomes, [o[|o| - 1]])
  {
    assert [o[|o| - 1]][..0] == [];
  }

  lemma KeptRemove(outcomes: seq<Outcome>, before: seq<nat>, x: nat, after: seq<nat>)
    requires InRange(before, |outcomes|) && InRange(after, |outcomes|) && x < |outcomes|
    ensures InRange(before + [x] + after, |outcomes|) && InRange(before + after, |outcomes|)
    ensures multiset(Kept(outcomes, before + [x] + after)) == multiset(Kept(outcomes, before + after)) + multiset(Kept(outcomes, [x]))
  {
    KeptConcat(outcomes, before, [x]);
    KeptConcat(outcomes, before + [x], after);
    KeptConcat(outcomes, before, after);
    var kb, kx, ka := Kept(outcomes, before), Kept(outcomes, [x]), Kept(outcomes, after);
    assert Kept(outcomes, before + [x] + after) == kb + kx + ka;
    assert multiset(kb + kx + ka) == multiset(kb + ka) + multiset(kx);
  }

  /** The kept results depend on the completion order only up to a
      permutation. */
  lemma {:induction false} KeptPermutation(outcomes: seq<Outcome>, o1: seq<nat>, o2: seq<nat>)
    requires InRange(o1, |outcomes|) && InRange(o2, |outcomes|)
    requires multiset(o1) == multiset(o2)
    ensures multiset(Kept(outcomes, o1)) == multiset(Kept(outcomes, o2))
    decreases |o1|
  {
    if o1 != [] {
      var n := |o1|;
      var x := o1[n - 1];
      assert x in multiset(o2);
      var j :| 0 <= j < |o2| && o2[j] == x;
      MultisetRemove(o1, o2, j);
      var before, after := o2[..j], o2[j + 1..];
      assert o2 == before + [x] + after;
      KeptPermutation(outcomes, o1[..n - 1], before + after);
      KeptRemove(outcomes, before, x, after);
      KeptLast(outcomes, o1);
    }
  }

  /** `get_results`: the outcome of `get_result` for each submitted length,
      collected in the order the pool completes them; a future that raises
      is reported by its index, and has no result. */
  method GetResults(runs: seq<seq<string>>, order: seq<nat>, parseFloat: string -> Option<real>)
    returns (results: seq<TestResult>, failed: seq<(nat, TrialError)>)
    requires Runs(Lengths(), runs) && IsOrder(order, |runs|)
    requires forall k :: 0 <= k < |runs| ==> |runs[k]| == Average
    ensures InRange(order, |runs|)
    ensures results == Kept(Outcomes(Lengths(), runs, parseFloat), order)
    ensures failed == Failed(Outcomes(Lengths(), runs, parseFloat), order)
  {
    OrderInRange(order, |runs|);
    results, failed := CollectResults(Lengths(), runs, order, parseFloat);
  }

  /** The loop over the completed futures, for any table of lengths. */
  method CollectResults(lengths: seq<int>, runs: seq<seq<string>>, order: seq<nat>, parseFloat: string -> Option<real>)
    returns (results: seq<TestResult>, failed: seq<(nat, TrialError)>)
    requires Runs(lengths, runs) && InRange(order, |runs|)
    ensures results == Kept(Outcomes(lengths, runs, parseFloat), order)
    ensures failed == Failed(Outcomes(lengths, runs, parseFloat), order)
  {
    ghost var outcomes := Outcomes(lengths, runs, parseFloat);
    results := [];
    failed := [];
    for i := 0 to |order|
      invariant InRange(order[..i], |runs|)
      invariant results == Kept(outcomes, order[..i])
      invariant failed == Failed(outcomes, order[..i])
    {
      CollectStep(outcomes, order, i);
      var k := order[i];
      var r := GetResult(lengths[k], runs[k], parseFloat);
      assert r == outcomes[k];
      if r.Success? {
        results := results + [r.value];
      } else {
        failed := failed + [(k, r.error)];
      }
    }
    assert order[..|order|] == order;
  }

  lemma CollectStep(outcomes: seq<Outcome>, order: seq<nat>, i: nat)
    requires InRange(order, |outcomes|) && i < |order|
    ensures InRange(order[..i], |outcomes|) && InRange(order[..i + 1], |outcomes|)
    ensures outcomes[order[i]].Success? ==>
      && Kept(outcomes, order[..i + 1]) == Kept(outcomes, order[..i]) + [outcomes[order[i]].value]
      && Failed(outcomes, order[..i + 1]) == Failed(outcomes, order[..i])
    ensures outcomes[order[i]].Failure? ==>
      && Kept(outcomes, order[..i + 1]) == Kept(outcomes, order[..i])
      && Failed(outcomes, order[..i + 1]) == Failed(outcomes, order[..i]) + [(order[i], outcomes[order[i]].error)]
  {
    assert order[..i + 1][..i] == order[..i];
  }

  /** Whatever order the pool completes in, the kept results are those of
      the lengths whose runs succeed, each once. */
  lemma GetResultsAnyOrder(outcomes: seq<Outcome>, order: seq<nat>)
    requires IsOrder(order, |outcomes|)
    ensures InRange(order, |outcomes|) && InRange(Indices(|outcomes|), |outcomes|)
    ensures multiset(Kept(outcomes, order)) == multiset(Kept(outcomes, Indices(|outcomes|)))
  {
    OrderInRange(order, |outcomes|);
    KeptPermutation(outcomes, order, Indices(|outcomes|));
  }

  // ---------------------------------------------------------------------
  // write_results, read_results

  /** One line of the table: the length, the time and the RAT, separated by
      blanks; `showFloat` is Python's conversion of a float to text. */
  function Row(r: TestResult, showFloat: real -> string): string
  {
    ShowInt(r.len) + " " + showFloat(r.time) + " " + showFloat(r.rat) + "\n"
  }

  function Rows(rs: seq<TestResult>, showFloat: real -> string): (ls: seq<string>)
    ensures |ls| == |rs|
  {
    Each(rs, r => Row(r, showFloat))
  }

  lemma RowsSnoc(rs: seq<TestResult>, i: nat, showFloat: real -> string)
    requires i < |rs|
    ensures Concat(Rows(rs[..i + 1], showFloat)) == Concat(Rows(rs[..i], showFloat)) + Row(rs[i], showFloat)
  {
    EachSnoc(rs, i, r => Row(r, showFloat));
    ConcatSnoc(Rows(rs[..i], showFloat), Row(rs[i], showFloat));
  }

  /** `write_results`: the table file holds one row per result, in order. */
  method WriteResults(rs: seq<TestResult>, showFloat: real -> string) returns (table: string)
    ensures table == Concat(Rows(rs, showFloat))
  {
    table := [];
    for i := 0 to |rs|
      invariant table == Concat(Rows(rs[..i], showFloat))
    {
      RowsSnoc(rs, i, showFloat);
      table := table + Row(rs[i], showFloat);
    }
    assert rs[..|rs|] == rs;
  }

  /** What `read_results` raises on: a line that does not split into three
      fields, a length `int()` rejects, or a number `float()` rejects. */
  datatype ReadError = WrongFieldCount(line: string) | BadInt(field: string) | BadFloat(field: string)

  /** One line of the table read back: split on whitespace into exactly
      three fields, then converted left to right. */
  function ParseRow(line: string, parseFloat: string -> Option<real>): Result<TestResult, ReadError>
  {
    var fs := Fields(line);
    if |fs| != 3 then Failure(WrongFieldCount(line))
    else
      match ParseInt(fs[0])
      case None => Failure(BadInt(fs[0]))
      case Some(len) =>
        match parseFloat(fs[1])
        case None => Failure(BadFloat(fs[1]))
        case Some(time) =>
          match parseFloat(fs[2])
          case None => Failure(BadFloat(fs[2]))
          case Some(rat) => Success(TestResult(len, time, rat))
  }

  /** The lines in order, stopping at the first that raises. */
  function ParseRows(lines: seq<string>, parseFloat: string -> Option<real>): Result<seq<TestResult>, ReadError>
  {
    if lines == [] then Success([])
    else
      var before :- ParseRows(lines[..|lines| - 1], parseFloat);
      var row :- ParseRow(lines[|lines| - 1], parseFloat);
      Success(before + [row])
  }

  lemma {:induction false} ParseRowsPrefix(lines: seq<string>, n: nat, m: nat, parseFloat: string -> Option<real>)
    requires n <= m <= |lines| && ParseRows(lines[..n], parseFloat).Failure?
    ensures ParseRows(lines[..m], parseFloat) == ParseRows(lines[..n], parseFloat)
    decreases m
  {
    if m > n {
      ParseRowsPrefix(lines, n, m - 1, parseFloat);
      assert lines[..m][..m - 1] == lines[..m - 1];
    }
  }

  /** `read_results` over the text of the table file. */
  method ReadResults(table: string, parseFloat: string -> Option<real>) returns (r: Result<seq<TestResult>, ReadError>)
    ensures r == ParseRows(Lines(UniversalNewlines(table)), parseFloat)
  {
    r := ReadRows(Lines(UniversalNewlines(table)), parseFloat);
  }

  /** The loop of `read_results` over the lines of the table. */
  method ReadRows(lines: seq<string>, parseFloat: string -> Option<real>) returns (r: Result<seq<TestResult>, ReadError>)
    ensures r == ParseRows(lines, parseFloat)
  {
    var results := [];
    for i := 0 to |lines|
      invariant ParseRows(lines[..i], parseFloat) == Success(results)
    {
      assert lines[..i + 1][..i] == lines[..i];
      var row := ParseRow(lines[i], parseFloat);
      if row.Failure? {
        ParseRowsPrefix(lines, i + 1, |lines|, parseFloat);
        assert lines[..|lines|] == lines;
        return Failure(row.error);
      }
      results := results + [row.value];
    }
    assert lines[..|lines|] == lines;
    r := Success(results);
  }

  /** Python's float-to-text conversion prints a nonempty token without
      whitespace that `float()` reads back exactly. */
  ghost predicate FloatRoundTrip(showFloat: real -> string, parseFloat: string -> Option<real>)
  {
    forall x :: parseFloat(showFloat(x)) == Some(x) && showFloat(x) != [] && NoSpace(showFloat(x))
  }

  lemma ParseRowOfRow(r: TestResult, showFloat: real -> string, parseFloat: string -> Option<real>)
    requires FloatRoundTrip(showFloat, parseFloat)
    ensures ParseRow(Row(r, showFloat), parseFloat) == Success(r)
  {
    var a, b, c := ShowInt(r.len), showFloat(r.time), showFloat(r.rat);
    assert parseFloat(b) == Some(r.time) && b != [] && NoSpace(b);
    assert parseFloat(c) == Some(r.rat) && c != [] && NoSpace(c);
    FieldsOfThree(a, b, c);
    ParseShowInt(r.len);
  }

  lemma RowIsLine(r: TestResult, showFloat: real -> string, parseFloat: string -> Option<real>)
    requires FloatRoundTrip(showFloat, parseFloat)
    ensures IsLine(Row(r, showFloat)) && Lacks(Row(r, showFloat), '\r')
  {
    var a, b, c := ShowInt(r.len), showFloat(r.time), showFloat(r.rat);
    RowTextLacks(a, b, c, '\n');
    RowTextLacks(a, b, c, '\r');
    LineOf(a + " " + b + " " + c);
    assert Lacks("\n", '\r');
    LacksCat(a + " " + b + " " + c, "\n", '\r');
  }

  /** Three words joined by blanks hold no whitespace but the blanks. */
  lemma RowTextLacks(a: string, b: string, c: string, ch: char)
    requires NoSpace(a) && NoSpace(b) && NoSpace(c) && IsSpace(ch) && ch != ' '
    ensures Lacks(a + " " + b + " " + c, ch)
  {
    LacksOfNoSpace(a, ch);
    LacksOfNoSpace(b, ch);
    LacksOfNoSpace(c, ch);
    assert Lacks(" ", ch);
    LacksCat(a, " ", ch);
    LacksCat(a + " ", b, ch);
    LacksCat(a + " " + b, " ", ch);
    LacksCat(a + " " + b + " ", c, ch);
  }

  /** Lines that each read back as a result read back as those results. */
  lemma {:induction false} ParseRowsOf(lines: seq<string>, rs: seq<TestResult>, parseFloat: string -> Option<real>)
    requires |lines| == |rs| && forall k :: 0 <= k < |lines| ==> ParseRow(lines[k], parseFloat) == Success(rs[k])
    ensures ParseRows(lines, parseFloat) == Success(rs)
  {
    if lines != [] {
      var n := |lines|;
      ParseRowsOf(lines[..n - 1], rs[..n - 1], parseFloat);
      InitLast(rs);
    }
  }

  /** The table `write_results` writes is read back by `read_results` as
      the same results. */
  lemma ReadWriteRoundTrip(rs: seq<TestResult>, showFloat: real -> string, parseFloat: string -> Option<real>)
    requires FloatRoundTrip(showFloat, parseFloat)
    ensures ParseRows(Lines(UniversalNewlines(Concat(Rows(rs, showFloat)))), parseFloat) == Success(rs)
  {
    var ls := Rows(rs, showFloat);
    forall k | 0 <= k < |ls|
      ensures IsLine(ls[k]) && Lacks(ls[k], '\r') && ParseRow(ls[k], parseFloat) == Success(rs[k])
    {
      EachAt(rs, r => Row(r, showFloat), k);
      RowIsLine(rs[k], showFloat, parseFloat);
      ParseRowOfRow(rs[k], showFloat, parseFloat);
    }
    LacksConcat(ls, '\r');
    UniversalOfPlain(Concat(ls));
    LinesOfConcat(ls);
    ParseRowsOf(ls, rs, parseFloat);
  }

  // ---------------------------------------------------------------------
  // main

  /** `main` up to the plot: collect the results, write the table, read it
      back. */
  method AnalysisMain(runs: seq<seq<string>>, order: seq<nat>, showFloat: real -> string, parseFloat: string -> Option<real>)
    returns (table: string, readBack: Result<seq<TestResult>, ReadError>)
    requires Runs(Lengths(), runs) && IsOrder(order, |runs|)
    requires forall k :: 0 <= k < |runs| ==> |runs[k]| == Average
    ensures InRange(order, |runs|)
    ensures table == Concat(Rows(Kept(Outcomes(Lengths(), runs, parseFloat), order), showFloat))
    ensures readBack == ParseRows(Lines(UniversalNewlines(table)), parseFloat)
    ensures FloatRoundTrip(showFloat, parseFloat) ==> readBack == Success(Kept(Outcomes(Lengths(), runs, parseFloat), order))
  {
    var results, failed := GetResults(runs, order, parseFloat);
    table := WriteResults(results, showFloat);
    readBack := ReadResults(table, parseFloat);
    if FloatRoundTrip(showFloat, parseFloat) {
      ReadWriteRoundTrip(results, showFloat, parseFloat);
    }
  }
}
