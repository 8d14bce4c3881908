/** The command-line driver (Algo.cpp): the argument check, the buffers
    kept from the best solution, the report printed on standard output and
    the path of the output document. */
module Driver {
  import opened Wrappers
  import opened Geometry
  import opened Candidates
  import opened Text
  import Insertion
  import Pruning

  // ---------------------------------------------------------------------
  // extractSolution, resultingRAT

  /** `extractSolution`: `copy_if` of the candidates that place a buffer. */
  function ExtractSolution(candidates: Solution): (r: Solution)
    ensures |r| <= |candidates|
    ensures forall c :: c in r ==> c.hasBuffer && c in candidates
    ensures forall c :: c in candidates && c.hasBuffer ==> c in r
  {
    if candidates == [] then []
    else if candidates[0].hasBuffer then [candidates[0]] + ExtractSolution(candidates[1..])
    else ExtractSolution(candidates[1..])
  }

  /** The filter keeps relative order: extracting from two parts one after
      the other is extracting from the whole. */
  lemma {:induction false} ExtractSolutionConcat(a: Solution, b: Solution)
    ensures ExtractSolution(a + b) == ExtractSolution(a) + ExtractSolution(b)
  {
    if a != [] {
      assert (a + b)[0] == a[0];
      assert (a + b)[1..] == a[1..] + b;
      ExtractSolutionConcat(a[1..], b);
      if a[0].hasBuffer {
        assert ExtractSolution(a + b) == [a[0]] + ExtractSolution(a[1..] + b);
        assert ExtractSolution(a) == [a[0]] + ExtractSolution(a[1..]);
      } else {
        assert ExtractSolution(a + b) == ExtractSolution(a[1..] + b);
      }
    } else {
      assert a + b == b;
    }
  }

  /** Each candidate is kept exactly when it places a buffer. */
  lemma ExtractSolutionOne(c: Candidate)
    ensures ExtractSolution([c]) == if c.hasBuffer then [c] else []
  {
    assert [c][1..] == [];
  }

  lemma {:induction false} ExtractSolutionIdempotent(candidates: Solution)
    ensures ExtractSolution(ExtractSolution(candidates)) == ExtractSolution(candidates)
  {
    if candidates != [] {
      ExtractSolutionIdempotent(candidates[1..]);
      if candidates[0].hasBuffer {
        var rest := ExtractSolution(candidates[1..]);
        assert ([candidates[0]] + rest)[0] == candidates[0];
        assert ([candidates[0]] + rest)[1..] == rest;
      }
    }
  }

  /** `resultingRAT`: the RAT of the last candidate, the one at the root.
      The source reads `back()` unchecked, so the solution must not be
      empty. */
  function ResultingRAT(solution: Solution): (rat: real)
    requires |solution| > 0
  {
    Last(solution).rat
  }

  /** The RAT reported for the solution `bufferInsertion` picks is the
      largest over all root solutions. */
  lemma ResultingRATIsBest(all: seq<Solution>)
    requires Pruning.AllNonEmpty(all) && |all| > 0
    ensures forall x :: x in all ==> |x| > 0 && ResultingRAT(x) <= ResultingRAT(all[Insertion.MaxRat(all, |all|)])
  {
    forall x | x in all
      ensures |x| > 0 && ResultingRAT(x) <= ResultingRAT(all[Insertion.MaxRat(all, |all|)])
    {
      var j :| 0 <= j < |all| && all[j] == x;
    }
  }

  // ---------------------------------------------------------------------
  // the argument check and the exit status

  const UsageTail: string := " <technology_file_name>.json <test_name>.json"

  /** The argument check of `main`: exactly a technology file and a test
      file after the program name, else the usage message is thrown. */
  function Arguments(args: seq<string>): (r: Result<(string, string), string>)
    requires |args| >= 1
    ensures r.Success? <==> |args| == 3
    ensures r.Success? ==> r.value.0 == args[1] && r.value.1 == args[2]
    ensures r.Failure? ==> r.error == "Usage: " + args[0] + UsageTail
  {
    if |args| != 3 then Failure("Usage: " + args[0] + UsageTail) else Success((args[1], args[2]))
  }

  /** The exit status and standard error of `main` for the outcome of its
      body: any exception is reported on one line and gives status 1. */
  function Exit<T>(outcome: Result<T, string>): (r: (int, string))
    ensures outcome.Success? ==> r == (0, "")
    ensures outcome.Failure? ==> r == (1, outcome.error + "\n")
  {
    match outcome
    case Success(_) => (0, "")
    case Failure(e) => (1, e + "\n")
  }

  /** With any argument count but two, `main` prints the usage message and
      returns 1. */
  lemma UsageFails(args: seq<string>)
    requires |args| >= 1 && |args| != 3
    ensures Exit(Arguments(args)) == (1, "Usage: " + args[0] + UsageTail + "\n")
  {
  }

  // ---------------------------------------------------------------------
  // the report on standard output

  /** `operator<<` on a candidate, over the number formatting `show` of
      the output stream; `bool` prints as 1 or 0. */
  function CandidateText(c: Candidate, show: real -> string): string
  {
    "Buffer (" + ShowInt(c.p.x) + " ," + ShowInt(c.p.y) + ")\n" +
    "\t RAT == " + show(c.rat) + "\n" +
    "\t Capacity == " + show(c.capacity) + "\n" +
    "\t EdgeId == " + ShowInt(c.eid) + "\n" +
    "\t INSERT == " + (if c.hasBuffer then "1" else "0")
  }

  /** The candidates of `solution`, each followed by a newline. */
  function Listing(solution: Solution, show: real -> string): string
  {
    if solution == [] then [] else Listing(solution[..|solution| - 1], show) + CandidateText(solution[|solution| - 1], show) + "\n"
  }

  const Header: string := "Buffers to insert START\n"
  const Footer: string := "Buffers to insert END\n\n"
  const RatLabel: string := "Resulting RAT = "
  const TimeLabel: string := "Resulting AlgoTime = "

  function RatLine(ratText: string): string
  {
    RatLabel + ratText + "\n"
  }

  function TimeLine(msText: string): string
  {
    TimeLabel + msText + "\n"
  }

  /** The two lines the benchmark scripts look for. */
  function Tail(ratText: string, msText: string): string
  {
    RatLine(ratText) + TimeLine(msText)
  }

  /** Everything `main` prints on standard output. */
  function Stdout(solution: Solution, ratText: string, msText: string, show: real -> string): string
  {
    Header + Listing(solution, show) + Footer + Tail(ratText, msText)
  }

  /** The printing part of `main`: the extracted solution between the
      START and END lines, then the RAT of the whole candidate list
      (not of the extracted one) and the elapsed milliseconds. */
  method Report(candidates: Solution, elapsedMs: int, show: real -> string) returns (out: string)
    requires |candidates| > 0
    ensures out == Stdout(ExtractSolution(candidates), show(ResultingRAT(candidates)), ShowInt(elapsedMs), show)
  {
    var solution := ExtractSolution(candidates);
    var listing := [];
    for i := 0 to |solution|
      invariant listing == Listing(solution[..i], show)
    {
      ListingStep(solution, i, show);
      listing := listing + (CandidateText(solution[i], show) + "\n");
    }
    assert solution[..|solution|] == solution;
    var rat := ResultingRAT(candidates);
    out := Header + listing + Footer + Tail(show(rat), ShowInt(elapsedMs));
  }

  lemma ListingStep(solution: Solution, i: nat, show: real -> string)
    requires i < |solution|
    ensures Listing(solution[..i + 1], show) == Listing(solution[..i], show) + (CandidateText(solution[i], show) + "\n")
  {
    assert solution[..i + 1][..i] == solution[..i];
  }

  /** The report ends with the RAT line followed at once by the time line. */
  lemma StdoutEndsWithTail(solution: Solution, ratText: string, msText: string, show: real -> string)
    ensures var s := Stdout(solution, ratText, msText, show);
      |s| >= |Tail(ratText, msText)| && s[|s| - |Tail(ratText, msText)|..] == Tail(ratText, msText)
  {
  }

  // ---------------------------------------------------------------------
  // getOutputFilePath

  /** The position of the last `c` in `s`, or none. */
  function LastIndexOf(s: string, c: char): (r: Option<nat>)
    ensures r.Some? ==> r.value < |s| && s[r.value] == c && forall i :: r.value < i < |s| ==> s[i] != c
    ensures r.None? ==> forall i :: 0 <= i < |s| ==> s[i] != c
  {
    if s == [] then None
    else if s[|s| - 1] == c then Some(|s| - 1)
    else LastIndexOf(s[..|s| - 1], c)
  }

  /** `path::filename`: what follows the last separator. */
  function FileName(path: string): (name: string)
    ensures forall i :: 0 <= i < |name| ==> name[i] != '/'
    ensures |name| <= |path| && path[|path| - |name|..] == name
    ensures |name| < |path| ==> path[|path| - |name| - 1] == '/'
  {
    match LastIndexOf(path, '/')
    case None => path
    case Some(i) => path[i + 1..]
  }

  /** `path::stem`: the file name without its last extension; "." and "..",
      a name without a dot and a name whose only dot comes first are their
      own stem. */
  function Stem(name: string): (stem: string)
    ensures |stem| <= |name| && stem == name[..|stem|]
    ensures stem == name || (0 < |stem| && name[|stem|] == '.' && forall i :: |stem| < i < |name| ==> name[i] != '.')
  {
    if name == "." || name == ".." then name
    else
      match LastIndexOf(name, '.')
      case None => name
      case Some(i) => if i == 0 then name else name[..i]
  }

  /** What `getOutputFilePath` appends to the stem. */
  const OutSuffix: string := "_out.json"

  predicate NoSlash(s: string)
  {
    forall i :: 0 <= i < |s| ==> s[i] != '/'
  }

  lemma NoSlashCat(a: string, b: string)
    requires NoSlash(a) && NoSlash(b)
    ensures NoSlash(a + b)
  {
    forall i | 0 <= i < |a + b|
      ensures (a + b)[i] != '/'
    {
      if i >= |a| {
        assert (a + b)[i] == b[i - |a|];
      }
    }
  }

  /** `path::operator/` with a relative right operand: a separator is
      added unless the left one is empty or already ends in one. */
  function JoinPath(dir: string, rel: string): (p: string)
    ensures p == dir + rel || p == dir + "/" + rel
    ensures |p| >= |dir| + |rel| && p[..|dir|] == dir && p[|p| - |rel|..] == rel
  {
    if dir != [] && dir[|dir| - 1] != '/' then dir + "/" + rel else dir + rel
  }

  /** `name` with `suffix` appended, placed in `dir`. */
  function PlacedIn(dir: string, name: string, suffix: string): (p: string)
    ensures |p| >= |dir| + |suffix| && p[..|dir|] == dir
    ensures p[|p| - |suffix|..] == suffix
    ensures p == JoinPath(dir, name + suffix)
  {
    var pre := if dir != [] && dir[|dir| - 1] != '/' then dir + "/" else dir;
    var p := (pre + name) + suffix;
    assert p == JoinPath(dir, name + suffix);
    assert p[..|dir|] == pre[..|dir|];
    assert p[|pre + name|..] == suffix;
    p
  }

  /** `getOutputFilePath`: the input's stem with "_out.json" appended, in the
      current directory. */
  function OutputFilePath(cwd: string, input: string): (p: string)
    ensures |p| >= |cwd| + |OutSuffix| && p[..|cwd|] == cwd
    ensures p[|p| - |OutSuffix|..] == OutSuffix
  {
    PlacedIn(cwd, Stem(FileName(input)), OutSuffix)
  }

  /** Whatever directory the input is in, the output file lands directly
      in the current directory. */
  lemma OutputInCurrentDirectory(cwd: string, input: string)
    ensures var p := OutputFilePath(cwd, input);
      var rest := p[|cwd|..];
      (rest == [] || rest[0] == '/' || cwd == [] || cwd[|cwd| - 1] == '/') &&
      forall i :: 0 < i < |rest| ==> rest[i] != '/'
  {
    var f := FileName(input);
    var name := Stem(f);
    assert NoSlash(name) by {
      forall i | 0 <= i < |name|
        ensures name[i] != '/'
      {
        assert name[i] == f[i];
      }
    }
    assert NoSlash(OutSuffix);
    NoSlashCat(name, OutSuffix);
    PlacedDirectlyIn(cwd, name + OutSuffix);
  }

  lemma PlacedDirectlyIn(dir: string, rel: string)
    requires NoSlash(rel)
    ensures var rest := JoinPath(dir, rel)[|dir|..];
      (rest == [] || rest[0] == '/' || dir == [] || dir[|dir| - 1] == '/') &&
      forall i :: 0 < i < |rest| ==> rest[i] != '/'
  {
    var p := JoinPath(dir, rel);
    if dir != [] && dir[|dir| - 1] != '/' {
      var sep := "/" + rel;
      assert p == dir + sep;
      assert p[|dir|..] == sep;
      forall i | 0 < i < |sep|
        ensures sep[i] != '/'
      {
        assert sep[i] == rel[i - 1];
      }
    } else {
      assert p == dir + rel;
      assert p[|dir|..] == rel;
    }
  }

  /** For `dir/name.json` with a plain name the output is
      `name_out.json` in the current directory. */
  lemma OutputOfJsonFile(cwd: string, dir: string, name: string)
    requires name != [] && forall i :: 0 <= i < |name| ==> name[i] != '/' && name[i] != '.'
    ensures OutputFilePath(cwd, dir + "/" + name + ".json") == JoinPath(cwd, name + OutSuffix)
  {
    var ext := ".json";
    assert ext[0] == '.' && forall i :: 0 < i < |ext| ==> ext[i] != '/' && ext[i] != '.';
    StemOfExtension(dir, name, ext);
    var input := dir + "/" + name + ext;
    assert OutputFilePath(cwd, input) == PlacedIn(cwd, name, OutSuffix);
  }

  /** The stem of `dir/name.ext` is `name` for a plain name and an
      extension with one leading dot. */
  lemma StemOfExtension(dir: string, name: string, ext: string)
    requires name != [] && forall i :: 0 <= i < |name| ==> name[i] != '/' && name[i] != '.'
    requires |ext| > 0 && ext[0] == '.' && forall i :: 0 < i < |ext| ==> ext[i] != '/' && ext[i] != '.'
    ensures Stem(FileName(dir + "/" + name + ext)) == name
  {
    var f := name + ext;
    assert forall i :: 0 <= i < |f| ==> f[i] != '/' by {
      forall i | 0 <= i < |f|
        ensures f[i] != '/'
      {
        if i >= |name| {
          assert f[i] == ext[i - |name|];
        }
      }
    }
    var input := dir + "/" + name + ext;
    assert input == (dir + "/") + f;
    FileNameAfter(dir + "/", f);
    StemBeforeDot(name, ext);
  }

  /** What follows a path's last separator is its file name. */
  lemma FileNameAfter(a: string, f: string)
    requires a != [] && a[|a| - 1] == '/' && NoSlash(f)
    ensures FileName(a + f) == f
  {
    LastIndexAfter(a, f, '/');
  }

  /** A plain name followed by an extension with one leading dot has that
      name as its stem. */
  lemma StemBeforeDot(name: string, ext: string)
    requires name != [] && forall i :: 0 <= i < |name| ==> name[i] != '.'
    requires |ext| > 0 && ext[0] == '.' && forall i :: 0 < i < |ext| ==> ext[i] != '.'
    ensures Stem(name + ext) == name
  {
    var f := name + ext;
    assert f == (name + [ext[0]]) + ext[1..];
    LastIndexAfter(name + [ext[0]], ext[1..], '.');
    assert f[0] == name[0] && f[0] != '.';
    assert f != "." && f != "..";
    assert f[..|name|] == name;
  }

  /** After its last `c`, a string's last `c` is that one. */
  lemma LastIndexAfter(a: string, b: string, c: char)
    requires a != [] && a[|a| - 1] == c && forall i :: 0 <= i < |b| ==> b[i] != c
    ensures LastIndexOf(a + b, c) == Some(|a| - 1)
  {
    if b != [] {
      assert (a + b)[..|a + b| - 1] == a + b[..|b| - 1];
      LastIndexAfter(a, b[..|b| - 1], c);
    } else {
      assert a + b == a;
    }
  }
}
