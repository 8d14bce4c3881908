/** The run-time sweep (analysis/Runtime.py): every wire length from 1 to
    999, each averaged over five runs of the inserter on the document
    `prepare_data` writes, which is the one of analysis/Analysis.py.  The
    outputs of the runs and Python's float formatting and parsing are
    parameters. */
module Runtime {
  import opened Wrappers
  import opened Text
  import opened Analysis

  /** How many times the sweep runs the inserter on each length. */
  const Average: nat := 5

  /** The lengths the sweep visits: `range(1, max_len)`. */
  function Lengths(): (ls: seq<int>)
  {
    Range(1, MaxLen, 1)
  }

  lemma LengthsAre()
    ensures |Lengths()| == MaxLen - 1
    ensures forall k :: 0 <= k < |Lengths()| ==> Lengths()[k] == k + 1
  {
    var ls := Lengths();
    if |ls| > 0 {
      assert ls[|ls| - 1] + 1 >= MaxLen;
    }
  }

  /** The outcomes in order, stopping at the first that raises. */
  function Sequenced(os: seq<Outcome>): Result<seq<TestResult>, TrialError>
  {
    if os == [] then Success([])
    else
      var before :- Sequenced(os[..|os| - 1]);
      var r :- os[|os| - 1];
      Success(before + [r])
  }

  lemma {:induction false} SequencedPrefix(os: seq<Outcome>, n: nat, m: nat)
    requires n <= m <= |os| && Sequenced(os[..n]).Failure?
    ensures Sequenced(os[..m]) == Sequenced(os[..n])
    decreases m
  {
    if m > n {
      SequencedPrefix(os, n, m - 1);
      assert os[..m][..m - 1] == os[..m - 1];
    }
  }

  /** The outcomes succeed together exactly when each does, and then give
      their results in order; otherwise the error is that of the first
      outcome that fails. */
  lemma {:induction false} SequencedOutcomes(os: seq<Outcome>)
    ensures Sequenced(os).Success? <==> forall k :: 0 <= k < |os| ==> os[k].Success?
    ensures Sequenced(os).Success? ==>
      |Sequenced(os).value| == |os| && forall k :: 0 <= k < |os| ==> Success(Sequenced(os).value[k]) == os[k]
    ensures Sequenced(os).Failure? ==>
      exists k :: 0 <= k < |os| && os[k] == Failure(Sequenced(os).error) &&
        forall j :: 0 <= j < k ==> os[j].Success?
  {
    var n := |os|;
    if n > 0 {
      var init := os[..n - 1];
      SequencedOutcomes(init);
      assert forall k :: 0 <= k < n - 1 ==> init[k] == os[k];
      if Sequenced(init).Failure? {
        var k :| 0 <= k < n - 1 && init[k] == Failure(Sequenced(init).error) &&
          forall j :: 0 <= j < k ==> init[j].Success?;
        assert os[k] == Failure(Sequenced(os).error);
      } else if os[n - 1].Failure? {
        assert forall j :: 0 <= j < n - 1 ==> os[j].Success?;
      }
    }
  }

  /** The sweep: the result for length `k + 1` averages `runs[k]`, and the
      first length whose runs raise ends it. */
  function SweepOf(runs: seq<seq<string>>, parseFloat: string -> Option<real>): Result<seq<TestResult>, TrialError>
    requires Runs(Lengths(), runs)
  {
    Sequenced(Outcomes(Lengths(), runs, parseFloat))
  }

  /** `get_results`: the sweep over all lengths. */
  method Sweep(runs: seq<seq<string>>, parseFloat: string -> Option<real>) returns (r: Result<seq<TestResult>, TrialError>)
    requires |runs| == |Lengths()| && forall k :: 0 <= k < |runs| ==> |runs[k]| == Average
    ensures Runs(Lengths(), runs)
    ensures r == SweepOf(runs, parseFloat)
  {
    var lengths := Lengths();
    ghost var os := Outcomes(lengths, runs, parseFloat);
    var results := [];
    for i := 0 to |runs|
      invariant Sequenced(os[..i]) == Success(results)
    {
      assert os[..i + 1][..i] == os[..i];
      var res := GetResult(lengths[i], runs[i], parseFloat);
      assert res == os[i];
      if res.Failure? {
        SequencedPrefix(os, i + 1, |os|);
        assert os[..|os|] == os;
        return Failure(res.error);
      }
      results := results + [res.value];
    }
    assert os[..|os|] == os;
    r := Success(results);
  }

  // ---------------------------------------------------------------------
  // main

  /** The table file after `main`: left as it was, or truncated and
      written. */
  datatype TableFile = Untouched | Written(text: string)

  /** How `main` ends. */
  datatype MainExit = Returned | Raised(error: TrialError) | NoLenAttribute

  /** `main` as written: the comprehension calls `get_results` once per
      length, and each call runs the whole sweep, so `test_results` is a
      list of lists.  The first sweep that raises ends `main` before the
      table is opened; otherwise the table is truncated, and the first
      element, being a list, has no `len` attribute. */
  function MainAsWritten(sweeps: seq<Result<seq<TestResult>, TrialError>>): (TableFile, MainExit)
  {
    if sweeps == [] then (Written([]), Returned)
    else
      match sweeps[0]
      case Failure(e) => (Untouched, Raised(e))
      case Success(_) =>
        var rest := MainAsWritten(sweeps[1..]);
        if rest.1.Raised? then rest else (Written([]), NoLenAttribute)
  }

  /** As written, `main` never writes a row and never returns normally. */
  lemma {:induction false} MainAsWrittenWritesNothing(sweeps: seq<Result<seq<TestResult>, TrialError>>)
    requires |sweeps| > 0
    ensures MainAsWritten(sweeps).0 == Untouched || MainAsWritten(sweeps).0 == Written([])
    ensures MainAsWritten(sweeps).1 != Returned
  {
    if |sweeps| > 1 && sweeps[0].Success? {
      MainAsWrittenWritesNothing(sweeps[1..]);
    }
  }

  /** Even when every sweep succeeds the table ends up empty. */
  lemma MainAsWrittenLosesResults()
    ensures var sweeps := [Success([TestResult(1, 0.0, 199.0)])];
      MainAsWritten(sweeps) == (Written([]), NoLenAttribute)
  {
  }

  /** `main` as intended: one sweep, then one row per length. */
  method RuntimeMain(runs: seq<seq<string>>, showFloat: real -> string, parseFloat: string -> Option<real>)
    returns (table: TableFile, exit: MainExit)
    requires |runs| == |Lengths()| && forall k :: 0 <= k < |runs| ==> |runs[k]| == Average
    ensures SweepOf(runs, parseFloat).Failure? ==> table == Untouched && exit == Raised(SweepOf(runs, parseFloat).error)
    ensures SweepOf(runs, parseFloat).Success? ==>
      table == Written(Concat(Rows(SweepOf(runs, parseFloat).value, showFloat))) && exit == Returned
    ensures SweepOf(runs, parseFloat).Success? && FloatRoundTrip(showFloat, parseFloat) ==>
      ParseRows(Lines(UniversalNewlines(table.text)), parseFloat) == Success(SweepOf(runs, parseFloat).value)
  {
    var sweep := Sweep(runs, parseFloat);
    if sweep.Failure? {
      return Untouched, Raised(sweep.error);
    }
    var text := WriteResults(sweep.value, showFloat);
    if FloatRoundTrip(showFloat, parseFloat) {
      ReadWriteRoundTrip(sweep.value, showFloat, parseFloat);
    }
    return Written(text), Returned;
  }

  /** The intended table has a row for every length, in order, and reads
      back as the sweep. */
  lemma RuntimeMainRows(runs: seq<seq<string>>, showFloat: real -> string, parseFloat: string -> Option<real>)
    requires |runs| == |Lengths()| && forall k :: 0 <= k < |runs| ==> |runs[k]| == Average
    requires SweepOf(runs, parseFloat).Success? && FloatRoundTrip(showFloat, parseFloat)
    ensures var rs := SweepOf(runs, parseFloat).value;
      ParseRows(Lines(UniversalNewlines(Concat(Rows(rs, showFloat)))), parseFloat) == Success(rs) &&
      |rs| == MaxLen - 1 && forall k :: 0 <= k < |rs| ==> rs[k].len == k + 1
  {
    LengthsAre();
    var os := Outcomes(Lengths(), runs, parseFloat);
    var rs := SweepOf(runs, parseFloat).value;
    SequencedOutcomes(os);
    forall k | 0 <= k < |rs|
      ensures rs[k].len == k + 1
    {
      assert Success(rs[k]) == Averaged(Lengths()[k], runs[k], parseFloat);
    }
    ReadWriteRoundTrip(rs, showFloat, parseFloat);
  }
}
