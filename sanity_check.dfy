/** The per-row classification of sanity_check.py's `analyze_results_csv`:
    each row of a results file is "ok" (nothing printed), "error" or
    "investigate" (one line printed). Reading the file is not modelled;
    the rows are given as maps from column name to text. */
module SanityCheck {
  import opened Text
  import Wrappers
  import opened Summarizer

  /** `int(text)` on stripped text: an optional sign and ASCII digits;
      anything else raises ValueError, which the source turns into None. */
  function ParseInt(s: string): (r: Wrappers.Option<int>)
    ensures s == [] ==> r.None?
    ensures IsDigits(s) && s != [] ==> r == Wrappers.Some(DigitsValue(s) as int)
    ensures r.Some? ==> s != [] && (IsDigits(s) || ((s[0] == '-' || s[0] == '+') && IsDigits(s[1..])))
  {
    if s == [] then Wrappers.None
    else if (s[0] == '-' || s[0] == '+') && |s| > 1 && IsDigits(s[1..]) then
      var m := DigitsValue(s[1..]) as int;
      Wrappers.Some(if s[0] == '-' then -m else m)
    else if IsDigits(s) then Wrappers.Some(DigitsValue(s) as int)
    else Wrappers.None
  }

  /** Python's `str(n)` parses back to n. */
  lemma ParseIntToString(n: int)
    ensures ParseInt(IntToString(n)) == Wrappers.Some(n)
  {
    if n < 0 {
      var d := DecimalDigits(-n);
      assert ("-" + d)[1..] == d;
    } else if n == 0 {
      assert "0"[..0] == [];
    } else {
      var d := DecimalDigits(n);
      assert IsDigit(d[0]);
    }
  }

  datatype Verdict = Ok | Error | Investigate

  /** The three branches: exit code 0 with a result is fine; any other
      exit code, an unparsable one included, without a result is an
      error; everything else needs a look. */
  function Classify(exitCode: Wrappers.Option<int>, result: string): (v: Verdict)
    ensures v == Ok <==> exitCode == Wrappers.Some(0) && result != ""
    ensures v == Error <==> exitCode != Wrappers.Some(0) && result == ""
    ensures v == Investigate <==> (exitCode == Wrappers.Some(0)) == (result == "")
  {
    if exitCode == Wrappers.Some(0) && result != "" then Ok
    else if exitCode != Wrappers.Some(0) && result == "" then Error
    else Investigate
  }

  /** An exit code that is not a number and an empty result is an error;
      the exit code "0", possibly signed, with a result is fine. */
  lemma ClassifyExamples(result: string)
    requires result != ""
    ensures Classify(ParseInt("abc"), "") == Error
    ensures Classify(ParseInt("0"), result) == Ok
    ensures Classify(ParseInt("-0"), result) == Ok
    ensures Classify(ParseInt("1"), result) == Investigate
  {
    assert "abc"[0] == 'a' && !IsDigit('a');
    assert "-0"[1..] == "0";
  }

  /** The line a row prints, if any. */
  function RowReport(row: Row): Wrappers.Option<string> {
    VerdictLine(Classify(ParseInt(Cell(row, "exit_code")), Cell(row, "result")), Cell(row, "command"), Cell(row, "input"))
  }

  /** The line printed for a verdict on the given command and input. */
  function VerdictLine(v: Verdict, command: string, input: string): Wrappers.Option<string> {
    match v
    case Ok => Wrappers.None
    case Error => Wrappers.Some("error:     " + command + "  |  " + input)
    case Investigate => Wrappers.Some("investigate: " + command + "  |  " + input)
  }

  /** A row is silent exactly when it exited with 0 and has a result;
      otherwise its line ends with the command and the input. */
  lemma RowReportMeaning(row: Row)
    ensures RowReport(row).None? <==> ParseInt(Cell(row, "exit_code")) == Wrappers.Some(0) && Cell(row, "result") != ""
    ensures RowReport(row).Some? ==>
      var line, tail := RowReport(row).value, Cell(row, "command") + "  |  " + Cell(row, "input");
      |tail| <= |line| && line[|line| - |tail|..] == tail
  {
    var command, input := Cell(row, "command"), Cell(row, "input");
    var v := Classify(ParseInt(Cell(row, "exit_code")), Cell(row, "result"));
    VerdictLineEnds(v, command, input);
  }

  lemma VerdictLineEnds(v: Verdict, command: string, input: string)
    ensures VerdictLine(v, command, input).None? <==> v == Ok
    ensures VerdictLine(v, command, input).Some? ==>
      var line, tail := VerdictLine(v, command, input).value, command + "  |  " + input;
      |tail| <= |line| && line[|line| - |tail|..] == tail
  {
    var tail := command + "  |  " + input;
    match v
    case Ok =>
    case Error =>
      assert "error:     " + command + "  |  " + input == "error:     " + tail;
      SuffixOf("error:     ", tail);
    case Investigate =>
      assert "investigate: " + command + "  |  " + input == "investigate: " + tail;
      SuffixOf("investigate: ", tail);
  }

  lemma SuffixOf(head: string, tail: string)
    ensures (head + tail)[|head + tail| - |tail|..] == tail
  {
  }

  /** The lines printed for the rows, in row order. */
  function Reported(rows: seq<Row>): seq<string> {
    Present(rows, RowReport)
  }

  /** The values present among `f` of each element, in order. */
  function Present<X>(xs: seq<X>, f: X -> Wrappers.Option<string>): seq<string> {
    if xs == [] then []
    else
      Present(xs[..|xs| - 1], f) +
      match f(xs[|xs| - 1]) case None => [] case Some(line) => [line]
  }

  /** The loop over the rows, collecting what it prints. */
  method AnalyzeResults(rows: seq<Row>) returns (printed: seq<string>)
    ensures printed == Reported(rows)
  {
    printed := [];
    for k := 0 to |rows|
      invariant printed == Present(rows[..k], RowReport)
    {
      assert rows[..k + 1][..k] == rows[..k];
      var report := RowReport(rows[k]);
      if report.Some? {
        printed := printed + [report.value];
      }
    }
    assert rows[..|rows|] == rows;
  }

  /** Rows that are not fine, counted. */
  function Flagged(rows: seq<Row>): nat {
    Count(rows, RowReport)
  }

  /** The number of elements for which `f` gives a value. */
  function Count<X>(xs: seq<X>, f: X -> Wrappers.Option<string>): nat {
    if xs == [] then 0
    else Count(xs[..|xs| - 1], f) + (if f(xs[|xs| - 1]).Some? then 1 else 0)
  }

  /** One line per row that is not fine, so never more lines than rows,
      and nothing at all when every row is fine. */
  lemma ReportedCount(rows: seq<Row>)
    ensures |Reported(rows)| == Flagged(rows) <= |rows|
    ensures (forall k :: 0 <= k < |rows| ==> RowReport(rows[k]).None?) ==> Reported(rows) == []
  {
    PresentCount(rows, RowReport);
  }

  lemma {:induction false} PresentCount<X>(xs: seq<X>, f: X -> Wrappers.Option<string>)
    ensures |Present(xs, f)| == Count(xs, f) <= |xs|
    ensures (forall k :: 0 <= k < |xs| ==> f(xs[k]).None?) ==> Present(xs, f) == []
  {
    if xs != [] {
      var init := xs[..|xs| - 1];
      PresentCount(init, f);
      assert forall k :: 0 <= k < |init| ==> init[k] == xs[k];
    }
  }

  /** Reports of consecutive parts of a file are consecutive. */
  lemma ReportedAppend(a: seq<Row>, b: seq<Row>)
    ensures Reported(a + b) == Reported(a) + Reported(b)
  {
    PresentAppend(a, b, RowReport);
  }

  lemma {:induction false} PresentAppend<X>(a: seq<X>, b: seq<X>, f: X -> Wrappers.Option<string>)
    ensures Present(a + b, f) == Present(a, f) + Present(b, f)
  {
    if b == [] {
      assert a + b == a;
    } else {
      var init := b[..|b| - 1];
      assert (a + b)[..|a + b| - 1] == a + init;
      assert (a + b)[|a + b| - 1] == b[|b| - 1];
      PresentAppend(a, init, f);
    }
  }
}
