/** The pivot of summarizer.py's `summarize_results`: the rows of a results
    file (each a map from column name to text, as `csv.DictReader` gives
    them) are filtered by command substrings and pivoted into a table with
    one row per input and one column per command. Reading the file,
    `tabulate`'s rendering and the output file are not modelled; the
    header and the table rows are returned. */
module Summarizer {
  import opened Text

  type Row = map<string, string>

  /** `row.get(key, "").strip()`. */
  function Cell(row: Row, key: string): string {
    PyStrip(if key in row then row[key] else "")
  }

  /** The three cells the loop reads from a row. */
  datatype Record = Record(command: string, input: string, result: string)

  function RecordOf(row: Row): Record {
    Record(Cell(row, "command"), Cell(row, "input"), Cell(row, "result"))
  }

  function Records(rows: seq<Row>): (r: seq<Record>)
    ensures |r| == |rows| && forall k :: 0 <= k < |rows| ==> r[k] == RecordOf(rows[k])
  {
    seq(|rows|, (k: int) requires 0 <= k < |rows| => RecordOf(rows[k]))
  }

  /** Python's `sub in s` on strings. */
  predicate Contains(s: string, sub: string) {
    exists i :: 0 <= i <= |s| && sub <= s[i..]
  }

  /** `any(short_cmd in full_command for short_cmd in commands)`. */
  predicate Kept(r: Record, commands: seq<string>) {
    exists k :: 0 <= k < |commands| && Contains(r.command, commands[k])
  }

  /** `summary` after the records: `summary[input][command] = result` for
      every kept record, in order, so a later one overwrites an earlier
      one. */
  function Summary(records: seq<Record>, commands: seq<string>): (m: map<string, map<string, string>>)
    ensures forall input :: input in m ==> exists k :: 0 <= k < |records| && Kept(records[k], commands) && records[k].input == input
  {
    if records == [] then map[]
    else
      var init := records[..|records| - 1];
      var s := Summary(init, commands);
      var r := records[|records| - 1];
      assert forall k :: 0 <= k < |init| ==> init[k] == records[k];
      if !Kept(r, commands) then s
      else s[r.input := (if r.input in s then s[r.input] else map[])[r.command := r.result]]
  }

  /** The full commands that occur under some input. */
  function CommandsOf(summary: map<string, map<string, string>>): set<string> {
    set input, command | input in summary && command in summary[input] :: command
  }

  /** Some kept record names the input (and, given, the command). */
  predicate Names(records: seq<Record>, commands: seq<string>, input: string) {
    exists k :: 0 <= k < |records| && Kept(records[k], commands) && records[k].input == input
  }

  predicate NamesPair(records: seq<Record>, commands: seq<string>, input: string, command: string) {
    exists k :: 0 <= k < |records| && Kept(records[k], commands) && records[k].input == input && records[k].command == command
  }

  /** An input is in the summary exactly when a kept record names it, and a
      command is under it exactly when a kept record names both. */
  lemma {:induction false} SummaryKeys(records: seq<Record>, commands: seq<string>, input: string, command: string)
    ensures input in Summary(records, commands) <==> Names(records, commands, input)
    ensures input in Summary(records, commands) ==>
      (command in Summary(records, commands)[input] <==> NamesPair(records, commands, input, command))
  {
    if records != [] {
      var init := records[..|records| - 1];
      var last := records[|records| - 1];
      SummaryKeys(init, commands, input, command);
      assert forall k :: 0 <= k < |init| ==> init[k] == records[k];
      if Names(records, commands, input) && !Names(init, commands, input) {
        assert last.input == input && Kept(last, commands);
      }
      if NamesPair(records, commands, input, command) && !NamesPair(init, commands, input, command) {
        assert last.input == input && last.command == command && Kept(last, commands);
      }
    }
  }

  /** The result under (input, command) is that of the last kept record
      with that input and command. */
  lemma {:induction false} SummaryLastWrite(records: seq<Record>, commands: seq<string>, k: nat)
    requires k < |records| && Kept(records[k], commands)
    requires forall j :: k < j < |records| && Kept(records[j], commands) ==>
      !(records[j].input == records[k].input && records[j].command == records[k].command)
    ensures var s := Summary(records, commands);
      records[k].input in s && records[k].command in s[records[k].input] &&
      s[records[k].input][records[k].command] == records[k].result
  {
    var init := records[..|records| - 1];
    if k < |records| - 1 {
      assert forall j :: 0 <= j < |init| ==> init[j] == records[j];
      SummaryLastWrite(init, commands, k);
    }
  }

  // ---------------------------------------------------------------------
  // Python's string order

  /** `a < b` on `str`: code points compared left to right, a proper
      prefix first. */
  predicate StrLt(a: string, b: string) {
    if a == [] then b != []
    else b != [] && (a[0] < b[0] || (a[0] == b[0] && StrLt(a[1..], b[1..])))
  }

  lemma {:induction false} StrLtIrreflexive(a: string)
    ensures !StrLt(a, a)
  {
    if a != [] {
      StrLtIrreflexive(a[1..]);
    }
  }

  lemma {:induction false} StrLtTransitive(a: string, b: string, c: string)
    requires StrLt(a, b) && StrLt(b, c)
    ensures StrLt(a, c)
  {
    if a != [] && a[0] == b[0] && b[0] == c[0] {
      StrLtTransitive(a[1..], b[1..], c[1..]);
    }
  }

  lemma {:induction false} StrLtTotal(a: string, b: string)
    ensures a == b || StrLt(a, b) || StrLt(b, a)
  {
    if a != [] && b != [] && a[0] == b[0] {
      StrLtTotal(a[1..], b[1..]);
      assert a == [a[0]] + a[1..] && b == [b[0]] + b[1..];
    }
  }

  predicate StrSorted(r: seq<string>) {
    forall i, j :: 0 <= i < j < |r| ==> StrLt(r[i], r[j])
  }

  /** Insert `p` into a strictly sorted sequence of strings. */
  function InsertStr(r: seq<string>, p: string): (q: seq<string>)
    requires StrSorted(r)
    ensures StrSorted(q)
    ensures forall a :: a in q <==> a in r || a == p
    ensures |q| == if p in r then |r| else |r| + 1
  {
    if r == [] then [p]
    else if StrLt(p, r[0]) then
      forall j | 0 <= j < |r| ensures StrLt(p, r[j]) && p != r[j] {
        if j > 0 { StrLtTransitive(p, r[0], r[j]); }
        StrLtIrreflexive(p);
      }
      [p] + r
    else if p == r[0] then r
    else
      StrLtTotal(p, r[0]);
      var rest := InsertStr(r[1..], p);
      assert forall a :: a in r[1..] ==> StrLt(r[0], a);
      [r[0]] + rest
  }

  /** `sorted(s)` for a set of strings. */
  method SortedStrings(s: set<string>) returns (r: seq<string>)
    ensures StrSorted(r)
    ensures forall a :: a in r <==> a in s
  {
    var rest := s;
    r := [];
    while rest != {}
      invariant rest <= s
      invariant StrSorted(r)
      invariant forall a :: a in r <==> a in s && a !in rest
      decreases |rest|
    {
      var p :| p in rest;
      r := InsertStr(r, p);
      rest := rest - {p};
    }
  }

  // ---------------------------------------------------------------------
  // The pivot

  /** The reading loop: `summary` and `inputs_set` after every row, given
      the cells read from each row. */
  method Collect(records: seq<Record>, commands: seq<string>) returns (summary: map<string, map<string, string>>, inputs: set<string>)
    ensures summary == Summary(records, commands)
    ensures inputs == summary.Keys
  {
    summary, inputs := map[], {};
    for k := 0 to |records|
      invariant summary == Summary(records[..k], commands)
      invariant inputs == summary.Keys
    {
      SummaryStep(records, commands, k);
      var record := records[k];
      if Kept(record, commands) {
        var inner := if record.input in summary then summary[record.input] else map[];
        summary := summary[record.input := inner[record.command := record.result]];
        inputs := inputs + {record.input};
      }
    }
    assert records[..|records|] == records;
  }

  /** One more record in the fold. */
  lemma SummaryStep(records: seq<Record>, commands: seq<string>, k: nat)
    requires k < |records|
    ensures var s := Summary(records[..k], commands);
      var r := records[k];
      Summary(records[..k + 1], commands) ==
        if !Kept(r, commands) then s
        else s[r.input := (if r.input in s then s[r.input] else map[])[r.command := r.result]]
  {
    assert records[..k + 1][..k] == records[..k];
  }

  /** `full_commands.update(v.keys())` over the summary's values. */
  method FullCommands(summary: map<string, map<string, string>>) returns (full: set<string>)
    ensures full == CommandsOf(summary)
  {
    full := {};
    var rest := summary.Keys;
    while rest != {}
      invariant rest <= summary.Keys
      invariant full == set input, command | input in summary && input !in rest && command in summary[input] :: command
      decreases |rest|
    {
      var input :| input in rest;
      full := full + summary[input].Keys;
      rest := rest - {input};
    }
  }

  /** The cell for an input and a full command: `summary[inp].get(cmd, "")`. */
  function PivotCell(summary: map<string, map<string, string>>, input: string, command: string): string
    requires input in summary
  {
    if command in summary[input] then summary[input][command] else ""
  }

  /** The nested loops building `table`. */
  method BuildTable(summary: map<string, map<string, string>>, inputs: seq<string>, commands: seq<string>)
    returns (table: seq<seq<string>>)
    requires forall i :: 0 <= i < |inputs| ==> inputs[i] in summary
    ensures |table| == |inputs|
    ensures forall i :: 0 <= i < |inputs| ==> |table[i]| == 1 + |commands| && table[i][0] == inputs[i]
    ensures forall i, j :: 0 <= i < |inputs| && 0 <= j < |commands| ==>
      table[i][j + 1] == PivotCell(summary, inputs[i], commands[j])
  {
    table := [];
    for i := 0 to |inputs|
      invariant |table| == i
      invariant forall m :: 0 <= m < i ==> |table[m]| == 1 + |commands| && table[m][0] == inputs[m]
      invariant forall m, j :: 0 <= m < i && 0 <= j < |commands| ==>
        table[m][j + 1] == PivotCell(summary, inputs[m], commands[j])
    {
      var row := [inputs[i]];
      for j := 0 to |commands|
        invariant |row| == 1 + j && row[0] == inputs[i]
        invariant forall n :: 0 <= n < j ==> row[n + 1] == PivotCell(summary, inputs[i], commands[n])
      {
        var cell := if commands[j] in summary[inputs[i]] then summary[inputs[i]][commands[j]] else "";
        row := row + [cell];
      }
      table := table + [row];
    }
  }

  /** `summarize_results(csv_path, commands, output_md)` up to the
      rendering: the headers are "Input" and the full commands under any
      input in sorted order; the table has one row per input in sorted
      order, each holding the input and then, per full command, the last
      result recorded for the pair or "" when there is none. */
  method SummarizeResults(rows: seq<Row>, commands: seq<string>) returns (headers: seq<string>, table: seq<seq<string>>)
    ensures |headers| >= 1 && headers[0] == "Input"
    ensures StrSorted(headers[1..])
    ensures forall c :: c in headers[1..] <==> c in CommandsOf(Summary(Records(rows), commands))
    ensures forall i :: 0 <= i < |table| ==> |table[i]| == |headers| && table[i][0] in Summary(Records(rows), commands)
    ensures forall i, j :: 0 <= i < j < |table| ==> StrLt(table[i][0], table[j][0])
    ensures forall input :: input in Summary(Records(rows), commands) ==> exists i :: 0 <= i < |table| && table[i][0] == input
    ensures forall i, j :: 0 <= i < |table| && 1 <= j < |headers| ==>
      table[i][j] == PivotCell(Summary(Records(rows), commands), table[i][0], headers[j])
  {
    var summary, inputsSet := Collect(Records(rows), commands);
    var sortedInputs := SortedStrings(inputsSet);
    var full := FullCommands(summary);
    var sortedCommands := SortedStrings(full);
    table := BuildTable(summary, sortedInputs, sortedCommands);
    headers := ["Input"] + sortedCommands;
    PivotTable(summary, sortedInputs, sortedCommands, headers, table);
  }

  /** The table built from the sorted inputs and sorted full commands has
      the shape `summarize_results` promises. */
  lemma PivotTable(summary: map<string, map<string, string>>, inputs: seq<string>, commands: seq<string>,
                   headers: seq<string>, table: seq<seq<string>>)
    requires StrSorted(inputs) && forall a :: a in inputs <==> a in summary.Keys
    requires StrSorted(commands) && forall a :: a in commands <==> a in CommandsOf(summary)
    requires |table| == |inputs|
    requires forall i :: 0 <= i < |inputs| ==> |table[i]| == 1 + |commands| && table[i][0] == inputs[i]
    requires forall i, j :: 0 <= i < |inputs| && 0 <= j < |commands| ==>
      inputs[i] in summary && table[i][j + 1] == PivotCell(summary, inputs[i], commands[j])
    requires headers == ["Input"] + commands
    ensures |headers| >= 1 && headers[0] == "Input"
    ensures StrSorted(headers[1..])
    ensures forall c :: c in headers[1..] <==> c in CommandsOf(summary)
    ensures forall i :: 0 <= i < |table| ==> |table[i]| == |headers| && table[i][0] in summary
    ensures forall i, j :: 0 <= i < j < |table| ==> StrLt(table[i][0], table[j][0])
    ensures forall input :: input in summary ==> exists i :: 0 <= i < |table| && table[i][0] == input
    ensures forall i, j :: 0 <= i < |table| && 1 <= j < |headers| ==>
      table[i][j] == PivotCell(summary, table[i][0], headers[j])
  {
    assert headers[1..] == commands;
    forall input | input in summary
      ensures exists i :: 0 <= i < |table| && table[i][0] == input
    {
      var i :| 0 <= i < |inputs| && inputs[i] == input;
      assert table[i][0] == input;
    }
    forall i, j | 0 <= i < |table| && 1 <= j < |headers|
      ensures table[i][j] == PivotCell(summary, table[i][0], headers[j])
    {
      assert table[i][(j - 1) + 1] == PivotCell(summary, inputs[i], commands[j - 1]);
    }
  }

  /** A row with no requested substring in its command leaves the summary
      as it was. */
  lemma DroppedRow(rows: seq<Record>, row: Record, commands: seq<string>)
    requires !Kept(row, commands)
    ensures Summary(rows + [row], commands) == Summary(rows, commands)
  {
    assert (rows + [row])[..|rows|] == rows;
  }

  /** With no substrings requested, no row is kept and the table is empty. */
  lemma NoCommands(rows: seq<Record>)
    ensures Summary(rows, []) == map[]
  {
    if rows != [] {
      NoCommands(rows[..|rows| - 1]);
    }
  }
}
