/** The `main` shared by the C++ adapters (adapters/cpp/main.hpp): the
    file-name check, the header check, the line dispatch and the output
    that follows. The file is given as its lines (None when it cannot be
    opened); the adapter-specific `process_line` and `compute_crossings`
    are not part of this model: the lines handed to `process_line` are
    returned, and the crossing count, the elapsed milliseconds and the two
    memory readings are parameters. */
module AdapterMain {
  import opened Wrappers
  import opened Text

  /** `file_path.substr(file_path.find_last_of(".") + 1) != "csv"`: with
      `std::string::npos + 1` wrapping to 0, a path without a dot is
      compared whole. */
  predicate HasCsvExtension(path: string) {
    path[AfterLast(path, '.')..] == "csv"
  }

  /** A path passes the extension test exactly when it is "csv" itself
      (no '.') or ends in ".csv". */
  lemma CsvExtensionMeaning(path: string)
    ensures HasCsvExtension(path) <==>
      path == "csv" || (|path| >= 4 && path[|path| - 4..] == ".csv")
  {
    var i := AfterLast(path, '.');
    assert path[0..] == path;
    if |path| >= 4 && path[|path| - 4..] == ".csv" {
      var j := |path| - 3;
      NotAfterLast(path, '.', j - 1);
      assert path[j..] == "csv";
      assert forall k :: j <= k < |path| ==> path[k] == path[j..][k - j] != '.';
      assert i == j;
    }
    if HasCsvExtension(path) && i > 0 {
      assert path[|path| - 4..] == [path[i - 1]] + path[i..];
    }
  }

  /** The last `c` is at or after any `c`. */
  lemma NotAfterLast(s: string, c: char, k: nat)
    requires k < |s| && s[k] == c
    ensures k < AfterLast(s, c)
  {
  }

  /** A path without a dot passes only when it is "csv" itself. */
  lemma NoDotIsWholePath(path: string)
    requires '.' !in path
    ensures HasCsvExtension(path) <==> path == "csv"
  {
    assert path[0..] == path;
  }

  lemma CsvExtension()
    ensures HasCsvExtension("data.csv") && HasCsvExtension("csv") && !HasCsvExtension("data.txt")
  {
    assert AfterLast("data.csv", '.') == 5 by {
      assert AfterLast("data.csv"[..7], '.') == 5 by {
        assert "data.csv"[..7][..6] == "data.c";
        assert AfterLast("data.c", '.') == 5 by {
          assert "data.c"[..5] == "data.";
        }
      }
    }
    assert AfterLast("data.txt", '.') == 5 by {
      assert AfterLast("data.txt"[..7], '.') == 5 by {
        assert "data.txt"[..7][..6] == "data.t";
        assert AfterLast("data.t", '.') == 5 by {
          assert "data.t"[..5] == "data.";
        }
      }
    }
    NoDotIsWholePath("csv");
  }

  /** The two trimming loops of lines 71-72: erase leading and then
      trailing `std::isspace` characters one at a time. The result is a
      slice of the header, everything cut off is whitespace, and the
      result neither starts nor ends with whitespace. */
  method TrimHeader(header: string) returns (line: string, ghost i: nat, ghost j: nat)
    ensures i <= j <= |header| && line == header[i..j]
    ensures forall k :: 0 <= k < i ==> IsCSpace(header[k])
    ensures forall k :: j <= k < |header| ==> IsCSpace(header[k])
    ensures line == [] || (!IsCSpace(line[0]) && !IsCSpace(line[|line| - 1]))
    ensures line == Trim(header)
  {
    line := header;
    i, j := 0, |header|;
    while line != [] && IsCSpace(line[0])
      invariant i <= |header| && line == header[i..]
      invariant forall k :: 0 <= k < i ==> IsCSpace(header[k])
      invariant TrimLeft(line) == TrimLeft(header)
    {
      assert header[i] == line[0] && line[1..] == header[i + 1..];
      line := line[1..];
      i := i + 1;
    }
    j := |header|;
    ghost var left := line;
    while line != [] && IsCSpace(line[|line| - 1])
      invariant i <= j <= |header| && line == header[i..j]
      invariant forall k :: j <= k < |header| ==> IsCSpace(header[k])
      invariant line != [] ==> !IsCSpace(line[0])
      invariant TrimRight(line) == TrimRight(left)
    {
      assert header[j - 1] == line[|line| - 1] && line[..|line| - 1] == header[i..j - 1];
      line := line[..|line| - 1];
      j := j - 1;
    }
  }

  /** What `main` leaves behind. */
  datatype Outcome = Outcome(exitCode: int, processed: seq<string>, output: seq<string>)

  /** `main` after option parsing, for the given `-a` flag. It returns 1,
      before any line is processed and with no output, for an empty path, a
      path whose extension is not "csv", a file that does not open, or a
      trimmed first line other than the header. Otherwise every later line
      goes to `process_line` once, in file order, and the output is the
      point header (the crossings themselves are printed by the adapter) or
      the count, the milliseconds and the memory difference or the failure
      message. */
  method RunAdapter(filePath: string, printIntersections: bool, file: Option<seq<string>>,
                    crossings: nat, millis: int, initialMemory: int, finalMemory: int) returns (r: Outcome)
    ensures r.exitCode == 1 <==>
      filePath == [] || !HasCsvExtension(filePath) || file.None? || TrimmedHeader(file.value) != HEADER
    ensures r.exitCode == 1 ==> r.processed == [] && r.output == []
    ensures r.exitCode != 1 ==>
      (r.exitCode == 0 && file.Some? && |file.value| >= 1 &&
       r.processed == file.value[1..] &&
       r.output == if printIntersections then [POINT_HEADER]
                   else [IntToString(crossings), IntToString(millis), MemoryLine(initialMemory, finalMemory)])
  {
    if filePath == [] {
      return Outcome(1, [], []);
    }
    if !HasCsvExtension(filePath) {
      return Outcome(1, [], []);
    }
    if file.None? {
      return Outcome(1, [], []);
    }
    var lines := file.value;
    var first := if |lines| > 0 then lines[0] else [];
    var line, _, _ := TrimHeader(first);
    if line != HEADER {
      return Outcome(1, [], []);
    }
    assert |lines| >= 1;
    var processed := [];
    var k := 1;
    while k < |lines|
      invariant 1 <= k <= |lines|
      invariant processed == lines[1..k]
    {
      processed := processed + [lines[k]];
      k := k + 1;
    }
    var output;
    if printIntersections {
      output := [POINT_HEADER];
    } else {
      output := [IntToString(crossings), IntToString(millis), MemoryLine(initialMemory, finalMemory)];
    }
    return Outcome(0, processed, output);
  }

  /** The third line without `-a`. */
  function MemoryLine(initialMemory: int, finalMemory: int): string {
    if initialMemory != -1 && finalMemory != -1 then IntToString(finalMemory - initialMemory)
    else "Failed to get memory usage"
  }

  /** The first line with the whitespace around it removed; an empty file
      leaves the line empty. */
  function TrimmedHeader(lines: seq<string>): string {
    Trim(if |lines| > 0 then lines[0] else [])
  }

  function Trim(s: string): string {
    TrimRight(TrimLeft(s))
  }

  function TrimLeft(s: string): (r: string)
    ensures r == [] || !IsCSpace(r[0])
  {
    if s != [] && IsCSpace(s[0]) then TrimLeft(s[1..]) else s
  }

  function TrimRight(s: string): (r: string)
    ensures r == [] || !IsCSpace(r[|r| - 1])
  {
    if s != [] && IsCSpace(s[|s| - 1]) then TrimRight(s[..|s| - 1]) else s
  }

  /** Whitespace around the header line does not make `main` reject it. */
  lemma PaddedHeader(pre: string, post: string)
    requires forall k :: 0 <= k < |pre| ==> IsCSpace(pre[k])
    requires forall k :: 0 <= k < |post| ==> IsCSpace(post[k])
    ensures Trim(pre + HEADER + post) == HEADER
  {
    assert pre + HEADER + post == pre + (HEADER + post);
    TrimLeftSpaces(pre, HEADER + post);
    assert TrimLeft(HEADER + post) == HEADER + post;
    TrimRightSpaces(HEADER, post);
    assert TrimRight(HEADER) == HEADER;
  }

  lemma {:induction false} TrimLeftSpaces(pre: string, s: string)
    requires forall k :: 0 <= k < |pre| ==> IsCSpace(pre[k])
    ensures TrimLeft(pre + s) == TrimLeft(s)
  {
    if pre != [] {
      assert (pre + s)[1..] == pre[1..] + s;
      TrimLeftSpaces(pre[1..], s);
    } else {
      assert pre + s == s;
    }
  }

  lemma {:induction false} TrimRightSpaces(s: string, post: string)
    requires forall k :: 0 <= k < |post| ==> IsCSpace(post[k])
    ensures TrimRight(s + post) == TrimRight(s)
  {
    if post != [] {
      assert (s + post)[..|s + post| - 1] == s + post[..|post| - 1];
      TrimRightSpaces(s, post[..|post| - 1]);
    } else {
      assert s + post == s;
    }
  }
}
