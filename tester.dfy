/** The benchmark driver's bookkeeping (generation/tester.py; the same
    helpers are repeated in generation/tester_accuracy.py): reading the
    intersection points a command prints, loading a reference point file,
    and turning the output of each command into the cells of the result,
    time, memory and distance rows. Running a command, testing whether a
    file exists and reading a file are parameters (`run`, `pathExists`,
    `read`); `run` returns None when the subprocess call raises. The float
    a 64-bit word stands for is the parameter `value`. */
module Tester {
  import opened Wrappers
  import opened Text
  import opened Bits
  import opened Geometry
  import SegUtils
  import RustAdapter
  import CppUtils

  /** `run_command`: the captured standard output, stripped and split at
      line breaks; no lines when the call raised. A split never yields an
      empty list, so the "no output" branch of lines 21-23 is never taken:
      the lines are empty only when the call raised, and otherwise they
      join back to the stripped output. */
  function OutputLines(stdout: Option<string>): (r: seq<string>)
    ensures stdout.None? <==> r == []
    ensures stdout.Some? ==> Join(r, '\n') == PyStrip(stdout.value)
  {
    match stdout
    case None => []
    case Some(s) =>
      JoinSplit(PyStrip(s), '\n');
      Split(PyStrip(s), '\n')
  }

  /** One line as the `try` block of `parse_intersections` and
      `load_points_from_file` reads it: exactly two `;`-separated fields
      after stripping, each a 64-character bit string (`bin2float`);
      any ValueError skips the line. */
  function ParseLine(line: string, value: Word64 -> real): (r: Option<Point>)
    ensures var parts := Split(PyStrip(line), ';');
      r.Some? <==> |parts| == 2 && |parts[0]| == 64 && IsBinary(parts[0]) && |parts[1]| == 64 && IsBinary(parts[1])
    ensures var parts := Split(PyStrip(line), ';');
      r.Some? ==>
        ToBits(WordOf(parts[0]), 64) == parts[0] && ToBits(WordOf(parts[1]), 64) == parts[1] &&
        r.value == Point(value(WordOf(parts[0])), value(WordOf(parts[1])))
  {
    var parts := Split(PyStrip(line), ';');
    if |parts| != 2 then None
    else
      match (SegUtils.Bin2FloatBits(parts[0], false), SegUtils.Bin2FloatBits(parts[1], false))
      case (Ok(x), Ok(y)) => Some(Point(value(x), value(y)))
      case _ => None
  }

  /** The word a valid 64-character bit string spells. */
  function WordOf(s: string): (w: Word64)
    ensures SegUtils.Bin2FloatBits(s, false).Ok? ==> SegUtils.Bin2FloatBits(s, false) == Ok(w)
  {
    match SegUtils.Bin2FloatBits(s, false)
    case Ok(w) => w
    case Err(_) => 0
  }

  /** A line the Rust adapter prints for a crossing is read back as that
      crossing. */
  lemma ParsesRustLine(p: RustAdapter.WordPoint, value: Word64 -> real)
    ensures ParseLine(RustAdapter.PointLine(p), value) == Some(Point(value(p.x), value(p.y)))
  {
    RustLineFields(p);
    ParseLineOfFields(RustAdapter.PointLine(p), RustAdapter.FloatToBinary(p.x), RustAdapter.FloatToBinary(p.y), p.x, p.y, value);
  }

  lemma RustLineFields(p: RustAdapter.WordPoint)
    ensures var line, a, b := RustAdapter.PointLine(p), RustAdapter.FloatToBinary(p.x), RustAdapter.FloatToBinary(p.y);
      PyStrip(line) == line && Split(line, ';') == [a, b] &&
      SegUtils.Bin2FloatBits(a, false) == Ok(p.x) && SegUtils.Bin2FloatBits(b, false) == Ok(p.y)
  {
    RustLineEdges(p);
    PyStripTrimmed(RustAdapter.PointLine(p));
    RustBitsAreBin2Float(RustAdapter.FloatToBinary(p.x), p.x);
    RustBitsAreBin2Float(RustAdapter.FloatToBinary(p.y), p.y);
  }

  lemma ParseLineOfFields(line: string, a: string, b: string, x: Word64, y: Word64, value: Word64 -> real)
    requires PyStrip(line) == line && Split(line, ';') == [a, b]
    requires SegUtils.Bin2FloatBits(a, false) == Ok(x) && SegUtils.Bin2FloatBits(b, false) == Ok(y)
    ensures ParseLine(line, value) == Some(Point(value(x), value(y)))
  {
  }

  lemma RustLineEdges(p: RustAdapter.WordPoint)
    ensures var line := RustAdapter.PointLine(p);
      line != [] && !IsPySpace(line[0]) && !IsPySpace(line[|line| - 1])
  {
    var a, b := RustAdapter.FloatToBinary(p.x), RustAdapter.FloatToBinary(p.y);
    var line := RustAdapter.PointLine(p);
    assert line == a + [';'] + b;
    assert IsBit(line[0]) && IsBit(line[|line| - 1]);
    BitNotSpace(line[0]);
    BitNotSpace(line[|line| - 1]);
  }

  lemma BitNotSpace(c: char)
    requires IsBit(c)
    ensures !IsPySpace(c)
  {
  }

  lemma RustBitsAreBin2Float(s: string, w: Word64)
    requires RustAdapter.BitstringToDouble(s) == Ok(w)
    ensures SegUtils.Bin2FloatBits(s, false) == Ok(w)
  {
  }

  /** `print_point` writes the same line as the Rust adapter, ended by a
      line break. */
  lemma CppLineIsRustLine(x: Word64, y: Word64)
    ensures CppUtils.PrintPoint(x, y) == RustAdapter.PointLine(RustAdapter.WordPoint(x, y)) + ['\n']
  {
  }

  /** A line a C++ adapter prints with `print_point` is read back as that
      crossing: the line break is stripped. */
  lemma ParsesCppLine(x: Word64, y: Word64, value: Word64 -> real)
    ensures ParseLine(CppUtils.PrintPoint(x, y), value) == Some(Point(value(x), value(y)))
  {
    var p := RustAdapter.WordPoint(x, y);
    var line := RustAdapter.PointLine(p);
    CppLineIsRustLine(x, y);
    ParsesRustLine(p, value);
    StripNewline(line);
  }

  lemma StripNewline(line: string)
    requires line != [] && !IsPySpace(line[0]) && !IsPySpace(line[|line| - 1])
    ensures PyStrip(line + ['\n']) == PyStrip(line)
  {
    var full := line + ['\n'];
    assert full[..|full| - 1] == line;
    PyStripTrimmed(line);
  }

  /** `ParseLine` for a fixed reading of words as floats. */
  function Parser(value: Word64 -> real): string -> Option<Point> {
    line => ParseLine(line, value)
  }

  /** The points of the lines that parse, in line order, duplicates kept. */
  function ValidPoints(lines: seq<string>, parse: string -> Option<Point>): (r: seq<Point>)
    ensures |r| <= |lines|
  {
    if lines == [] then []
    else
      var last := parse(lines[|lines| - 1]);
      ValidPoints(lines[..|lines| - 1], parse) + (if last.Some? then [last.value] else [])
  }

  /** A point is among the valid points exactly when some line parses to it. */
  lemma ValidPointsMember(lines: seq<string>, parse: string -> Option<Point>, p: Point)
    ensures p in ValidPoints(lines, parse) <==> exists i :: 0 <= i < |lines| && parse(lines[i]) == Some(p)
  {
    if p in ValidPoints(lines, parse) {
      var i := ValidPointsSource(lines, parse, p);
    }
    if exists i :: 0 <= i < |lines| && parse(lines[i]) == Some(p) {
      var i :| 0 <= i < |lines| && parse(lines[i]) == Some(p);
      ValidPointsKept(lines, parse, i);
    }
  }

  /** Every valid point comes from a line that parses to it. */
  lemma {:induction false} ValidPointsSource(lines: seq<string>, parse: string -> Option<Point>, p: Point) returns (i: nat)
    requires p in ValidPoints(lines, parse)
    ensures i < |lines| && parse(lines[i]) == Some(p)
  {
    var n := |lines| - 1;
    var last := parse(lines[n]);
    assert ValidPoints(lines, parse) == ValidPoints(lines[..n], parse) + (if last.Some? then [last.value] else []);
    if p in ValidPoints(lines[..n], parse) {
      i := ValidPointsSource(lines[..n], parse, p);
      assert lines[..n][i] == lines[i];
    } else {
      i := n;
    }
  }

  /** The point of every line that parses is among the valid points. */
  lemma {:induction false} ValidPointsKept(lines: seq<string>, parse: string -> Option<Point>, i: nat)
    requires i < |lines| && parse(lines[i]).Some?
    ensures parse(lines[i]).value in ValidPoints(lines, parse)
  {
    var n := |lines| - 1;
    var last := parse(lines[n]);
    assert ValidPoints(lines, parse) == ValidPoints(lines[..n], parse) + (if last.Some? then [last.value] else []);
    if i < n {
      assert lines[..n][i] == lines[i];
      ValidPointsKept(lines[..n], parse, i);
    }
  }

  /** When every line parses, the valid points are the parsed lines one for
      one: nothing is dropped, merged or reordered. */
  lemma {:induction false} ValidPointsAllParse(lines: seq<string>, parse: string -> Option<Point>)
    requires forall i :: 0 <= i < |lines| ==> parse(lines[i]).Some?
    ensures |ValidPoints(lines, parse)| == |lines|
    ensures forall i :: 0 <= i < |lines| ==> ValidPoints(lines, parse)[i] == parse(lines[i]).value
  {
    if lines != [] {
      var init := lines[..|lines| - 1];
      assert forall i :: 0 <= i < |init| ==> init[i] == lines[i];
      ValidPointsAllParse(init, parse);
    }
  }

  lemma ValidPointsStep(lines: seq<string>, k: nat, parse: string -> Option<Point>)
    requires k < |lines|
    ensures ValidPoints(lines[..k + 1], parse) ==
      ValidPoints(lines[..k], parse) + (if parse(lines[k]).Some? then [parse(lines[k]).value] else [])
  {
    assert lines[..k + 1][..k] == lines[..k];
  }

  /** The loop of `parse_intersections`: every line that parses adds its
      point to the set. */
  method CollectPoints(lines: seq<string>, parse: string -> Option<Point>) returns (points: set<Point>)
    ensures points == Elements(ValidPoints(lines, parse))
  {
    points := {};
    for k := 0 to |lines|
      invariant points == Elements(ValidPoints(lines[..k], parse))
    {
      ValidPointsStep(lines, k, parse);
      var p := parse(lines[k]);
      if p.Some? {
        points := points + {p.value};
      }
    }
    assert lines[..|lines|] == lines;
  }

  /** `parse_intersections`: the parsed points collected into a set, then
      sorted by (x, y). The result is duplicate-free and sorted, holds
      exactly the points of the valid lines, and is the one such listing. */
  method ParseIntersections(lines: seq<string>, value: Word64 -> real) returns (r: seq<Point>)
    ensures StrictlySorted(r)
    ensures Elements(r) == Elements(ValidPoints(lines, Parser(value)))
    ensures r == SortedOf(ValidPoints(lines, Parser(value)))
  {
    var points := CollectPoints(lines, Parser(value));
    r := SortedFromSet(points);
    StrictlySortedUnique(r, SortedOf(ValidPoints(lines, Parser(value))));
  }

  /** `load_points_from_file` on the file's lines (None when it cannot be
      opened): `next(f)` on an empty file raises StopIteration, otherwise
      the first line is skipped and the valid points of the others are
      kept in file order, duplicates included. */
  method LoadPointsFromFile(file: Option<seq<string>>, value: Word64 -> real) returns (r: Result<seq<Point>, Exception>)
    ensures file.None? ==> r == Err(IOError)
    ensures file == Some([]) ==> r == Err(StopIteration)
    ensures file.Some? && file.value != [] ==> r == Ok(ValidPoints(file.value[1..], Parser(value)))
    ensures r == Loaded(file, value)
  {
    if file.None? {
      return Err(IOError);
    }
    var lines := file.value;
    if lines == [] {
      return Err(StopIteration);
    }
    var rest := lines[1..];
    var parse := Parser(value);
    var points := [];
    for k := 0 to |rest|
      invariant points == ValidPoints(rest[..k], Parser(value))
    {
      ValidPointsStep(rest, k, parse);
      var p := parse(rest[k]);
      if p.Some? {
        points := points + [p.value];
      }
    }
    assert rest[..|rest|] == rest;
    return Ok(points);
  }

  /** What loading a reference file yields, for use in specifications. */
  function Loaded(file: Option<seq<string>>, value: Word64 -> real): Result<seq<Point>, Exception> {
    if file.None? then Err(IOError)
    else if file.value == [] then Err(StopIteration)
    else Ok(ValidPoints(file.value[1..], Parser(value)))
  }

  // ---------------------------------------------------------------------
  // Rows of the report

  /** The result, time and memory cells of one command: its three output
      lines, or "Error" in all three when it did not print exactly three. */
  function CommandCells(lines: seq<string>): (r: seq<string>)
    ensures |r| == 3
    ensures |lines| == 3 ==> r == lines
    ensures |lines| != 3 ==> r == ["Error", "Error", "Error"]
  {
    if |lines| == 3 then lines else ["Error", "Error", "Error"]
  }

  /** Whether `re.search(r'_(.*?)c.*?\.', command)` finds a match: a '_',
      later a `c`, later a '.', with no line break in between (`.` does not
      match one). */
  predicate RegexTagged(command: string, c: char): (r: bool)
    ensures r ==> '_' in command && c in command && '.' in command
  {
    exists i, j, k :: 0 <= i < j < k < |command| && command[i] == '_' && command[j] == c && command[k] == '.'
      && '\n' !in command[i + 1..k]
  }

  /** Which reference file a command's points are compared with. */
  datatype Reference = DoubleReference | RationalReference

  /** The choice of lines 159-167: the "d" pattern first, then the "r" one. */
  function RegexReference(command: string): (r: Option<Reference>)
    ensures r == Some(DoubleReference) <==> RegexTagged(command, 'd')
    ensures r == Some(RationalReference) <==> !RegexTagged(command, 'd') && RegexTagged(command, 'r')
    ensures r.None? <==> !RegexTagged(command, 'd') && !RegexTagged(command, 'r')
  {
    if RegexTagged(command, 'd') then Some(DoubleReference)
    else if RegexTagged(command, 'r') then Some(RationalReference)
    else None
  }

  /** The rational adapter `test_vectorized_r.py` is sent to the double
      reference: the 'd' of "vectorized" satisfies the "d" pattern. */
  lemma RationalCommandComparedWithDouble()
    ensures RegexReference("./test_vectorized_r.py") == Some(DoubleReference)
  {
    var c := "./test_vectorized_r.py";
    assert c[6] == '_' && c[16] == 'd' && c[19] == '.';
    assert '\n' !in c[7..19];
  }

  /** The evidently intended choice: the letter just before the extension
      of a name with an underscore-separated tag (`_d`, `_ud`, `_r`,
      `_ur`). */
  function SuffixReference(command: string): (r: Option<Reference>)
    ensures r == Some(DoubleReference) ==> SuffixTag(command) == Some('d')
    ensures r == Some(RationalReference) ==> SuffixTag(command) == Some('r')
    ensures r.None? ==> SuffixTag(command) != Some('d') && SuffixTag(command) != Some('r')
  {
    match SuffixTag(command)
    case Some('d') => Some(DoubleReference)
    case Some('r') => Some(RationalReference)
    case _ => None
  }

  /** The last character of the name before its extension, when an
      underscore comes before it. */
  function SuffixTag(command: string): (r: Option<char>)
    ensures r.Some? ==> var e := AfterLast(command, '.'); e >= 2 && r.value == command[e - 2] && '_' in command[..e - 2]
  {
    var e := AfterLast(command, '.');
    if e >= 2 && '_' in command[..e - 2] then Some(command[e - 2]) else None
  }

  /** How the two choices compare on any single-line command: they agree
      on a name tagged `d`; on a name tagged `r` they agree exactly when no
      'd' sits between an underscore and a later '.'; a name with neither
      tag has no reference under the intended choice, yet the pattern may
      still find one for it. */
  lemma RegexVersusSuffix(command: string)
    requires '\n' !in command
    ensures SuffixTag(command) == Some('d') ==> RegexReference(command) == SuffixReference(command)
    ensures SuffixTag(command) == Some('r') ==>
      (RegexReference(command) == SuffixReference(command) <==> !RegexTagged(command, 'd'))
    ensures SuffixTag(command) != Some('d') && SuffixTag(command) != Some('r') ==>
      SuffixReference(command) == None &&
      (RegexReference(command) == SuffixReference(command) <==> !RegexTagged(command, 'd') && !RegexTagged(command, 'r'))
  {
    match SuffixTag(command)
    case Some(c) =>
      if c == 'd' || c == 'r' {
        TagWitness(command, c);
      }
    case None =>
  }

  /** A name tagged `c` matches the pattern for `c`: its underscore, the
      tag and the dot of the extension. */
  lemma TagWitness(command: string, c: char)
    requires '\n' !in command
    requires SuffixTag(command) == Some(c)
    ensures RegexTagged(command, c)
  {
    var e := AfterLast(command, '.');
    var i :| 0 <= i < e - 2 && command[..e - 2][i] == '_';
    assert command[i] == '_' && command[e - 2] == c && command[e - 1] == '.';
    assert '\n' !in command[i + 1..e - 1];
  }

  /** Under the intended choice the rational and double adapters go to
      their own references. */
  lemma SuffixReferenceExamples()
    ensures SuffixReference("./test_vectorized_r.py") == Some(RationalReference)
    ensures SuffixReference("./test_vectorized_d.py") == Some(DoubleReference)
    ensures SuffixReference("./test_sweeper_ud.py") == Some(DoubleReference)
    ensures SuffixReference("./test_decimal5_ur.py") == Some(RationalReference)
  {
    SuffixVectorizedR();
    SuffixVectorizedD();
    SuffixSweeperUd();
    SuffixDecimalUr();
  }

  lemma SuffixVectorizedR()
    ensures SuffixReference("./test_vectorized_r.py") == Some(RationalReference)
  {
    assert AfterLast("./test_vectorized_r.py", '.') == 20 by {
      assert "./test_vectorized_r.py"[..21][..20] == "./test_vectorized_r.";
    }
    assert "./test_vectorized_r.py"[..18][6] == '_';
  }

  lemma SuffixVectorizedD()
    ensures SuffixReference("./test_vectorized_d.py") == Some(DoubleReference)
  {
    assert AfterLast("./test_vectorized_d.py", '.') == 20 by {
      assert "./test_vectorized_d.py"[..21][..20] == "./test_vectorized_d.";
    }
    assert "./test_vectorized_d.py"[..18][6] == '_';
  }

  lemma SuffixSweeperUd()
    ensures SuffixReference("./test_sweeper_ud.py") == Some(DoubleReference)
  {
    assert AfterLast("./test_sweeper_ud.py", '.') == 18 by {
      assert "./test_sweeper_ud.py"[..19][..18] == "./test_sweeper_ud.";
    }
    assert "./test_sweeper_ud.py"[..16][6] == '_';
  }

  lemma SuffixDecimalUr()
    ensures SuffixReference("./test_decimal5_ur.py") == Some(RationalReference)
  {
    assert AfterLast("./test_decimal5_ur.py", '.') == 19 by {
      assert "./test_decimal5_ur.py"[..20][..19] == "./test_decimal5_ur.";
    }
    assert "./test_decimal5_ur.py"[..17][6] == '_';
  }

  /** One cell of the distance row. The distance itself, the sum over the
      zipped point lists of `math.sqrt(dx ** 2 + dy ** 2)`, is a float
      computation that is not modelled: the cell records the two lists it
      is computed from. */
  datatype Cell = Text(text: string) | Distance(reference: seq<Point>, computed: seq<Point>)

  /** What lines 154-176 append to the distance row for one command, given
      its `-a` output and the two reference lists: "Error" without the
      point header, "Error" when the command's point count differs from
      its reference's, a distance when it agrees, and nothing when the
      command matches neither pattern. */
  function AccuracyCell(command: string, outputA: seq<string>, pointsD: seq<Point>, pointsR: seq<Point>,
                        value: Word64 -> real, reference: string -> Option<Reference>): (r: Option<Cell>)
    ensures !(|outputA| > 0 && outputA[0] == POINT_HEADER) ==> r == Some(Text("Error"))
    ensures r.Some? && r.value.Distance? ==>
      |outputA| > 0 && outputA[0] == POINT_HEADER && reference(command).Some? &&
      |r.value.reference| == |r.value.computed| &&
      r.value.reference == (if reference(command) == Some(DoubleReference) then pointsD else pointsR) &&
      r.value.computed == SortedOf(ValidPoints(outputA[1..], Parser(value)))
    ensures r.None? <==> |outputA| > 0 && outputA[0] == POINT_HEADER && reference(command).None?
  {
    if |outputA| > 0 && outputA[0] == POINT_HEADER then
      ReferenceCell(reference(command), pointsD, pointsR, SortedOf(ValidPoints(outputA[1..], Parser(value))))
    else Some(Text("Error"))
  }

  /** The cell for a command's sorted points once its reference is known:
      "Error" when the counts differ, otherwise the distance. */
  function ReferenceCell(tag: Option<Reference>, pointsD: seq<Point>, pointsR: seq<Point>, points: seq<Point>): Option<Cell> {
    match tag
    case Some(DoubleReference) =>
      Some(if |pointsD| != |points| then Text("Error") else Distance(pointsD, points))
    case Some(RationalReference) =>
      Some(if |pointsR| != |points| then Text("Error") else Distance(pointsR, points))
    case None => None
  }

  /** The four rows `process_file` returns, each starting with the file. */
  datatype Rows = Rows(result: seq<string>, time: seq<string>, memory: seq<string>, distance: seq<Cell>)

  /** `os.path.join(a, b)`. */
  function PathJoin(a: string, b: string): (r: string)
    ensures |b| > 0 && b[0] == '/' ==> r == b
    ensures !(|b| > 0 && b[0] == '/') ==>
      |a| <= |r| && r[..|a|] == a && |b| <= |r| && r[|r| - |b|..] == b && |r| <= |a| + 1 + |b|
  {
    if |b| > 0 && b[0] == '/' then b
    else if a == [] || a[|a| - 1] == '/' then a + b
    else a + "/" + b
  }

  /** `os.path.basename(file).split('_', 1)[1]`: what follows the first '_'
      of the base name, or IndexError when there is none. */
  function NameTail(file: string): (r: Result<string, Exception>)
    ensures r.Err? <==> '_' !in file[AfterLast(file, '/')..]
    ensures r.Err? ==> r.error == IndexError
  {
    var base := file[AfterLast(file, '/')..];
    var u := FirstIndex(base, '_');
    if u == |base| then Err(IndexError) else Ok(base[u + 1..])
  }

  /** The distance cells of a sequence of commands. */
  function DistanceCells(commands: seq<string>, file: string, run: string -> Option<string>,
                         pointsD: seq<Point>, pointsR: seq<Point>,
                         value: Word64 -> real, reference: string -> Option<Reference>): (r: seq<Cell>)
    ensures |r| <= |commands|
  {
    CellsOf(commands, AccuracyOf(file, run, pointsD, pointsR, value, reference))
  }

  /** The cells of the commands that have one, in command order. */
  function CellsOf(commands: seq<string>, cellOf: string -> Option<Cell>): (r: seq<Cell>)
    ensures |r| <= |commands|
  {
    if commands == [] then []
    else
      var cell := cellOf(commands[|commands| - 1]);
      CellsOf(commands[..|commands| - 1], cellOf) + (if cell.Some? then [cell.value] else [])
  }

  lemma CellsOfStep(commands: seq<string>, k: nat, cellOf: string -> Option<Cell>)
    requires k < |commands|
    ensures var cell := cellOf(commands[k]);
      CellsOf(commands[..k + 1], cellOf) == CellsOf(commands[..k], cellOf) + (if cell.Some? then [cell.value] else [])
  {
    assert commands[..k + 1][..k] == commands[..k];
  }

  /** The accuracy cell of each command, from the output of its `-a` run. */
  function AccuracyOf(file: string, run: string -> Option<string>,
                      pointsD: seq<Point>, pointsR: seq<Point>,
                      value: Word64 -> real, reference: string -> Option<Reference>): string -> Option<Cell> {
    command => AccuracyCell(command, OutputLines(run(AccuracyRun(command, file))), pointsD, pointsR, value, reference)
  }

  /** The result, time and memory cells of the plain run of a command. */
  function PlainCells(command: string, file: string, run: string -> Option<string>): (r: seq<string>)
    ensures |r| == 3
  {
    CommandCells(OutputLines(run(PlainRun(command, file))))
  }

  /** The command line the plain run of a command uses. */
  function PlainRun(command: string, file: string): string {
    command + " -f " + file
  }

  /** The command line of the accuracy run. */
  function AccuracyRun(command: string, file: string): string {
    command + " -f " + file + " -a"
  }

  /** The result, time and memory rows hold the file name and then, for
      each command in order, its three cells. */
  predicate CommandRows(result: seq<string>, time: seq<string>, memory: seq<string>,
                        file: string, commands: seq<string>, run: string -> Option<string>) {
    CellRows(result, time, memory, file, commands, PlainCellsOf(file, run))
  }

  /** `PlainCells` of each command, for a fixed file and runner. */
  function PlainCellsOf(file: string, run: string -> Option<string>): string -> seq<string> {
    c => PlainCells(c, file, run)
  }

  /** Three rows that start with `head` and then hold, column by column,
      the three cells `cellsOf` gives each command. */
  predicate CellRows(result: seq<string>, time: seq<string>, memory: seq<string>,
                     head: string, commands: seq<string>, cellsOf: string -> seq<string>) {
    |result| == |time| == |memory| == |commands| + 1 &&
    result[0] == time[0] == memory[0] == head &&
    forall k :: 0 <= k < |commands| ==>
      |cellsOf(commands[k])| == 3 &&
      result[k + 1] == cellsOf(commands[k])[0] &&
      time[k + 1] == cellsOf(commands[k])[1] &&
      memory[k + 1] == cellsOf(commands[k])[2]
  }

  lemma CellRowsStep(result: seq<string>, time: seq<string>, memory: seq<string>,
                     head: string, commands: seq<string>, k: nat, cellsOf: string -> seq<string>)
    requires k < |commands| && |cellsOf(commands[k])| == 3
    requires CellRows(result, time, memory, head, commands[..k], cellsOf)
    ensures var cells := cellsOf(commands[k]);
      CellRows(result + [cells[0]], time + [cells[1]], memory + [cells[2]], head, commands[..k + 1], cellsOf)
  {
    var cs := commands[..k + 1];
    assert forall m :: 0 <= m < k ==> cs[m] == commands[..k][m];
  }

  lemma CommandRowsStep(result: seq<string>, time: seq<string>, memory: seq<string>,
                        file: string, commands: seq<string>, k: nat, run: string -> Option<string>)
    requires k < |commands| && CommandRows(result, time, memory, file, commands[..k], run)
    ensures var cells := PlainCells(commands[k], file, run);
      CommandRows(result + [cells[0]], time + [cells[1]], memory + [cells[2]], file, commands[..k + 1], run)
  {
    assert PlainCellsOf(file, run)(commands[k]) == PlainCells(commands[k], file, run);
    CellRowsStep(result, time, memory, file, commands, k, PlainCellsOf(file, run));
  }

  lemma DistanceCellsStep(commands: seq<string>, k: nat, file: string, run: string -> Option<string>,
                          pointsD: seq<Point>, pointsR: seq<Point>,
                          value: Word64 -> real, reference: string -> Option<Reference>)
    requires k < |commands|
    ensures var cell := AccuracyCell(commands[k], OutputLines(run(AccuracyRun(commands[k], file))), pointsD, pointsR, value, reference);
      DistanceCells(commands[..k + 1], file, run, pointsD, pointsR, value, reference) ==
      DistanceCells(commands[..k], file, run, pointsD, pointsR, value, reference) + (if cell.Some? then [cell.value] else [])
  {
    CellsOfStep(commands, k, AccuracyOf(file, run, pointsD, pointsR, value, reference));
  }

  /** `process_file(file, accuracies, commands)`. A base name without '_'
      raises IndexError before any command runs. Each command adds its
      three output lines, or three "Error" cells, to the result, time and
      memory rows. When the double reference file exists, each command
      also loads both reference files (an error aborts the whole call) and
      adds its accuracy cell; otherwise the distance row is the file name
      alone. */
  method ProcessFile(file: string, accuracies: string, commands: seq<string>,
                     run: string -> Option<string>, pathExists: string -> bool, read: string -> Option<seq<string>>,
                     value: Word64 -> real, reference: string -> Option<Reference>) returns (r: Result<Rows, Exception>)
    ensures NameTail(file).Err? ==> r == Err(IndexError)
    ensures NameTail(file).Ok? ==>
      var pathD := PathJoin(accuracies, "d_" + NameTail(file).value);
      var pathR := PathJoin(accuracies, "r_" + NameTail(file).value);
      var checked := pathExists(pathD) && |commands| > 0;
      var loadD, loadR := Loaded(read(pathD), value), Loaded(read(pathR), value);
      (r.Err? <==> checked && (loadD.Err? || loadR.Err?)) &&
      (r.Err? ==> r.error == if loadD.Err? then loadD.error else loadR.error) &&
      (r.Ok? ==>
        CommandRows(r.value.result, r.value.time, r.value.memory, file, commands, run) &&
        r.value.distance == [Text(file)] +
          (if checked then DistanceCells(commands, file, run, loadD.value, loadR.value, value, reference) else []))
  {
    var tail := NameTail(file);
    if tail.Err? {
      return Err(IndexError);
    }
    var pathD := PathJoin(accuracies, "d_" + tail.value);
    var pathR := PathJoin(accuracies, "r_" + tail.value);
    r := RunCommands(file, commands, pathD, pathR, pathExists(pathD), run, read, value, reference);
  }

  /** The loop over the commands of `process_file`, once the reference
      paths are known and it is known whether the double one exists. */
  method RunCommands(file: string, commands: seq<string>, pathD: string, pathR: string, inAccuracies: bool,
                     run: string -> Option<string>, read: string -> Option<seq<string>>,
                     value: Word64 -> real, reference: string -> Option<Reference>) returns (r: Result<Rows, Exception>)
    ensures var checked := inAccuracies && |commands| > 0;
      var loadD, loadR := Loaded(read(pathD), value), Loaded(read(pathR), value);
      (r.Err? <==> checked && (loadD.Err? || loadR.Err?)) &&
      (r.Err? ==> r.error == if loadD.Err? then loadD.error else loadR.error) &&
      (r.Ok? ==>
        CommandRows(r.value.result, r.value.time, r.value.memory, file, commands, run) &&
        r.value.distance == [Text(file)] +
          (if checked then DistanceCells(commands, file, run, loadD.value, loadR.value, value, reference) else []))
  {
    ghost var loadD, loadR := Loaded(read(pathD), value), Loaded(read(pathR), value);
    ghost var pointsD0 := if loadD.Ok? then loadD.value else [];
    ghost var pointsR0 := if loadR.Ok? then loadR.value else [];
    assert commands[..0] == [];
    var result, time, memory := [file], [file], [file];
    // the distance row after its first cell, the file name
    var cells: seq<Cell> := [];
    for k := 0 to |commands|
      invariant CommandRows(result, time, memory, file, commands[..k], run)
      invariant inAccuracies && k > 0 ==> loadD.Ok? && loadR.Ok?
      invariant !inAccuracies ==> cells == []
      invariant inAccuracies ==> cells == DistanceCells(commands[..k], file, run, pointsD0, pointsR0, value, reference)
    {
      result, time, memory := PlainStep(result, time, memory, file, commands, k, run);
      if inAccuracies {
        var next := AccuracyStep(commands, k, file, pathD, pathR, run, read, value, reference, cells, pointsD0, pointsR0);
        if next.Err? {
          return Err(next.error);
        }
        cells := next.value;
      }
    }
    assert commands[..|commands|] == commands;
    return Ok(Rows(result, time, memory, [Text(file)] + cells));
  }

  /** One command's turn in the plain part of the loop: its three cells
      are added to the result, time and memory rows. */
  method PlainStep(result: seq<string>, time: seq<string>, memory: seq<string>,
                   file: string, commands: seq<string>, k: nat, run: string -> Option<string>)
    returns (result': seq<string>, time': seq<string>, memory': seq<string>)
    requires k < |commands| && CommandRows(result, time, memory, file, commands[..k], run)
    ensures CommandRows(result', time', memory', file, commands[..k + 1], run)
  {
    var cells := PlainCells(commands[k], file, run);
    CommandRowsStep(result, time, memory, file, commands, k, run);
    result', time', memory' := result + [cells[0]], time + [cells[1]], memory + [cells[2]];
  }

  /** One command's turn in the accuracy part of the loop: its cell, if
      any, is added to the distance row, unless loading a reference file
      raises. */
  method AccuracyStep(commands: seq<string>, k: nat, file: string, pathD: string, pathR: string,
                      run: string -> Option<string>, read: string -> Option<seq<string>>,
                      value: Word64 -> real, reference: string -> Option<Reference>,
                      cells: seq<Cell>, ghost pointsD: seq<Point>, ghost pointsR: seq<Point>)
    returns (r: Result<seq<Cell>, Exception>)
    requires k < |commands|
    requires Loaded(read(pathD), value).Ok? ==> pointsD == Loaded(read(pathD), value).value
    requires Loaded(read(pathR), value).Ok? ==> pointsR == Loaded(read(pathR), value).value
    requires cells == DistanceCells(commands[..k], file, run, pointsD, pointsR, value, reference)
    ensures var loadD, loadR := Loaded(read(pathD), value), Loaded(read(pathR), value);
      (r.Err? <==> loadD.Err? || loadR.Err?) &&
      (r.Err? ==> r.error == if loadD.Err? then loadD.error else loadR.error) &&
      (r.Ok? ==> r.value == DistanceCells(commands[..k + 1], file, run, pointsD, pointsR, value, reference))
  {
    var cell := CommandAccuracy(commands[k], file, pathD, pathR, run, read, value, reference);
    if cell.Err? {
      return Err(cell.error);
    }
    DistanceCellsStep(commands, k, file, run, pointsD, pointsR, value, reference);
    if cell.value.Some? {
      return Ok(cells + [cell.value.value]);
    }
    return Ok(cells);
  }

  /** Lines 147-176 for one command: load both reference files (either
      may raise), run the command with `-a` and work out its cell. */
  method CommandAccuracy(command: string, file: string, pathD: string, pathR: string,
                         run: string -> Option<string>, read: string -> Option<seq<string>>,
                         value: Word64 -> real, reference: string -> Option<Reference>)
    returns (r: Result<Option<Cell>, Exception>)
    ensures var loadD, loadR := Loaded(read(pathD), value), Loaded(read(pathR), value);
      (r.Err? <==> loadD.Err? || loadR.Err?) &&
      (r.Err? ==> r.error == if loadD.Err? then loadD.error else loadR.error) &&
      (r.Ok? ==> r.value == AccuracyCell(command, OutputLines(run(AccuracyRun(command, file))), loadD.value, loadR.value, value, reference))
  {
    var pointsD := LoadPointsFromFile(read(pathD), value);
    if pointsD.Err? {
      return Err(pointsD.error);
    }
    var pointsR := LoadPointsFromFile(read(pathR), value);
    if pointsR.Err? {
      return Err(pointsR.error);
    }
    var outputA := OutputLines(run(AccuracyRun(command, file)));
    var cell := AccuracyCellOf(command, outputA, pointsD.value, pointsR.value, value, reference);
    return Ok(cell);
  }

  /** Lines 154-176 as statements, calling `parse_intersections`. */
  method AccuracyCellOf(command: string, outputA: seq<string>, pointsD: seq<Point>, pointsR: seq<Point>,
                        value: Word64 -> real, reference: string -> Option<Reference>) returns (r: Option<Cell>)
    ensures r == AccuracyCell(command, outputA, pointsD, pointsR, value, reference)
  {
    if |outputA| > 0 && outputA[0] == POINT_HEADER {
      var points := ParseIntersections(outputA[1..], value);
      r := ReferenceCell(reference(command), pointsD, pointsR, points);
    } else {
      r := Some(Text("Error"));
    }
  }

  /** The distance row never has more cells than there are commands, plus
      the file name; a command whose output lacks the point header always
      contributes its "Error" cell. */
  lemma {:induction false} DistanceCellsHeaderless(commands: seq<string>, file: string, run: string -> Option<string>,
                                                   pointsD: seq<Point>, pointsR: seq<Point>,
                                                   value: Word64 -> real, reference: string -> Option<Reference>)
    requires forall k :: 0 <= k < |commands| ==>
      var out := OutputLines(run(AccuracyRun(commands[k], file)));
      !(|out| > 0 && out[0] == POINT_HEADER)
    ensures DistanceCells(commands, file, run, pointsD, pointsR, value, reference) == seq(|commands|, k => Text("Error"))
  {
    if commands != [] {
      var init := commands[..|commands| - 1];
      DistanceCellsHeaderless(init, file, run, pointsD, pointsR, value, reference);
    }
  }

  /** `get_files_from_argument`: the files listed in a directory (given as
      `listing`, the names that are files) joined to it, or else the
      comma-separated list, which joins back to the argument. */
  function FilesFromArgument(path: string, listing: Option<seq<string>>): (r: seq<string>)
    ensures listing.Some? ==> |r| == |listing.value| && forall k :: 0 <= k < |r| ==> r[k] == PathJoin(path, listing.value[k])
    ensures listing.None? ==> |r| >= 1 && Join(r, ',') == path && forall k :: 0 <= k < |r| ==> ',' !in r[k]
  {
    match listing
    case Some(names) => seq(|names|, k requires 0 <= k < |names| => PathJoin(path, names[k]))
    case None =>
      JoinSplit(path, ',');
      Split(path, ',')
  }
}
