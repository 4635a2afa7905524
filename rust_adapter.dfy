/** The Rust adapter's text codec and its output dispatch over the
    intersections reported by the sweep (adapters/rust/src/main.rs).
    The sweep itself belongs to the `geo` crate and is not modelled: its
    reports are the input sequence. Coordinates are the 64-bit words
    `f64::to_bits` gives. */
module RustAdapter {
  import opened Wrappers
  import opened Bits
  import opened Text

  /** `float_to_binary`: `format!("{:064b}", f.to_bits())`. */
  function FloatToBinary(bits: Word64): (r: string)
    ensures |r| == 64 && IsBinary(r)
    ensures BitstringToDouble(r) == Ok(bits)
  {
    ToBitsBinary(bits, 64);
    ParseRender(bits, 64);
    ToBits(bits, 64)
  }

  /** `bitstring_to_double` up to `f64::from_bits`: an error unless the
      string is 64 characters of '0' and '1' (`s.len()` counts bytes, but
      any other character is rejected anyway), then the word
      `u64::from_str_radix(s, 2)` reads. */
  function BitstringToDouble(s: string): (r: Result<Word64, Exception>)
    ensures r.Ok? <==> |s| == 64 && IsBinary(s)
    ensures r.Err? ==> r.error == ParseError
    ensures r.Ok? ==> ToBits(r.value, 64) == s
  {
    if |s| != 64 || !IsBinary(s) then Err(ParseError)
    else
      BitsValueBound(s);
      ToBitsBitsValue(s);
      Ok(BitsValue(s))
  }

  /** Text that parses is the rendering of its word. */
  lemma ParseThenRender(s: string)
    requires BitstringToDouble(s).Ok?
    ensures FloatToBinary(BitstringToDouble(s).value) == s
  {
  }

  /** A point as the raw words of its coordinates. */
  datatype WordPoint = WordPoint(x: Word64, y: Word64)

  /** `geo::LineIntersection`: a single point, or the shared piece of two
      collinear lines. */
  datatype LineIntersection =
    | SinglePoint(intersection: WordPoint, isProper: bool)
    | Collinear(start: WordPoint, end: WordPoint)

  /** What one report contributes to the count. */
  function Weight(i: LineIntersection): (r: nat)
    ensures r == |ReportPoints(i)|
  {
    match i
    case SinglePoint(_, _) => 1
    case Collinear(_, _) => 2
  }

  /** The points one report prints, in order. */
  function ReportPoints(i: LineIntersection): seq<WordPoint> {
    match i
    case SinglePoint(p, _) => [p]
    case Collinear(s, e) => [s, e]
  }

  function Points(reports: seq<LineIntersection>): (r: seq<WordPoint>)
    ensures |r| == TotalWeight(reports)
  {
    if reports == [] then []
    else Points(reports[..|reports| - 1]) + ReportPoints(reports[|reports| - 1])
  }

  function TotalWeight(reports: seq<LineIntersection>): nat {
    if reports == [] then 0
    else TotalWeight(reports[..|reports| - 1]) + Weight(reports[|reports| - 1])
  }

  /** One printed data line: `"{};{}"` of the two bit strings. */
  function PointLine(p: WordPoint): (r: string)
    ensures Split(r, ';') == [FloatToBinary(p.x), FloatToBinary(p.y)]
  {
    var textX, textY := FloatToBinary(p.x), FloatToBinary(p.y);
    assert ';' !in textX && ';' !in textY;
    SplitFree(textY, ';');
    SplitPrefix(textX, textY, ';');
    textX + [';'] + textY
  }

  /** A printed line splits into the two bit strings, which parse back to
      the point's words. */
  lemma LineDecodes(p: WordPoint)
    ensures |Split(PointLine(p), ';')| == 2
    ensures BitstringToDouble(Split(PointLine(p), ';')[0]) == Ok(p.x)
    ensures BitstringToDouble(Split(PointLine(p), ';')[1]) == Ok(p.y)
  {
  }

  /** The count mode loop: 1 per single point, 2 per collinear piece. */
  method CountIntersections(reports: seq<LineIntersection>) returns (count: nat)
    ensures count == TotalWeight(reports) == |Points(reports)|
  {
    count := 0;
    for k := 0 to |reports|
      invariant count == TotalWeight(reports[..k])
    {
      assert reports[..k + 1][..k] == reports[..k];
      match reports[k]
      case SinglePoint(_, _) =>
        count := count + 1;
      case Collinear(_, _) =>
        count := count + 2;
    }
    assert reports[..|reports|] == reports;
  }

  /** The print mode loop: the header, then one line per single point and
      the start and end lines per collinear piece. There are as many data
      lines as the count mode counts, and line k + 1 is the line of point
      k (which `LineDecodes` reads back). */
  method PrintIntersections(reports: seq<LineIntersection>) returns (out: seq<string>)
    ensures |out| == 1 + TotalWeight(reports)
    ensures out[0] == POINT_HEADER
    ensures out[1..] == Lines(Points(reports))
  {
    var body: seq<string> := [];
    assert reports[..0] == [];
    for k := 0 to |reports|
      invariant body == Lines(Points(reports[..k]))
    {
      LinesStep(reports, k);
      body := PrintReport(body, reports[k]);
    }
    assert reports[..|reports|] == reports;
    out := [POINT_HEADER] + body;
  }

  /** The lines of one report: its point, or its start and then its end. */
  method PrintReport(before: seq<string>, report: LineIntersection) returns (after: seq<string>)
    ensures after == before + Lines(ReportPoints(report))
  {
    match report
    case SinglePoint(p, _) =>
      LinesOne(p);
      after := before + [PointLine(p)];
    case Collinear(s, e) =>
      LinesTwo(s, e);
      after := before + [PointLine(s)];
      after := after + [PointLine(e)];
  }

  lemma LinesStep(reports: seq<LineIntersection>, k: nat)
    requires k < |reports|
    ensures Lines(Points(reports[..k + 1])) == Lines(Points(reports[..k])) + Lines(ReportPoints(reports[k]))
  {
    assert reports[..k + 1][..k] == reports[..k];
    var a, b := Points(reports[..k]), ReportPoints(reports[k]);
    assert Points(reports[..k + 1]) == a + b;
    LinesAppend(a, b);
  }

  lemma {:induction false} LinesAppend(a: seq<WordPoint>, b: seq<WordPoint>)
    ensures Lines(a + b) == Lines(a) + Lines(b)
  {
    if b != [] {
      var c := a + b;
      assert c[..|c| - 1] == a + b[..|b| - 1];
      LinesAppend(a, b[..|b| - 1]);
    } else {
      assert a + b == a;
    }
  }

  /** Line k of the printout is the line of point k. */
  lemma {:induction false} LinesAt(ps: seq<WordPoint>, k: nat)
    requires k < |ps|
    ensures Lines(ps)[k] == PointLine(ps[k])
  {
    if k < |ps| - 1 {
      LinesAt(ps[..|ps| - 1], k);
    }
  }

  lemma LinesOne(p: WordPoint)
    ensures Lines([p]) == [PointLine(p)]
  {
    assert [p][..0] == [];
  }

  lemma LinesTwo(p: WordPoint, q: WordPoint)
    ensures Lines([p, q]) == [PointLine(p), PointLine(q)]
  {
    assert [p, q][..1] == [p];
    LinesOne(p);
  }

  function Lines(ps: seq<WordPoint>): (r: seq<string>)
    ensures |r| == |ps|
  {
    if ps == [] then [] else Lines(ps[..|ps| - 1]) + [PointLine(ps[|ps| - 1])]
  }
}
