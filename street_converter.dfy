/** The row construction of generation/street_converter.py's
    `write_segments_to_csv`: a header row, then one row per extracted
    segment. With `binary_encode` every field is the `float_to_bin` text
    of the value, whose binary64 word `struct.pack` produces (`bits`, a
    parameter); without it the values are written as `str` renders them
    (`render`, a parameter). The writer's quoting and line endings are not
    modelled: a row is its fields joined by ';'. */
module StreetConverter {
  import opened Wrappers
  import opened Text
  import opened Bits
  import opened Geometry
  import opened SegUtils
  import opened GeoJson

  /** The number `struct.pack('>d', v)` receives: a JSON number, or a
      Boolean as 1 or 0; any other value makes it raise struct.error. */
  function NumberValue(v: Json): (r: Result<real, Exception>)
    ensures r.Ok? <==> v.JNumber? || v.JBool?
    ensures r.Err? ==> r.error == StructError
    ensures v.JNumber? ==> r == Ok(v.n)
  {
    match v
    case JNumber(n) => Ok(n)
    case JBool(b) => Ok(if b then 1.0 else 0.0)
    case _ => Err(StructError)
  }

  /** The fields of `{'x1': float_to_bin(x1), ...}`, in header order;
      the first value that is not a number raises. */
  function BinaryRow(s: RawSegment, bits: real -> Word64): (r: Result<string, Exception>)
    ensures r.Err? ==> r.error == StructError
    ensures r.Ok? <==> AllNumbers(s)
  {
    var x1 :- NumberValue(s.x1);
    var y1 :- NumberValue(s.y1);
    var x2 :- NumberValue(s.x2);
    var y2 :- NumberValue(s.y2);
    Ok(EncodedRow(Segment(Point(x1, y1), Point(x2, y2)), bits))
  }

  /** All four values can be packed. */
  predicate AllNumbers(s: RawSegment) {
    NumberValue(s.x1).Ok? && NumberValue(s.y1).Ok? && NumberValue(s.x2).Ok? && NumberValue(s.y2).Ok?
  }

  /** The segment a row of numbers stands for. */
  function NumberSegment(s: RawSegment): Segment
    requires AllNumbers(s)
  {
    Segment(Point(NumberValue(s.x1).value, NumberValue(s.y1).value), Point(NumberValue(s.x2).value, NumberValue(s.y2).value))
  }

  /** A binary row is the row `segintbench.utils` writes for the segment
      of those numbers. */
  lemma BinaryRowEncoded(s: RawSegment, bits: real -> Word64)
    requires BinaryRow(s, bits).Ok?
    ensures BinaryRow(s, bits).value == EncodedRow(NumberSegment(s), bits)
  {
  }

  /** `{'x1': x1, 'y1': y1, 'x2': x2, 'y2': y2}` as the writer renders it. */
  function RawRow(s: RawSegment, render: Json -> string): string {
    Join([render(s.x1), render(s.y1), render(s.x2), render(s.y2)], ';')
  }

  /** The row builder `binary_encode` selects. */
  function RowOf(binaryEncode: bool, bits: real -> Word64, render: Json -> string): RawSegment -> Result<string, Exception> {
    if binaryEncode then s => BinaryRow(s, bits) else s => Ok(RawRow(s, render))
  }

  /** The data rows, in segment order; the first row that raises ends the
      file. */
  function Rows(segments: seq<RawSegment>, row: RawSegment -> Result<string, Exception>): (r: Result<seq<string>, Exception>)
    ensures r.Ok? <==> forall k :: 0 <= k < |segments| ==> row(segments[k]).Ok?
    ensures r.Ok? ==> |r.value| == |segments| && forall k :: 0 <= k < |segments| ==> r.value[k] == row(segments[k]).value
    ensures r.Err? ==> exists k :: 0 <= k < |segments| && row(segments[k]) == Err(r.error)
  {
    if segments == [] then Ok([])
    else
      var first :- row(segments[0]);
      var rest :- Rows(segments[1..], row);
      assert forall k :: 1 <= k < |segments| ==> segments[k] == segments[1..][k - 1];
      Ok([first] + rest)
  }

  /** `write_segments_to_csv(segments, output_path, binary_encode)`: the
      lines of the file. */
  function WriteSegmentsToCsv(segments: seq<RawSegment>, binaryEncode: bool, bits: real -> Word64, render: Json -> string): (r: Result<seq<string>, Exception>)
    ensures r.Ok? ==> |r.value| == |segments| + 1 && r.value[0] == HEADER
  {
    var rows :- Rows(segments, RowOf(binaryEncode, bits, render));
    Ok([HEADER] + rows)
  }

  /** Without encoding nothing can fail, and the row of segment k holds
      its four values, unchanged, in the order x1, y1, x2, y2. */
  lemma RawFile(segments: seq<RawSegment>, bits: real -> Word64, render: Json -> string)
    ensures WriteSegmentsToCsv(segments, false, bits, render).Ok?
    ensures var lines := WriteSegmentsToCsv(segments, false, bits, render).value;
      forall k :: 0 <= k < |segments| ==> lines[k + 1] == RawRow(segments[k], render)
  {
  }

  /** A raw row of values whose renderings hold no ';' splits into those
      renderings. */
  lemma RawRowFields(s: RawSegment, render: Json -> string)
    requires ';' !in render(s.x1) && ';' !in render(s.y1) && ';' !in render(s.x2) && ';' !in render(s.y2)
    ensures Split(RawRow(s, render), ';') == [render(s.x1), render(s.y1), render(s.x2), render(s.y2)]
  {
    SplitJoin([render(s.x1), render(s.y1), render(s.x2), render(s.y2)], ';');
  }

  /** With encoding, the file exists exactly when every value is a number
      (or a Boolean), and otherwise the writing raises struct.error. */
  lemma BinaryFile(segments: seq<RawSegment>, bits: real -> Word64, render: Json -> string)
    ensures var r := WriteSegmentsToCsv(segments, true, bits, render);
      (r.Ok? <==> forall k :: 0 <= k < |segments| ==> BinaryRow(segments[k], bits).Ok?) &&
      (r.Ok? ==> forall k :: 0 <= k < |segments| ==> r.value[k + 1] == BinaryRow(segments[k], bits).value) &&
      (r.Err? ==> r.error == StructError)
  {
  }

  /** A binary row has four fields of 64 binary digits each, and each
      field spells the word of its value. */
  lemma BinaryRowFields(s: RawSegment, bits: real -> Word64)
    requires BinaryRow(s, bits).Ok?
    ensures var fields := Split(BinaryRow(s, bits).value, ';');
      |fields| == 4 &&
      fields[0] == ToBits(bits(NumberValue(s.x1).value), 64) &&
      fields[1] == ToBits(bits(NumberValue(s.y1).value), 64) &&
      fields[2] == ToBits(bits(NumberValue(s.x2).value), 64) &&
      fields[3] == ToBits(bits(NumberValue(s.y2).value), 64) &&
      forall k :: 0 <= k < 4 ==> |fields[k]| == 64 && IsBinary(fields[k])
  {
    var f0 := BinaryField(bits(NumberValue(s.x1).value));
    var f1 := BinaryField(bits(NumberValue(s.y1).value));
    var f2 := BinaryField(bits(NumberValue(s.x2).value));
    var f3 := BinaryField(bits(NumberValue(s.y2).value));
    var fields := [f0, f1, f2, f3];
    assert BinaryRow(s, bits).value == Join(fields, ';');
    SplitJoin(fields, ';');
  }

  /** The segments of rows of numbers. */
  function NumberSegments(segments: seq<RawSegment>): (r: seq<Segment>)
    requires forall k :: 0 <= k < |segments| ==> AllNumbers(segments[k])
    ensures |r| == |segments| && forall k :: 0 <= k < |segments| ==> r[k] == NumberSegment(segments[k])
  {
    seq(|segments|, (k: int) requires 0 <= k < |segments| => NumberSegment(segments[k]))
  }

  /** An encoded file is the file `segintbench.utils` writes for the
      segments of its numbers. */
  lemma StreetLinesEncoded(segments: seq<RawSegment>, bits: real -> Word64, render: Json -> string)
    requires WriteSegmentsToCsv(segments, true, bits, render).Ok?
    ensures forall k :: 0 <= k < |segments| ==> AllNumbers(segments[k])
    ensures WriteSegmentsToCsv(segments, true, bits, render).value == EncodedLines(NumberSegments(segments), bits)
  {
    BinaryFile(segments, bits, render);
    var segs := NumberSegments(segments);
    var lines := WriteSegmentsToCsv(segments, true, bits, render).value;
    forall k | 0 <= k < |segments|
      ensures lines[k + 1] == EncodedRow(segs[k], bits)
    {
      BinaryRowEncoded(segments[k], bits);
    }
    assert lines == EncodedLines(segs, bits);
  }

  /** The file `__main__` writes from a street network reads back, through
      `read_segments_from_csv` with a decoder that inverts the encoding of
      every number written, as the segments of the network. */
  lemma StreetFileReadsBack(segments: seq<RawSegment>, bits: real -> Word64, render: Json -> string,
                            decode: string -> Result<real, Exception>)
    requires forall k :: 0 <= k < |segments| && AllNumbers(segments[k]) ==> SegmentDecodesBack(NumberSegment(segments[k]), bits, decode)
    requires WriteSegmentsToCsv(segments, true, bits, render).Ok?
    ensures forall k :: 0 <= k < |segments| ==> AllNumbers(segments[k])
    ensures var read := ReadSegmentsFromCsv(WriteSegmentsToCsv(segments, true, bits, render).value, decode);
      read.Ok? && |read.value| == |segments| &&
      forall k :: 0 <= k < |segments| ==> read.value[k] == Built(NumberSegment(segments[k]))
  {
    StreetLinesEncoded(segments, bits, render);
    EncodedLinesReadBack(NumberSegments(segments), bits, decode);
  }
}
