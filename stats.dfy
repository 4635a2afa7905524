/** The statistics of one segment file and the bookkeeping of the result
    tables: classification counters, endpoint sets, record-kind counters,
    the reference marking of `summarize` and the row counts of `collect`. */
module Stats {
  import opened Wrappers
  import opened Geometry
  import opened FastInter
  import Text

  // ---------------------------------------------------------------------
  // Segment classification. The source tests equal endpoints first, then
  // equal x (counted as `horiz`), then equal y (counted as `vert`).

  function CountLength0(segs: seq<Segment>): nat {
    if segs == [] then 0
    else CountLength0(segs[..|segs| - 1]) + (if segs[|segs| - 1].p1 == segs[|segs| - 1].p2 then 1 else 0)
  }

  function CountHoriz(segs: seq<Segment>): nat {
    if segs == [] then 0
    else
      var s := segs[|segs| - 1];
      CountHoriz(segs[..|segs| - 1]) + (if s.p1 != s.p2 && s.p1.x == s.p2.x then 1 else 0)
  }

  function CountVert(segs: seq<Segment>): nat {
    if segs == [] then 0
    else
      var s := segs[|segs| - 1];
      CountVert(segs[..|segs| - 1]) + (if s.p1 != s.p2 && s.p1.x != s.p2.x && s.p1.y == s.p2.y then 1 else 0)
  }

  /** Each segment is counted at most once. */
  lemma {:induction false} ClassifiedAtMostOnce(segs: seq<Segment>)
    ensures CountLength0(segs) + CountHoriz(segs) + CountVert(segs) <= |segs|
  {
    if segs != [] {
      ClassifiedAtMostOnce(segs[..|segs| - 1]);
    }
  }

  function Endpoints(segs: seq<Segment>): set<Point> {
    if segs == [] then {} else Endpoints(segs[..|segs| - 1]) + {segs[|segs| - 1].p1, segs[|segs| - 1].p2}
  }

  function XValues(segs: seq<Segment>): set<real> {
    if segs == [] then {} else XValues(segs[..|segs| - 1]) + {segs[|segs| - 1].p1.x, segs[|segs| - 1].p2.x}
  }

  function YValues(segs: seq<Segment>): set<real> {
    if segs == [] then {} else YValues(segs[..|segs| - 1]) + {segs[|segs| - 1].p1.y, segs[|segs| - 1].p2.y}
  }

  lemma PairCard<T>(a: T, b: T)
    ensures |{a, b}| <= 2
  {
    if a == b {
      assert {a, b} == {a};
    }
  }

  /** Every segment adds at most two endpoints and two values of each
      coordinate, so `same_p`, `same_x` and `same_y` are never negative. */
  lemma {:induction false} EndpointBounds(segs: seq<Segment>)
    ensures |Endpoints(segs)| <= 2 * |segs|
    ensures |XValues(segs)| <= 2 * |segs|
    ensures |YValues(segs)| <= 2 * |segs|
  {
    if segs != [] {
      var init, s := segs[..|segs| - 1], segs[|segs| - 1];
      EndpointBounds(init);
      PairCard(s.p1, s.p2);
      PairCard(s.p1.x, s.p2.x);
      PairCard(s.p1.y, s.p2.y);
      assert |Endpoints(init) + {s.p1, s.p2}| <= |Endpoints(init)| + |{s.p1, s.p2}|;
      assert |XValues(init) + {s.p1.x, s.p2.x}| <= |XValues(init)| + |{s.p1.x, s.p2.x}|;
      assert |YValues(init) + {s.p1.y, s.p2.y}| <= |YValues(init)| + |{s.p1.y, s.p2.y}|;
    }
  }

  // ---------------------------------------------------------------------
  // Records of the batch engine.

  /** The start points of the true-intersection records. */
  function TrueStarts(records: seq<Record>): set<Point> {
    if records == [] then {}
    else
      var r := records[|records| - 1];
      TrueStarts(records[..|records| - 1]) + (if r.TrueIntersection? then {r.start} else {})
  }

  /** Only true-intersection records contribute points. */
  lemma {:induction false} TrueStartsMembers(records: seq<Record>, p: Point)
    ensures p in TrueStarts(records) <==>
      exists k :: 0 <= k < |records| && records[k].TrueIntersection? && records[k].start == p
  {
    if records != [] {
      var init := records[..|records| - 1];
      TrueStartsMembers(init, p);
      if p in TrueStarts(init) {
        var k :| 0 <= k < |init| && init[k].TrueIntersection? && init[k].start == p;
        assert records[k] == init[k];
      }
      forall k | 0 <= k < |init| ensures records[k] == init[k] { }
    }
  }

  /** Every record has exactly one of the three kinds. */
  lemma {:induction false} KindsPartition(records: seq<Record>)
    ensures CountKind(records, SegmentOverlapType) + CountKind(records, PointOverlapType)
          + CountKind(records, TrueIntersectionType) == |records|
  {
    if records != [] {
      KindsPartition(records[..|records| - 1]);
    }
  }

  datatype FileStats = FileStats(
    segs: nat, combs: nat, points: nat, intersectionPoints: nat, trueIntersectionPoints: nat,
    length0: nat, horiz: nat, vert: nat, sameX: int, sameY: int, sameP: int,
    overlap: nat, online: nat, intersect: nat)

  /** The first loop of `stat_one_file`: the classification counters and
      the sets of endpoints, x values and y values. */
  method ScanSegments(segs: seq<Segment>) returns (length0: nat, horiz: nat, vert: nat, points: set<Point>, xs: set<real>, ys: set<real>)
    ensures length0 == CountLength0(segs) && horiz == CountHoriz(segs) && vert == CountVert(segs)
    ensures points == Endpoints(segs) && xs == XValues(segs) && ys == YValues(segs)
  {
    length0, horiz, vert := 0, 0, 0;
    points, xs, ys := {}, {}, {};
    for k := 0 to |segs|
      invariant length0 == CountLength0(segs[..k]) && horiz == CountHoriz(segs[..k]) && vert == CountVert(segs[..k])
      invariant points == Endpoints(segs[..k]) && xs == XValues(segs[..k]) && ys == YValues(segs[..k])
    {
      assert segs[..k + 1][..k] == segs[..k];
      var seg := segs[k];
      if seg.p1 == seg.p2 {
        length0 := length0 + 1;
      } else if seg.p1.x == seg.p2.x {
        horiz := horiz + 1;
      } else if seg.p1.y == seg.p2.y {
        vert := vert + 1;
      }
      points := points + {seg.p1, seg.p2};
      xs := xs + {seg.p1.x, seg.p2.x};
      ys := ys + {seg.p1.y, seg.p2.y};
    }
    assert segs[..|segs|] == segs;
  }

  /** The second loop of `stat_one_file`: the record-kind counters and the
      set of true-intersection points. */
  method ScanRecords(recs: seq<Record>) returns (overlap: nat, online: nat, intersect: nat, interPoints: set<Point>)
    ensures overlap == CountKind(recs, SegmentOverlapType)
    ensures online == CountKind(recs, PointOverlapType)
    ensures intersect == CountKind(recs, TrueIntersectionType)
    ensures interPoints == TrueStarts(recs)
  {
    overlap, online, intersect := 0, 0, 0;
    interPoints := {};
    for k := 0 to |recs|
      invariant overlap == CountKind(recs[..k], SegmentOverlapType)
      invariant online == CountKind(recs[..k], PointOverlapType)
      invariant intersect == CountKind(recs[..k], TrueIntersectionType)
      invariant interPoints == TrueStarts(recs[..k])
    {
      assert recs[..k + 1][..k] == recs[..k];
      var e := recs[k];
      if e.SegmentOverlap? {
        overlap := overlap + 1;
      } else if e.PointOverlap? {
        online := online + 1;
      } else if e.TrueIntersection? {
        intersect := intersect + 1;
        interPoints := interPoints + {e.start};
      }
    }
    assert recs[..|recs|] == recs;
  }

  /** `stat_one_file` on the decoded segments. */
  method StatOneFile(segs: seq<Segment>) returns (r: FileStats)
    ensures r.segs == |segs| && r.combs == |segs| * (|segs| - 1) / 2
    ensures r.length0 == CountLength0(segs) && r.horiz == CountHoriz(segs) && r.vert == CountVert(segs)
    ensures r.length0 + r.horiz + r.vert <= r.segs
    ensures r.points == |Endpoints(segs)|
    ensures r.sameP == 2 * |segs| - |Endpoints(segs)| >= 0
    ensures r.sameX == 2 * |segs| - |XValues(segs)| >= 0
    ensures r.sameY == 2 * |segs| - |YValues(segs)| >= 0
    ensures var recs := CalculateIntersectionsVectorizedSegments(segs);
      r.overlap == CountKind(recs, SegmentOverlapType)
      && r.online == CountKind(recs, PointOverlapType)
      && r.intersect == CountKind(recs, TrueIntersectionType)
      && r.overlap + r.online + r.intersect == |recs|
      && r.intersectionPoints == |TrueStarts(recs)|
      && r.trueIntersectionPoints == |TrueStarts(recs) - Endpoints(segs)|
    ensures r.trueIntersectionPoints <= r.intersectionPoints
  {
    var n := |segs|;
    var product := n * (n - 1);
    PairProduct(n);
    var length0, horiz, vert, points, xs, ys := ScanSegments(segs);
    ClassifiedAtMostOnce(segs);
    EndpointBounds(segs);
    var recs := CalculateIntersectionsVectorizedSegments(segs);
    var overlap, online, intersect, interPoints := ScanRecords(recs);
    KindsPartition(recs);
    assert |interPoints - points| <= |interPoints| by {
      assert interPoints - points <= interPoints;
    }
    r := FileStats(n, product / 2, |points|, |interPoints|, |interPoints - points|,
                   length0, horiz, vert, 2 * n - |xs|, 2 * n - |ys|, 2 * n - |points|, overlap, online, intersect);
  }

  lemma PairProduct(n: nat)
    ensures n * (n - 1) >= 0
  {
    if n > 0 {
      var m: nat := n - 1;
      assert n * m >= 0;
    }
  }

  // ---------------------------------------------------------------------
  // `summarize`: marking the cells that differ from the reference.

  /** A cell is wrapped in `**` exactly when a reference value exists, the
      cell differs from it, and the cell is not the missing marker. */
  function MarkCell(cell: string, reference: Option<string>, missing: string): (r: string)
    ensures r != cell <==> reference.Some? && cell != reference.value && cell != missing
    ensures r != cell ==> r == "**" + cell + "**"
  {
    if reference.Some? && (cell != reference.value && cell != missing) then "**" + cell + "**" else cell
  }

  /** The reference value of one input: `summary[inp].get(reference)` when
      a non-empty reference command was given. */
  function ReferenceValue(results: map<string, string>, reference: string): (r: Option<string>)
    ensures r.Some? <==> reference != "" && reference in results
    ensures r.Some? ==> r.value == results[reference]
  {
    if reference != "" && reference in results then Some(results[reference]) else None
  }

  /** One table row of `summarize`: the input, then one cell per command,
      a missing combination shown as `missing`. */
  method SummarizeRow(inp: string, commands: seq<string>, results: map<string, string>, reference: string, missing: string)
    returns (row: seq<string>)
    ensures |row| == 1 + |commands| && row[0] == inp
    ensures forall k :: 0 <= k < |commands| ==>
      row[k + 1] == MarkCell(if commands[k] in results then results[commands[k]] else missing,
                             ReferenceValue(results, reference), missing)
  {
    row := [inp];
    var ref := ReferenceValue(results, reference);
    for k := 0 to |commands|
      invariant |row| == 1 + k && row[0] == inp
      invariant forall m :: 0 <= m < k ==>
        row[m + 1] == MarkCell(if commands[m] in results then results[commands[m]] else missing, ref, missing)
    {
      var cmd := commands[k];
      var cell := if cmd in results then results[cmd] else missing;
      if ref.Some? && (cell != ref.value && cell != missing) {
        cell := "**" + cell + "**";
      }
      row := row + [cell];
    }
  }

  // ---------------------------------------------------------------------
  // `collect`: counting the rows of one result file.

  function Distinct(rows: seq<string>): set<string> {
    set r | r in rows
  }

  lemma {:induction false} DistinctCard(rows: seq<string>)
    ensures |Distinct(rows)| <= |rows|
  {
    if rows != [] {
      DistinctCard(rows[1..]);
      assert Distinct(rows) == {rows[0]} + Distinct(rows[1..]);
    }
  }

  /** The row loop of `collect`: the number of rows and the set of them. */
  method CountRows(rows: seq<string>) returns (segsCount: nat, segs: set<string>)
    ensures segsCount == |rows| && segs == Distinct(rows)
  {
    segsCount, segs := 0, {};
    for k := 0 to |rows|
      invariant segsCount == k && segs == Distinct(rows[..k])
    {
      assert rows[..k + 1] == rows[..k] + [rows[k]];
      assert Distinct(rows[..k + 1]) == Distinct(rows[..k]) + {rows[k]};
      segsCount := segsCount + 1;
      segs := segs + {rows[k]};
    }
    assert rows[..|rows|] == rows;
  }

  /** The `print_intersections` branch of `collect` on the lines of an
      output file: `(result_uniq, result)`, the total and the distinct
      number of data rows. An empty file or a wrong header is an error. */
  method CollectCounts(lines: seq<string>) returns (r: Result<(nat, nat), Exception>)
    ensures lines == [] ==> r == Err(StopIteration)
    ensures lines != [] && Text.PyStrip(lines[0]) != Text.POINT_HEADER ==> r == Err(IOError)
    ensures r.Ok? <==> lines != [] && Text.PyStrip(lines[0]) == Text.POINT_HEADER
    ensures r.Ok? ==> r.value.0 == |lines| - 1 && r.value.1 == |Distinct(lines[1..])|
    ensures r.Ok? ==> r.value.1 <= r.value.0
  {
    if lines == [] {
      return Err(StopIteration);
    }
    if Text.PyStrip(lines[0]) != Text.POINT_HEADER {
      return Err(IOError);
    }
    var segsCount, segs := CountRows(lines[1..]);
    DistinctCard(lines[1..]);
    r := Ok((segsCount, |segs|));
  }
}
