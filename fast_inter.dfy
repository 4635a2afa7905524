/** The columnar batch engine: the segment table is compared with itself
    shifted by every offset, the determinants are computed column-wise,
    and the selected rows yield tagged records. */
module FastInter {
  import opened Wrappers
  import opened Geometry
  import opened Collinear
  import opened Pairs
  import SegUtils

  datatype IntersectionType = TrueIntersectionType | PointOverlapType | SegmentOverlapType

  /** The yielded tuples `(type, seg1, seg2, start[, end])`. */
  datatype Record =
    | TrueIntersection(seg1: Segment, seg2: Segment, start: Point)
    | PointOverlap(seg1: Segment, seg2: Segment, start: Point)
    | SegmentOverlap(seg1: Segment, seg2: Segment, start: Point, end: Point)
  {
    function Kind(): IntersectionType {
      match this
      case TrueIntersection(_, _, _) => TrueIntersectionType
      case PointOverlap(_, _, _) => PointOverlapType
      case SegmentOverlap(_, _, _, _) => SegmentOverlapType
    }
  }

  /** The points a record stands for: start, and end for a segment overlap. */
  function RecordPoints(r: Record): (ps: seq<Point>)
    ensures |ps| == if r.SegmentOverlap? then 2 else 1
    ensures ps[0] == r.start
  {
    if r.SegmentOverlap? then [r.start, r.end] else [r.start]
  }

  /** The points the records stand for, in record order: one per record,
      and one more per segment overlap. */
  function Expand(records: seq<Record>): (ps: seq<Point>)
    ensures |ps| == |records| + CountKind(records, SegmentOverlapType)
  {
    if records == [] then [] else Expand(records[..|records| - 1]) + RecordPoints(records[|records| - 1])
  }

  function CountKind(records: seq<Record>, k: IntersectionType): nat {
    if records == [] then 0
    else CountKind(records[..|records| - 1], k) + (if records[|records| - 1].Kind() == k then 1 else 0)
  }

  lemma {:induction false} ExpandAppend(a: seq<Record>, b: seq<Record>)
    ensures Expand(a + b) == Expand(a) + Expand(b)
    decreases |b|
  {
    if b == [] {
      assert a + b == a;
    } else {
      var b0, e := b[..|b| - 1], b[|b| - 1];
      assert b == b0 + [e];
      assert a + b == (a + b0) + [e];
      ExpandAppend(a, b0);
      ExpandSnoc(a + b0, e);
      ExpandSnoc(b0, e);
      SeqAssoc(Expand(a), Expand(b0), RecordPoints(e));
    }
  }

  lemma SeqAssoc<X>(x: seq<X>, y: seq<X>, z: seq<X>)
    ensures (x + y) + z == x + (y + z)
  {
  }

  lemma ExpandSnoc(s: seq<Record>, e: Record)
    ensures Expand(s + [e]) == Expand(s) + RecordPoints(e)
  {
    assert (s + [e])[..|s|] == s;
  }

  /** A pandas frame with the four coordinate columns, all of one length. */
  datatype FrameData = FrameData(x1: seq<real>, y1: seq<real>, x2: seq<real>, y2: seq<real>)
  type Frame = f: FrameData | |f.x1| == |f.y1| == |f.x2| == |f.y2| witness FrameData([], [], [], [])

  function Len(df: Frame): nat {
    |df.x1|
  }

  /** Row `k` as a segment. */
  function RowOf(df: Frame, k: nat): Segment
    requires k < Len(df)
  {
    Segment(Point(df.x1[k], df.y1[k]), Point(df.x2[k], df.y2[k]))
  }

  /** `pd.DataFrame((s.coords() for s in segments), columns=[...])`. */
  function FromSegments(segs: seq<Segment>): (df: Frame)
    ensures Len(df) == |segs|
    ensures forall k :: 0 <= k < |segs| ==> RowOf(df, k) == segs[k]
  {
    if segs == [] then FrameData([], [], [], [])
    else
      var rest := FromSegments(segs[1..]);
      var s := segs[0];
      var df: Frame := FrameData([s.p1.x] + rest.x1, [s.p1.y] + rest.y1, [s.p2.x] + rest.x2, [s.p2.y] + rest.y2);
      assert forall k :: 1 <= k < |segs| ==> RowOf(df, k) == RowOf(rest, k - 1);
      df
  }

  /** `df.iloc[i:]`, with the index reset. */
  function ILocFrom(df: Frame, i: nat): (r: Frame)
    requires i <= Len(df)
    ensures Len(r) == Len(df) - i
    ensures forall k :: 0 <= k < Len(r) ==> RowOf(r, k) == RowOf(df, k + i)
  {
    FrameData(df.x1[i..], df.y1[i..], df.x2[i..], df.y2[i..])
  }

  /** `df.iloc[:-i]` for `1 <= i <= len(df)`. */
  function ILocDropLast(df: Frame, i: nat): (r: Frame)
    requires 1 <= i <= Len(df)
    ensures Len(r) == Len(df) - i
    ensures forall k :: 0 <= k < Len(r) ==> RowOf(r, k) == RowOf(df, k)
  {
    var m := Len(df) - i;
    FrameData(df.x1[..m], df.y1[..m], df.x2[..m], df.y2[..m])
  }

  /** `find_collinear_intersections_vect`: each segment is put in (x, y)
      order, the x-ranges are compared, and one record is yielded. */
  function FindCollinearIntersectionsVect(seg1p1: Point, seg1p2: Point, seg2p1: Point, seg2p2: Point): (r: seq<Record>)
    ensures |r| <= 1
    ensures r == [] <==> XDisjoint(Segment(seg1p1, seg1p2), Segment(seg2p1, seg2p2))
    ensures forall k :: 0 <= k < |r| ==> Le(r[k].seg1.p1, r[k].seg1.p2) && Le(r[k].seg2.p1, r[k].seg2.p2)
    ensures forall k :: 0 <= k < |r| ==> !r[k].TrueIntersection?
  {
    var (a1, a2) := if Lt(seg1p2, seg1p1) then (seg1p2, seg1p1) else (seg1p1, seg1p2);
    var (b1, b2) := if Lt(seg2p2, seg2p1) then (seg2p2, seg2p1) else (seg2p1, seg2p2);
    if a2.x < b1.x || b2.x < a1.x then []
    else
      var start, end := MaxPt(a1, b1), MinPt(a2, b2);
      if start == end then [PointOverlap(Segment(a1, a2), Segment(b1, b2), start)]
      else [SegmentOverlap(Segment(a1, a2), Segment(b1, b2), start, end)]
  }

  /** Its records stand for exactly the points of the list-producing
      resolver. */
  lemma VectMatchesCollinear(seg1: Segment, seg2: Segment)
    ensures Expand(FindCollinearIntersectionsVect(seg1.p1, seg1.p2, seg2.p1, seg2.p2))
         == FindCollinearIntersections(seg1, seg2)
  {
    var r := FindCollinearIntersectionsVect(seg1.p1, seg1.p2, seg2.p1, seg2.p2);
    var a, b := Sort2(seg1.p1, seg1.p2), Sort2(seg2.p1, seg2.p2);
    if !XDisjoint(seg1, seg2) {
      var start, end := MaxPt(a.0, b.0), MinPt(a.1, b.1);
      assert start == OverlapStart(seg1, seg2) && end == OverlapEnd(seg1, seg2);
      if start == end {
        assert r == [PointOverlap(Segment(a.0, a.1), Segment(b.0, b.1), start)];
      } else {
        assert r == [SegmentOverlap(Segment(a.0, a.1), Segment(b.0, b.1), start, end)];
      }
      ExpandSingle(r[0]);
    }
  }

  lemma ExpandSingle(record: Record)
    ensures Expand([record]) == RecordPoints(record)
  {
    assert [record][..0] == [];
  }

  /** The selection of line 48: `0 <= det1 <= det` and `0 <= det2 <= det`. */
  predicate Selected(d: SegUtils.Dets) {
    0.0 <= d.det1 <= d.det && 0.0 <= d.det2 <= d.det
  }

  /** The records one row pair contributes: `seg1` is the row of the
      shifted frame (the later segment), `seg2` the row of the other. */
  function PairRecords(seg1: Segment, seg2: Segment): (r: seq<Record>)
    ensures |r| <= 1
  {
    var d := SegUtils.Determinants(seg1, seg2);
    if !Selected(d) then []
    else if d.det == 0.0 then FindCollinearIntersectionsVect(seg1.p1, seg1.p2, seg2.p1, seg2.p2)
    else [TrueIntersection(seg1, seg2, At(seg1, d.det2 / d.det))]
  }

  /** What the selection implies: a selected parallel pair has all three
      determinants zero; any other selected pair has det > 0 and both
      parameters in [0, 1]. A pair with det < 0 is never selected. */
  lemma SelectedCases(d: SegUtils.Dets)
    ensures Selected(d) && d.det == 0.0 ==> d.det1 == 0.0 && d.det2 == 0.0
    ensures Selected(d) && d.det != 0.0 ==>
      d.det > 0.0 && 0.0 <= d.det1 / d.det <= 1.0 && 0.0 <= d.det2 / d.det <= 1.0
    ensures d.det < 0.0 ==> !Selected(d)
  {
    if Selected(d) && d.det != 0.0 {
      UnitQuotient(d.det1, d.det);
      UnitQuotient(d.det2, d.det);
    }
  }

  lemma UnitQuotient(a: real, b: real)
    requires 0.0 <= a <= b && b > 0.0
    ensures 0.0 <= a / b <= 1.0
  {
    assert (a / b) * b == a;
  }

  /** A true-intersection record carries a point of both segments. */
  lemma TrueIntersectionOnBoth(seg1: Segment, seg2: Segment)
    ensures forall r :: r in PairRecords(seg1, seg2) && r.TrueIntersection? ==>
      OnSegment(r.start, seg1) && OnSegment(r.start, seg2)
  {
    var d := SegUtils.Determinants(seg1, seg2);
    if Selected(d) && d.det != 0.0 {
      SelectedCases(d);
      SegUtils.CrossingAgrees(seg1, seg2);
    }
  }

  /** For det >= 0 the records stand for the points the determinant engine
      finds for (later, earlier); for det < 0 nothing is reported. */
  lemma PairRecordsMatchUtils(seg1: Segment, seg2: Segment)
    ensures SegUtils.Determinants(seg1, seg2).det >= 0.0 ==>
      Expand(PairRecords(seg1, seg2)) == SegUtils.FindIntersection(seg1, seg2, None, Identity)
    ensures SegUtils.Determinants(seg1, seg2).det < 0.0 ==> PairRecords(seg1, seg2) == []
  {
    var d := SegUtils.Determinants(seg1, seg2);
    assert SegUtils.ConvSeg(seg1, Identity) == seg1 && SegUtils.ConvSeg(seg2, Identity) == seg2;
    SelectedCases(d);
    if d.det == 0.0 {
      VectMatchesCollinear(seg1, seg2);
    } else if d.det > 0.0 {
      var r := PairRecords(seg1, seg2);
      if r != [] {
        assert r == r[..0] + [r[0]];
      }
      if 0.0 <= d.det1 / d.det <= 1.0 && 0.0 <= d.det2 / d.det <= 1.0 {
        QuotientUnit(d.det1, d.det);
        QuotientUnit(d.det2, d.det);
      }
    }
  }

  lemma QuotientUnit(a: real, b: real)
    requires b > 0.0 && 0.0 <= a / b <= 1.0
    ensures 0.0 <= a <= b
  {
    assert (a / b) * b == a;
  }

  /** A crossing whose det is negative in (later, earlier) order: the
      segments (0,2)-(2,0) (earlier) and (0,0)-(2,2) (later) cross at
      (1, 1), which the determinant engine reports and the batch engine
      drops. */
  lemma NegativeDetDropped()
    ensures var later, earlier := Segment(Point(0.0, 0.0), Point(2.0, 2.0)), Segment(Point(0.0, 2.0), Point(2.0, 0.0));
      SegUtils.Determinants(later, earlier).det == -8.0
      && PairRecords(later, earlier) == []
      && SegUtils.FindIntersection(later, earlier, None, Identity) == [Point(1.0, 1.0)]
  {
    var later, earlier := Segment(Point(0.0, 0.0), Point(2.0, 2.0)), Segment(Point(0.0, 2.0), Point(2.0, 0.0));
    assert SegUtils.ConvSeg(later, Identity) == later && SegUtils.ConvSeg(earlier, Identity) == earlier;
    var d := SegUtils.Determinants(later, earlier);
    assert d == SegUtils.Dets(-8.0, -4.0, -4.0);
  }

  /** `find_intersections_vect(df1, df2)` from row `k` on, with `pair`
      producing the records of one row pair: rows with the same index are
      compared, in index order. Rows present in only one frame compare
      against missing values and are never selected. */
  function FindIntersectionsVectFrom<T>(df1: Frame, df2: Frame, k: nat, pair: (Segment, Segment) -> seq<T>): seq<T>
    decreases Len(df1) - k
  {
    if k >= Len(df1) || k >= Len(df2) then []
    else pair(RowOf(df1, k), RowOf(df2, k)) + FindIntersectionsVectFrom(df1, df2, k + 1, pair)
  }

  /** `calculate_intersections_vectorized(df)`, offsets `i` and up. */
  function VectorizedFrom<T>(df: Frame, i: nat, pair: (Segment, Segment) -> seq<T>): seq<T>
    requires i >= 1
    decreases Len(df) - i
  {
    if i >= Len(df) then []
    else FindIntersectionsVectFrom(ILocFrom(df, i), ILocDropLast(df, i), 0, pair) + VectorizedFrom(df, i + 1, pair)
  }

  function PairRecordsF(): (Segment, Segment) -> seq<Record> {
    (a: Segment, b: Segment) => PairRecords(a, b)
  }

  /** The engine as written. */
  function CalculateIntersectionsVectorized(df: Frame): (r: seq<Record>)
    ensures |r| <= Len(df) * (Len(df) - 1) / 2
  {
    var n := Len(df);
    VisitedFromFlat(df, 1, PairRecordsF());
    VisitedOnce(n);
    FlatMapLength(RowsOf(df), Visited(n), PairRecordsF());
    TotalLengthBound(RowsOf(df), Visited(n), PairRecordsF(), 1);
    VectorizedFrom(df, 1, PairRecordsF())
  }

  /** The same for a list of segments, which is first turned into a frame. */
  function CalculateIntersectionsVectorizedSegments(segs: seq<Segment>): seq<Record> {
    CalculateIntersectionsVectorized(FromSegments(segs))
  }

  /** The selection with the signs normalised: when det < 0 all three
      determinants are negated before the test. */
  function Normalized(d: SegUtils.Dets): (n: SegUtils.Dets)
    ensures n.det >= 0.0
    ensures d.det == 0.0 ==> n == d
    ensures d.det != 0.0 ==> n.det != 0.0 && n.det2 / n.det == d.det2 / d.det && n.det1 / n.det == d.det1 / d.det
  {
    if d.det < 0.0 then SegUtils.Dets(-d.det, -d.det1, -d.det2) else d
  }

  /** The pair records with sign normalisation. */
  function PairRecordsNormalized(seg1: Segment, seg2: Segment): (r: seq<Record>)
    ensures |r| <= 1
  {
    var d := Normalized(SegUtils.Determinants(seg1, seg2));
    if !Selected(d) then []
    else if d.det == 0.0 then FindCollinearIntersectionsVect(seg1.p1, seg1.p2, seg2.p1, seg2.p2)
    else [TrueIntersection(seg1, seg2, At(seg1, d.det2 / d.det))]
  }

  /** With normalisation every pair yields the points of the determinant
      engine, whatever the sign of det. */
  lemma PairRecordsNormalizedMatchUtils(seg1: Segment, seg2: Segment)
    ensures Expand(PairRecordsNormalized(seg1, seg2)) == SegUtils.FindIntersection(seg1, seg2, None, Identity)
  {
    var d0 := SegUtils.Determinants(seg1, seg2);
    var d := Normalized(d0);
    assert SegUtils.ConvSeg(seg1, Identity) == seg1 && SegUtils.ConvSeg(seg2, Identity) == seg2;
    SelectedCases(d);
    if d.det == 0.0 {
      VectMatchesCollinear(seg1, seg2);
    } else {
      var r := PairRecordsNormalized(seg1, seg2);
      if r != [] {
        assert r == r[..0] + [r[0]];
      }
      if 0.0 <= d.det1 / d.det <= 1.0 && 0.0 <= d.det2 / d.det <= 1.0 {
        QuotientUnit(d.det1, d.det);
        QuotientUnit(d.det2, d.det);
      }
    }
  }

  function PairRecordsNormalizedF(): (Segment, Segment) -> seq<Record> {
    (a: Segment, b: Segment) => PairRecordsNormalized(a, b)
  }

  /** The batch engine with normalised selection. */
  function CalculateIntersectionsVectorizedNormalized(df: Frame): seq<Record> {
    VectorizedFrom(df, 1, PairRecordsNormalizedF())
  }

  /** The row pairs one offset visits: (k + i, k) for k < n - i. */
  function Diagonal(n: nat, i: nat, k: nat): seq<(nat, nat)>
    decreases n - k
  {
    if i > n || k >= n - i then [] else [(k + i, k)] + Diagonal(n, i, k + 1)
  }

  /** All row pairs in visiting order, offsets `i` and up. */
  function VisitedFrom(n: nat, i: nat): seq<(nat, nat)>
    decreases n - i
  {
    if i >= n then [] else Diagonal(n, i, 0) + VisitedFrom(n, i + 1)
  }

  function Visited(n: nat): seq<(nat, nat)> {
    VisitedFrom(n, 1)
  }

  lemma {:induction false} DiagonalMembers(n: nat, i: nat, k: nat, a: nat, b: nat)
    ensures (a, b) in Diagonal(n, i, k) <==> i <= n && k <= b && b < n - i && a == b + i
    decreases n - k
  {
    if i <= n && k < n - i {
      DiagonalMembers(n, i, k + 1, a, b);
    }
  }

  lemma {:induction false} VisitedFromMembers(n: nat, i: nat, a: nat, b: nat)
    requires i >= 1
    ensures (a, b) in VisitedFrom(n, i) <==> b + i <= a < n
    decreases n - i
  {
    if i < n {
      DiagonalMembers(n, i, 0, a, b);
      VisitedFromMembers(n, i + 1, a, b);
    }
  }

  /** Exactly the pairs (a, b) with b < a < n are visited. */
  lemma VisitedMembers(n: nat, a: nat, b: nat)
    ensures (a, b) in Visited(n) <==> b < a < n
  {
    VisitedFromMembers(n, 1, a, b);
  }

  predicate NoDuplicates(ps: seq<(nat, nat)>) {
    forall p, q :: 0 <= p < q < |ps| ==> ps[p] != ps[q]
  }

  lemma {:induction false} DiagonalShape(n: nat, i: nat, k: nat)
    ensures NoDuplicates(Diagonal(n, i, k))
    ensures forall p :: 0 <= p < |Diagonal(n, i, k)| ==> Diagonal(n, i, k)[p].0 == Diagonal(n, i, k)[p].1 + i
    ensures forall p :: 0 <= p < |Diagonal(n, i, k)| ==> Diagonal(n, i, k)[p].1 >= k
    ensures |Diagonal(n, i, k)| == if i <= n && k < n - i then n - i - k else 0
    decreases n - k
  {
    if i <= n && k < n - i {
      DiagonalShape(n, i, k + 1);
    }
  }

  lemma {:induction false} VisitedFromShape(n: nat, i: nat)
    requires i >= 1
    ensures NoDuplicates(VisitedFrom(n, i))
    ensures forall p :: 0 <= p < |VisitedFrom(n, i)| ==> VisitedFrom(n, i)[p].0 >= VisitedFrom(n, i)[p].1 + i
    ensures |VisitedFrom(n, i)| == if i < n then (n - i) * (n - i + 1) / 2 else 0
    decreases n - i
  {
    if i < n {
      DiagonalShape(n, i, 0);
      VisitedFromShape(n, i + 1);
      var d, rest := Diagonal(n, i, 0), VisitedFrom(n, i + 1);
      var all := d + rest;
      forall p, q | 0 <= p < q < |all| ensures all[p] != all[q] {
        if q < |d| {
          assert all[p] == d[p] && all[q] == d[q];
        } else if p >= |d| {
          assert all[p] == rest[p - |d|] && all[q] == rest[q - |d|];
        } else {
          assert all[p] == d[p] && all[q] == rest[q - |d|];
        }
      }
      forall p | 0 <= p < |all| ensures all[p].0 >= all[p].1 + i {
        if p >= |d| {
          assert all[p] == rest[p - |d|];
        }
      }
      var m := n - i;
      assert m * (m + 1) / 2 == m + (m - 1) * m / 2 by {
        assert m * (m + 1) == 2 * m + (m - 1) * m;
      }
    }
  }

  /** Every pair of distinct rows is visited exactly once: the visiting
      order has no duplicates, contains exactly the pairs b < a, and has
      n(n - 1)/2 entries. */
  lemma VisitedOnce(n: nat)
    ensures NoDuplicates(Visited(n))
    ensures forall a: nat, b: nat :: (a, b) in Visited(n) <==> b < a < n
    ensures |Visited(n)| == n * (n - 1) / 2
  {
    VisitedFromShape(n, 1);
    forall a: nat, b: nat ensures (a, b) in Visited(n) <==> b < a < n {
      VisitedMembers(n, a, b);
    }
    if n == 0 {
      assert n * (n - 1) / 2 == 0;
    }
  }

  lemma VisitedInRange(n: nat)
    ensures InRange(Visited(n), n)
  {
    forall p | 0 <= p < |Visited(n)| ensures Visited(n)[p].0 < n && Visited(n)[p].1 < n {
      VisitedMembers(n, Visited(n)[p].0, Visited(n)[p].1);
    }
  }

  lemma {:induction false} DiagonalFlat<T>(df: Frame, segs: seq<Segment>, i: nat, k: nat, pair: (Segment, Segment) -> seq<T>)
    requires segs == RowsOf(df) && 1 <= i < Len(df)
    ensures InRange(Diagonal(Len(df), i, k), |segs|)
    ensures FindIntersectionsVectFrom(ILocFrom(df, i), ILocDropLast(df, i), k, pair)
         == FlatMap(segs, Diagonal(Len(df), i, k), pair)
    decreases Len(df) - k
  {
    var n := Len(df);
    DiagonalInRange(n, i, k);
    if k < n - i {
      DiagonalFlat(df, segs, i, k + 1, pair);
      DiagonalFlatStep(df, segs, i, k, pair);
    } else {
      assert Diagonal(n, i, k) == [];
    }
  }

  lemma DiagonalInRange(n: nat, i: nat, k: nat)
    ensures InRange(Diagonal(n, i, k), n)
  {
    forall p | 0 <= p < |Diagonal(n, i, k)| ensures Diagonal(n, i, k)[p].0 < n && Diagonal(n, i, k)[p].1 < n {
      DiagonalMembers(n, i, k, Diagonal(n, i, k)[p].0, Diagonal(n, i, k)[p].1);
    }
  }

  lemma DiagonalCons(n: nat, i: nat, k: nat)
    requires i <= n && k < n - i
    ensures Diagonal(n, i, k) == [(k + i, k)] + Diagonal(n, i, k + 1)
  {
  }

  lemma DiagonalFlatStep<T>(df: Frame, segs: seq<Segment>, i: nat, k: nat, pair: (Segment, Segment) -> seq<T>)
    requires |segs| == Len(df) && forall m :: 0 <= m < Len(df) ==> segs[m] == RowOf(df, m)
    requires 1 <= i < Len(df) && k < Len(df) - i
    requires InRange(Diagonal(Len(df), i, k + 1), |segs|)
    requires FindIntersectionsVectFrom(ILocFrom(df, i), ILocDropLast(df, i), k + 1, pair)
          == FlatMap(segs, Diagonal(Len(df), i, k + 1), pair)
    ensures InRange(Diagonal(Len(df), i, k), |segs|)
    ensures FindIntersectionsVectFrom(ILocFrom(df, i), ILocDropLast(df, i), k, pair)
         == FlatMap(segs, Diagonal(Len(df), i, k), pair)
  {
    var n := Len(df);
    var a: nat := k + i;
    var rest := Diagonal(n, i, k + 1);
    DiagonalCons(n, i, k);
    FlatMapCons(segs, a, k, rest, pair);
    VectFromStep(df, segs, i, k, pair);
  }

  /** One row pair of the shifted frames: row k of `df.iloc[i:]` is row
      k + i, row k of `df.iloc[:-i]` is row k. */
  lemma VectFromStep<T>(df: Frame, segs: seq<Segment>, i: nat, k: nat, pair: (Segment, Segment) -> seq<T>)
    requires |segs| == Len(df) && forall m :: 0 <= m < Len(df) ==> segs[m] == RowOf(df, m)
    requires 1 <= i < Len(df) && k < Len(df) - i
    ensures FindIntersectionsVectFrom(ILocFrom(df, i), ILocDropLast(df, i), k, pair)
         == pair(segs[k + i], segs[k]) + FindIntersectionsVectFrom(ILocFrom(df, i), ILocDropLast(df, i), k + 1, pair)
  {
    assert RowOf(ILocFrom(df, i), k) == segs[k + i];
    assert RowOf(ILocDropLast(df, i), k) == segs[k];
  }

  lemma FlatMapCons<S, T>(segs: seq<S>, a: nat, b: nat, rest: seq<(nat, nat)>, f: (S, S) -> seq<T>)
    requires a < |segs| && b < |segs| && InRange(rest, |segs|)
    ensures InRange([(a, b)] + rest, |segs|)
    ensures FlatMap(segs, [(a, b)] + rest, f) == f(segs[a], segs[b]) + FlatMap(segs, rest, f)
  {
    var one: seq<(nat, nat)> := [(a, b)];
    assert InRange(one, |segs|);
    FlatMapAppend(segs, one, rest, f);
    assert one[..0] == [];
    assert FlatMap(segs, one, f) == f(segs[a], segs[b]);
  }

  /** The frame's rows as segments. */
  function RowsOf(df: Frame): (segs: seq<Segment>)
    ensures |segs| == Len(df)
    ensures forall k :: 0 <= k < Len(df) ==> segs[k] == RowOf(df, k)
  {
    seq(Len(df), k requires 0 <= k < Len(df) => RowOf(df, k))
  }

  lemma {:induction false} VisitedFromFlat<T>(df: Frame, i: nat, pair: (Segment, Segment) -> seq<T>)
    requires i >= 1
    ensures InRange(VisitedFrom(Len(df), i), Len(df))
    ensures VectorizedFrom(df, i, pair) == FlatMap(RowsOf(df), VisitedFrom(Len(df), i), pair)
    decreases Len(df) - i
  {
    if i < Len(df) {
      var segs := RowsOf(df);
      VisitedFromFlat(df, i + 1, pair);
      VisitedFromStep(df, segs, i, pair);
    } else {
      assert VisitedFrom(Len(df), i) == [];
    }
  }

  /** One offset more: its diagonal comes first. */
  lemma VisitedFromStep<T>(df: Frame, segs: seq<Segment>, i: nat, pair: (Segment, Segment) -> seq<T>)
    requires segs == RowsOf(df) && 1 <= i < Len(df)
    requires InRange(VisitedFrom(Len(df), i + 1), |segs|)
    requires VectorizedFrom(df, i + 1, pair) == FlatMap(segs, VisitedFrom(Len(df), i + 1), pair)
    ensures InRange(VisitedFrom(Len(df), i), |segs|)
    ensures VectorizedFrom(df, i, pair) == FlatMap(segs, VisitedFrom(Len(df), i), pair)
  {
    var n := Len(df);
    var d, rest := Diagonal(n, i, 0), VisitedFrom(n, i + 1);
    DiagonalFlat(df, segs, i, 0, pair);
    assert VisitedFrom(n, i) == d + rest;
    FlatMapAppend(segs, d, rest, pair);
  }

  /** The batch engine is the per-pair records concatenated over the
      visiting order. */
  lemma VectorizedIsFlatMap(df: Frame)
    ensures InRange(Visited(Len(df)), Len(df))
    ensures CalculateIntersectionsVectorized(df) == FlatMap(RowsOf(df), Visited(Len(df)), PairRecordsF())
    ensures CalculateIntersectionsVectorizedNormalized(df) == FlatMap(RowsOf(df), Visited(Len(df)), PairRecordsNormalizedF())
  {
    VisitedFromFlat(df, 1, PairRecordsF());
    VisitedFromFlat(df, 1, PairRecordsNormalizedF());
  }
}
