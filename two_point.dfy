/** The two-point-form line-line intersection with bounding-box
    acceptance, shared (as separate copies) by the Decimal displayer, the
    Fraction script and the Python adapters' helper module. */
module TwoPoint {
  import opened Wrappers
  import opened Geometry
  import opened Collinear
  import SegUtils

  /** `(x1 - x2) * (y3 - y4) - (y1 - y2) * (x3 - x4)`. */
  function Denominator(seg1: Segment, seg2: Segment): real {
    var (x1, y1, x2, y2) := (seg1.p1.x, seg1.p1.y, seg1.p2.x, seg1.p2.y);
    var (x3, y3, x4, y4) := (seg2.p1.x, seg2.p1.y, seg2.p2.x, seg2.p2.y);
    (x1 - x2) * (y3 - y4) - (y1 - y2) * (x3 - x4)
  }

  function NumX(seg1: Segment, seg2: Segment): real {
    var (x1, y1, x2, y2) := (seg1.p1.x, seg1.p1.y, seg1.p2.x, seg1.p2.y);
    var (x3, y3, x4, y4) := (seg2.p1.x, seg2.p1.y, seg2.p2.x, seg2.p2.y);
    (x1 * y2 - y1 * x2) * (x3 - x4) - (x1 - x2) * (x3 * y4 - y3 * x4)
  }

  function NumY(seg1: Segment, seg2: Segment): real {
    var (x1, y1, x2, y2) := (seg1.p1.x, seg1.p1.y, seg1.p2.x, seg1.p2.y);
    var (x3, y3, x4, y4) := (seg2.p1.x, seg2.p1.y, seg2.p2.x, seg2.p2.y);
    (x1 * y2 - y1 * x2) * (y3 - y4) - (y1 - y2) * (x3 * y4 - y3 * x4)
  }

  /** The two equalities examined when the denominator is zero: p3 on the
      line p1p2, and p1 on the line p3p4. */
  predicate CollinearEqualities(seg1: Segment, seg2: Segment) {
    var (x1, y1, x2, y2) := (seg1.p1.x, seg1.p1.y, seg1.p2.x, seg1.p2.y);
    var (x3, y3, x4, y4) := (seg2.p1.x, seg2.p1.y, seg2.p2.x, seg2.p2.y);
    (y2 - y1) * (x3 - x1) == (y3 - y1) * (x2 - x1) && (y4 - y3) * (x1 - x3) == (y1 - y3) * (x4 - x3)
  }

  function Min(a: real, b: real): real { if b < a then b else a }
  function Max(a: real, b: real): real { if b > a then b else a }

  /** The inclusive bounding box of `s`, widened by `e` on all four sides. */
  predicate InBox(p: Point, s: Segment, e: real) {
    Min(s.p1.x, s.p2.x) - e <= p.x <= Max(s.p1.x, s.p2.x) + e
    && Min(s.p1.y, s.p2.y) - e <= p.y <= Max(s.p1.y, s.p2.y) + e
  }

  /** The widening actually applied: epsilon when it is truthy, else none. */
  function Widening(epsilon: Option<real>): real {
    if SegUtils.Truthy(epsilon) then epsilon.value else 0.0
  }

  /** The candidate point `(num_x / den, num_y / den)`. */
  function Candidate(seg1: Segment, seg2: Segment): Point
    requires Denominator(seg1, seg2) != 0.0
  {
    Point(NumX(seg1, seg2) / Denominator(seg1, seg2), NumY(seg1, seg2) / Denominator(seg1, seg2))
  }

  /** `find_intersection(seg1, seg2, epsilon)`: the candidate, passed
      through `round` (the `float()` of the printing copies), when it lies in
      both widened boxes; the resolver's points when the denominator is
      zero and both equalities hold; nothing otherwise. */
  function FindIntersection(seg1: Segment, seg2: Segment, epsilon: Option<real>, round: real -> real): (r: seq<Point>)
    ensures |r| <= 2
    ensures Denominator(seg1, seg2) == 0.0 && !CollinearEqualities(seg1, seg2) ==> r == []
    ensures Denominator(seg1, seg2) == 0.0 && CollinearEqualities(seg1, seg2) ==> r == FindCollinearIntersections(seg1, seg2)
    ensures Denominator(seg1, seg2) != 0.0 ==>
      var c, e := Candidate(seg1, seg2), Widening(epsilon);
      r == (if InBox(c, seg1, e) && InBox(c, seg2, e) then [Point(round(c.x), round(c.y))] else [])
  {
    var den := Denominator(seg1, seg2);
    if den == 0.0 then
      if CollinearEqualities(seg1, seg2) then FindCollinearIntersections(seg1, seg2) else []
    else
      var c := Point(NumX(seg1, seg2) / den, NumY(seg1, seg2) / den);
      var e := Widening(epsilon);
      if InBox(c, seg1, e) && InBox(c, seg2, e) then [Point(round(c.x), round(c.y))] else []
  }

  /** The denominator is the determinant of the two directions, and the
      two equalities say that the other two determinants vanish. */
  lemma DenominatorIsDet(seg1: Segment, seg2: Segment)
    ensures Denominator(seg1, seg2) == SegUtils.Determinants(seg1, seg2).det
    ensures CollinearEqualities(seg1, seg2) <==>
      SegUtils.Determinants(seg1, seg2).det1 == 0.0 && SegUtils.Determinants(seg1, seg2).det2 == 0.0
  {
  }

  /** The numerators are `x1 * det + det2 * dx1` and `y1 * det + det2 * dy1`. */
  lemma NumeratorsAsDets(seg1: Segment, seg2: Segment)
    ensures var d := SegUtils.Determinants(seg1, seg2);
      NumX(seg1, seg2) == seg1.p1.x * d.det + d.det2 * (seg1.p2.x - seg1.p1.x)
      && NumY(seg1, seg2) == seg1.p1.y * d.det + d.det2 * (seg1.p2.y - seg1.p1.y)
  {
  }

  /** The candidate is the point at parameter det2/det on the first line
      and at det1/det on the second: it lies on both infinite lines. */
  lemma CandidateOnBothLines(seg1: Segment, seg2: Segment)
    requires Denominator(seg1, seg2) != 0.0
    ensures var d := SegUtils.Determinants(seg1, seg2);
      Candidate(seg1, seg2) == At(seg1, d.det2 / d.det) == At(seg2, d.det1 / d.det)
    ensures OnLineOf(Candidate(seg1, seg2), seg1) && OnLineOf(Candidate(seg1, seg2), seg2)
  {
    var d := SegUtils.Determinants(seg1, seg2);
    DenominatorIsDet(seg1, seg2);
    NumeratorsAsDets(seg1, seg2);
    var t := d.det2 / d.det;
    assert NumX(seg1, seg2) / d.det == seg1.p1.x + t * (seg1.p2.x - seg1.p1.x);
    assert NumY(seg1, seg2) / d.det == seg1.p1.y + t * (seg1.p2.y - seg1.p1.y);
    SegUtils.CrossingAgrees(seg1, seg2);
    AtOnLine(seg1, t);
    AtOnLine(seg2, d.det1 / d.det);
  }

  lemma AtOnLine(s: Segment, t: real)
    ensures OnLineOf(At(s, t), s)
  {
    var dx, dy := s.p2.x - s.p1.x, s.p2.y - s.p1.y;
    assert At(s, t).x - s.p1.x == t * dx && At(s, t).y - s.p1.y == t * dy;
    assert dx * (t * dy) == dy * (t * dx);
  }

  /** A point of a segment lies in its (unwidened) bounding box. */
  lemma OnSegmentInBox(p: Point, s: Segment)
    requires OnSegment(p, s)
    ensures InBox(p, s, 0.0)
  {
    var t :| 0.0 <= t <= 1.0 && p == At(s, t);
    Between(s.p1.x, s.p2.x, t);
    Between(s.p1.y, s.p2.y, t);
  }

  lemma Between(a: real, b: real, t: real)
    requires 0.0 <= t <= 1.0
    ensures Min(a, b) <= a + t * (b - a) <= Max(a, b)
  {
    if a <= b {
      ProductNonNegative(t, b - a);
      ProductNonNegative(1.0 - t, b - a);
    } else {
      ProductNonNegative(t, a - b);
      ProductNonNegative(1.0 - t, a - b);
    }
  }

  lemma ProductNonNegative(x: real, y: real)
    requires x >= 0.0 && y >= 0.0
    ensures x * y >= 0.0
  {
  }

  /** A point on the line of a proper segment and inside its bounding
      box is a point of the segment. */
  lemma InBoxOnSegment(p: Point, s: Segment)
    requires s.p1 != s.p2 && OnLineOf(p, s) && InBox(p, s, 0.0)
    ensures OnSegment(p, s)
  {
    if s.p1.x != s.p2.x {
      OnSegmentByX(p, s);
    } else {
      OnSegmentByY(p, s);
    }
  }

  /** Without widening and rounding, the two-point form and the
      determinant engine report the same points for every pair. */
  lemma MatchesDeterminantEngine(seg1: Segment, seg2: Segment)
    ensures FindIntersection(seg1, seg2, None, Identity) == SegUtils.FindIntersection(seg1, seg2, None, Identity)
  {
    if Denominator(seg1, seg2) != 0.0 {
      MatchesNonParallel(seg1, seg2);
    } else {
      MatchesParallel(seg1, seg2);
    }
  }

  lemma MatchesParallel(seg1: Segment, seg2: Segment)
    requires Denominator(seg1, seg2) == 0.0
    ensures FindIntersection(seg1, seg2, None, Identity) == SegUtils.FindIntersection(seg1, seg2, None, Identity)
  {
    assert SegUtils.ConvSeg(seg1, Identity) == seg1 && SegUtils.ConvSeg(seg2, Identity) == seg2;
    DenominatorIsDet(seg1, seg2);
  }

  lemma MatchesNonParallel(seg1: Segment, seg2: Segment)
    requires Denominator(seg1, seg2) != 0.0
    ensures FindIntersection(seg1, seg2, None, Identity) == SegUtils.FindIntersection(seg1, seg2, None, Identity)
  {
    var c := Candidate(seg1, seg2);
    if InBox(c, seg1, 0.0) && InBox(c, seg2, 0.0) {
      BoxedCandidateReported(seg1, seg2);
    } else {
      UtilsPointInBoxes(seg1, seg2);
    }
  }

  /** A candidate in both boxes is the one point the determinant engine
      reports. */
  lemma BoxedCandidateReported(seg1: Segment, seg2: Segment)
    requires Denominator(seg1, seg2) != 0.0
    requires InBox(Candidate(seg1, seg2), seg1, 0.0) && InBox(Candidate(seg1, seg2), seg2, 0.0)
    ensures SegUtils.FindIntersection(seg1, seg2, None, Identity) == [Candidate(seg1, seg2)]
  {
    var c := Candidate(seg1, seg2);
    CandidateOnBothLines(seg1, seg2);
    ProperSegments(seg1, seg2);
    InBoxOnSegment(c, seg1);
    InBoxOnSegment(c, seg2);
    DenominatorIsDet(seg1, seg2);
    IdentityConv(seg1);
    IdentityConv(seg2);
    SegUtils.FindIntersectionComplete(seg1, seg2, Identity, c);
  }

  lemma IdentityConv(s: Segment)
    ensures SegUtils.ConvSeg(s, Identity) == s
  {
  }

  /** A non-zero denominator needs two proper segments. */
  lemma ProperSegments(seg1: Segment, seg2: Segment)
    requires Denominator(seg1, seg2) != 0.0
    ensures seg1.p1 != seg1.p2 && seg2.p1 != seg2.p2
  {
  }

  /** A point the determinant engine reports for a non-parallel pair is the
      candidate and lies in both boxes. */
  lemma UtilsPointInBoxes(seg1: Segment, seg2: Segment)
    requires Denominator(seg1, seg2) != 0.0
    ensures SegUtils.FindIntersection(seg1, seg2, None, Identity) != [] ==>
      InBox(Candidate(seg1, seg2), seg1, 0.0) && InBox(Candidate(seg1, seg2), seg2, 0.0)
  {
    assert SegUtils.ConvSeg(seg1, Identity) == seg1 && SegUtils.ConvSeg(seg2, Identity) == seg2;
    DenominatorIsDet(seg1, seg2);
    CandidateOnBothLines(seg1, seg2);
    var d := SegUtils.Determinants(seg1, seg2);
    var s, t := d.det1 / d.det, d.det2 / d.det;
    if 0.0 <= s <= 1.0 && 0.0 <= t <= 1.0 {
      var c := Candidate(seg1, seg2);
      assert OnSegment(c, seg1);
      assert OnSegment(c, seg2);
      OnSegmentInBox(c, seg1);
      OnSegmentInBox(c, seg2);
    }
  }

  /** An accepted unwidened candidate lies on both segments. */
  lemma AcceptedOnBothSegments(seg1: Segment, seg2: Segment)
    requires Denominator(seg1, seg2) != 0.0
    ensures forall p :: p in FindIntersection(seg1, seg2, None, Identity) ==> OnSegment(p, seg1) && OnSegment(p, seg2)
  {
    MatchesDeterminantEngine(seg1, seg2);
    DenominatorIsDet(seg1, seg2);
    SegUtils.FindIntersectionSound(seg1, seg2, Identity);
    assert SegUtils.ConvSeg(seg1, Identity) == seg1 && SegUtils.ConvSeg(seg2, Identity) == seg2;
  }

  /** Swapping the segments negates the denominator and both numerators,
      exchanges the two equalities, and so leaves the result unchanged. */
  lemma Symmetric(seg1: Segment, seg2: Segment, epsilon: Option<real>, round: real -> real)
    ensures Denominator(seg2, seg1) == -Denominator(seg1, seg2)
    ensures NumX(seg2, seg1) == -NumX(seg1, seg2) && NumY(seg2, seg1) == -NumY(seg1, seg2)
    ensures FindIntersection(seg1, seg2, epsilon, round) == FindIntersection(seg2, seg1, epsilon, round)
  {
    CollinearSymmetric(seg1, seg2);
    if Denominator(seg1, seg2) != 0.0 {
      assert Candidate(seg1, seg2) == Candidate(seg2, seg1);
    }
  }

  /** A wider box accepts everything a narrower one does; `None` and 0 are
      the same (no widening). */
  lemma EpsilonMonotone(seg1: Segment, seg2: Segment, e1: Option<real>, e2: Option<real>, round: real -> real)
    requires Widening(e1) <= Widening(e2)
    ensures FindIntersection(seg1, seg2, e1, round) != [] ==>
      FindIntersection(seg1, seg2, e2, round) == FindIntersection(seg1, seg2, e1, round)
  {
  }

  lemma EpsilonZeroIsNone(seg1: Segment, seg2: Segment, round: real -> real)
    ensures FindIntersection(seg1, seg2, Some(0.0), round) == FindIntersection(seg1, seg2, None, round)
  {
  }
}
