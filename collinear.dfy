/** The collinear-overlap resolver. The same function is copied, word for
    word, into every Python intersection engine of the repository; this
    module models it once. */
module Collinear {
  import opened Geometry

  /** The x-ranges of the two segments do not meet: the only disjointness
      test the resolver performs. */
  predicate XDisjoint(seg1: Segment, seg2: Segment) {
    var (a1, a2) := Sort2(seg1.p1, seg1.p2);
    var (b1, b2) := Sort2(seg2.p1, seg2.p2);
    a2.x < b1.x || b2.x < a1.x
  }

  /** `max(points1[0], points2[0])`, the start of the reported overlap. */
  function OverlapStart(seg1: Segment, seg2: Segment): Point {
    MaxPt(Sort2(seg1.p1, seg1.p2).0, Sort2(seg2.p1, seg2.p2).0)
  }

  /** `min(points1[1], points2[1])`, the end of the reported overlap. */
  function OverlapEnd(seg1: Segment, seg2: Segment): Point {
    MinPt(Sort2(seg1.p1, seg1.p2).1, Sort2(seg2.p1, seg2.p2).1)
  }

  predicate IsEndpoint(p: Point, seg1: Segment, seg2: Segment) {
    p == seg1.p1 || p == seg1.p2 || p == seg2.p1 || p == seg2.p2
  }

  /** `find_collinear_intersections`: sorts each segment's endpoints by
      (x, y), gives up when the x-ranges are disjoint, and otherwise reports
      the larger start and the smaller end, once when they coincide. */
  function FindCollinearIntersections(seg1: Segment, seg2: Segment): (r: seq<Point>)
    ensures r == [] <==> XDisjoint(seg1, seg2)
    ensures |r| == 1 <==> !XDisjoint(seg1, seg2) && OverlapStart(seg1, seg2) == OverlapEnd(seg1, seg2)
    ensures |r| <= 2
    ensures |r| == 1 ==> r == [OverlapStart(seg1, seg2)]
    ensures |r| == 2 ==> r == [OverlapStart(seg1, seg2), OverlapEnd(seg1, seg2)]
    ensures forall p :: p in r ==> IsEndpoint(p, seg1, seg2)
    ensures |r| == 2 ==> r[0] != r[1]
  {
    if XDisjoint(seg1, seg2) then []
    else
      var start, end := OverlapStart(seg1, seg2), OverlapEnd(seg1, seg2);
      if start == end then [start] else [start, end]
  }

  /** The resolver does not depend on the order of its arguments. */
  lemma CollinearSymmetric(seg1: Segment, seg2: Segment)
    ensures FindCollinearIntersections(seg1, seg2) == FindCollinearIntersections(seg2, seg1)
  {
    assert OverlapStart(seg1, seg2) == OverlapStart(seg2, seg1);
    assert OverlapEnd(seg1, seg2) == OverlapEnd(seg2, seg1);
  }

  /** Because only x is compared, two vertical segments on the same line
      with disjoint y-ranges still report two points, neither of which lies
      on both segments. */
  lemma VerticalDisjointReported()
    ensures FindCollinearIntersections(Segment(Point(0.0, 0.0), Point(0.0, 2.0)),
                                       Segment(Point(0.0, 3.0), Point(0.0, 5.0)))
            == [Point(0.0, 3.0), Point(0.0, 2.0)]
    ensures !OnSegment(Point(0.0, 3.0), Segment(Point(0.0, 0.0), Point(0.0, 2.0)))
    ensures !OnSegment(Point(0.0, 2.0), Segment(Point(0.0, 3.0), Point(0.0, 5.0)))
  {
    var s1 := Segment(Point(0.0, 0.0), Point(0.0, 2.0));
    var s2 := Segment(Point(0.0, 3.0), Point(0.0, 5.0));
    assert !XDisjoint(s1, s2);
    assert forall t :: 0.0 <= t <= 1.0 ==> At(s1, t).y <= 2.0;
    assert forall t :: 0.0 <= t <= 1.0 ==> At(s2, t).y >= 3.0;
  }

  /** `p` lies on the line through the endpoints of `s`. */
  predicate OnLineOf(p: Point, s: Segment) {
    Cross(s.p2.x - s.p1.x, s.p2.y - s.p1.y, p.x - s.p1.x, p.y - s.p1.y) == 0.0
  }

  /** A point on the line of a non-vertical segment whose x lies in the
      segment's x-range is a point of the segment. */
  lemma OnSegmentByX(p: Point, s: Segment)
    requires s.p1.x != s.p2.x && OnLineOf(p, s)
    requires (s.p1.x <= p.x <= s.p2.x) || (s.p2.x <= p.x <= s.p1.x)
    ensures OnSegment(p, s)
  {
    var dx, dy := s.p2.x - s.p1.x, s.p2.y - s.p1.y;
    var u := p.x - s.p1.x;
    var t := u / dx;
    assert t * dx == u;
    assert dx * (p.y - s.p1.y) == dy * u;
    assert dy * u == (t * dy) * dx;
    assert p.y - s.p1.y == t * dy;
    assert 0.0 <= t <= 1.0;
    assert p == At(s, t);
  }

  /** The same along y, for a vertical segment. */
  lemma OnSegmentByY(p: Point, s: Segment)
    requires s.p1.x == s.p2.x && p.x == s.p1.x && s.p1.y != s.p2.y
    requires (s.p1.y <= p.y <= s.p2.y) || (s.p2.y <= p.y <= s.p1.y)
    ensures OnSegment(p, s)
  {
    var dy := s.p2.y - s.p1.y;
    var t := (p.y - s.p1.y) / dy;
    assert t * dy == p.y - s.p1.y;
    assert 0.0 <= t <= 1.0;
    assert p == At(s, t);
  }

  /** A point on the segment's line that lies between its endpoints in the
      (x, y) order is a point of the segment. */
  lemma BetweenOnSegment(p: Point, s: Segment)
    requires OnLineOf(p, s)
    requires Le(Sort2(s.p1, s.p2).0, p) && Le(p, Sort2(s.p1, s.p2).1)
    ensures OnSegment(p, s)
  {
    if s.p1.x != s.p2.x {
      OnSegmentByX(p, s);
    } else if s.p1.y != s.p2.y {
      OnSegmentByY(p, s);
    } else {
      assert p == s.p1 && p == At(s, 0.0);
    }
  }

  /** All four endpoints on the non-vertical line `y = m * x + c`. */
  predicate OnNonVerticalLine(seg1: Segment, seg2: Segment, m: real, c: real) {
    seg1.p1.y == m * seg1.p1.x + c && seg1.p2.y == m * seg1.p2.x + c
    && seg2.p1.y == m * seg2.p1.x + c && seg2.p2.y == m * seg2.p2.x + c
  }

  /** On a non-vertical line, a point whose x lies in a segment's x-range is
      a point of that segment. */
  lemma OnLineInXRange(p: Point, s: Segment, m: real, c: real)
    requires p.y == m * p.x + c && s.p1.y == m * s.p1.x + c && s.p2.y == m * s.p2.x + c
    requires InXRange(p, s)
    ensures OnSegment(p, s)
  {
    if s.p1.x != s.p2.x {
      assert s.p2.y - s.p1.y == m * (s.p2.x - s.p1.x);
      assert p.y - s.p1.y == m * (p.x - s.p1.x);
      assert OnLineOf(p, s);
      OnSegmentByX(p, s);
    } else {
      assert p == s.p1 && p == At(s, 0.0);
    }
  }

  /** On a non-vertical common line the x-only test is enough: every
      reported point lies on both segments. */
  lemma {:induction false} CollinearSoundNonVertical(seg1: Segment, seg2: Segment, m: real, c: real)
    requires OnNonVerticalLine(seg1, seg2, m, c)
    ensures forall p :: p in FindCollinearIntersections(seg1, seg2) ==> OnSegment(p, seg1) && OnSegment(p, seg2)
  {
    var r := FindCollinearIntersections(seg1, seg2);
    if r != [] {
      var start, end := OverlapStart(seg1, seg2), OverlapEnd(seg1, seg2);
      OverlapInXRanges(seg1, seg2);
      EndpointOnLine(start, seg1, seg2, m, c);
      EndpointOnLine(end, seg1, seg2, m, c);
      OnLineInXRange(start, seg1, m, c);
      OnLineInXRange(start, seg2, m, c);
      OnLineInXRange(end, seg1, m, c);
      OnLineInXRange(end, seg2, m, c);
      assert r == [start] || r == [start, end];
    }
  }

  /** A point of a segment whose endpoints are in (x, y) order lies between
      them in that order. */
  lemma AlongOrderedSegment(s: Segment, t: real)
    requires 0.0 <= t <= 1.0 && Le(s.p1, s.p2)
    ensures Le(s.p1, At(s, t)) && Le(At(s, t), s.p2)
  {
    var p := At(s, t);
    var dx, dy := s.p2.x - s.p1.x, s.p2.y - s.p1.y;
    assert p.x == s.p1.x + t * dx && p.y == s.p1.y + t * dy;
    if t == 0.0 {
      assert p == s.p1;
    } else if t == 1.0 {
      assert p == s.p2;
    } else if dx > 0.0 {
      StrictlyBetween(s.p1.x, dx, t);
    } else if dy > 0.0 {
      assert dx == 0.0 && p.x == s.p1.x && p.x == s.p2.x;
      StrictlyBetween(s.p1.y, dy, t);
      assert Lt(s.p1, p) && Lt(p, s.p2);
    } else {
      assert dx == 0.0 && dy == 0.0;
      assert p == s.p1;
    }
  }

  /** The same point, seen from the other end of the segment. */
  lemma ReversedAt(s: Segment, t: real)
    ensures At(Segment(s.p2, s.p1), 1.0 - t) == At(s, t)
  {
    ReversedStep(s.p1.x, s.p2.x, t);
    ReversedStep(s.p1.y, s.p2.y, t);
  }

  /** Going back from `b` by the rest of the way lands where going from
      `a` by `t` does. */
  lemma ReversedStep(a: real, b: real, t: real)
    ensures b + (1.0 - t) * (a - b) == a + t * (b - a)
  {
    assert (1.0 - t) * (a - b) == (a - b) - t * (a - b);
  }

  /** Strictly inside a step of positive length. */
  lemma StrictlyBetween(a: real, d: real, t: real)
    requires 0.0 < t < 1.0 && d > 0.0
    ensures a < a + t * d < a + d
  {
    PositiveProduct(t, d);
    PositiveProduct(1.0 - t, d);
    assert a + d - (a + t * d) == (1.0 - t) * d;
  }

  lemma PositiveProduct(a: real, b: real)
    requires a > 0.0 && b > 0.0
    ensures a * b > 0.0
  {
  }

  /** A point of a segment lies between its (x, y)-sorted endpoints. */
  lemma OnSegmentBetween(p: Point, s: Segment)
    requires OnSegment(p, s)
    ensures Le(Sort2(s.p1, s.p2).0, p) && Le(p, Sort2(s.p1, s.p2).1)
  {
    var t :| 0.0 <= t <= 1.0 && p == At(s, t);
    if Le(s.p1, s.p2) {
      AlongOrderedSegment(s, t);
    } else {
      ReversedAt(s, t);
      AlongOrderedSegment(Segment(s.p2, s.p1), 1.0 - t);
    }
  }

  /** Completeness: every point the two segments share lies between the
      reported start and end in (x, y) order, so the resolver reports
      something, and when it reports a single point that point is the
      shared one. Together with `CollinearSoundNonVertical`, the resolver
      reports the ends of the exact overlap on a non-vertical line. */
  lemma CollinearComplete(seg1: Segment, seg2: Segment, p: Point)
    requires OnSegment(p, seg1) && OnSegment(p, seg2)
    ensures var r := FindCollinearIntersections(seg1, seg2);
      r != [] && Le(OverlapStart(seg1, seg2), p) && Le(p, OverlapEnd(seg1, seg2)) &&
      (|r| == 1 ==> r == [p])
  {
    OnSegmentBetween(p, seg1);
    OnSegmentBetween(p, seg2);
    var start, end := OverlapStart(seg1, seg2), OverlapEnd(seg1, seg2);
    assert Le(start, p) && Le(p, end);
    assert !XDisjoint(seg1, seg2);
  }

  /** When the x-ranges meet, the reported start and end lie in both. */
  lemma OverlapInXRanges(seg1: Segment, seg2: Segment)
    requires !XDisjoint(seg1, seg2)
    ensures var start, end := OverlapStart(seg1, seg2), OverlapEnd(seg1, seg2);
      InXRange(start, seg1) && InXRange(start, seg2) && InXRange(end, seg1) && InXRange(end, seg2)
  {
  }

  predicate InXRange(p: Point, s: Segment) {
    (s.p1.x <= p.x <= s.p2.x) || (s.p2.x <= p.x <= s.p1.x)
  }

  lemma EndpointOnLine(p: Point, seg1: Segment, seg2: Segment, m: real, c: real)
    requires OnNonVerticalLine(seg1, seg2, m, c) && IsEndpoint(p, seg1, seg2)
    ensures p.y == m * p.x + c
  {
  }

  /** The segments' endpoints lie on each other's lines. */
  predicate AllCollinear(seg1: Segment, seg2: Segment) {
    OnLineOf(seg2.p1, seg1) && OnLineOf(seg2.p2, seg1) && OnLineOf(seg1.p1, seg2) && OnLineOf(seg1.p2, seg2)
  }

  /** The resolver with the disjointness test done in the (x, y) point order,
      evidently intended; it reports an interval whose start is not
      after its end. */
  function FindCollinearIntersectionsPointOrder(seg1: Segment, seg2: Segment): (r: seq<Point>)
    ensures |r| <= 2
    ensures |r| == 2 ==> Lt(r[0], r[1])
    ensures forall p :: p in r ==> IsEndpoint(p, seg1, seg2)
  {
    var (a1, a2) := Sort2(seg1.p1, seg1.p2);
    var (b1, b2) := Sort2(seg2.p1, seg2.p2);
    if Lt(a2, b1) || Lt(b2, a1) then []
    else
      var start, end := OverlapStart(seg1, seg2), OverlapEnd(seg1, seg2);
      if start == end then [start] else [start, end]
  }

  /** For collinear segments, every point the point-order resolver reports
      lies on both segments, vertical ones included. */
  lemma {:induction false} PointOrderSound(seg1: Segment, seg2: Segment)
    requires AllCollinear(seg1, seg2)
    ensures forall p :: p in FindCollinearIntersectionsPointOrder(seg1, seg2) ==> OnSegment(p, seg1) && OnSegment(p, seg2)
  {
    var r := FindCollinearIntersectionsPointOrder(seg1, seg2);
    if r != [] {
      var start, end := OverlapStart(seg1, seg2), OverlapEnd(seg1, seg2);
      EndpointsOnSegment(seg1);
      EndpointsOnSegment(seg2);
      if start == seg2.p1 || start == seg2.p2 { BetweenOnSegment(start, seg1); }
      if start == seg1.p1 || start == seg1.p2 { BetweenOnSegment(start, seg2); }
      if end == seg2.p1 || end == seg2.p2 { BetweenOnSegment(end, seg1); }
      if end == seg1.p1 || end == seg1.p2 { BetweenOnSegment(end, seg2); }
    }
  }

  /** The two resolvers agree whenever the x-ranges are disjoint or the
      segments are not vertical. */
  lemma PointOrderAgreesOffVertical(seg1: Segment, seg2: Segment, m: real, c: real)
    requires OnNonVerticalLine(seg1, seg2, m, c)
    ensures FindCollinearIntersections(seg1, seg2) == FindCollinearIntersectionsPointOrder(seg1, seg2)
  {
    var (a1, a2) := Sort2(seg1.p1, seg1.p2);
    var (b1, b2) := Sort2(seg2.p1, seg2.p2);
    assert b1.x == a2.x ==> b1 == a2;
    assert a1.x == b2.x ==> a1 == b2;
  }
}
