/** The test generator's own intersection code: a Cramer's-rule engine
    (as written, and corrected), its all-pairs drivers, the endpoint
    ordering of random segments, the segment sort and one adjustment step
    of the star generator. */
module Generator {
  import opened Wrappers
  import opened Geometry
  import opened Collinear
  import opened Pairs
  import SegUtils
  import TwoPoint

  /** `(x1 - x2) * (y4 - y3) - (y1 - y2) * (x4 - x3)`. */
  function Den(c1: Segment, c2: Segment): real {
    (c1.p1.x - c1.p2.x) * (c2.p2.y - c2.p1.y) - (c1.p1.y - c1.p2.y) * (c2.p2.x - c2.p1.x)
  }

  /** The numerator of u: `(x4 - x2) * (y4 - y3) - (x4 - x3) * (y4 - y2)`. */
  function NumU(c1: Segment, c2: Segment): real {
    (c2.p2.x - c1.p2.x) * (c2.p2.y - c2.p1.y) - (c2.p2.x - c2.p1.x) * (c2.p2.y - c1.p2.y)
  }

  /** The numerator of v: `(x1 - x2) * (y4 - y2) - (x4 - x2) * (y1 - y2)`. */
  function NumV(c1: Segment, c2: Segment): real {
    (c1.p1.x - c1.p2.x) * (c2.p2.y - c1.p2.y) - (c2.p2.x - c1.p2.x) * (c1.p1.y - c1.p2.y)
  }

  /** The point the source returns: `(x1 * u * (x2 - x1), y1 * u * (y2 - y1))`. */
  function ProductPoint(c1: Segment, u: real): Point {
    Point(c1.p1.x * u * (c1.p2.x - c1.p1.x), c1.p1.y * u * (c1.p2.y - c1.p1.y))
  }

  /** `find_intersection_r(seg1, seg2)`: the arithmetic runs on the
      converted coordinates (`conv` is the `Fraction` conversion), the
      resolver receives the original segments. Both parameters must lie in
      [0, 1]; the returned point is the product above. */
  function FindIntersectionR(seg1: Segment, seg2: Segment, conv: real -> real): (r: seq<Point>)
    ensures var c1, c2 := SegUtils.ConvSeg(seg1, conv), SegUtils.ConvSeg(seg2, conv);
      Den(c1, c2) == 0.0 ==>
        r == (if TwoPoint.CollinearEqualities(c1, c2) then FindCollinearIntersections(seg1, seg2) else [])
    ensures var c1, c2 := SegUtils.ConvSeg(seg1, conv), SegUtils.ConvSeg(seg2, conv);
      Den(c1, c2) != 0.0 ==>
        var u, v := NumU(c1, c2) / Den(c1, c2), NumV(c1, c2) / Den(c1, c2);
        r == (if 0.0 <= u <= 1.0 && 0.0 <= v <= 1.0 then [ProductPoint(c1, u)] else [])
  {
    var c1, c2 := SegUtils.ConvSeg(seg1, conv), SegUtils.ConvSeg(seg2, conv);
    var den := Den(c1, c2);
    if den == 0.0 then
      if TwoPoint.CollinearEqualities(c1, c2) then FindCollinearIntersections(seg1, seg2) else []
    else
      var u, v := NumU(c1, c2) / den, NumV(c1, c2) / den;
      if u < 0.0 || u > 1.0 then []
      else if v < 0.0 || v > 1.0 then []
      else [ProductPoint(c1, u)]
  }

  /** `find_intersection_d(seg1, seg2)`: the same formulas on the
      coordinates as they are. */
  function FindIntersectionD(seg1: Segment, seg2: Segment): (r: seq<Point>)
    ensures |r| <= 2
    ensures Den(seg1, seg2) != 0.0 ==> |r| <= 1
  {
    assert SegUtils.ConvSeg(seg1, Identity) == seg1 && SegUtils.ConvSeg(seg2, Identity) == seg2;
    FindIntersectionR(seg1, seg2, Identity)
  }

  /** The generator's quantities in terms of the package's determinants:
      den = -det, and the numerators are det2 - det and det1 - det. */
  lemma GeneratorDets(c1: Segment, c2: Segment)
    ensures var d := SegUtils.Determinants(c1, c2);
      Den(c1, c2) == -d.det && NumU(c1, c2) == d.det2 - d.det && NumV(c1, c2) == d.det1 - d.det
  {
  }

  /** u and v solve u * (p1 - p2) + v * (p4 - p3) = p4 - p2 (Cramer's rule). */
  lemma CramerSolves(c1: Segment, c2: Segment)
    requires Den(c1, c2) != 0.0
    ensures var u, v := NumU(c1, c2) / Den(c1, c2), NumV(c1, c2) / Den(c1, c2);
      u * (c1.p1.x - c1.p2.x) + v * (c2.p2.x - c2.p1.x) == c2.p2.x - c1.p2.x
      && u * (c1.p1.y - c1.p2.y) + v * (c2.p2.y - c2.p1.y) == c2.p2.y - c1.p2.y
  {
    var den := Den(c1, c2);
    var u, v := NumU(c1, c2) / den, NumV(c1, c2) / den;
    assert u * den == NumU(c1, c2) && v * den == NumV(c1, c2);
    assert (u * (c1.p1.x - c1.p2.x) + v * (c2.p2.x - c2.p1.x)) * den == (c2.p2.x - c1.p2.x) * den;
    assert (u * (c1.p1.y - c1.p2.y) + v * (c2.p2.y - c2.p1.y)) * den == (c2.p2.y - c1.p2.y) * den;
  }

  /** The crossing (0,0)-(2,2) with (0,2)-(2,0): both parameters are 1/2,
      the segments meet at (1, 1), and the product formula returns (0, 0),
      which is not a point of the second segment. */
  lemma ProductPointWrong()
    ensures var s1, s2 := Segment(Point(0.0, 0.0), Point(2.0, 2.0)), Segment(Point(0.0, 2.0), Point(2.0, 0.0));
      FindIntersectionD(s1, s2) == [Point(0.0, 0.0)]
      && OnSegment(Point(1.0, 1.0), s1) && OnSegment(Point(1.0, 1.0), s2)
      && !OnSegment(Point(0.0, 0.0), s2)
  {
    var s1, s2 := Segment(Point(0.0, 0.0), Point(2.0, 2.0)), Segment(Point(0.0, 2.0), Point(2.0, 0.0));
    assert SegUtils.ConvSeg(s1, Identity) == s1 && SegUtils.ConvSeg(s2, Identity) == s2;
    assert Den(s1, s2) == 8.0 && NumU(s1, s2) == 4.0 && NumV(s1, s2) == 4.0;
    assert Point(1.0, 1.0) == At(s1, 0.5) && Point(1.0, 1.0) == At(s2, 0.5);
    assert forall t :: At(s2, t).x + At(s2, t).y == 2.0;
  }

  /** The intended point: u measures from p2 towards p1, so the crossing is
      p2 + u * (p1 - p2). */
  function FindIntersectionCorrected(seg1: Segment, seg2: Segment, conv: real -> real): (r: seq<Point>)
    ensures |r| <= 2
  {
    var c1, c2 := SegUtils.ConvSeg(seg1, conv), SegUtils.ConvSeg(seg2, conv);
    var den := Den(c1, c2);
    if den == 0.0 then
      if TwoPoint.CollinearEqualities(c1, c2) then FindCollinearIntersections(seg1, seg2) else []
    else
      var u, v := NumU(c1, c2) / den, NumV(c1, c2) / den;
      if u < 0.0 || u > 1.0 then []
      else if v < 0.0 || v > 1.0 then []
      else [At(Segment(c1.p2, c1.p1), u)]
  }

  lemma OneMinus(n: real, d: real, t: real)
    requires d != 0.0 && t == n / d
    ensures (n - d) / -d == 1.0 - t
  {
    assert t * d == n;
    assert (1.0 - t) * -d == n - d;
    SegUtils.DivideBack(1.0 - t, -d, n - d);
  }

  /** The corrected engine reports exactly the determinant engine's points
      (without epsilon), for every pair and every conversion. */
  lemma CorrectedMatchesUtils(seg1: Segment, seg2: Segment, conv: real -> real)
    ensures FindIntersectionCorrected(seg1, seg2, conv) == SegUtils.FindIntersection(seg1, seg2, None, conv)
  {
    var c1, c2 := SegUtils.ConvSeg(seg1, conv), SegUtils.ConvSeg(seg2, conv);
    var d := SegUtils.Determinants(c1, c2);
    GeneratorDets(c1, c2);
    TwoPoint.DenominatorIsDet(c1, c2);
    if d.det != 0.0 {
      var s, t := d.det1 / d.det, d.det2 / d.det;
      OneMinus(d.det2, d.det, t);
      OneMinus(d.det1, d.det, s);
      var u, v := NumU(c1, c2) / Den(c1, c2), NumV(c1, c2) / Den(c1, c2);
      assert u == 1.0 - t && v == 1.0 - s;
      assert (0.0 <= u <= 1.0) == (0.0 <= t <= 1.0);
      assert (0.0 <= v <= 1.0) == (0.0 <= s <= 1.0);
      assert At(Segment(c1.p2, c1.p1), u) == At(c1, t);
    }
  }

  /** The engine as written accepts exactly the pairs the determinant
      engine accepts, and reports the same number of points; parallel pairs
      get the very same points, and a crossing differs only in the point
      built from u: the product where the package has p2 + u * (p1 - p2). */
  lemma AsWrittenAcceptance(seg1: Segment, seg2: Segment, conv: real -> real)
    ensures var r, q := FindIntersectionR(seg1, seg2, conv), SegUtils.FindIntersection(seg1, seg2, None, conv);
      |r| == |q| &&
      var c1, c2 := SegUtils.ConvSeg(seg1, conv), SegUtils.ConvSeg(seg2, conv);
      (Den(c1, c2) == 0.0 ==> r == q) &&
      (Den(c1, c2) != 0.0 && r != [] ==>
         var u := NumU(c1, c2) / Den(c1, c2);
         r == [ProductPoint(c1, u)] && q == [At(Segment(c1.p2, c1.p1), u)])
  {
    CorrectedMatchesUtils(seg1, seg2, conv);
  }

  function FinderD(): (Segment, Segment) -> seq<Point> {
    (a: Segment, b: Segment) => FindIntersectionD(a, b)
  }

  function FinderR(conv: real -> real): (Segment, Segment) -> seq<Point> {
    (a: Segment, b: Segment) => FindIntersectionR(a, b, conv)
  }

  /** `calculate_intersections_d(segments)`. */
  method CalculateIntersectionsD(segs: seq<Segment>) returns (r: seq<Point>)
    ensures InRange(Combinations(|segs|), |segs|)
    ensures r == FlatMap(segs, Combinations(|segs|), FinderD())
    ensures |r| == TotalLength(segs, Combinations(|segs|), FinderD())
  {
    CombinationsInRange(|segs|);
    r := ExtendOverPairs(segs, Combinations(|segs|), FinderD());
  }

  /** `calculate_intersections_r(segments)`. */
  method CalculateIntersectionsR(segs: seq<Segment>, conv: real -> real) returns (r: seq<Point>)
    ensures InRange(Combinations(|segs|), |segs|)
    ensures r == FlatMap(segs, Combinations(|segs|), FinderR(conv))
    ensures |r| == TotalLength(segs, Combinations(|segs|), FinderR(conv))
  {
    CombinationsInRange(|segs|);
    r := ExtendOverPairs(segs, Combinations(|segs|), FinderR(conv));
  }

  /** With the corrected point, the all-pairs result is the package's. */
  lemma CorrectedDriverMatchesPairwise(segs: seq<Segment>, conv: real -> real)
    ensures InRange(Combinations(|segs|), |segs|)
    ensures FlatMap(segs, Combinations(|segs|), (a: Segment, b: Segment) => FindIntersectionCorrected(a, b, conv))
         == SegUtils.CalculateIntersectionsPairwise(segs, None, conv)
  {
    CombinationsInRange(|segs|);
    forall a, b ensures FindIntersectionCorrected(a, b, conv) == SegUtils.Finder(None, conv)(a, b) {
      CorrectedMatchesUtils(a, b, conv);
    }
    FlatMapCongruent(segs, Combinations(|segs|), (a: Segment, b: Segment) => FindIntersectionCorrected(a, b, conv), SegUtils.Finder(None, conv));
  }

  /** `calculate_intersections_q(intersections)`: `float()` of both
      coordinates of every point, in order. */
  method CalculateIntersectionsQ(pts: seq<Point>, round: real -> real) returns (r: seq<Point>)
    ensures |r| == |pts|
    ensures forall k :: 0 <= k < |pts| ==> r[k] == Point(round(pts[k].x), round(pts[k].y))
  {
    r := [];
    for k := 0 to |pts|
      invariant |r| == k
      invariant forall m :: 0 <= m < k ==> r[m] == Point(round(pts[m].x), round(pts[m].y))
    {
      r := r + [Point(round(pts[k].x), round(pts[k].y))];
    }
  }

  // ---------------------------------------------------------------------
  // Tagged results

  type Tagged = (Point, Segment, Segment)

  /** The points of one pair, each tagged with the pair. */
  function Tag(pts: seq<Point>, a: Segment, b: Segment): (r: seq<Tagged>)
    ensures |r| == |pts|
    ensures forall k :: 0 <= k < |pts| ==> r[k] == (pts[k], a, b)
  {
    if pts == [] then [] else Tag(pts[..|pts| - 1], a, b) + [(pts[|pts| - 1], a, b)]
  }

  function Firsts(ts: seq<Tagged>): (r: seq<Point>)
    ensures |r| == |ts|
    ensures forall k :: 0 <= k < |ts| ==> r[k] == ts[k].0
  {
    if ts == [] then [] else Firsts(ts[..|ts| - 1]) + [ts[|ts| - 1].0]
  }

  lemma FirstsAppend(a: seq<Tagged>, b: seq<Tagged>)
    ensures Firsts(a + b) == Firsts(a) + Firsts(b)
  {
    assert forall k :: 0 <= k < |a + b| ==> Firsts(a + b)[k] == (Firsts(a) + Firsts(b))[k];
  }

  function Tagger(find: (Segment, Segment) -> seq<Point>): (Segment, Segment) -> seq<Tagged> {
    (a: Segment, b: Segment) => Tag(find(a, b), a, b)
  }

  /** Stripping the tags from the tagged concatenation gives the plain one. */
  lemma {:induction false} FirstsOfTagged(segs: seq<Segment>, pairs: seq<(nat, nat)>, find: (Segment, Segment) -> seq<Point>)
    requires InRange(pairs, |segs|)
    ensures Firsts(FlatMap(segs, pairs, Tagger(find))) == FlatMap(segs, pairs, find)
  {
    if pairs != [] {
      var init, last := pairs[..|pairs| - 1], pairs[|pairs| - 1];
      FirstsOfTagged(segs, init, find);
      var tagger := Tagger(find);
      FirstsAppend(FlatMap(segs, init, tagger), tagger(segs[last.0], segs[last.1]));
    }
  }

  /** The inner loop of `accurate_intersections_*`: one pair's points,
      tagged, appended to `out0`. */
  method AppendTagged(out0: seq<Tagged>, pts: seq<Point>, a: Segment, b: Segment) returns (out: seq<Tagged>)
    ensures out == out0 + Tag(pts, a, b)
  {
    out := out0;
    for k := 0 to |pts|
      invariant out == out0 + Tag(pts[..k], a, b)
    {
      assert pts[..k + 1][..k] == pts[..k];
      out := out + [(pts[k], a, b)];
    }
    assert pts[..|pts|] == pts;
  }

  /** The loop shared by `accurate_intersections_d` and `_r`: for each
      pair in `itertools.combinations` order, each point tagged with the
      pair. */
  method AccurateIntersections(segs: seq<Segment>, find: (Segment, Segment) -> seq<Point>) returns (r: seq<Tagged>)
    ensures InRange(Combinations(|segs|), |segs|)
    ensures r == FlatMap(segs, Combinations(|segs|), Tagger(find))
  {
    var pairs := Combinations(|segs|);
    CombinationsInRange(|segs|);
    r := [];
    for k := 0 to |pairs|
      invariant r == FlatMap(segs, pairs[..k], Tagger(find))
    {
      assert pairs[..k + 1] == pairs[..k] + [pairs[k]];
      FlatMapSnoc(segs, pairs[..k], pairs[k], Tagger(find));
      var (i, j) := pairs[k];
      r := AppendTagged(r, find(segs[i], segs[j]), segs[i], segs[j]);
    }
    assert pairs[..|pairs|] == pairs;
  }

  /** `accurate_intersections_d(segments)`: the points of
      `calculate_intersections_d` in the same order, each tagged with its
      pair. */
  method AccurateIntersectionsD(segs: seq<Segment>) returns (r: seq<Tagged>)
    ensures InRange(Combinations(|segs|), |segs|)
    ensures Firsts(r) == FlatMap(segs, Combinations(|segs|), FinderD())
    ensures TagsSound(r, FinderD())
  {
    r := AccurateIntersections(segs, FinderD());
    FirstsOfTagged(segs, Combinations(|segs|), FinderD());
    TaggedFromPair(segs, Combinations(|segs|), FinderD());
  }

  /** `accurate_intersections_r(segments)`. */
  method AccurateIntersectionsR(segs: seq<Segment>, conv: real -> real) returns (r: seq<Tagged>)
    ensures InRange(Combinations(|segs|), |segs|)
    ensures Firsts(r) == FlatMap(segs, Combinations(|segs|), FinderR(conv))
    ensures TagsSound(r, FinderR(conv))
  {
    r := AccurateIntersections(segs, FinderR(conv));
    FirstsOfTagged(segs, Combinations(|segs|), FinderR(conv));
    TaggedFromPair(segs, Combinations(|segs|), FinderR(conv));
  }

  /** Every tagged point is a result of the pair it is tagged with. */
  predicate TagsSound(ts: seq<Tagged>, find: (Segment, Segment) -> seq<Point>) {
    forall k :: 0 <= k < |ts| ==> ts[k].0 in find(ts[k].1, ts[k].2)
  }

  lemma {:induction false} TaggedFromPair(segs: seq<Segment>, pairs: seq<(nat, nat)>, find: (Segment, Segment) -> seq<Point>)
    requires InRange(pairs, |segs|)
    ensures TagsSound(FlatMap(segs, pairs, Tagger(find)), find)
  {
    if pairs != [] {
      var init, last := pairs[..|pairs| - 1], pairs[|pairs| - 1];
      TaggedFromPair(segs, init, find);
      var a: seq<Tagged>, b: seq<Tagged> := FlatMap(segs, init, Tagger(find)), Tagger(find)(segs[last.0], segs[last.1]);
      var ab: seq<Tagged> := a + b;
      assert FlatMap(segs, pairs, Tagger(find)) == ab;
      forall k | 0 <= k < |ab| ensures ab[k].0 in find(ab[k].1, ab[k].2) {
        if k >= |a| {
          assert ab[k] == b[k - |a|];
          assert b == Tag(find(segs[last.0], segs[last.1]), segs[last.0], segs[last.1]);
          assert b[k - |a|] == (find(segs[last.0], segs[last.1])[k - |a|], segs[last.0], segs[last.1]);
        } else {
          assert ab[k] == a[k];
        }
      }
    }
  }

  // ---------------------------------------------------------------------
  // Random segments and the segment sort

  /** The endpoint swap of `generate_random_segment`: the endpoints are
      exchanged when p1 is after p2 in (x, y) order. */
  function OrderEndpoints(p1: Point, p2: Point): (r: Segment)
    ensures Le(r.p1, r.p2)
    ensures (r.p1 == p1 && r.p2 == p2) || (r.p1 == p2 && r.p2 == p1)
    ensures Le(p1, p2) ==> r == Segment(p1, p2)
  {
    if (p1.x > p2.x) || (p1.x == p2.x && p1.y > p2.y) then Segment(p2, p1) else Segment(p1, p2)
  }

  /** `min(seg)` and `max(seg)` over the two endpoints in tuple order. */
  function Lo(s: Segment): Point { if Lt(s.p2, s.p1) then s.p2 else s.p1 }
  function Hi(s: Segment): Point { if Lt(s.p1, s.p2) then s.p2 else s.p1 }

  /** The sort key `(min(seg), max(seg))`, compared lexicographically. */
  predicate KeyLe(a: Segment, b: Segment) {
    Lt(Lo(a), Lo(b)) || (Lo(a) == Lo(b) && Le(Hi(a), Hi(b)))
  }

  lemma KeyLeTotal(a: Segment, b: Segment)
    ensures KeyLe(a, b) || KeyLe(b, a)
  {
  }

  lemma KeyLeTransitive(a: Segment, b: Segment, c: Segment)
    requires KeyLe(a, b) && KeyLe(b, c)
    ensures KeyLe(a, c)
  {
  }

  predicate SortedByKey(r: seq<Segment>) {
    forall i, j :: 0 <= i < j < |r| ==> KeyLe(r[i], r[j])
  }

  /** Insert `s` after every element whose key is not larger, as a stable
      sort does. */
  function InsertByKey(r: seq<Segment>, s: Segment): (q: seq<Segment>)
    ensures |q| == |r| + 1
  {
    if r == [] then [s]
    else if !KeyLe(r[0], s) then [s] + r
    else [r[0]] + InsertByKey(r[1..], s)
  }

  lemma {:induction false} InsertByKeyMultiset(r: seq<Segment>, s: Segment)
    ensures multiset(InsertByKey(r, s)) == multiset(r) + multiset{s}
  {
    if r != [] && KeyLe(r[0], s) {
      InsertByKeyMultiset(r[1..], s);
      assert r == [r[0]] + r[1..];
    }
  }

  /** Every element at or after the head of a sorted sequence is not
      below the head. */
  lemma SortedHead(r: seq<Segment>, s: Segment)
    requires SortedByKey(r) && r != [] && KeyLe(s, r[0])
    ensures forall j :: 0 <= j < |r| ==> KeyLe(s, r[j])
  {
    forall j | 0 < j < |r| ensures KeyLe(s, r[j]) {
      KeyLeTransitive(s, r[0], r[j]);
    }
  }

  lemma ConsSorted(e: Segment, rest: seq<Segment>)
    requires SortedByKey(rest)
    requires forall k :: 0 <= k < |rest| ==> KeyLe(e, rest[k])
    ensures SortedByKey([e] + rest)
  {
    var q := [e] + rest;
    forall i, j | 0 <= i < j < |q| ensures KeyLe(q[i], q[j]) {
      if i == 0 {
        assert q[j] == rest[j - 1];
      } else {
        assert q[i] == rest[i - 1] && q[j] == rest[j - 1];
      }
    }
  }

  lemma {:induction false} InsertByKeySorted(r: seq<Segment>, s: Segment)
    requires SortedByKey(r)
    ensures SortedByKey(InsertByKey(r, s))
  {
    if r == [] {
    } else if !KeyLe(r[0], s) {
      KeyLeTotal(r[0], s);
      SortedHead(r, s);
      ConsSorted(s, r);
    } else {
      var tail := r[1..];
      assert SortedByKey(tail) by {
        forall i, j | 0 <= i < j < |tail| ensures KeyLe(tail[i], tail[j]) {
          assert tail[i] == r[i + 1] && tail[j] == r[j + 1];
        }
      }
      InsertByKeySorted(tail, s);
      InsertByKeyMultiset(tail, s);
      var rest := InsertByKey(tail, s);
      forall k | 0 <= k < |rest| ensures KeyLe(r[0], rest[k]) {
        assert rest[k] in multiset(rest);
        if rest[k] != s {
          assert rest[k] in multiset(tail);
          var m :| 0 <= m < |tail| && tail[m] == rest[k];
          assert tail[m] == r[m + 1];
        }
      }
      ConsSorted(r[0], rest);
    }
  }

  /** `sort_segments(segments)`: a permutation of the input, ordered by
      (lower endpoint, upper endpoint). */
  function SortSegments(segs: seq<Segment>): (r: seq<Segment>)
    ensures SortedByKey(r)
    ensures multiset(r) == multiset(segs)
    ensures |r| == |segs|
  {
    if segs == [] then []
    else
      var init := segs[..|segs| - 1];
      assert segs == init + [segs[|segs| - 1]];
      InsertByKeySorted(SortSegments(init), segs[|segs| - 1]);
      InsertByKeyMultiset(SortSegments(init), segs[|segs| - 1]);
      InsertByKey(SortSegments(init), segs[|segs| - 1])
  }

  // ---------------------------------------------------------------------
  // One adjustment step of `star_intersections_9`

  /** The two assignments of lines 490-491 on values: segment i gets
      segment j's second endpoint; segment j is rebuilt from its own first
      endpoint and the *updated* segment i's second endpoint, which is its
      own second endpoint. */
  function StarSwap(segs: seq<Segment>, i: nat, j: nat): (r: seq<Segment>)
    requires i < |segs| && j < |segs|
    ensures |r| == |segs|
  {
    var s1 := segs[i := Segment(segs[i].p1, segs[j].p2)];
    s1[j := Segment(s1[j].p1, s1[i].p2)]
  }

  /** For i != j the step changes segment i only, and segment j keeps its
      own endpoints. */
  lemma StarSwapKeepsJ(segs: seq<Segment>, i: nat, j: nat)
    requires i < |segs| && j < |segs| && i != j
    ensures StarSwap(segs, i, j)[j] == segs[j]
    ensures StarSwap(segs, i, j)[i] == Segment(segs[i].p1, segs[j].p2)
    ensures forall k :: 0 <= k < |segs| && k != i ==> StarSwap(segs, i, j)[k] == segs[k]
  {
  }

  /** The exchange of the two second endpoints, which the step evidently
      means to make. */
  function StarSwapCorrected(segs: seq<Segment>, i: nat, j: nat): (r: seq<Segment>)
    requires i < |segs| && j < |segs|
    ensures |r| == |segs|
  {
    var oi, oj := segs[i], segs[j];
    segs[i := Segment(oi.p1, oj.p2)][j := Segment(oj.p1, oi.p2)]
  }

  /** For i != j the corrected step exchanges the second endpoints of the
      two segments and leaves every other segment alone; doing it twice
      restores the input. */
  lemma StarSwapCorrectedExchanges(segs: seq<Segment>, i: nat, j: nat)
    requires i < |segs| && j < |segs| && i != j
    ensures StarSwapCorrected(segs, i, j)[i] == Segment(segs[i].p1, segs[j].p2)
    ensures StarSwapCorrected(segs, i, j)[j] == Segment(segs[j].p1, segs[i].p2)
    ensures forall k :: 0 <= k < |segs| && k != i && k != j ==> StarSwapCorrected(segs, i, j)[k] == segs[k]
    ensures StarSwapCorrected(StarSwapCorrected(segs, i, j), i, j) == segs
  {
    var once := StarSwapCorrected(segs, i, j);
    var twice := StarSwapCorrected(once, i, j);
    assert forall k :: 0 <= k < |segs| ==> twice[k] == segs[k];
  }

  /** A concrete step: with two horizontal segments the step as written
      leaves segment 1 as it was, while the exchange would change it. */
  lemma StarSwapLeavesSecond()
    ensures var segs := [Segment(Point(10.0, 1.0), Point(90.0, 1.0)), Segment(Point(10.0, 2.0), Point(90.0, 2.0))];
      StarSwap(segs, 0, 1) == [Segment(Point(10.0, 1.0), Point(90.0, 2.0)), Segment(Point(10.0, 2.0), Point(90.0, 2.0))]
      && StarSwapCorrected(segs, 0, 1)[1] == Segment(Point(10.0, 2.0), Point(90.0, 1.0))
  {
  }

  /** One pass of the `while` body on the list `segments`, for the sampled
      indices i != j: modify, recount, and revert when there are too many
      intersections. Returns whether the change was kept, and the new
      intersections. */
  method StarStep(segments: array<Segment>, i: nat, j: nat, numIntersections: nat) returns (kept: bool, newIntersections: seq<Point>)
    requires i < segments.Length && j < segments.Length && i != j
    modifies segments
    ensures InRange(Combinations(segments.Length), segments.Length)
    ensures newIntersections == FlatMap(StarSwap(old(segments[..]), i, j), Combinations(segments.Length), FinderD())
    ensures kept <==> |newIntersections| <= numIntersections
    ensures segments[..] == if kept then StarSwap(old(segments[..]), i, j) else old(segments[..])
    ensures segments[j] == old(segments[j])
  {
    ghost var before := segments[..];
    var originalI, originalJ := segments[i], segments[j];
    segments[i] := Segment(segments[i].p1, segments[j].p2);
    segments[j] := Segment(segments[j].p1, segments[i].p2);
    assert segments[..] == StarSwap(before, i, j);
    newIntersections := CalculateIntersectionsD(segments[..]);
    if |newIntersections| > numIntersections {
      segments[i] := originalI;
      segments[j] := originalJ;
      assert segments[..] == before;
      kept := false;
    } else {
      kept := true;
    }
    StarSwapKeepsJ(before, i, j);
  }

  /** The same step with the exchange of second endpoints. */
  method StarStepCorrected(segments: array<Segment>, i: nat, j: nat, numIntersections: nat) returns (kept: bool, newIntersections: seq<Point>)
    requires i < segments.Length && j < segments.Length && i != j
    modifies segments
    ensures InRange(Combinations(segments.Length), segments.Length)
    ensures newIntersections == FlatMap(StarSwapCorrected(old(segments[..]), i, j), Combinations(segments.Length), FinderD())
    ensures kept <==> |newIntersections| <= numIntersections
    ensures segments[..] == if kept then StarSwapCorrected(old(segments[..]), i, j) else old(segments[..])
  {
    ghost var before := segments[..];
    var originalI, originalJ := segments[i], segments[j];
    segments[i] := Segment(originalI.p1, originalJ.p2);
    segments[j] := Segment(originalJ.p1, originalI.p2);
    assert segments[..] == StarSwapCorrected(before, i, j);
    newIntersections := CalculateIntersectionsD(segments[..]);
    if |newIntersections| > numIntersections {
      segments[i] := originalI;
      segments[j] := originalJ;
      assert segments[..] == before;
      kept := false;
    } else {
      kept := true;
    }
  }
}
