/** The Fraction script: the two-point-form engine over exact rationals
    whose accepted points pass through `float()`, and its all-pairs loop. */
module ToFraction {
  import opened Wrappers
  import opened Geometry
  import opened Collinear
  import opened Pairs
  import TwoPoint

  /** `find_intersection(seg1, seg2)`; `round` stands for `float()`, which
      is applied to accepted candidates only, not to the resolver's points. */
  function FindIntersection(seg1: Segment, seg2: Segment, round: real -> real): (r: seq<Point>)
    ensures TwoPoint.Denominator(seg1, seg2) != 0.0 ==>
      var c := TwoPoint.Candidate(seg1, seg2);
      (r != [] <==> TwoPoint.InBox(c, seg1, 0.0) && TwoPoint.InBox(c, seg2, 0.0))
      && (r != [] ==> r == [Point(round(c.x), round(c.y))])
    ensures TwoPoint.Denominator(seg1, seg2) == 0.0 ==>
      r == (if TwoPoint.CollinearEqualities(seg1, seg2) then FindCollinearIntersections(seg1, seg2) else [])
  {
    TwoPoint.FindIntersection(seg1, seg2, None, round)
  }

  /** With the exact value kept, it is the Decimal displayer's engine. */
  lemma ExactIsDisplayer(seg1: Segment, seg2: Segment)
    ensures FindIntersection(seg1, seg2, Identity) == TwoPoint.FindIntersection(seg1, seg2, None, Identity)
  {
  }

  function Finder(round: real -> real): (Segment, Segment) -> seq<Point> {
    (a: Segment, b: Segment) => FindIntersection(a, b, round)
  }

  /** `calculate_intersections(segments)` and `total_intersections`, its
      length: the per-pair lists extended over `itertools.combinations`. */
  method CalculateIntersections(segs: seq<Segment>, round: real -> real) returns (r: seq<Point>, total: nat)
    ensures InRange(Combinations(|segs|), |segs|)
    ensures r == FlatMap(segs, Combinations(|segs|), Finder(round))
    ensures total == |r| == TotalLength(segs, Combinations(|segs|), Finder(round))
    ensures total <= 2 * (|segs| * (|segs| - 1) / 2)
  {
    var n := |segs|;
    CombinationsInRange(n);
    r := ExtendOverPairs(segs, Combinations(n), Finder(round));
    total := |r|;
    CombinationsLength(n);
    TotalLengthBound(segs, Combinations(n), Finder(round), 2);
  }
}
