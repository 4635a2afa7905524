/** The Decimal displayer: the two-point-form engine on exact values (the
    100-digit Decimal context is modelled as exact), its all-pairs loop and
    its two printed counts. */
module GenerationDisplayer {
  import opened Wrappers
  import opened Geometry
  import opened Collinear
  import opened Pairs
  import TwoPoint
  import SegUtils

  /** `find_intersection(seg1, seg2)`: the candidate when it lies in both
      inclusive bounding boxes, the resolver's points for a zero
      denominator with both equalities, nothing otherwise. */
  function FindIntersection(seg1: Segment, seg2: Segment): (r: seq<Point>)
    ensures TwoPoint.Denominator(seg1, seg2) != 0.0 ==>
      (r != [] <==> TwoPoint.InBox(TwoPoint.Candidate(seg1, seg2), seg1, 0.0) && TwoPoint.InBox(TwoPoint.Candidate(seg1, seg2), seg2, 0.0))
      && (r != [] ==> r == [TwoPoint.Candidate(seg1, seg2)])
    ensures TwoPoint.Denominator(seg1, seg2) == 0.0 ==>
      r == (if TwoPoint.CollinearEqualities(seg1, seg2) then FindCollinearIntersections(seg1, seg2) else [])
    ensures forall p :: p in r && TwoPoint.Denominator(seg1, seg2) != 0.0 ==> OnSegment(p, seg1) && OnSegment(p, seg2)
  {
    if TwoPoint.Denominator(seg1, seg2) != 0.0 then
      TwoPoint.AcceptedOnBothSegments(seg1, seg2);
      TwoPoint.FindIntersection(seg1, seg2, None, Identity)
    else
      TwoPoint.FindIntersection(seg1, seg2, None, Identity)
  }

  function Finder(): (Segment, Segment) -> seq<Point> {
    (a: Segment, b: Segment) => FindIntersection(a, b)
  }

  /** `calculate_intersections(segments)`: the per-pair lists extended in
      `itertools.combinations` order. */
  method CalculateIntersections(segs: seq<Segment>) returns (r: seq<Point>)
    ensures InRange(Combinations(|segs|), |segs|)
    ensures r == FlatMap(segs, Combinations(|segs|), Finder())
    ensures |r| == TotalLength(segs, Combinations(|segs|), Finder())
  {
    CombinationsInRange(|segs|);
    r := ExtendOverPairs(segs, Combinations(|segs|), Finder());
  }

  /** Under exact arithmetic the Decimal displayer and the package's
      determinant engine print the same points. */
  lemma MatchesPairwise(segs: seq<Segment>)
    ensures InRange(Combinations(|segs|), |segs|)
    ensures FlatMap(segs, Combinations(|segs|), Finder()) == SegUtils.CalculateIntersectionsPairwise(segs, None, Identity)
  {
    CombinationsInRange(|segs|);
    forall a, b ensures Finder()(a, b) == SegUtils.Finder(None, Identity)(a, b) {
      TwoPoint.MatchesDeterminantEngine(a, b);
    }
    FlatMapCongruent(segs, Combinations(|segs|), Finder(), SegUtils.Finder(None, Identity));
  }

  /** The two printed numbers: the total and the distinct count. */
  method Report(segs: seq<Segment>) returns (total: nat, distinct: nat)
    ensures InRange(Combinations(|segs|), |segs|)
    ensures total == |FlatMap(segs, Combinations(|segs|), Finder())|
    ensures distinct == |Elements(FlatMap(segs, Combinations(|segs|), Finder()))|
    ensures distinct <= total
  {
    var intersections := CalculateIntersections(segs);
    var distinctPoints := DistinctSorted(intersections);
    SortedCard(distinctPoints);
    total, distinct := |intersections|, |distinctPoints|;
  }
}
