/** The stand-alone displayer's copy of the determinant engine and its
    all-pairs loop, with the two counts it prints. */
module ToolsDisplayer {
  import opened Wrappers
  import opened Geometry
  import opened Collinear
  import opened Pairs
  import SegUtils

  /** `find_intersection(seg1, seg2)`: the same determinants as the
      package engine, without epsilon or conversion. */
  function FindIntersection(seg1: Segment, seg2: Segment): (r: seq<Point>)
    ensures var d := SegUtils.Determinants(seg1, seg2);
      d.det != 0.0 ==>
        (r != [] <==> 0.0 <= d.det1 / d.det <= 1.0 && 0.0 <= d.det2 / d.det <= 1.0)
        && (r != [] ==> r == [At(seg1, d.det2 / d.det)])
    ensures var d := SegUtils.Determinants(seg1, seg2);
      d.det == 0.0 ==> r == (if d.det1 != 0.0 || d.det2 != 0.0 then [] else FindCollinearIntersections(seg1, seg2))
  {
    assert SegUtils.ConvSeg(seg1, Identity) == seg1 && SegUtils.ConvSeg(seg2, Identity) == seg2;
    SegUtils.FindIntersection(seg1, seg2, None, Identity)
  }

  function Finder(): (Segment, Segment) -> seq<Point> {
    (a: Segment, b: Segment) => FindIntersection(a, b)
  }

  /** `calculate_intersections(segments)`: the per-pair lists extended in
      `itertools.combinations` order; the length is the sum of the
      per-pair lengths. */
  method CalculateIntersections(segs: seq<Segment>) returns (r: seq<Point>)
    ensures InRange(Combinations(|segs|), |segs|)
    ensures r == FlatMap(segs, Combinations(|segs|), Finder())
    ensures |r| == TotalLength(segs, Combinations(|segs|), Finder())
  {
    CombinationsInRange(|segs|);
    r := ExtendOverPairs(segs, Combinations(|segs|), Finder());
  }

  /** The driver gives the package engine's all-pairs result. */
  lemma MatchesPairwise(segs: seq<Segment>)
    ensures InRange(Combinations(|segs|), |segs|)
    ensures FlatMap(segs, Combinations(|segs|), Finder()) == SegUtils.CalculateIntersectionsPairwise(segs, None, Identity)
  {
    CombinationsInRange(|segs|);
    forall a, b ensures Finder()(a, b) == SegUtils.Finder(None, Identity)(a, b) {
      assert SegUtils.ConvSeg(a, Identity) == a && SegUtils.ConvSeg(b, Identity) == b;
    }
    FlatMapCongruent(segs, Combinations(|segs|), Finder(), SegUtils.Finder(None, Identity));
  }

  /** The two printed numbers: the total count and the distinct count;
      the distinct points are sorted and duplicate-free, and there are
      never more of them than the total. */
  method Report(segs: seq<Segment>) returns (total: nat, distinct: nat)
    ensures InRange(Combinations(|segs|), |segs|)
    ensures total == |FlatMap(segs, Combinations(|segs|), Finder())|
    ensures distinct == |Elements(FlatMap(segs, Combinations(|segs|), Finder()))|
    ensures distinct <= total
  {
    var intersections := CalculateIntersections(segs);
    var distinctPoints := DistinctSorted(intersections);
    SortedCard(distinctPoints);
    total, distinct := |intersections|, |distinctPoints|;
  }
}
