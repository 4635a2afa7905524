/** The Python adapters' helper module: the epsilon-box two-point engine
    as an all-pairs generator. */
module AdapterUtils {
  import opened Wrappers
  import opened Geometry
  import opened Pairs
  import TwoPoint

  function Finder(epsilon: Option<real>, round: real -> real): (Segment, Segment) -> seq<Point> {
    (a: Segment, b: Segment) => TwoPoint.FindIntersection(a, b, epsilon, round)
  }

  /** `calculate_intersections_pairwise(segments, epsilon)`: the pair
      generator chained over `itertools.combinations`. */
  function CalculateIntersectionsPairwise(segs: seq<Segment>, epsilon: Option<real>, round: real -> real): (r: seq<Point>)
    ensures |r| <= 2 * (|segs| * (|segs| - 1) / 2)
    ensures |segs| < 2 ==> r == []
  {
    var n, f := |segs|, Finder(epsilon, round);
    CombinationsInRange(n);
    CombinationsLength(n);
    FlatMapLength(segs, Combinations(n), f);
    TotalLengthBound(segs, Combinations(n), f, 2);
    assert n < 2 ==> n * (n - 1) / 2 == 0;
    FlatMap(segs, Combinations(n), f)
  }

  /** Every point comes from some pair i < j. */
  lemma PairwiseFromPairs(segs: seq<Segment>, epsilon: Option<real>, round: real -> real)
    ensures forall p :: p in CalculateIntersectionsPairwise(segs, epsilon, round) ==>
      exists i, j :: 0 <= i < j < |segs| && p in TwoPoint.FindIntersection(segs[i], segs[j], epsilon, round)
  {
    var n := |segs|;
    var f := Finder(epsilon, round);
    CombinationsInRange(n);
    forall p | p in CalculateIntersectionsPairwise(segs, epsilon, round)
      ensures exists i, j :: 0 <= i < j < n && p in TwoPoint.FindIntersection(segs[i], segs[j], epsilon, round)
    {
      FlatMapFrom(segs, Combinations(n), f, p);
      var k :| 0 <= k < |Combinations(n)| && p in f(segs[Combinations(n)[k].0], segs[Combinations(n)[k].1]);
      CombinationsMembers(n, Combinations(n)[k].0, Combinations(n)[k].1);
    }
  }

  /** A wider epsilon never loses a pair's point: every pair's result under
      the narrower widening is empty or equal to the wider one. */
  lemma PairwiseEpsilonMonotone(segs: seq<Segment>, e1: Option<real>, e2: Option<real>, round: real -> real)
    requires TwoPoint.Widening(e1) <= TwoPoint.Widening(e2)
    ensures |CalculateIntersectionsPairwise(segs, e1, round)| <= |CalculateIntersectionsPairwise(segs, e2, round)|
  {
    var n := |segs|;
    CombinationsInRange(n);
    forall a, b ensures |Finder(e1, round)(a, b)| <= |Finder(e2, round)(a, b)| {
      TwoPoint.EpsilonMonotone(a, b, e1, e2, round);
    }
    TotalLengthMonotone(segs, Combinations(n), Finder(e1, round), Finder(e2, round));
    FlatMapLength(segs, Combinations(n), Finder(e1, round));
    FlatMapLength(segs, Combinations(n), Finder(e2, round));
  }
}
