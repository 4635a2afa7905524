/** The determinant engine of the segment-intersection package: the
    parametric crossing test, its collinear fall-back, the all-pairs driver,
    and the segment constructors and codecs around them. */
module SegUtils {
  import opened Wrappers
  import opened Geometry
  import opened Collinear
  import opened Pairs
  import opened Bits
  import opened Text

  /** `conv` applied to every coordinate of the segment. */
  function ConvSeg(s: Segment, conv: real -> real): Segment {
    Segment(Point(conv(s.p1.x), conv(s.p1.y)), Point(conv(s.p2.x), conv(s.p2.y)))
  }

  /** The three determinants: `det` of the two directions, `det1` and `det2`
      of each direction against the offset between the first endpoints. */
  datatype Dets = Dets(det: real, det1: real, det2: real)

  function Determinants(c1: Segment, c2: Segment): Dets {
    var dx1, dy1 := c1.p2.x - c1.p1.x, c1.p2.y - c1.p1.y;
    var dx2, dy2 := c2.p2.x - c2.p1.x, c2.p2.y - c2.p1.y;
    var dx3, dy3 := c1.p1.x - c2.p1.x, c1.p1.y - c2.p1.y;
    Dets(Cross(dx1, dy1, dx2, dy2), Cross(dx1, dy1, dx3, dy3), Cross(dx2, dy2, dx3, dy3))
  }

  /** Python's `if epsilon:` — `None` and `0` are both false. */
  predicate Truthy(epsilon: Option<real>) {
    epsilon.Some? && epsilon.value != 0.0
  }

  /** The parameter test: [0, 1], or [0 - epsilon, 1 + epsilon] when epsilon is truthy. */
  predicate Accepted(v: real, epsilon: Option<real>) {
    if Truthy(epsilon) then 0.0 - epsilon.value <= v <= 1.0 + epsilon.value else 0.0 <= v <= 1.0
  }

  /** `find_intersection(seg1, seg2, epsilon, conv)`. The determinants and
      the crossing point are computed on the converted coordinates; the
      collinear resolver receives the unconverted segments. */
  function FindIntersection(seg1: Segment, seg2: Segment, epsilon: Option<real>, conv: real -> real): (r: seq<Point>)
    ensures |r| <= 2
    ensures Determinants(ConvSeg(seg1, conv), ConvSeg(seg2, conv)).det != 0.0 ==> |r| <= 1
  {
    var c1, c2 := ConvSeg(seg1, conv), ConvSeg(seg2, conv);
    var d := Determinants(c1, c2);
    if d.det == 0.0 then
      if d.det1 != 0.0 || d.det2 != 0.0 then [] else FindCollinearIntersections(seg1, seg2)
    else
      var s, t := d.det1 / d.det, d.det2 / d.det;
      if Accepted(s, epsilon) && Accepted(t, epsilon) then [At(c1, t)] else []
  }

  /** If the lines of the two segments meet at parameters t (on the first)
      and s (on the second), then t * det = det2 and s * det = det1. */
  lemma MeetDets(c1: Segment, c2: Segment, t: real, s: real)
    ensures At(c1, t) == At(c2, s) ==>
      t * Determinants(c1, c2).det == Determinants(c1, c2).det2
      && s * Determinants(c1, c2).det == Determinants(c1, c2).det1
  {
    var dx1, dy1 := c1.p2.x - c1.p1.x, c1.p2.y - c1.p1.y;
    var dx2, dy2 := c2.p2.x - c2.p1.x, c2.p2.y - c2.p1.y;
    var dx3, dy3 := c1.p1.x - c2.p1.x, c1.p1.y - c2.p1.y;
    var ex := t * dx1 - s * dx2 + dx3;
    var ey := t * dy1 - s * dy2 + dy3;
    assert At(c1, t).x - At(c2, s).x == ex;
    assert At(c1, t).y - At(c2, s).y == ey;
    assert ex * dy2 - ey * dx2 == t * (dx1 * dy2 - dx2 * dy1) - (dx2 * dy3 - dx3 * dy2);
    assert ex * dy1 - ey * dx1 == s * (dx1 * dy2 - dx2 * dy1) - (dx1 * dy3 - dx3 * dy1);
  }

  /** With det != 0 the point at t = det2/det on the first segment is the
      point at s = det1/det on the second. */
  lemma CrossingAgrees(c1: Segment, c2: Segment)
    requires Determinants(c1, c2).det != 0.0
    ensures At(c1, Determinants(c1, c2).det2 / Determinants(c1, c2).det)
         == At(c2, Determinants(c1, c2).det1 / Determinants(c1, c2).det)
  {
    var d := Determinants(c1, c2);
    var t, s := d.det2 / d.det, d.det1 / d.det;
    var dx1, dy1 := c1.p2.x - c1.p1.x, c1.p2.y - c1.p1.y;
    var dx2, dy2 := c2.p2.x - c2.p1.x, c2.p2.y - c2.p1.y;
    var dx3, dy3 := c1.p1.x - c2.p1.x, c1.p1.y - c2.p1.y;
    assert t * d.det == d.det2 && s * d.det == d.det1;
    var ex := t * dx1 - s * dx2 + dx3;
    var ey := t * dy1 - s * dy2 + dy3;
    assert ex * d.det == d.det2 * dx1 - d.det1 * dx2 + d.det * dx3;
    assert d.det2 * dx1 - d.det1 * dx2 + d.det * dx3 == 0.0;
    assert ey * d.det == d.det2 * dy1 - d.det1 * dy2 + d.det * dy3;
    assert d.det2 * dy1 - d.det1 * dy2 + d.det * dy3 == 0.0;
    assert ex == 0.0 && ey == 0.0;
  }

  /** A non-parallel pair yields a point of both (converted) segments. */
  lemma FindIntersectionSound(seg1: Segment, seg2: Segment, conv: real -> real)
    requires Determinants(ConvSeg(seg1, conv), ConvSeg(seg2, conv)).det != 0.0
    ensures forall p :: p in FindIntersection(seg1, seg2, None, conv) ==>
      OnSegment(p, ConvSeg(seg1, conv)) && OnSegment(p, ConvSeg(seg2, conv))
  {
    var c1, c2 := ConvSeg(seg1, conv), ConvSeg(seg2, conv);
    var d := Determinants(c1, c2);
    CrossingAgrees(c1, c2);
    var s, t := d.det1 / d.det, d.det2 / d.det;
    assert FindIntersection(seg1, seg2, None, conv) != [] ==> 0.0 <= s <= 1.0 && 0.0 <= t <= 1.0;
  }

  /** ... and it yields every point the two segments share. */
  lemma FindIntersectionComplete(seg1: Segment, seg2: Segment, conv: real -> real, p: Point)
    requires Determinants(ConvSeg(seg1, conv), ConvSeg(seg2, conv)).det != 0.0
    requires OnSegment(p, ConvSeg(seg1, conv)) && OnSegment(p, ConvSeg(seg2, conv))
    ensures FindIntersection(seg1, seg2, None, conv) == [p]
  {
    CommonPointParameters(ConvSeg(seg1, conv), ConvSeg(seg2, conv), p);
  }

  /** A shared point of two non-parallel segments is the point at
      t = det2/det, and both parameters lie in [0, 1]. */
  lemma CommonPointParameters(c1: Segment, c2: Segment, p: Point)
    requires Determinants(c1, c2).det != 0.0
    requires OnSegment(p, c1) && OnSegment(p, c2)
    ensures var d := Determinants(c1, c2);
      Accepted(d.det1 / d.det, None) && Accepted(d.det2 / d.det, None) && At(c1, d.det2 / d.det) == p
  {
    var d := Determinants(c1, c2);
    var t :| 0.0 <= t <= 1.0 && p == At(c1, t);
    var s :| 0.0 <= s <= 1.0 && p == At(c2, s);
    MeetDets(c1, c2, t, s);
    DivideBack(t, d.det, d.det2);
    DivideBack(s, d.det, d.det1);
  }

  lemma DivideBack(t: real, d: real, n: real)
    requires d != 0.0 && t * d == n
    ensures n / d == t
  {
  }

  /** Parallel lines that are distinct share no point, and the engine
      reports nothing. Parallel lines that coincide are handed to the
      resolver with the unconverted segments. */
  lemma FindIntersectionParallel(seg1: Segment, seg2: Segment, epsilon: Option<real>, conv: real -> real)
    requires Determinants(ConvSeg(seg1, conv), ConvSeg(seg2, conv)).det == 0.0
    ensures var d := Determinants(ConvSeg(seg1, conv), ConvSeg(seg2, conv));
      (d.det1 != 0.0 || d.det2 != 0.0) ==>
        FindIntersection(seg1, seg2, epsilon, conv) == []
        && forall t, s :: At(ConvSeg(seg1, conv), t) != At(ConvSeg(seg2, conv), s)
    ensures var d := Determinants(ConvSeg(seg1, conv), ConvSeg(seg2, conv));
      (d.det1 == 0.0 && d.det2 == 0.0) ==>
        FindIntersection(seg1, seg2, epsilon, conv) == FindCollinearIntersections(seg1, seg2)
        && AllCollinear(ConvSeg(seg1, conv), ConvSeg(seg2, conv))
  {
    var c1, c2 := ConvSeg(seg1, conv), ConvSeg(seg2, conv);
    forall t, s | (Determinants(c1, c2).det1 != 0.0 || Determinants(c1, c2).det2 != 0.0)
      ensures At(c1, t) != At(c2, s)
    {
      MeetDets(c1, c2, t, s);
    }
    ZeroDetsCollinear(c1, c2);
  }

  /** All three determinants zero: each segment's endpoints lie on the
      other's line. */
  lemma ZeroDetsCollinear(c1: Segment, c2: Segment)
    ensures var d := Determinants(c1, c2);
      d.det == 0.0 && d.det1 == 0.0 && d.det2 == 0.0 ==> AllCollinear(c1, c2)
  {
    var dx1, dy1 := c1.p2.x - c1.p1.x, c1.p2.y - c1.p1.y;
    var dx2, dy2 := c2.p2.x - c2.p1.x, c2.p2.y - c2.p1.y;
    var dx3, dy3 := c1.p1.x - c2.p1.x, c1.p1.y - c2.p1.y;
    var d := Determinants(c1, c2);
    assert Cross(dx1, dy1, c2.p1.x - c1.p1.x, c2.p1.y - c1.p1.y) == -d.det1;
    assert Cross(dx1, dy1, c2.p2.x - c1.p1.x, c2.p2.y - c1.p1.y) == d.det - d.det1;
    assert Cross(dx2, dy2, c1.p1.x - c2.p1.x, c1.p1.y - c2.p1.y) == d.det2;
    assert Cross(dx2, dy2, c1.p2.x - c2.p1.x, c1.p2.y - c2.p1.y) == d.det2 - d.det;
  }

  /** Swapping the segments negates det and maps (det1, det2) to
      (-det2, -det1). */
  lemma DeterminantsSwap(c1: Segment, c2: Segment)
    ensures Determinants(c2, c1).det == -Determinants(c1, c2).det
    ensures Determinants(c2, c1).det1 == -Determinants(c1, c2).det2
    ensures Determinants(c2, c1).det2 == -Determinants(c1, c2).det1
  {
  }

  /** Under exact arithmetic the order of the two segments does not matter. */
  lemma FindIntersectionSymmetric(seg1: Segment, seg2: Segment, epsilon: Option<real>, conv: real -> real)
    ensures FindIntersection(seg1, seg2, epsilon, conv) == FindIntersection(seg2, seg1, epsilon, conv)
  {
    var c1, c2 := ConvSeg(seg1, conv), ConvSeg(seg2, conv);
    DeterminantsSwap(c1, c2);
    if Determinants(c1, c2).det != 0.0 {
      CrossingSymmetric(seg1, seg2, epsilon, conv);
    } else {
      CollinearSymmetric(seg1, seg2);
    }
  }

  /** The crossing case of the symmetry: the two parameters trade places. */
  lemma CrossingSymmetric(seg1: Segment, seg2: Segment, epsilon: Option<real>, conv: real -> real)
    requires Determinants(ConvSeg(seg1, conv), ConvSeg(seg2, conv)).det != 0.0
    ensures FindIntersection(seg1, seg2, epsilon, conv) == FindIntersection(seg2, seg1, epsilon, conv)
  {
    var c1, c2 := ConvSeg(seg1, conv), ConvSeg(seg2, conv);
    var d, e := Determinants(c1, c2), Determinants(c2, c1);
    DeterminantsSwap(c1, c2);
    NegatedQuotient(d.det2, d.det);
    NegatedQuotient(d.det1, d.det);
    CrossingAgrees(c1, c2);
  }

  lemma NegatedQuotient(a: real, b: real)
    requires b != 0.0
    ensures (-a) / (-b) == a / b
  {
  }

  /** A non-negative epsilon only widens the accepted parameter range; a
      larger one widens it further. */
  lemma EpsilonMonotone(seg1: Segment, seg2: Segment, e1: real, e2: real, conv: real -> real)
    requires 0.0 <= e1 <= e2
    ensures forall p :: p in FindIntersection(seg1, seg2, Some(e1), conv) ==> p in FindIntersection(seg1, seg2, Some(e2), conv)
    ensures forall p :: p in FindIntersection(seg1, seg2, None, conv) ==> p in FindIntersection(seg1, seg2, Some(e2), conv)
  {
  }

  /** `epsilon = 0` is falsy and behaves exactly like `None`. */
  lemma EpsilonZeroIsNone(seg1: Segment, seg2: Segment, conv: real -> real)
    ensures FindIntersection(seg1, seg2, Some(0.0), conv) == FindIntersection(seg1, seg2, None, conv)
  {
  }

  function Finder(epsilon: Option<real>, conv: real -> real): (Segment, Segment) -> seq<Point> {
    (a: Segment, b: Segment) => FindIntersection(a, b, epsilon, conv)
  }

  /** `calculate_intersections_pairwise`: the per-pair results over
      `itertools.combinations(segments, 2)`, concatenated in order. */
  function CalculateIntersectionsPairwise(segs: seq<Segment>, epsilon: Option<real>, conv: real -> real): (r: seq<Point>)
    ensures |r| <= 2 * (|segs| * (|segs| - 1) / 2)
    ensures |segs| < 2 ==> r == []
  {
    var n, f := |segs|, Finder(epsilon, conv);
    CombinationsInRange(n);
    CombinationsLength(n);
    FlatMapLength(segs, Combinations(n), f);
    TotalLengthBound(segs, Combinations(n), f, 2);
    assert n < 2 ==> n * (n - 1) / 2 == 0;
    FlatMap(segs, Combinations(n), f)
  }

  /** Every point comes from some pair i < j of input segments. */
  lemma PairwiseFromPairs(segs: seq<Segment>, epsilon: Option<real>, conv: real -> real)
    ensures forall p :: p in CalculateIntersectionsPairwise(segs, epsilon, conv) ==>
      exists i, j :: 0 <= i < j < |segs| && p in FindIntersection(segs[i], segs[j], epsilon, conv)
  {
    var n := |segs|;
    var f := Finder(epsilon, conv);
    CombinationsInRange(n);
    forall p | p in CalculateIntersectionsPairwise(segs, epsilon, conv)
      ensures exists i, j :: 0 <= i < j < n && p in FindIntersection(segs[i], segs[j], epsilon, conv)
    {
      FlatMapFrom(segs, Combinations(n), f, p);
      var k :| 0 <= k < |Combinations(n)| && p in f(segs[Combinations(n)[k].0], segs[Combinations(n)[k].1]);
      var ij := Combinations(n)[k];
      CombinationsMembers(n, ij.0, ij.1);
    }
  }

  // ---------------------------------------------------------------------
  // Segment construction

  /** What `Segment(...)` returns for the argument forms `build` lets
      through: a proper segment, or a named tuple whose two fields are
      plain numbers (the class does not check its field types). */
  datatype Built = Built(seg: Segment) | NonPointFields(a: real, b: real)

  /** `itertools.pairwise(xs)` turned into points: (xs[0], xs[1]),
      (xs[1], xs[2]), ... */
  function PairwisePoints(xs: seq<real>): (r: seq<Point>)
    ensures |r| == if |xs| == 0 then 0 else |xs| - 1
    ensures forall k :: 0 <= k < |r| ==> r[k] == Point(xs[k], xs[k + 1])
  {
    if |xs| < 2 then [] else [Point(xs[0], xs[1])] + PairwisePoints(xs[1..])
  }

  /** `points_from_coords(x1, y1, x2, y2, *coords)`, collected into a list. */
  function PointsFromCoords(args: seq<real>): (r: Result<seq<Point>, Exception>)
    ensures |args| < 4 ==> r == Err(TypeError)
    ensures |args| >= 4 && (|args| - 4) % 2 == 1 ==> r == Err(ValueError)
    ensures r.Ok? ==> |r.value| >= 2 && r.value[0] == Point(args[0], args[1]) && r.value[1] == Point(args[2], args[3])
    ensures r.Ok? && |args| > 4 ==> |r.value| == |args| - 3
  {
    if |args| < 4 then Err(TypeError)
    else
      var first := [Point(args[0], args[1]), Point(args[2], args[3])];
      var coords := args[4..];
      if |coords| == 0 then Ok(first)
      else if |coords| % 2 != 0 then Err(ValueError)
      else Ok(first + PairwisePoints(coords))
  }

  /** `Segment.build(*args)` with numeric arguments. A single iterable
      argument, `build(iterable)`, is `build(*iterable)`, so the same
      function models it on the iterable's items. */
  function BuildArgs(args: seq<real>): (r: Result<Built, Exception>)
    ensures (r.Ok? && r.value.Built?) <==> |args| == 4
    ensures (r.Ok? && r.value.NonPointFields?) <==> |args| == 2
    ensures |args| > 4 && (|args| - 4) % 2 == 1 ==> r == Err(ValueError)
  {
    if |args| == 1 then Err(TypeError)
    else if |args| == 4 then Ok(Built(Segment(Point(args[0], args[1]), Point(args[2], args[3]))))
    else if |args| <= 2 then
      if |args| == 2 then Ok(NonPointFields(args[0], args[1])) else Err(TypeError)
    else
      match PointsFromCoords(args)
      case Err(e) => Err(e)
      case Ok(points) => if |points| == 2 then Ok(Built(Segment(points[0], points[1]))) else Err(TypeError)
  }

  /** `seg.coords()`. */
  function Coords(seg: Segment): (r: seq<real>)
    ensures |r| == 4
  {
    [seg.p1.x, seg.p1.y, seg.p2.x, seg.p2.y]
  }

  /** Building from `coords()` gives the segment back ... */
  lemma BuildCoords(seg: Segment)
    ensures BuildArgs(Coords(seg)) == Ok(Built(seg))
  {
  }

  /** ... and the coordinates of a segment built from four numbers are
      those numbers. */
  lemma CoordsBuild(args: seq<real>)
    requires |args| == 4
    ensures BuildArgs(args).Ok? && BuildArgs(args).value.Built?
    ensures Coords(BuildArgs(args).value.seg) == args
  {
  }

  /** `seg.map(fn)`: `fn` applied to every coordinate. */
  function MapSeg(seg: Segment, fn: real -> real): (r: Segment)
    ensures r == ConvSeg(seg, fn)
  {
    var built := BuildArgs([fn(seg.p1.x), fn(seg.p1.y), fn(seg.p2.x), fn(seg.p2.y)]);
    built.value.seg
  }

  lemma MapIdentity(seg: Segment)
    ensures MapSeg(seg, x => x) == seg
  {
  }

  lemma MapCompose(seg: Segment, f: real -> real, g: real -> real)
    ensures MapSeg(MapSeg(seg, f), g) == MapSeg(seg, x => g(f(x)))
  {
  }

  /** `seg.scale(factor)`: keeps the first endpoint and multiplies the
      direction by `factor`; a zero-length segment is returned as it is
      (`math.hypot(dx, dy) == 0` exactly when both differences are 0). */
  function Scale(seg: Segment, factor: real): (r: Segment)
    ensures r.p1 == seg.p1
    ensures r.p2.x - r.p1.x == factor * (seg.p2.x - seg.p1.x)
    ensures r.p2.y - r.p1.y == factor * (seg.p2.y - seg.p1.y)
    ensures seg.p1 == seg.p2 ==> r == seg
  {
    var dx, dy := seg.p2.x - seg.p1.x, seg.p2.y - seg.p1.y;
    if dx == 0.0 && dy == 0.0 then
      BuildArgs([seg.p1.x, seg.p1.y, seg.p2.x, seg.p2.y]).value.seg
    else
      BuildArgs([seg.p1.x, seg.p1.y, seg.p1.x + dx * factor, seg.p1.y + dy * factor]).value.seg
  }

  /** Scaling by 1 changes nothing. */
  lemma ScaleOne(seg: Segment)
    ensures Scale(seg, 1.0) == seg
  {
  }

  /** Scaling twice is scaling by the product. */
  lemma ScaleCompose(seg: Segment, a: real, b: real)
    ensures Scale(Scale(seg, a), b) == Scale(seg, a * b)
  {
    var s := Scale(seg, a);
    var dx, dy := seg.p2.x - seg.p1.x, seg.p2.y - seg.p1.y;
    assert s.p2.x - s.p1.x == a * dx && s.p2.y - s.p1.y == a * dy;
    assert b * (a * dx) == (a * b) * dx && b * (a * dy) == (a * b) * dy;
  }

  // ---------------------------------------------------------------------
  // Bit-string codec

  function Width(single: bool): nat {
    if single then 32 else 64
  }

  /** The checks of `bin2float` before the bytes are reinterpreted as a
      float: the word whose bits the string spells. */
  function Bin2FloatBits(s: string, single: bool): (r: Result<nat, Exception>)
    ensures |s| != Width(single) ==> r == Err(ValueError)
    ensures r.Ok? <==> |s| == Width(single) && IsBinary(s)
    ensures r.Ok? ==> r.value < Pow2(Width(single)) && ToBits(r.value, Width(single)) == s
  {
    if |s| != Width(single) then Err(ValueError)
    else if !IsBinary(s) then Err(ValueError)
    else
      BitsValueBound(s);
      ToBitsBitsValue(s);
      Ok(BitsValue(s))
  }

  /** One lower-case hexadecimal digit. */
  function HexDigit(v: nat): char
    requires v < 16
  {
    "0123456789abcdef"[v]
  }

  /** The two-digit lower-case hexadecimal renderings of the lowest `n`
      bytes of `w`, most-significant first. */
  function BytesToHex(w: nat, n: nat): (r: string)
    ensures |r| == 2 * n
  {
    if n == 0 then [] else BytesToHex(w / 256, n - 1) + [HexDigit(w % 256 / 16), HexDigit(w % 16)]
  }

  /** `float2bin(number, as_hex, single_precision)` on the bits `w` that
      `struct.pack` produces for the number. */
  function Float2Bin(w: nat, asHex: bool, single: bool): (r: string)
    requires w < Pow2(Width(single))
    ensures |r| == (if asHex then 2 else 8) * (if single then 4 else 8)
    ensures !asHex ==> r == ToBits(w, Width(single)) && Bin2FloatBits(r, single) == Ok(w)
  {
    var nbytes := if single then 4 else 8;
    if asHex then BytesToHex(w, nbytes)
    else
      BytesToBitsIsToBits(w, nbytes);
      ToBitsBinary(w, Width(single));
      ParseRender(w, Width(single));
      BytesToBits(w, nbytes)
  }

  // ---------------------------------------------------------------------
  // Reading a segment file

  /** `map(decode, fields)` consumed in order: the first failure wins. */
  function DecodeAll(fields: seq<string>, decode: string -> Result<real, Exception>): (r: Result<seq<real>, Exception>)
    ensures r.Ok? <==> forall k :: 0 <= k < |fields| ==> decode(fields[k]).Ok?
    ensures r.Ok? ==> |r.value| == |fields| && forall k :: 0 <= k < |fields| ==> r.value[k] == decode(fields[k]).value
  {
    if fields == [] then Ok([])
    else
      match decode(fields[0])
      case Err(e) => Err(e)
      case Ok(v) =>
        match DecodeAll(fields[1..], decode)
        case Err(e) => Err(e)
        case Ok(rest) =>
          assert forall k :: 1 <= k < |fields| ==> fields[k] == fields[1..][k - 1];
          Ok([v] + rest)
  }

  /** One data row: `Segment.build(map(decode, line.strip().split(';')))`. */
  function ReadRow(line: string, decode: string -> Result<real, Exception>): (r: Result<Built, Exception>)
    ensures var fields := Split(PyStrip(line), ';');
      r.Ok? ==> forall k :: 0 <= k < |fields| ==> decode(fields[k]).Ok?
    ensures var fields := Split(PyStrip(line), ';');
      (r.Ok? && r.value.Built?) <==> |fields| == 4 && forall k :: 0 <= k < 4 ==> decode(fields[k]).Ok?
    ensures var fields := Split(PyStrip(line), ';');
      r.Ok? && r.value.Built? ==>
        r.value.seg == Segment(Point(decode(fields[0]).value, decode(fields[1]).value),
                               Point(decode(fields[2]).value, decode(fields[3]).value))
  {
    match DecodeAll(Split(PyStrip(line), ';'), decode)
    case Err(e) => Err(e)
    case Ok(values) => BuildArgs(values)
  }

  function ReadRows(lines: seq<string>, decode: string -> Result<real, Exception>): (r: Result<seq<Built>, Exception>)
    ensures r.Ok? ==> |r.value| == |lines|
    ensures r.Ok? ==> forall k :: 0 <= k < |lines| ==> ReadRow(lines[k], decode) == Ok(r.value[k])
  {
    ReadEach(lines, RowReader(decode))
  }

  function RowReader(decode: string -> Result<real, Exception>): string -> Result<Built, Exception> {
    line => ReadRow(line, decode)
  }

  /** `f` applied to each element in turn; the first error is raised. */
  function ReadEach<X, Y>(xs: seq<X>, f: X -> Result<Y, Exception>): (r: Result<seq<Y>, Exception>)
    ensures r.Ok? ==> |r.value| == |xs|
    ensures r.Ok? ==> forall k :: 0 <= k < |xs| ==> f(xs[k]) == Ok(r.value[k])
  {
    if xs == [] then Ok([])
    else
      match f(xs[0])
      case Err(e) => Err(e)
      case Ok(b) =>
        match ReadEach(xs[1..], f)
        case Err(e) => Err(e)
        case Ok(rest) =>
          assert forall k :: 1 <= k < |xs| ==> xs[k] == xs[1..][k - 1];
          Ok([b] + rest)
  }

  /** The rows read without error exactly when every row does. */
  lemma ReadRowsOk(lines: seq<string>, decode: string -> Result<real, Exception>)
    ensures ReadRows(lines, decode).Ok? <==> forall k :: 0 <= k < |lines| ==> ReadRow(lines[k], decode).Ok?
  {
    ReadEachOk(lines, RowReader(decode));
  }

  lemma {:induction false} ReadEachOk<X, Y>(xs: seq<X>, f: X -> Result<Y, Exception>)
    ensures ReadEach(xs, f).Ok? <==> forall k :: 0 <= k < |xs| ==> f(xs[k]).Ok?
  {
    if xs != [] {
      ReadEachOk(xs[1..], f);
      assert forall k :: 1 <= k < |xs| ==> xs[k] == xs[1..][k - 1];
    }
  }

  /** `list(read_segments_from_csv(file, decode))` over the file's lines.
      An empty file makes `next(file)` raise StopIteration inside the
      generator, which Python turns into RuntimeError. */
  function ReadSegmentsFromCsv(lines: seq<string>, decode: string -> Result<real, Exception>): (r: Result<seq<Built>, Exception>)
    ensures r.Ok? <==> |lines| >= 1 && PyStrip(lines[0]) == HEADER && ReadRows(lines[1..], decode).Ok?
    ensures |lines| >= 1 && PyStrip(lines[0]) != HEADER ==> r == Err(IOError)
    ensures r.Ok? ==> |r.value| == |lines| - 1
  {
    if lines == [] then Err(RuntimeError)
    else if PyStrip(lines[0]) != HEADER then Err(IOError)
    else ReadRows(lines[1..], decode)
  }

  /** A line whose stripped text splits into four decodable fields reads
      as the segment they spell. */
  lemma ReadRowOfFields(line: string, f0: string, f1: string, f2: string, f3: string,
                        seg: Segment, decode: string -> Result<real, Exception>)
    requires Split(PyStrip(line), ';') == [f0, f1, f2, f3]
    requires decode(f0) == Ok(seg.p1.x) && decode(f1) == Ok(seg.p1.y)
    requires decode(f2) == Ok(seg.p2.x) && decode(f3) == Ok(seg.p2.y)
    ensures ReadRow(line, decode) == Ok(Built(seg))
  {
  }

  /** A row of four decodable fields reads as the segment they spell. */
  lemma ReadRowFourFields(fields: seq<string>, decode: string -> Result<real, Exception>)
    requires |fields| == 4
    requires forall k :: 0 <= k < 4 ==> ';' !in fields[k] && decode(fields[k]).Ok?
    requires PyStrip(Join(fields, ';')) == Join(fields, ';')
    ensures ReadRow(Join(fields, ';'), decode)
         == Ok(Built(Segment(Point(decode(fields[0]).value, decode(fields[1]).value),
                             Point(decode(fields[2]).value, decode(fields[3]).value))))
  {
    SplitJoin(fields, ';');
  }

  // ---------------------------------------------------------------------
  // Writing a segment file

  /** One data row of `write_segments_to_csv` with `binary_encode`: the
      `float2bin` texts of `seg.coords()` (x1, y1, x2, y2) joined by the
      writer's ';'.
      `bits` gives the binary64 word `struct.pack` produces for a number. */
  function EncodedRow(seg: Segment, bits: real -> Word64): string {
    var c := Coords(seg);
    Join([Float2Bin(bits(c[0]), false, false), Float2Bin(bits(c[1]), false, false),
          Float2Bin(bits(c[2]), false, false), Float2Bin(bits(c[3]), false, false)], ';')
  }

  /** A data row has nothing for `strip()` to remove and splits at ';' into
      the 64-digit renderings of the four coordinate words, in `coords()`
      order. */
  lemma EncodedRowFields(seg: Segment, bits: real -> Word64)
    ensures var row := EncodedRow(seg, bits);
      PyStrip(row) == row &&
      Split(row, ';') == [ToBits(bits(seg.p1.x), 64), ToBits(bits(seg.p1.y), 64),
                          ToBits(bits(seg.p2.x), 64), ToBits(bits(seg.p2.y), 64)]
  {
    var w0, w1, w2, w3 := bits(seg.p1.x), bits(seg.p1.y), bits(seg.p2.x), bits(seg.p2.y);
    BinaryFieldFree(w0);
    BinaryFieldFree(w1);
    BinaryFieldFree(w2);
    BinaryFieldFree(w3);
    FourBinaryFields(ToBits(w0, 64), ToBits(w1, 64), ToBits(w2, 64), ToBits(w3, 64));
    assert EncodedRow(seg, bits) == Join([ToBits(w0, 64), ToBits(w1, 64), ToBits(w2, 64), ToBits(w3, 64)], ';');
  }

  /** Four fields of 64 binary digits joined by ';' need no stripping and
      split back into the fields. */
  lemma FourBinaryFields(f0: string, f1: string, f2: string, f3: string)
    requires |f0| == 64 && IsBinary(f0) && |f1| == 64 && IsBinary(f1)
    requires |f2| == 64 && IsBinary(f2) && |f3| == 64 && IsBinary(f3)
    requires ';' !in f0 && ';' !in f1 && ';' !in f2 && ';' !in f3
    ensures var row := Join([f0, f1, f2, f3], ';'); PyStrip(row) == row && Split(row, ';') == [f0, f1, f2, f3]
  {
    SplitJoin([f0, f1, f2, f3], ';');
    BinaryJoinTrimmed([f0, f1, f2, f3]);
  }

  /** The `float2bin` text of a word holds no ';'. */
  lemma BinaryFieldFree(w: Word64)
    ensures Float2Bin(w, false, false) == ToBits(w, 64) && ';' !in ToBits(w, 64)
    ensures |ToBits(w, 64)| == 64 && IsBinary(ToBits(w, 64))
  {
    ToBitsBinary(w, 64);
  }

  /** The lines `write_segments_to_csv` writes: the header, then one
      encoded row per segment. */
  function EncodedLines(segs: seq<Segment>, bits: real -> Word64): (r: seq<string>)
    ensures |r| == |segs| + 1 && r[0] == HEADER
    ensures forall k :: 0 <= k < |segs| ==> r[k + 1] == EncodedRow(segs[k], bits)
  {
    [HEADER] + seq(|segs|, (k: int) requires 0 <= k < |segs| => EncodedRow(segs[k], bits))
  }

  /** The decoder reads the `float2bin` text of the number `x` as `x`
      again: true of every finite double in the source, where `bits` and
      `bin2float` are inverse on them. */
  predicate DecodesBack(x: real, bits: real -> Word64, decode: string -> Result<real, Exception>) {
    decode(Float2Bin(bits(x), false, false)) == Ok(x)
  }

  /** Every coordinate of the segment decodes back. */
  predicate SegmentDecodesBack(seg: Segment, bits: real -> Word64, decode: string -> Result<real, Exception>) {
    DecodesBack(seg.p1.x, bits, decode) && DecodesBack(seg.p1.y, bits, decode) &&
    DecodesBack(seg.p2.x, bits, decode) && DecodesBack(seg.p2.y, bits, decode)
  }

  /** `bin2float` as a decoder: the checks of `Bin2FloatBits`, then the
      float the word stands for (`value`). */
  function Bin2Float(value: Word64 -> real): string -> Result<real, Exception> {
    s =>
      match Bin2FloatBits(s, false)
      case Ok(w) => Ok(value(w))
      case Err(e) => Err(e)
  }

  /** The number is a double: the float of its word is the number itself. */
  predicate IsDouble(x: real, bits: real -> Word64, value: Word64 -> real) {
    value(bits(x)) == x
  }

  /** Every coordinate of the segment is a double. */
  predicate SegmentIsDouble(seg: Segment, bits: real -> Word64, value: Word64 -> real) {
    IsDouble(seg.p1.x, bits, value) && IsDouble(seg.p1.y, bits, value) &&
    IsDouble(seg.p2.x, bits, value) && IsDouble(seg.p2.y, bits, value)
  }

  /** `bin2float` reads the `float2bin` text of a double as that double. */
  lemma Bin2FloatDecodesBack(x: real, bits: real -> Word64, value: Word64 -> real)
    requires IsDouble(x, bits, value)
    ensures DecodesBack(x, bits, Bin2Float(value))
  {
    var w := bits(x);
    assert Bin2FloatBits(Float2Bin(w, false, false), false) == Ok(w);
  }

  /** With a decoder that inverts the encoding of the segment's numbers,
      reading its encoded row gives the segment back. */
  lemma EncodedRowReadBack(seg: Segment, bits: real -> Word64, decode: string -> Result<real, Exception>)
    requires SegmentDecodesBack(seg, bits, decode)
    ensures ReadRow(EncodedRow(seg, bits), decode) == Ok(Built(seg))
  {
    var w0, w1, w2, w3 := bits(seg.p1.x), bits(seg.p1.y), bits(seg.p2.x), bits(seg.p2.y);
    BinaryFieldFree(w0);
    BinaryFieldFree(w1);
    BinaryFieldFree(w2);
    BinaryFieldFree(w3);
    EncodedRowFields(seg, bits);
    ReadRowOfFields(EncodedRow(seg, bits), ToBits(w0, 64), ToBits(w1, 64), ToBits(w2, 64), ToBits(w3, 64), seg, decode);
  }

  /** One encoded number: 64 binary digits, which decode back. */
  lemma EncodedField(x: real, bits: real -> Word64, decode: string -> Result<real, Exception>) returns (f: string)
    requires decode(Float2Bin(bits(x), false, false)) == Ok(x)
    ensures f == Float2Bin(bits(x), false, false)
    ensures ';' !in f && |f| == 64 && IsBinary(f) && decode(f) == Ok(x)
  {
    f := BinaryField(bits(x));
  }

  /** The `float2bin` text of a binary64 word: 64 binary digits. */
  lemma BinaryField(w: Word64) returns (f: string)
    ensures f == Float2Bin(w, false, false) && f == ToBits(w, 64)
    ensures ';' !in f && |f| == 64 && IsBinary(f)
  {
    f := Float2Bin(w, false, false);
    ToBitsBinary(w, 64);
  }

  /** Four 64-digit binary fields joined by ';' have nothing for
      `strip()` to remove. */
  lemma BinaryJoinTrimmed(fields: seq<string>)
    requires |fields| == 4
    requires forall k :: 0 <= k < 4 ==> |fields[k]| == 64 && IsBinary(fields[k])
    ensures PyStrip(Join(fields, ';')) == Join(fields, ';')
  {
    var line := Join(fields, ';');
    assert fields == [fields[0], fields[1], fields[2], fields[3]];
    Join4(fields[0], fields[1], fields[2], fields[3], ';');
    assert |fields[0]| == 64 && IsBit(fields[0][0]);
    assert |fields[3]| == 64 && IsBit(fields[3][63]);
    assert line[0] == fields[0][0] && line[|line| - 1] == fields[3][63];
    PyStripTrimmed(line);
  }

  /** Writing segments and reading the file back, with a decoder that
      inverts the encoding of every number written, gives the same segments
      in the same order. */
  lemma EncodedLinesReadBack(segs: seq<Segment>, bits: real -> Word64, decode: string -> Result<real, Exception>)
    requires forall k :: 0 <= k < |segs| ==> SegmentDecodesBack(segs[k], bits, decode)
    ensures ReadSegmentsFromCsv(EncodedLines(segs, bits), decode)
         == Ok(seq(|segs|, (k: int) requires 0 <= k < |segs| => Built(segs[k])))
  {
    PyStripTrimmed(HEADER);
    EncodedRowsReadBack(segs, bits, decode);
  }

  /** The round trip of the package's own codec: a file of segments whose
      coordinates are doubles, written with `float2bin` and read with
      `bin2float`, gives the same segments in the same order. */
  lemma EncodedFileReadsBack(segs: seq<Segment>, bits: real -> Word64, value: Word64 -> real)
    requires forall k :: 0 <= k < |segs| ==> SegmentIsDouble(segs[k], bits, value)
    ensures ReadSegmentsFromCsv(EncodedLines(segs, bits), Bin2Float(value))
         == Ok(seq(|segs|, (k: int) requires 0 <= k < |segs| => Built(segs[k])))
  {
    forall k | 0 <= k < |segs|
      ensures SegmentDecodesBack(segs[k], bits, Bin2Float(value))
    {
      var seg := segs[k];
      Bin2FloatDecodesBack(seg.p1.x, bits, value);
      Bin2FloatDecodesBack(seg.p1.y, bits, value);
      Bin2FloatDecodesBack(seg.p2.x, bits, value);
      Bin2FloatDecodesBack(seg.p2.y, bits, value);
    }
    EncodedLinesReadBack(segs, bits, Bin2Float(value));
  }

  /** The data rows of an encoded file read back one by one. */
  lemma EncodedRowsReadBack(segs: seq<Segment>, bits: real -> Word64, decode: string -> Result<real, Exception>)
    requires forall k :: 0 <= k < |segs| ==> SegmentDecodesBack(segs[k], bits, decode)
    ensures ReadRows(EncodedLines(segs, bits)[1..], decode)
         == Ok(seq(|segs|, (k: int) requires 0 <= k < |segs| => Built(segs[k])))
  {
    var lines := EncodedLines(segs, bits)[1..];
    var expected := seq(|segs|, (k: int) requires 0 <= k < |segs| => Built(segs[k]));
    forall k | 0 <= k < |segs|
      ensures ReadRow(lines[k], decode) == Ok(expected[k])
    {
      EncodedRowReadBack(segs[k], bits, decode);
    }
    ReadRowsAll(lines, decode, expected);
  }

  /** Lines that each read as the corresponding value read, together, as
      those values. */
  lemma ReadRowsAll(lines: seq<string>, decode: string -> Result<real, Exception>, expected: seq<Built>)
    requires |lines| == |expected|
    requires forall k :: 0 <= k < |lines| ==> ReadRow(lines[k], decode) == Ok(expected[k])
    ensures ReadRows(lines, decode) == Ok(expected)
  {
    ReadEachAll(lines, RowReader(decode), expected);
  }

  lemma {:induction false} ReadEachAll<X, Y>(xs: seq<X>, f: X -> Result<Y, Exception>, expected: seq<Y>)
    requires |xs| == |expected|
    requires forall k :: 0 <= k < |xs| ==> f(xs[k]) == Ok(expected[k])
    ensures ReadEach(xs, f) == Ok(expected)
  {
    if xs != [] {
      var tail, rest := xs[1..], expected[1..];
      forall k | 0 <= k < |tail| ensures f(tail[k]) == Ok(rest[k]) {
        assert tail[k] == xs[k + 1] && rest[k] == expected[k + 1];
      }
      ReadEachAll(tail, f, rest);
      assert expected == [expected[0]] + rest;
    }
  }
}
