/** Points, segments and the lexicographic point order shared by every
    intersection engine. Coordinates are exact reals, the behaviour of the
    exact rational number type. */
module Geometry {

  datatype Point = Point(x: real, y: real)

  datatype Segment = Segment(p1: Point, p2: Point)

  /** Python's tuple order on `(x, y)`, used as the sort key everywhere. */
  predicate Lt(a: Point, b: Point) {
    a.x < b.x || (a.x == b.x && a.y < b.y)
  }

  predicate Le(a: Point, b: Point) {
    Lt(a, b) || a == b
  }

  /** `max(a, b, key=...)`: the first argument unless the second is larger. */
  function MaxPt(a: Point, b: Point): (r: Point)
    ensures r == a || r == b
    ensures Le(a, r) && Le(b, r)
  {
    if Lt(a, b) then b else a
  }

  /** `min(a, b, key=...)`: the first argument unless the second is smaller. */
  function MinPt(a: Point, b: Point): (r: Point)
    ensures r == a || r == b
    ensures Le(r, a) && Le(r, b)
  {
    if Lt(b, a) then b else a
  }

  /** `sorted([p, q], key=...)`. */
  function Sort2(p: Point, q: Point): (r: (Point, Point))
    ensures Le(r.0, r.1)
    ensures (r.0 == p && r.1 == q) || (r.0 == q && r.1 == p)
  {
    if Lt(q, p) then (q, p) else (p, q)
  }

  /** The identity conversion, for engines used on exact values. */
  function Identity(x: real): real { x }

  /** The 2x2 determinant `a.x * b.y - a.y * b.x` of two vectors. */
  function Cross(ax: real, ay: real, bx: real, bY: real): real {
    ax * bY - ay * bx
  }

  /** The point at parameter `t` of the segment, `p1 + t * (p2 - p1)`. */
  function At(s: Segment, t: real): Point {
    Point(s.p1.x + t * (s.p2.x - s.p1.x), s.p1.y + t * (s.p2.y - s.p1.y))
  }

  /** `p` is a point of the closed segment `s`. */
  ghost predicate OnSegment(p: Point, s: Segment) {
    exists t :: 0.0 <= t <= 1.0 && p == At(s, t)
  }

  /** The endpoints are points of the segment. */
  lemma EndpointsOnSegment(s: Segment)
    ensures OnSegment(s.p1, s) && OnSegment(s.p2, s)
  {
    assert s.p1 == At(s, 0.0);
    assert s.p2 == At(s, 1.0);
  }

  /** Every element is smaller than every later one: sorted and free of
      duplicates. */
  predicate StrictlySorted(r: seq<Point>) {
    forall i, j :: 0 <= i < j < |r| ==> Lt(r[i], r[j])
  }

  /** Insert `p` into a strictly sorted sequence, keeping it strictly sorted. */
  function Insert(r: seq<Point>, p: Point): (q: seq<Point>)
    requires StrictlySorted(r)
    ensures StrictlySorted(q)
    ensures forall a :: a in q <==> a in r || a == p
    ensures |q| == if p in r then |r| else |r| + 1
  {
    if r == [] then [p]
    else if Lt(p, r[0]) then [p] + r
    else if p == r[0] then r
    else
      var rest := Insert(r[1..], p);
      assert forall a :: a in r[1..] ==> Lt(r[0], a);
      [r[0]] + rest
  }

  /** The elements of a sequence, as Python's `set(...)`. */
  function Elements(s: seq<Point>): set<Point> {
    set p | p in s
  }

  /** A strictly sorted sequence lists each of its elements once. */
  lemma {:induction false} SortedCard(r: seq<Point>)
    requires StrictlySorted(r)
    ensures |Elements(r)| == |r|
  {
    if r != [] {
      SortedCard(r[1..]);
      assert Elements(r) == {r[0]} + Elements(r[1..]);
      assert r[0] !in Elements(r[1..]);
    }
  }

  /** A set built from a sequence is never larger than the sequence. */
  lemma {:induction false} ElementsCard(s: seq<Point>)
    ensures |Elements(s)| <= |s|
  {
    if s != [] {
      ElementsCard(s[1..]);
      assert Elements(s) == {s[0]} + Elements(s[1..]);
    }
  }

  /** `sorted(points, key=lambda p: (p.x, p.y))` for a set of points. */
  method SortedFromSet(s: set<Point>) returns (r: seq<Point>)
    ensures StrictlySorted(r)
    ensures Elements(r) == s
    ensures |r| == |s|
  {
    var rest := s;
    r := [];
    while rest != {}
      invariant rest <= s
      invariant StrictlySorted(r)
      invariant forall p :: p in r <==> p in s && p !in rest
      invariant |r| + |rest| == |s|
      decreases |rest|
    {
      var p :| p in rest;
      r := Insert(r, p);
      rest := rest - {p};
    }
  }

  /** The displayers' `distinct_intersections`: the points are collected
      into a set and then sorted by (x, y). */
  method DistinctSorted(pts: seq<Point>) returns (r: seq<Point>)
    ensures StrictlySorted(r)
    ensures Elements(r) == Elements(pts)
    ensures |r| <= |pts|
  {
    var points: set<Point> := {};
    for k := 0 to |pts|
      invariant points == Elements(pts[..k])
    {
      assert pts[..k + 1] == pts[..k] + [pts[k]];
      points := points + {pts[k]};
    }
    assert pts[..|pts|] == pts;
    r := SortedFromSet(points);
    ElementsCard(pts);
  }

  /** The strictly sorted sequence of the distinct elements of `s`, built
      by insertion. */
  function SortedOf(s: seq<Point>): (r: seq<Point>)
    ensures StrictlySorted(r)
    ensures Elements(r) == Elements(s)
  {
    if s == [] then []
    else
      var init := SortedOf(s[..|s| - 1]);
      var r := Insert(init, s[|s| - 1]);
      assert s == s[..|s| - 1] + [s[|s| - 1]];
      assert Elements(s) == Elements(s[..|s| - 1]) + {s[|s| - 1]};
      assert Elements(r) == Elements(init) + {s[|s| - 1]};
      r
  }

  /** A set has only one strictly sorted listing. */
  lemma {:induction false} StrictlySortedUnique(a: seq<Point>, b: seq<Point>)
    requires StrictlySorted(a) && StrictlySorted(b)
    requires Elements(a) == Elements(b)
    ensures a == b
  {
    SortedCard(a);
    SortedCard(b);
    if a != [] {
      SortedHeadLeast(a, b[0]);
      SortedHeadLeast(b, a[0]);
      assert a[0] == b[0];
      SortedTail(a);
      SortedTail(b);
      StrictlySortedUnique(a[1..], b[1..]);
      assert a == [a[0]] + a[1..];
      assert b == [b[0]] + b[1..];
    }
  }

  lemma SortedTail(a: seq<Point>)
    requires StrictlySorted(a) && a != []
    ensures StrictlySorted(a[1..])
    ensures Elements(a[1..]) == Elements(a) - {a[0]}
  {
    assert forall p :: p in a[1..] ==> Lt(a[0], p);
  }

  /** The head of a strictly sorted sequence is its least element. */
  lemma SortedHeadLeast(a: seq<Point>, p: Point)
    requires StrictlySorted(a) && p in Elements(a)
    ensures p == a[0] || Lt(a[0], p)
  {
  }
}
