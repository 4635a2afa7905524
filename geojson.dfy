/** Splitting GeoJSON polylines into segments, as the two copies of
    `extract_segments_from_geojson` do (python/src/segintbench/main/generate.py
    and generation/street_converter.py). The document is the value
    `json.load` returns; the file is not read here. Each feature's
    `geometry.coordinates` is read as a list of positions (section 3.1.4
    of RFC 7946, LineString), and consecutive positions give one segment
    each. Python's indexing, `len` and `dict.get` are applied to whatever
    values the document holds, so malformed documents raise the same
    exceptions as the source. */
module GeoJson {
  import opened Wrappers

  /** A parsed JSON value. Numbers are exact; object fields are unordered. */
  datatype Json =
    | JNull
    | JBool(b: bool)
    | JNumber(n: real)
    | JString(s: string)
    | JArray(items: seq<Json>)
    | JObject(fields: map<string, Json>)

  /** The four values a segment is built from: (x1, y1, x2, y2). */
  datatype RawSegment = RawSegment(x1: Json, y1: Json, x2: Json, y2: Json)

  /** `v.get(key, default)`: only dictionaries have `get`. */
  function Get(v: Json, key: string, default: Json): (r: Result<Json, Exception>)
    ensures !v.JObject? ==> r == Err(AttributeError)
    ensures v.JObject? && key !in v.fields ==> r == Ok(default)
  {
    if v.JObject? then Ok(if key in v.fields then v.fields[key] else default) else Err(AttributeError)
  }

  /** `v[i]` for a non-negative integer index: a list item, a one-character
      string, a KeyError on a dictionary (JSON keys are strings), a
      TypeError on anything else. */
  function Index(v: Json, i: nat): Result<Json, Exception> {
    match v
    case JArray(items) => if i < |items| then Ok(items[i]) else Err(IndexError)
    case JString(s) => if i < |s| then Ok(JString([s[i]])) else Err(IndexError)
    case JObject(_) => Err(KeyError)
    case _ => Err(TypeError)
  }

  /** `len(v)`. */
  function Len(v: Json): Result<nat, Exception> {
    match v
    case JArray(items) => Ok(|items|)
    case JString(s) => Ok(|s|)
    case JObject(fields) => Ok(|fields|)
    case _ => Err(TypeError)
  }

  /** `coords[i][c]`. */
  function Component(coords: Json, i: nat, c: nat): Result<Json, Exception> {
    var position :- Index(coords, i);
    Index(position, c)
  }

  /** Segment i of a coordinates value: `coords[i][0], coords[i][1],
      coords[i + 1][0], coords[i + 1][1]`, evaluated left to right. */
  function SegmentAt(coords: Json, i: nat): Result<RawSegment, Exception> {
    var x1 :- Component(coords, i, 0);
    var y1 :- Component(coords, i, 1);
    var x2 :- Component(coords, i + 1, 0);
    var y2 :- Component(coords, i + 1, 1);
    Ok(RawSegment(x1, y1, x2, y2))
  }

  /** Segments 0 .. n - 1 in order; the first one that raises ends the
      generator with that exception. */
  function SegmentsUpTo(coords: Json, n: nat): (r: Result<seq<RawSegment>, Exception>)
    ensures r.Ok? <==> forall i :: 0 <= i < n ==> SegmentAt(coords, i).Ok?
    ensures r.Ok? ==> |r.value| == n && forall i :: 0 <= i < n ==> SegmentAt(coords, i) == Ok(r.value[i])
    ensures r.Err? ==> exists i :: (0 <= i < n && SegmentAt(coords, i) == Err(r.error) &&
                                    forall j :: 0 <= j < i ==> SegmentAt(coords, j).Ok?)
  {
    if n == 0 then Ok([])
    else
      var init :- SegmentsUpTo(coords, n - 1);
      var s :- SegmentAt(coords, n - 1);
      Ok(init + [s])
  }

  /** The segments of one feature: `feature.get("geometry", {})
      .get("coordinates", [])`, then `range(len(coords) - 1)`. */
  function FeatureSegments(feature: Json): Result<seq<RawSegment>, Exception> {
    var geometry :- Get(feature, "geometry", JObject(map[]));
    var coords :- Get(geometry, "coordinates", JArray([]));
    var n :- Len(coords);
    SegmentsUpTo(coords, if n == 0 then 0 else n - 1)
  }

  /** The features of a list, one after the other. */
  function FeaturesSegments(features: seq<Json>): Result<seq<RawSegment>, Exception> {
    if features == [] then Ok([])
    else
      var first :- FeatureSegments(features[0]);
      var rest :- FeaturesSegments(features[1..]);
      Ok(first + rest)
  }

  /** `extract_segments_from_geojson`, consumed to the end or to the first
      exception. `geojson.get("features", [])` is iterated: a list gives
      its items; the items of a non-empty dictionary (its keys) or string
      (its characters) are strings, which have no `get`; a number, a
      Boolean or null is not iterable. */
  function ExtractSegments(geojson: Json): (r: Result<seq<RawSegment>, Exception>)
    ensures !geojson.JObject? ==> r == Err(AttributeError)
    ensures geojson.JObject? && "features" !in geojson.fields ==> r == Ok([])
  {
    var features :- Get(geojson, "features", JArray([]));
    match features
    case JArray(items) => FeaturesSegments(items)
    case JString(s) => if s == [] then Ok([]) else Err(AttributeError)
    case JObject(fields) => if |fields| == 0 then Ok([]) else Err(AttributeError)
    case _ => Err(TypeError)
  }

  // ---------------------------------------------------------------------
  // Properties

  /** A well-formed LineString feature: its geometry's coordinates are the
      list `ps`, and every position has at least two components. */
  predicate LineString(feature: Json, ps: seq<Json>) {
    && feature.JObject?
    && "geometry" in feature.fields
    && feature.fields["geometry"].JObject?
    && "coordinates" in feature.fields["geometry"].fields
    && feature.fields["geometry"].fields["coordinates"] == JArray(ps)
    && forall i :: 0 <= i < |ps| ==> ps[i].JArray? && |ps[i].items| >= 2
  }

  /** A feature with k positions gives max(k - 1, 0) segments; segment i
      joins positions i and i + 1, and takes only the first two components
      of each (an altitude is ignored). */
  lemma LineStringSegments(feature: Json, ps: seq<Json>)
    requires LineString(feature, ps)
    ensures FeatureSegments(feature).Ok?
    ensures var segs := FeatureSegments(feature).value;
      |segs| == (if |ps| == 0 then 0 else |ps| - 1) &&
      forall i :: 0 <= i < |segs| ==>
        segs[i] == RawSegment(ps[i].items[0], ps[i].items[1], ps[i + 1].items[0], ps[i + 1].items[1])
  {
    var coords := JArray(ps);
    var n := if |ps| == 0 then 0 else |ps| - 1;
    forall i | 0 <= i < n
      ensures SegmentAt(coords, i) == Ok(RawSegment(ps[i].items[0], ps[i].items[1], ps[i + 1].items[0], ps[i + 1].items[1]))
    {
    }
  }

  /** Missing keys give no segments: a feature without "geometry", a
      geometry without "coordinates", a document without "features". */
  lemma MissingKeys(feature: Json, geometry: map<string, Json>, document: map<string, Json>)
    requires feature.JObject? && "geometry" !in feature.fields
    requires "coordinates" !in geometry
    requires "features" !in document
    ensures FeatureSegments(feature) == Ok([])
    ensures FeatureSegments(JObject(map["geometry" := JObject(geometry)])) == Ok([])
    ensures ExtractSegments(JObject(document)) == Ok([])
  {
  }

  /** A null geometry, which section 3.2 of RFC 7946 allows, makes the
      `.get("coordinates", [])` call raise. */
  lemma NullGeometry(feature: Json)
    requires feature.JObject? && "geometry" in feature.fields && feature.fields["geometry"] == JNull
    ensures FeatureSegments(feature) == Err(AttributeError)
  {
  }

  /** A position with a single component, followed by another position,
      raises IndexError at `coords[i][1]`. */
  lemma ShortPosition(x: Json, rest: seq<Json>)
    requires |rest| >= 1
    ensures FeatureSegments(JObject(map["geometry" := JObject(map["coordinates" := JArray([JArray([x])] + rest)])]))
         == Err(IndexError)
  {
    var coords := JArray([JArray([x])] + rest);
    assert SegmentAt(coords, 0) == Err(IndexError);
  }

  /** A string of two or more characters as coordinates is indexed
      character by character, and the second index fails. */
  lemma StringCoordinates(s: string)
    requires |s| >= 2
    ensures FeatureSegments(JObject(map["geometry" := JObject(map["coordinates" := JString(s)])])) == Err(IndexError)
  {
    assert SegmentAt(JString(s), 0) == Err(IndexError);
  }

  /** The segments of two feature lists in a row are those of the first
      followed by those of the second; an exception in the first list
      wins. */
  lemma {:induction false} FeaturesAppend(a: seq<Json>, b: seq<Json>)
    ensures FeaturesSegments(a + b) ==
      match FeaturesSegments(a)
      case Err(e) => Err(e)
      case Ok(x) =>
        match FeaturesSegments(b)
        case Err(e) => Err(e)
        case Ok(y) => Ok(x + y)
  {
    if a == [] {
      assert a + b == b;
      match FeaturesSegments(b)
      case Err(e) =>
      case Ok(y) => assert [] + y == y;
    } else {
      assert (a + b)[0] == a[0] && (a + b)[1..] == a[1..] + b;
      FeaturesAppend(a[1..], b);
      match FeatureSegments(a[0])
      case Err(e) =>
      case Ok(first) =>
        match FeaturesSegments(a[1..])
        case Err(e) =>
        case Ok(x) =>
          match FeaturesSegments(b)
          case Err(e) =>
          case Ok(y) =>
            assert first + (x + y) == (first + x) + y;
    }
  }

  /** A document whose features are all well-formed LineStrings gives, in
      total, one segment fewer than positions per non-empty feature. */
  lemma {:induction false} LineStringCount(features: seq<Json>, counts: seq<nat>)
    requires |counts| == |features|
    requires forall k :: 0 <= k < |features| ==>
      exists ps :: LineString(features[k], ps) && counts[k] == |ps|
    ensures FeaturesSegments(features).Ok?
    ensures |FeaturesSegments(features).value| == SegmentTotal(counts)
  {
    if features != [] {
      var ps :| LineString(features[0], ps) && counts[0] == |ps|;
      LineStringSegments(features[0], ps);
      assert forall k :: 0 <= k < |features| - 1 ==> features[1..][k] == features[k + 1] && counts[1..][k] == counts[k + 1];
      LineStringCount(features[1..], counts[1..]);
    }
  }

  /** Σ max(k - 1, 0) over the position counts. */
  function SegmentTotal(counts: seq<nat>): nat {
    if counts == [] then 0 else (if counts[0] == 0 then 0 else counts[0] - 1) + SegmentTotal(counts[1..])
  }
}
