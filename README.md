# A verified model of the segment-intersection benchmark's exact core

The benchmark compares line-segment intersection engines on the same
inputs. Inputs are CSV files of segments whose coordinates are usually
written as 64-character big-endian bit strings of IEEE 754 binary64
words. Adapters print either a count of intersection points or the
points themselves, and Python drivers collect those outputs into tables.
This project models the parts of the repository that are plain
sequential logic over exact numbers and finite sequences, and proves
what they compute.

Geometry is done over Dafny's exact `real`. That is the semantics of the
Fraction and Decimal backends without rounding. A 64-bit word is a `nat`
below 2^64. Where the source reinterprets a word as a float, or a float
as a word, the model takes that mapping as a function parameter (`value`,
`bits`). Running a command, reading a file, testing whether a path
exists, the clock and randomness are also parameters.

Modules, by the program part they follow:

- `Wrappers`, `Text`, `Bits`, `Geometry`: shared vocabulary.
  - `Wrappers`: Option and Result.
  - `Text`: splitting and joining on a separator, stripping, decimal digits.
  - `Bits`: big-endian bit strings and their values.
  - `Geometry`: points, segments, cross products.
- `SegUtils` (python/src/segintbench/utils.py): the package's determinant engine `find_intersection`, optionally widened by epsilon, the all-pairs driver, `Segment.build`/`coords`/`map`/`scale`, the length layer of `bin2float`/`float2bin`, and reading and writing segment CSV files.
- `Collinear`: the collinear resolver, whose copies in every Python engine are identical, with its x-only disjointness test.
- `Pairs`: concatenation of per-pair results over `itertools.combinations` order, and the loops that build it.
- `FastInter` (python/src/segintbench/fast_inter.py): the columnar batch engine, with its frame columns as sequences. It covers the offset enumeration of row pairs, the selection test without sign normalisation, and the tagged records.
- `ToolsDisplayer` (tools/displayer.py): the list-building driver and `distinct_intersections`.
- `TwoPoint`: the two-point-form engine with bounding-box acceptance that three files share.
  - `GenerationDisplayer` (generation/displayer.py) and `ToFraction` (python/test_toFraction_r.py) instantiate it.
  - `AdapterUtils` (adapters/python/utils.py) instantiates it with an epsilon box.
- `Generator` (generator.py): the Cramer-rule engines `find_intersection_d`/`_r`, their drivers and tagged drivers, endpoint ordering, `sort_segments`, and the swap/revert step of `star_intersections_9`.
- `Postprocess` (adapters/python/test_vectorized_r.py, test_vectorized_d.py): expansion of overlap records into points, with and without bit-string encoding.
- `Stats` (python/src/segintbench/main/test.py): the counters of `stat_one_file`, the reference marking of `summarize` and the row counting of `collect`.
- `CppUtils` (cpp/utils.h): `bitstring_to_double` up to the memcpy, `print_binary`, `print_point` and `process_line`'s field split.
- `AdapterMain` (adapters/cpp/main.hpp): the extension check, header trimming and validation, and the line dispatch of `main`.
- `RustAdapter` (adapters/rust/src/main.rs): `float_to_binary`, `bitstring_to_double` up to `from_bits`, and the count and print dispatch over line intersections.
- `CgalRational` (test_cgal_intersector_rational_f.cpp): `str_to_int128` and `print_int128` with 128-bit wrap-around, their round trip, and the eight-field row split.
- `Tester` (generation/tester.py): `parse_intersections`, `load_points_from_file`, `bin2float`, `get_files_from_argument`'s comma split, and the cells `process_file` appends. generation/tester_accuracy.py repeats `bin2float`, `parse_intersections`, `load_points_from_file` and `process_file` of this file line for line (its lines 9-118), so the same members cover it.
- `Minimize` (python/src/segintbench/main/minimize.py): the delta-debugging line minimiser, with the tester as an oracle parameter.
- `GeoJson`, `Generate`, `StreetConverter`: GeoJSON LineString positions to segments (section 3.1.4 of RFC 7946).
  - `GeoJson` holds the splitting of python/src/segintbench/main/generate.py and generation/street_converter.py.
  - `Generate` holds the skip/force decision of `process_configuration`.
  - `StreetConverter` holds the rows of `write_segments_to_csv`.
- `LengthRandomizer` (generation/length_randomizer.py, generation/processing/length_randomizer.py): `scale_segment` and the length-free `bin_to_float`/`float_to_bin` codec.
- `Summarizer` (summarizer.py): the pivot of `summarize_results`.
- `SanityCheck` (sanity_check.py): the per-row classification of `analyze_results_csv`.

Where the repository's description and its code disagree, the model follows the code. Five cases are listed under "## Findings". In each of them the model keeps the code's behaviour as written beside a corrected member. Other quirks are modelled literally:

- the swapped `horiz`/`vert` counter names of `stat_one_file`;
- the `npos + 1` wrap of the C++ extension test;
- `str_to_int128`'s missing digit validation;
- `bin_to_float`'s missing length check.

## Model

| member | source | states |
|---|---|---|
| SegUtils.FindIntersection | python/src/segintbench/utils.py:67-99 | at most two points come back, and at most one when the converted segments are not parallel |
| SegUtils.MeetDets | python/src/segintbench/utils.py:73-82 | if the two lines meet at parameter t on the first segment and s on the second, then t * det == det2 and s * det == det1 |
| SegUtils.CrossingAgrees | python/src/segintbench/utils.py:91-99 | when det != 0, the point at t = det2/det on the first segment is also the point at s = det1/det on the second |
| SegUtils.FindIntersectionSound | python/src/segintbench/utils.py:91-99 | without epsilon, every point reported for a non-parallel pair lies on both converted segments |
| SegUtils.FindIntersectionComplete | python/src/segintbench/utils.py:91-99 | without epsilon, a point shared by two non-parallel converted segments is exactly what is reported |
| SegUtils.CommonPointParameters | python/src/segintbench/utils.py:91-92 | a point shared by two non-parallel segments sits at parameters det2/det and det1/det, both in [0, 1] |
| SegUtils.FindIntersectionParallel | python/src/segintbench/utils.py:84-89 | when det == 0 and det1 or det2 is non-zero, nothing is reported and the segments share no point; when all three are zero, the converted segments are collinear and the resolver's answer on the unconverted segments is returned |
| SegUtils.ZeroDetsCollinear | python/src/segintbench/utils.py:80-88 | all three determinants zero means each segment's endpoints lie on the other segment's line |
| SegUtils.DeterminantsSwap | python/src/segintbench/utils.py:80-82 | swapping the two segments negates det and trades det1 for -det2 and det2 for -det1 |
| SegUtils.FindIntersectionSymmetric | python/src/segintbench/utils.py:67-118 | in exact arithmetic the result does not depend on the order of the two segments, for every epsilon and conversion |
| SegUtils.CrossingSymmetric | python/src/segintbench/utils.py:91-99 | the non-parallel case of that symmetry: s and t trade places and the same point is reported |
| SegUtils.EpsilonMonotone | python/src/segintbench/utils.py:94-99 | a larger non-negative epsilon only adds points: everything reported with e1 (or without epsilon) is reported with e2 >= e1 |
| SegUtils.EpsilonZeroIsNone | python/src/segintbench/utils.py:94 | `epsilon = 0` is falsy and gives the same result as no epsilon |
| SegUtils.CalculateIntersectionsPairwise | python/src/segintbench/utils.py:122-124 | at most two points per pair of segments, and nothing for fewer than two segments |
| SegUtils.PairwiseFromPairs | python/src/segintbench/utils.py:122-124 | every point comes from a pair i < j of input segments |
| SegUtils.PairwisePoints | python/src/segintbench/utils.py:34-35 | `itertools.pairwise` gives |xs| - 1 overlapping pairs (xs[k], xs[k+1]) |
| SegUtils.PointsFromCoords | python/src/segintbench/utils.py:27-35 | fewer than four coordinates is a TypeError, an odd number of extra ones is a ValueError; otherwise the first two points are (x1, y1) and (x2, y2) followed by one point per overlapping pair of the extras |
| SegUtils.BuildArgs | python/src/segintbench/utils.py:16-24 | a segment of points comes back exactly for four numbers; two arguments give the non-point record `Segment(a, b)`; more than four with an odd count of extras raise ValueError |
| SegUtils.Coords | python/src/segintbench/utils.py:37-38 | the coordinates are four numbers |
| SegUtils.BuildCoords | python/src/segintbench/utils.py:16-20 | building from a segment's `coords()` gives that segment back |
| SegUtils.CoordsBuild | python/src/segintbench/utils.py:19-20 | the coordinates of the segment built from four numbers are those numbers, in order |
| SegUtils.MapSeg | python/src/segintbench/utils.py:40-41 | `map(fn)` applies fn to every coordinate and keeps the endpoint structure |
| SegUtils.MapIdentity | python/src/segintbench/utils.py:40-41 | mapping the identity changes nothing |
| SegUtils.MapCompose | python/src/segintbench/utils.py:40-41 | mapping f and then g is mapping their composition |
| SegUtils.Scale | python/src/segintbench/utils.py:43-56 | the first endpoint stays, the direction is multiplied by the factor, and a zero-length segment comes back unchanged |
| SegUtils.ScaleOne | python/src/segintbench/utils.py:43-56 | factor 1 changes nothing |
| SegUtils.ScaleCompose | python/src/segintbench/utils.py:43-56 | scaling by a and then by b is scaling by a * b |
| SegUtils.Bin2FloatBits | python/src/segintbench/utils.py:127-131 | a length other than 64 (32 for single precision) is a ValueError; the text is accepted exactly when it has that length and only binary digits, and then its word renders back as the same text |
| SegUtils.BytesToHex | python/src/segintbench/utils.py:140-141 | the hexadecimal rendering has two digits per byte |
| SegUtils.Float2Bin | python/src/segintbench/utils.py:135-141 | 8 characters per byte (2 for hex), and the binary text of a word is read back by `bin2float` as that word |
| SegUtils.DecodeAll | python/src/segintbench/utils.py:165 | the fields decode exactly when each one does, and then the values are the decoded fields in order |
| SegUtils.ReadRows | python/src/segintbench/utils.py:164-165 | when every data line reads, there is one built value per line, each the reading of its line |
| SegUtils.ReadRowsOk | python/src/segintbench/utils.py:164-165 | reading succeeds exactly when every data line reads |
| SegUtils.ReadRowsAll | python/src/segintbench/utils.py:164-165 | lines that each read as a given value read, together, as the list of those values |
| SegUtils.ReadSegmentsFromCsv | python/src/segintbench/utils.py:159-165 | the file reads exactly when it has a first line that strips to "x1;y1;x2;y2" and every later line reads; a different header is an IOError; there is one segment per data line |
| SegUtils.ReadRowFourFields | python/src/segintbench/utils.py:165 | a line of four decodable ';'-free fields reads as the segment of the four values |
| SegUtils.EncodedLines | python/src/segintbench/utils.py:144-156 | the header "x1;y1;x2;y2", then one row per segment holding the `float2bin` texts of its four coordinates |
| SegUtils.EncodedRowReadBack | python/src/segintbench/utils.py:152-165 | with a decoder that reads each of the segment's four written numbers back as that number, a written row reads back as its segment |
| SegUtils.EncodedField | python/src/segintbench/utils.py:135-141 | one encoded number is 64 binary digits free of ';' that decode back to the number |
| SegUtils.BinaryField | python/src/segintbench/utils.py:135-141 | the `float2bin` text of a binary64 word is its 64-digit big-endian rendering |
| SegUtils.BinaryJoinTrimmed | python/src/segintbench/utils.py:165 | a row of four binary fields has nothing for `strip()` to remove |
| SegUtils.EncodedRowsReadBack | python/src/segintbench/utils.py:152-165 | all data rows of a written file read back as the written segments |
| SegUtils.EncodedLinesReadBack | python/src/segintbench/utils.py:144-165 | writing segments and reading the file back gives the same segments, in order |
| SegUtils.Bin2FloatDecodesBack | python/src/segintbench/utils.py:127-141 | `bin2float` reads the `float2bin` text of a double back as that double |
| SegUtils.EncodedFileReadsBack | python/src/segintbench/utils.py:144-165 | a file written from segments whose coordinates are doubles reads back with the default `bin2float` decoder as the same segments, in order |
| SegUtils.EncodedRowFields | python/src/segintbench/utils.py:152-155 | a data row has nothing for `strip()` to remove and splits at ';' into the 64-digit renderings of the four coordinate words, in `coords()` order |
| SegUtils.ReadRow | python/src/segintbench/utils.py:165 | a row builds a segment exactly when, stripped, it splits into four fields that all decode, and the segment then has the four decoded values as its coordinates; any successful read decoded every field |
| Collinear.FindCollinearIntersections | python/src/segintbench/utils.py:103-118 | nothing exactly when the x-ranges are disjoint; the single point is the overlap start, exactly when the start equals the end; otherwise the overlap start followed by the (different) overlap end; every point is one of the four endpoints |
| Collinear.CollinearComplete | python/src/segintbench/utils.py:103-118 | a point on both collinear segments is never missed: something is reported, the point lies between the overlap start and end in (x, y) order, and when one point is reported it is that point |
| Collinear.OnSegmentBetween | python/src/segintbench/utils.py:105-112 | a point on a segment lies between its (x, y)-sorted endpoints |
| Collinear.CollinearSymmetric | python/src/segintbench/utils.py:103-118 | the resolver does not depend on the order of its arguments |
| Collinear.VerticalDisjointReported | python/src/segintbench/utils.py:108-118 | two disjoint vertical segments on one line get two points reported, neither of which lies on both segments |
| Collinear.OnSegmentByX | python/src/segintbench/utils.py:108 | a point on the line of a non-vertical segment whose x lies in the segment's x-range is on the segment |
| Collinear.OnSegmentByY | python/src/segintbench/utils.py:108 | the same along y for a vertical segment |
| Collinear.BetweenOnSegment | python/src/segintbench/utils.py:105-112 | a point on a segment's line that lies between its (x, y)-sorted endpoints is on the segment |
| Collinear.OnLineInXRange | python/src/segintbench/utils.py:108 | on a non-vertical common line, a point in a segment's x-range is on that segment |
| Collinear.CollinearSoundNonVertical | python/src/segintbench/utils.py:103-118 | on a non-vertical common line the x-only test is enough: every reported point lies on both segments |
| Collinear.OverlapInXRanges | python/src/segintbench/utils.py:108-112 | when the x-ranges meet, the overlap start and end lie in the x-range of both segments |
| Collinear.EndpointOnLine | python/src/segintbench/utils.py:111-112 | an endpoint of either segment is on the common line |
| Collinear.FindCollinearIntersectionsPointOrder | python/src/segintbench/utils.py:103-118 | the corrected resolver: at most two points, in strictly increasing (x, y) order, each an endpoint |
| Collinear.PointOrderSound | python/src/segintbench/utils.py:103-118 | for collinear segments, every point the corrected resolver reports lies on both segments, vertical lines included |
| Collinear.PointOrderAgreesOffVertical | python/src/segintbench/utils.py:108 | on non-vertical lines the corrected resolver gives exactly what the original gives |
| Geometry.MaxPt | python/src/segintbench/utils.py:111 | `max` by the (x, y) key returns one of its arguments and is at least both |
| Geometry.MinPt | python/src/segintbench/utils.py:112 | `min` by the (x, y) key returns one of its arguments and is at most both |
| Geometry.Sort2 | python/src/segintbench/utils.py:105-106 | the two points in (x, y) order: a permutation of the input that is sorted |
| Geometry.EndpointsOnSegment | python/src/segintbench/utils.py:11-13 | both endpoints are points of the closed segment |
| Geometry.Insert | tools/displayer.py:121-126 | inserting into a strictly sorted list keeps it strictly sorted and adds exactly that point, growing by one only if it was new |
| Geometry.SortedCard | tools/displayer.py:121-126 | a strictly sorted list has no duplicates: its length is the size of its set |
| Geometry.ElementsCard | tools/displayer.py:121-126 | `set(points)` is never larger than the list |
| Geometry.SortedFromSet | tools/displayer.py:121-126 | `sorted(set)` is strictly sorted and lists the set, each element once |
| Geometry.DistinctSorted | tools/displayer.py:121-126 | the distinct intersections are strictly sorted, are exactly the input's points and are no more numerous than the input |
| Geometry.SortedOf | tools/displayer.py:121-126 | a strictly sorted list with the same points as the input |
| Geometry.StrictlySortedUnique | tools/displayer.py:121-126 | a set has only one strictly sorted listing, so the distinct result is determined |
| Geometry.SortedTail | tools/displayer.py:121-126 | the tail of a strictly sorted list is strictly sorted and lacks the head |
| Geometry.SortedHeadLeast | tools/displayer.py:121-126 | the head of a strictly sorted list is its least point |
| ToolsDisplayer.FindIntersection | tools/displayer.py:20-50 | for det != 0, a point comes back exactly when det1/det and det2/det both lie in [0, 1], and it is p1 + t * d1; for det == 0, nothing unless det1 and det2 are zero, and then the resolver's list |
| ToolsDisplayer.CalculateIntersections | tools/displayer.py:70-75 | the per-pair lists extended over `itertools.combinations` order, with length the sum of the per-pair lengths |
| ToolsDisplayer.MatchesPairwise | tools/displayer.py:20-75 | the displayer's all-pairs result equals the package engine's `calculate_intersections_pairwise` without epsilon or conversion |
| ToolsDisplayer.Report | tools/displayer.py:119-131 | the two printed numbers are the total count and the number of distinct points, and the second never exceeds the first |
| Pairs.CombinationsFromLength | python/src/segintbench/utils.py:123 | the pairs whose first index is at least i number (n - i)(n - i - 1)/2 |
| Pairs.CombinationsLength | python/src/segintbench/utils.py:123 | `combinations(range(n), 2)` has n(n - 1)/2 pairs |
| Pairs.Row | python/src/segintbench/utils.py:123 | the pairs (i, j), ..., (i, n - 1) number n - j |
| Pairs.RowMembers | python/src/segintbench/utils.py:123 | a row holds exactly the pairs (i, b) with j <= b < n |
| Pairs.CombinationsFromMembers | python/src/segintbench/utils.py:123 | the pairs from index i on are exactly those with i <= a < b < n |
| Pairs.CombinationsMembers | python/src/segintbench/utils.py:123 | exactly the pairs a < b < n occur |
| Pairs.RowIncreasing | python/src/segintbench/utils.py:123 | a row is in increasing order and all its pairs start with i |
| Pairs.CombinationsFromIncreasing | python/src/segintbench/utils.py:123 | the pairs from index i on are in strictly increasing lexicographic order |
| Pairs.CombinationsIncreasing | python/src/segintbench/utils.py:123 | the enumeration is duplicate-free and in lexicographic order |
| Pairs.CombinationsInRange | python/src/segintbench/utils.py:123 | every pair indexes the input |
| Pairs.FlatMapLength | tools/displayer.py:70-75 | the concatenated length is the sum of the per-pair lengths |
| Pairs.TotalLengthBound | python/src/segintbench/utils.py:122-124 | at most `bound` points per pair give at most `bound` times the number of pairs |
| Pairs.FlatMapFrom | python/src/segintbench/utils.py:122-124 | every concatenated point comes from some enumerated pair |
| Pairs.ExtendOverPairs | tools/displayer.py:70-75 | the loop `out.extend(f(a, b))` over the pairs builds their concatenation |
| Pairs.FlatMapSnoc | generator.py:783-789 | one more pair appends its results |
| Pairs.FlatMapAppend | python/src/segintbench/utils.py:122-124 | concatenating over two pair lists is concatenating the two results |
| Pairs.FlatMapCongruent | python/src/segintbench/utils.py:122-124 | per-pair functions that agree on the enumerated pairs give the same concatenation |
| Pairs.TotalLengthMonotone | python/src/segintbench/utils.py:122-124 | a per-pair function never longer than another gives a total never larger |
| Text.PyStrip | python/src/segintbench/utils.py:161 | `str.strip()` leaves no whitespace at either end |
| Text.Split | python/src/segintbench/utils.py:165 | `split(sep)` gives one more piece than there are separators, none of which holds the separator |
| Text.JoinSplit | python/src/segintbench/utils.py:165 | joining the pieces of a split gives the text back |
| Text.SplitJoin | python/src/segintbench/utils.py:165 | splitting a join of separator-free pieces gives the pieces back |
| Text.DecimalDigits | test_cgal_intersector_rational_f.cpp:56-76 | the decimal digits of a positive number have no leading zero and read back as the number |
| Text.FirstIndex | adapters/cpp/main.hpp:58-61 | the position of the first occurrence, or the length when there is none |
| Text.AfterLast | adapters/cpp/main.hpp:58-61 | just past the last occurrence, with none after it, or 0 when there is none |
| Text.PyStripTrimmed | python/src/segintbench/utils.py:161 | a string without whitespace at its ends is its own strip |
| Bits.ToBits | cpp/utils.h:37-42 | the rendering of a word has exactly the requested width |
| Bits.ToBitsBinary | cpp/utils.h:37-42 | the rendering holds only '0' and '1' |
| Bits.BitsValueBound | cpp/utils.h:23-30 | k binary digits have a value below 2^k |
| Bits.BitsValueToBits | cpp/utils.h:23-42 | reading back a rendering gives the word modulo 2^width |
| Bits.ToBitsBitsValue | cpp/utils.h:23-42 | rendering the value of a binary string at its own width gives the string |
| Bits.ParseRender | cpp/utils.h:23-42 | for words that fit the width, rendering then reading is the identity |
| Bits.RenderMod | cpp/utils.h:37-42 | only the lowest `width` bits are rendered |
| Bits.ToBitsSplit | python/src/segintbench/utils.py:141 | a wide rendering is the high part's rendering followed by the low part's |
| Bits.BytesToBits | python/src/segintbench/utils.py:141 | eight digits per byte |
| Bits.BytesToBitsIsToBits | python/src/segintbench/utils.py:139-141 | joining the zero-padded `bin` of each big-endian byte is the 8n-digit rendering of the word |
| Generator.FindIntersectionR | generator.py:683-710 | with a zero denominator, the resolver's points on the unconverted segments when both cross-product equalities hold and nothing otherwise; with a non-zero one, the product point exactly when u and v both lie in [0, 1] |
| Generator.FindIntersectionD | generator.py:713-740 | the same engine on the coordinates as they are: at most two points, and at most one for a non-zero denominator |
| Generator.GeneratorDets | generator.py:721-729 | den = -det, the numerator of u is det2 - det and that of v is det1 - det, in the package engine's determinants |
| Generator.CramerSolves | generator.py:728-732 | u and v solve u * (p1 - p2) + v * (p4 - p3) = p4 - p2 |
| Generator.ProductPointWrong | generator.py:740 | for (0,0)-(2,2) against (0,2)-(2,0), which cross at (1, 1), the engine returns (0, 0), which is not on the second segment |
| Generator.FindIntersectionCorrected | generator.py:713-740 | the engine with the crossing built as p2 + u * (p1 - p2): at most two points |
| Generator.CorrectedMatchesUtils | generator.py:713-740 | the corrected engine reports exactly what the package engine reports without epsilon, for every pair and conversion |
| Generator.AsWrittenAcceptance | generator.py:713-740 | the engine as written accepts exactly as many points as the package engine without epsilon; for parallel pairs the results are equal, and for a crossing the one point differs only in being the product instead of the point on the first segment |
| Generator.CalculateIntersectionsD | generator.py:760-765 | the per-pair lists of `find_intersection_d`, concatenated in `itertools.combinations` order, with length the sum of the per-pair lengths |
| Generator.CalculateIntersectionsR | generator.py:768-773 | the same for `find_intersection_r` |
| Generator.CorrectedDriverMatchesPairwise | generator.py:760-773 | with the corrected point, the all-pairs result is the package's `calculate_intersections_pairwise` |
| Generator.CalculateIntersectionsQ | generator.py:776-780 | one rounded point per input point, in order |
| Generator.Tag | generator.py:787-788 | each point of a pair tagged with that pair, in order |
| Generator.Firsts | generator.py:783-798 | the points of a tagged list, in order |
| Generator.FirstsAppend | generator.py:783-798 | stripping tags commutes with concatenation |
| Generator.FirstsOfTagged | generator.py:783-798 | the tagged all-pairs list, tags stripped, is the untagged one |
| Generator.AppendTagged | generator.py:787-788 | the inner loop appends the pair's points, each tagged with the pair |
| Generator.AccurateIntersections | generator.py:783-798 | the tagged per-pair lists concatenated in `itertools.combinations` order |
| Generator.AccurateIntersectionsD | generator.py:783-789 | the same points in the same order as `calculate_intersections_d`, each tagged with a pair that produces it |
| Generator.AccurateIntersectionsR | generator.py:792-798 | the same for `find_intersection_r` |
| Generator.TaggedFromPair | generator.py:783-798 | every tagged point is among the results of the pair it is tagged with |
| Generator.OrderEndpoints | generator.py:677-680 | the endpoints come out in (x, y) order, as a permutation of the two, unchanged when already ordered |
| Generator.KeyLeTotal | generator.py:805-806 | the sort key is total |
| Generator.KeyLeTransitive | generator.py:805-806 | the sort key is transitive |
| Generator.InsertByKey | generator.py:805-806 | insertion adds one element |
| Generator.InsertByKeyMultiset | generator.py:805-806 | insertion adds exactly that element |
| Generator.InsertByKeySorted | generator.py:805-806 | insertion keeps the list sorted by key |
| Generator.SortSegments | generator.py:805-806 | `sorted(segments, key=(min(seg), max(seg)))` is a permutation of the input, sorted by that key |
| Generator.StarSwap | generator.py:490-491 | the step keeps the number of segments |
| Generator.StarSwapKeepsJ | generator.py:490-491 | for i != j, segment i becomes (s_i.p1, s_j.p2), segment j stays as it was, and nothing else changes |
| Generator.StarSwapCorrected | generator.py:490-491 | the exchange of the two second endpoints keeps the number of segments |
| Generator.StarSwapCorrectedExchanges | generator.py:490-491 | the corrected step exchanges the second endpoints of i and j, leaves the others alone, and undoes itself |
| Generator.StarSwapLeavesSecond | generator.py:490-491 | on two horizontal segments the step as written leaves segment 1 unchanged, where the exchange would change it |
| Generator.StarStep | generator.py:484-501 | one pass of the loop body: the new intersections are those of the swapped list, the change is kept exactly when they are not too many, otherwise both segments are restored; segment j never changes |
| Generator.StarStepCorrected | generator.py:484-501 | the same pass with the corrected exchange |
| TwoPoint.FindIntersection | adapters/python/utils.py:21-52 | a zero denominator gives the resolver's points when both collinearity equalities hold and nothing otherwise; otherwise the candidate (rounded) comes back exactly when it lies in both bounding boxes widened by a truthy epsilon |
| TwoPoint.DenominatorIsDet | adapters/python/utils.py:28-31 | the denominator is the determinant of the two directions, and the two equalities hold exactly when det1 and det2 are zero |
| TwoPoint.NumeratorsAsDets | adapters/python/utils.py:35-36 | the numerators are x1 * det + det2 * dx1 and y1 * det + det2 * dy1 |
| TwoPoint.CandidateOnBothLines | generation/displayer.py:31-43 | the candidate is the point at det2/det on the first segment and at det1/det on the second, so it lies on both infinite lines |
| TwoPoint.AtOnLine | generation/displayer.py:39-43 | every point p1 + t * (p2 - p1) is on the line of the segment |
| TwoPoint.OnSegmentInBox | generation/displayer.py:46-47 | a point of a segment lies in its inclusive bounding box |
| TwoPoint.Between | generation/displayer.py:46-47 | a convex combination of two numbers lies between their min and max |
| TwoPoint.InBoxOnSegment | generation/displayer.py:46-47 | a point on the line of a proper segment that lies in its bounding box is a point of the segment |
| TwoPoint.MatchesDeterminantEngine | generation/displayer.py:24-49 | without widening and rounding, the two-point form reports exactly what the determinant engine reports |
| TwoPoint.MatchesParallel | generation/displayer.py:33-37 | the same, for a zero denominator |
| TwoPoint.MatchesNonParallel | generation/displayer.py:39-49 | the same, for a non-zero denominator |
| TwoPoint.BoxedCandidateReported | generation/displayer.py:39-48 | a candidate inside both boxes is the one point the determinant engine reports |
| TwoPoint.ProperSegments | generation/displayer.py:31 | a non-zero denominator needs two segments of non-zero length |
| TwoPoint.UtilsPointInBoxes | generation/displayer.py:46-47 | when the determinant engine reports a crossing, the candidate lies in both boxes |
| TwoPoint.AcceptedOnBothSegments | generation/displayer.py:46-48 | an accepted unwidened candidate lies on both segments |
| TwoPoint.Symmetric | adapters/python/utils.py:21-52 | swapping the segments negates the denominator and both numerators and leaves the result unchanged |
| TwoPoint.EpsilonMonotone | adapters/python/utils.py:41-52 | a wider box keeps every point a narrower one accepts |
| TwoPoint.EpsilonZeroIsNone | adapters/python/utils.py:41 | `epsilon = 0` is falsy and gives the unwidened test |
| GenerationDisplayer.FindIntersection | generation/displayer.py:24-49 | for a non-zero denominator, the candidate comes back exactly when it lies in both inclusive boxes, and then it is a point of both segments; for a zero one, the resolver's points if both equalities hold and nothing otherwise |
| GenerationDisplayer.CalculateIntersections | generation/displayer.py:69-74 | the per-pair lists concatenated in `itertools.combinations` order, with length the sum of the per-pair lengths |
| GenerationDisplayer.MatchesPairwise | generation/displayer.py:24-74 | under exact arithmetic the displayer's all-pairs result is the package engine's |
| GenerationDisplayer.Report | generation/displayer.py:118-130 | the printed total and distinct counts, sorted distinct points never outnumbering the total |
| ToFraction.FindIntersection | python/test_toFraction_r.py:65-88 | for a non-zero denominator, the rounded candidate comes back exactly when the exact candidate lies in both inclusive boxes; for a zero one, the resolver's points if both equalities hold and nothing otherwise |
| ToFraction.ExactIsDisplayer | python/test_toFraction_r.py:65-88 | with the exact value kept instead of `float()`, it is the Decimal displayer's engine |
| ToFraction.CalculateIntersections | python/test_toFraction_r.py:107-120 | the per-pair lists concatenated in `itertools.combinations` order; `total_intersections` is their length, at most two per pair |
| AdapterUtils.CalculateIntersectionsPairwise | adapters/python/utils.py:74-76 | at most two points per pair, and nothing for fewer than two segments |
| AdapterUtils.PairwiseFromPairs | adapters/python/utils.py:74-76 | every point comes from a pair i < j |
| AdapterUtils.PairwiseEpsilonMonotone | adapters/python/utils.py:74-76 | a wider epsilon never gives fewer points over all pairs |
| FastInter.RecordPoints | python/src/segintbench/fast_inter.py:26-28 | a segment-overlap record stands for two points, its start and end; any other record for its start alone |
| FastInter.Expand | adapters/python/test_vectorized_r.py:7-15 | the expanded point list has one point per record plus one more per segment overlap |
| FastInter.ExpandAppend | adapters/python/test_vectorized_r.py:9-14 | expanding consecutive record lists gives consecutive point lists |
| FastInter.FromSegments | python/src/segintbench/fast_inter.py:64 | the frame has one row per segment, and row k holds the coordinates of segment k |
| FastInter.ILocFrom | python/src/segintbench/fast_inter.py:66 | `df.iloc[i:]` with a reset index has len - i rows, row k being row k + i of the frame |
| FastInter.ILocDropLast | python/src/segintbench/fast_inter.py:66 | `df.iloc[:-i]` has len - i rows, the first ones of the frame |
| FastInter.FindCollinearIntersectionsVect | python/src/segintbench/fast_inter.py:13-28 | at most one record, none exactly when the ordered x-ranges are disjoint; both segments come back in (x, y) order and the record is never a true intersection |
| FastInter.VectMatchesCollinear | python/src/segintbench/fast_inter.py:13-28 | the records stand for exactly the points the list-producing collinear resolver returns |
| FastInter.PairRecords | python/src/segintbench/fast_inter.py:48-57 | a row pair yields at most one record |
| FastInter.SelectedCases | python/src/segintbench/fast_inter.py:48-55 | a selected parallel row pair has all determinants zero; any other selected pair has det > 0 and both parameters in [0, 1]; a pair with det < 0 is never selected |
| FastInter.TrueIntersectionOnBoth | python/src/segintbench/fast_inter.py:55-57 | the point of a true-intersection record lies on both segments |
| FastInter.PairRecordsMatchUtils | python/src/segintbench/fast_inter.py:48-57 | when det >= 0 the records stand for the points the determinant engine finds for (later, earlier); when det < 0 nothing is yielded |
| FastInter.NegativeDetDropped | python/src/segintbench/fast_inter.py:48 | the crossing segments (0,0)-(2,2) (later) and (0,2)-(2,0) (earlier) have det = -8; the batch engine drops them while the determinant engine reports (1, 1) |
| FastInter.Normalized | python/src/segintbench/fast_inter.py:48 | negating all three determinants when det < 0 gives det >= 0 and keeps both parameters det1/det and det2/det |
| FastInter.PairRecordsNormalized | python/src/segintbench/fast_inter.py:48-57 | with normalised signs a row pair still yields at most one record |
| FastInter.PairRecordsNormalizedMatchUtils | python/src/segintbench/fast_inter.py:48-57 | with normalised signs every row pair stands for exactly the points of the determinant engine, whatever the sign of det |
| FastInter.DiagonalMembers | python/src/segintbench/fast_inter.py:31-33 | the row pairs compared for one offset i are exactly (b + i, b) for the rows b of the shorter frame |
| FastInter.VisitedFromMembers | python/src/segintbench/fast_inter.py:65-66 | the offsets from i on visit exactly the pairs (a, b) with b + i <= a < n |
| FastInter.VisitedMembers | python/src/segintbench/fast_inter.py:65-66 | the engine visits exactly the pairs (a, b) with b < a < n |
| FastInter.DiagonalShape | python/src/segintbench/fast_inter.py:31-33 | one offset visits each row pair at most once, all at distance i, n - i of them |
| FastInter.VisitedFromShape | python/src/segintbench/fast_inter.py:65-66 | the offsets from i on visit no pair twice, each pair at distance i or more, (n - i)(n - i + 1)/2 of them |
| FastInter.VisitedOnce | python/src/segintbench/fast_inter.py:65-66 | every pair of distinct rows is compared exactly once: no pair twice, all pairs b < a < n, n(n - 1)/2 in all |
| FastInter.VisitedInRange | python/src/segintbench/fast_inter.py:65-66 | every visited pair names two rows of the frame |
| FastInter.RowsOf | python/src/segintbench/fast_inter.py:50-51 | the rows of a frame read as segments, one per row |
| FastInter.VisitedFromFlat | python/src/segintbench/fast_inter.py:65-66 | the offsets from i on yield the per-pair records concatenated over the pairs they visit, in visiting order |
| FastInter.VectorizedIsFlatMap | python/src/segintbench/fast_inter.py:60-66 | the whole engine, as written and with normalised signs, is its per-pair records concatenated over the visiting order |
| FastInter.CalculateIntersectionsVectorized | python/src/segintbench/fast_inter.py:60-66 | at most one record per unordered pair of rows |
| Postprocess.PostprocessR | adapters/python/test_vectorized_r.py:7-15 | the output is the records' points in record order, one per record plus one per segment overlap |
| Postprocess.EncodeCoord | adapters/python/test_vectorized_d.py:11-14 | a coordinate becomes 64 binary digits that `bin2float` reads back as the word of the float |
| Postprocess.PostprocessD | adapters/python/test_vectorized_d.py:7-15 | the output has one pair of 64-digit strings per point of the records, pair k encoding point k of the expanded list |
| Stats.ClassifiedAtMostOnce | python/src/segintbench/main/test.py:205-211 | the elif chain counts each segment in at most one of length_0, horiz and vert |
| Stats.EndpointBounds | python/src/segintbench/main/test.py:212-219 | the endpoint set and the sets of x and y values have at most two members per segment |
| Stats.TrueStartsMembers | python/src/segintbench/main/test.py:228-230 | a point is in `inter_points` exactly when some true-intersection record starts at it |
| Stats.KindsPartition | python/src/segintbench/main/test.py:224-230 | overlap + online + intersect counts every record exactly once |
| Stats.ScanSegments | python/src/segintbench/main/test.py:203-219 | the first loop yields the zero-length, horizontal and vertical counts and the sets of endpoints, x values and y values of all segments |
| Stats.ScanRecords | python/src/segintbench/main/test.py:221-230 | the second loop counts the records of each kind and collects the start points of the true intersections |
| Stats.StatOneFile | python/src/segintbench/main/test.py:198-240 | `stat_one_file`: n segments, n(n-1)/2 pairs, the classification counts (summing to at most n), same_x, same_y and same_p non-negative, the record-kind counts summing to the number of records of the batch engine, and true_intersection_points at most intersection_points |
| Stats.MarkCell | python/src/segintbench/main/test.py:364-365 | a cell is wrapped in `**` exactly when a reference value exists and the cell is neither it nor the missing marker |
| Stats.ReferenceValue | python/src/segintbench/main/test.py:359-361 | there is a reference value exactly when a reference command is given and the input has a result for it, and then it is that result |
| Stats.SummarizeRow | python/src/segintbench/main/test.py:358-366 | the row is the input followed by one cell per command, the command's result or the missing marker, marked against the reference |
| Stats.DistinctCard | python/src/segintbench/main/test.py:275-280 | the number of distinct rows is at most the number of rows |
| Stats.CountRows | python/src/segintbench/main/test.py:274-280 | the row loop counts every row and collects the set of distinct rows |
| Stats.CollectCounts | python/src/segintbench/main/test.py:269-280 | an empty file raises StopIteration; a header that is not `p_x;p_y` after stripping raises IOError; otherwise result_uniq is the row count and result the number of distinct rows, never more |
| CppUtils.RemoveSpace | cpp/utils.h:16-17 | the result is no longer than the input and holds no whitespace character |
| CppUtils.RemoveSpaceFree | cpp/utils.h:16-17 | a string without whitespace is left as it is |
| CppUtils.RemoveSpaceIdempotent | cpp/utils.h:16-17 | erasing whitespace twice is erasing it once |
| CppUtils.EraseSpace | cpp/utils.h:16-17 | the erase loop leaves exactly the non-whitespace characters, in order |
| CppUtils.ShiftNoWrap | cpp/utils.h:29 | for at most 64 digits, `x << 1` never wraps in 64 bits, so the shift-and-or builds the value of the digits read so far |
| CppUtils.BitstringWord | cpp/utils.h:15-35 | a word exists exactly when 64 binary digits remain after erasing whitespace, and then those digits spell it; anything else is std::invalid_argument |
| CppUtils.BitstringToDouble | cpp/utils.h:15-35 | the method, with its length test and digit loop, computes that word or that exception |
| CppUtils.ShiftIn | cpp/utils.h:29 | one step of the loop extends the accumulated value by one digit |
| CppUtils.PrintBinary | cpp/utils.h:37-42 | 64 binary digits without whitespace that `bitstring_to_double` reads back as the same word |
| CppUtils.PrintPoint | cpp/utils.h:44-49 | 130 characters ending in a newline; splitting the rest at ';' gives the two words' renderings |
| CppUtils.GetLine | cpp/utils.h:57-60 | on a failed or exhausted stream the token is unchanged and the stream fails; otherwise the token is the text up to the next ';', which is consumed, or the rest of the line with end of file set |
| CppUtils.Field | cpp/utils.h:57-60 | a field never contains the delimiter |
| CppUtils.GetLineField | cpp/utils.h:57-60 | each `getline` delivers the next `;` field, and past the last field the token keeps its value |
| CppUtils.ProcessLine | cpp/utils.h:54-62 | the four tokens are the first four `;` fields of the line, an empty string for each field the line lacks |
| CppUtils.FieldsOfJoin | cpp/utils.h:54-62 | a line of four `;`-free fields joined by ';' is read back as those four fields |
| RustAdapter.FloatToBinary | adapters/rust/src/main.rs:105-109 | 64 binary digits that `bitstring_to_double` reads back as the same word |
| RustAdapter.BitstringToDouble | adapters/rust/src/main.rs:111-119 | a word exists exactly when the text is 64 binary digits, and then the digits spell it; anything else is an error |
| RustAdapter.ParseThenRender | adapters/rust/src/main.rs:105-119 | text that parses is the rendering of its word |
| RustAdapter.Weight | adapters/rust/src/main.rs:87-94 | a report counts as many points as it prints: 1 for a single point, 2 for a collinear piece |
| RustAdapter.Points | adapters/rust/src/main.rs:46-82 | the printed points number the total weight of the reports |
| RustAdapter.PointLine | adapters/rust/src/main.rs:52-56 | splitting a data line at ';' gives the two coordinates' renderings |
| RustAdapter.LineDecodes | adapters/rust/src/main.rs:52-56 | a data line has two fields, which parse back to the point's two words |
| RustAdapter.CountIntersections | adapters/rust/src/main.rs:84-99 | the count mode loop computes the total weight, which is the number of points print mode outputs |
| RustAdapter.PrintIntersections | adapters/rust/src/main.rs:44-82 | the header `p_x;p_y`, then one line per point of the reports, in order |
| RustAdapter.PrintReport | adapters/rust/src/main.rs:47-81 | one report appends the lines of its points: its point, or its start and then its end |
| RustAdapter.LinesAppend | adapters/rust/src/main.rs:46-82 | the lines of consecutive point lists are consecutive |
| RustAdapter.LinesAt | adapters/rust/src/main.rs:46-82 | line k of the printout is the line of point k |
| RustAdapter.Lines | adapters/rust/src/main.rs:46-82 | one line per point |
| CgalRational.Wrap128 | test_cgal_intersector_rational_f.cpp:38-53 | the two's-complement value of a signed 128-bit integer: in range, equal to the input when it fits, and congruent to it modulo 2^128 |
| CgalRational.Fold | test_cgal_intersector_rational_f.cpp:48-50 | the wrapping fold stays a 128-bit value |
| CgalRational.StrToInt128Value | test_cgal_intersector_rational_f.cpp:38-53 | a 128-bit value; the empty string reads as 0 |
| CgalRational.StrToInt128 | test_cgal_intersector_rational_f.cpp:38-53 | the loop with its 128-bit wrap-around computes that value |
| CgalRational.PrefixValue | test_cgal_intersector_rational_f.cpp:48-50 | a prefix of a digit string is worth no more than the string |
| CgalRational.FoldExact | test_cgal_intersector_rational_f.cpp:48-50 | on digit strings whose value fits, the wrapping fold is the exact decimal value |
| CgalRational.Reverse | test_cgal_intersector_rational_f.cpp:73-75 | reversal keeps the length |
| CgalRational.PrintInt128 | test_cgal_intersector_rational_f.cpp:56-76 | the digit loop and the reversed output write "0" for zero, otherwise an optional '-' and the decimal digits of the magnitude, most significant first |
| CgalRational.CollectDigits | test_cgal_intersector_rational_f.cpp:67-71 | the digit loop leaves the decimal digits of a positive number in reverse order |
| CgalRational.WriteReversed | test_cgal_intersector_rational_f.cpp:73-75 | the output loop appends the collected characters last to first |
| CgalRational.Int128TextCases | test_cgal_intersector_rational_f.cpp:56-76 | the text is "0" for zero, the digits of a positive number, '-' and the digits of the magnitude for a negative one, and a lone '-' for the minimum |
| CgalRational.NegationWraps | test_cgal_intersector_rational_f.cpp:62-65 | `n = -n` is exact for every negative value but the minimum, which it maps to itself |
| CgalRational.Int128TextDigits | test_cgal_intersector_rational_f.cpp:56-76 | the text starts with '-' exactly for a negative number and otherwise is the decimal digits of the number; for a negative number other than the minimum the rest is the digits of its magnitude |
| CgalRational.ReverseAppend | test_cgal_intersector_rational_f.cpp:73-75 | reversing a concatenation reverses and swaps the parts |
| CgalRational.RoundTrip | test_cgal_intersector_rational_f.cpp:38-76 | reading back what `print_int128` writes gives the number, for every 128-bit value except the minimum |
| CgalRational.MinimumText | test_cgal_intersector_rational_f.cpp:62-71 | the minimum, whose negation wraps to itself, is written as a lone '-' and reads back as 0 |
| CgalRational.NoValidation | test_cgal_intersector_rational_f.cpp:49 | characters are not checked: "1a" reads as 10 + ('a' - '0') = 59 |
| CgalRational.LeadingDigits | test_cgal_intersector_rational_f.cpp:167 | the digits `std::stoll` consumes are all decimal digits |
| CgalRational.Stoll | test_cgal_intersector_rational_f.cpp:167-187 | a value is a signed 64-bit integer; a failure is std::invalid_argument or std::out_of_range |
| CgalRational.StollText | test_cgal_intersector_rational_f.cpp:167-187 | `std::stoll` reads back every signed 64-bit value written in decimal |
| CgalRational.StollUnsigned | test_cgal_intersector_rational_f.cpp:167 | a digit string that fits reads as its value |
| CgalRational.StollNegative | test_cgal_intersector_rational_f.cpp:167 | '-' and a digit string whose negation fits reads as minus its value |
| CgalRational.DigitsOnly | test_cgal_intersector_rational_f.cpp:167 | a digit string has no whitespace to skip and is consumed whole |
| CgalRational.Tokens | test_cgal_intersector_rational_f.cpp:166-187 | `count` getline calls give `count` tokens |
| CgalRational.RowTokens | test_cgal_intersector_rational_f.cpp:160-187 | one row gives eight tokens |
| CgalRational.TokensFrom | test_cgal_intersector_rational_f.cpp:166-187 | while fields remain, the tokens are the next fields in order |
| CgalRational.RowTokensFull | test_cgal_intersector_rational_f.cpp:160-187 | a row of at least eight fields gives its first eight |
| CgalRational.TokensAfterEnd | test_cgal_intersector_rational_f.cpp:166-187 | once the stream is exhausted, every further token repeats the last one read |
| CgalRational.StollAll | test_cgal_intersector_rational_f.cpp:167-187 | the values exist exactly when every token converts, and then value k is token k's; otherwise the error is that of a token that fails |
| CgalRational.RowSegment | test_cgal_intersector_rational_f.cpp:189-198 | a segment exists exactly when all four denominators are non-zero, and then each coordinate times its denominator is its numerator |
| CgalRational.ReadRow | test_cgal_intersector_rational_f.cpp:160-187 | a row that converts gives eight values |
| CgalRational.ReadRowFull | test_cgal_intersector_rational_f.cpp:160-187 | a row of at least eight fields is read as its first eight |
| CgalRational.ReadRowShort | test_cgal_intersector_rational_f.cpp:166-187 | the row "1;2" gives the tokens 1, 2, 2, 2, 2, 2, 2, 2: its last field is read again for each missing one |
| AdapterMain.NoDotIsWholePath | adapters/cpp/main.hpp:58 | with no '.', `find_last_of` gives npos, npos + 1 is 0, and only the path "csv" itself passes |
| AdapterMain.CsvExtension | adapters/cpp/main.hpp:58 | "data.csv" and "csv" pass the extension test and "data.txt" does not |
| AdapterMain.CsvExtensionMeaning | adapters/cpp/main.hpp:58-61 | a path passes the extension test exactly when it is "csv" itself or ends in ".csv" |
| AdapterMain.TrimHeader | adapters/cpp/main.hpp:71-72 | the two loops leave the slice of the line between its leading and trailing whitespace, which neither starts nor ends with whitespace |
| AdapterMain.RunAdapter | adapters/cpp/main.hpp:52-108 | exit code 1 with nothing processed and no output exactly for an empty path, a non-csv extension, a file that does not open or a wrong trimmed header; otherwise exit code 0, every later line handed to `process_line` once in order, and the point header or the count, milliseconds and memory lines |
| AdapterMain.TrimLeft | adapters/cpp/main.hpp:71 | the result does not start with whitespace |
| AdapterMain.TrimRight | adapters/cpp/main.hpp:72 | the result does not end with whitespace |
| AdapterMain.PaddedHeader | adapters/cpp/main.hpp:69-76 | whitespace around the header line does not make `main` reject it |
| AdapterMain.TrimLeftSpaces | adapters/cpp/main.hpp:71 | leading whitespace is erased whatever follows it |
| AdapterMain.TrimRightSpaces | adapters/cpp/main.hpp:72 | trailing whitespace is removed whatever precedes it |
| Tester.OutputLines | generation/tester.py:13-28 | the captured lines are empty exactly when the call raised, and otherwise they join back to the stripped output, so the "no output" branch is never taken |
| Tester.ParseLine | generation/tester.py:51-57 | a line parses exactly when, stripped, it splits into two fields of 64 binary digits, and then it is the point of the two words those fields spell |
| Tester.WordOf | generation/tester.py:31-35 | the word `bin2float` reads from a valid 64-digit string |
| Tester.ParsesRustLine | generation/tester.py:50-57 | a line the Rust adapter prints for a crossing is read back as that crossing |
| Tester.RustLineFields | generation/tester.py:52-54 | a Rust data line is already stripped, splits into the two renderings, and `bin2float` reads them as the two words |
| Tester.RustBitsAreBin2Float | generation/tester.py:31-35 | text the Rust adapter's parser accepts is read by `bin2float` as the same word |
| Tester.CppLineIsRustLine | generation/tester.py:50-54 | `print_point` of cpp/utils.h writes the Rust adapter's line followed by a line break |
| Tester.ParsesCppLine | generation/tester.py:50-57 | a line a C++ adapter prints is read back as its crossing, the line break being stripped |
| Tester.ValidPoints | generation/tester.py:76-84 | at most one point per line |
| Tester.ValidPointsMember | generation/tester.py:50-57 | a point is among the valid points exactly when some line parses to it |
| Tester.ValidPointsSource | generation/tester.py:50-57 | every valid point comes from a line that parses to it |
| Tester.ValidPointsKept | generation/tester.py:50-57 | the point of every line that parses is kept |
| Tester.ValidPointsAllParse | generation/tester.py:76-84 | when every line parses, point k is the point of line k |
| Tester.CollectPoints | generation/tester.py:49-57 | the loop collects exactly the set of points of the lines that parse |
| Tester.ParseIntersections | generation/tester.py:48-58 | `parse_intersections` returns the distinct parsed points in strictly increasing (x, y) order, exactly the set of points of the lines that parse |
| Tester.LoadPointsFromFile | generation/tester.py:72-85 | a file that does not open raises; an empty file raises StopIteration at `next(f)`; otherwise the first line is skipped and the points of the lines that parse are kept in file order, duplicates included |
| Tester.CommandCells | generation/tester.py:133-145 | three output lines become the result, time and memory cells; any other count gives three "Error" cells |
| Tester.RegexReference | generation/tester.py:159-167 | the double reference exactly when the "d" pattern matches, the rational one exactly when only the "r" pattern does, none otherwise |
| Tester.RationalCommandComparedWithDouble | generation/tester.py:159 | the rational adapter `./test_vectorized_r.py` matches the "d" pattern through the 'd' of "vectorized", so its points are compared with the double reference |
| Tester.SuffixReference | generation/tester.py:159-167 | the intended choice: the double reference only for a `d` tag, the rational one only for an `r` tag, none otherwise |
| Tester.SuffixTag | generation/tester.py:159-167 | the tag is the letter just before the extension, with an underscore before it |
| Tester.RegexTagged | generation/tester.py:159-167 | a match needs an underscore, the letter and a dot somewhere in the command |
| Tester.RegexVersusSuffix | generation/tester.py:159-167 | on single-line commands the pattern agrees with the suffix choice for a `d` tag, agrees for an `r` tag exactly when the "d" pattern does not match, and for a name with neither tag (which has no reference under the suffix choice) finds a reference exactly when either pattern matches |
| Tester.PathJoin | generation/tester.py:124-125 | an absolute second part is the result; otherwise the result starts with the first part, ends with the second and adds at most one separator |
| Tester.SuffixReferenceExamples | generation/tester.py:96-111 | under the intended choice `_r`, `_d`, `_ud` and `_ur` adapters go to their own references |
| Tester.AccuracyCell | generation/tester.py:154-176 | "Error" without the point header; nothing when no pattern matches; a distance only with the header, a matched reference and equal point counts, computed from that reference list and the sorted parsed points |
| Tester.NameTail | generation/tester.py:122-123 | IndexError exactly when the base name has no '_' |
| Tester.DistanceCells | generation/tester.py:147-176 | at most one distance cell per command |
| Tester.CellsOf | generation/tester.py:147-176 | at most one cell per command |
| Tester.PlainCells | generation/tester.py:130-145 | every command contributes exactly three cells |
| Tester.ProcessFile | generation/tester.py:116-178 | IndexError for a base name without '_'; otherwise the result, time and memory rows hold the file and each command's three cells, and when the double reference exists (and there is a command) a failing reference load aborts the call and otherwise the distance row holds each command's accuracy cell after the file |
| Tester.RunCommands | generation/tester.py:128-178 | the command loop builds those rows, failing exactly when a checked reference file fails to load |
| Tester.PlainStep | generation/tester.py:130-145 | one command appends its three cells to the three rows |
| Tester.AccuracyStep | generation/tester.py:147-176 | one command loads both references, failing if either does, and otherwise appends its accuracy cell |
| Tester.CommandAccuracy | generation/tester.py:147-176 | loading both references fails exactly when either load fails, with the first failure; otherwise the cell is the command's accuracy cell |
| Tester.AccuracyCellOf | generation/tester.py:154-176 | the statements compute the accuracy cell |
| Tester.DistanceCellsHeaderless | generation/tester.py:154-176 | when no command prints the point header, the distance row holds one "Error" per command |
| Tester.FilesFromArgument | generation/tester.py:38-45 | a directory gives its files joined to it; anything else gives the comma-separated parts, which hold no comma and join back to the argument |
| Minimize.EmbedsRemove | python/src/segintbench/main/minimize.py:55 | leaving out one data line keeps the remaining lines an in-order selection of the original ones |
| Minimize.EmbedsShorter | python/src/segintbench/main/minimize.py:53-66 | an in-order selection is never longer than what it is taken from |
| Minimize.MinimizeFile | python/src/segintbench/main/minimize.py:32-70 | an empty input raises IndexError; an input the tester passes gives no output; otherwise the output keeps the header and an in-order selection of the data lines, the tester still fails on it, and leaving out any one of its data lines makes the tester pass |
| Minimize.MinimalNoLonger | python/src/segintbench/main/minimize.py:32-70 | the minimised data is never longer than the original data |
| Minimize.SingleCulprit | python/src/segintbench/main/minimize.py:32-70 | when the tester fails exactly on files that contain one culprit line, a minimal failing file holds that line alone |
| Minimize.CulpritSurvives | python/src/segintbench/main/minimize.py:53-62 | leaving out any line other than the culprit keeps the tester failing |
| Generate.ProgressBar.constructor | python/src/segintbench/main/generate.py:44 | a new bar has the given total, has written nothing and has counted nothing |
| Generate.ProgressBar.Write | python/src/segintbench/main/generate.py:20-25 | `pb.write` adds one message above the bar and leaves the count |
| Generate.ProgressBar.Update | python/src/segintbench/main/generate.py:26 | `pb.update` counts one more configuration and leaves the messages |
| Generate.FilePath | python/src/segintbench/main/generate.py:18 | the output directory, the category and the file name, in that order, separated by single slashes |
| Generate.ProcessConfiguration | python/src/segintbench/main/generate.py:17-26 | the segments are written exactly when the file is missing or `force` is set, between a "started" and a "done" message; otherwise one "skipped" message; the bar advances by one in both cases |
| Generate.GeneratedFileReadsBack | python/src/segintbench/main/generate.py:23-24 | a generated file reads back, with a decoder that reads every written number back as that number, as the segments the generator returned |
| GeoJson.Get | generation/street_converter.py:19-20 | only a dictionary has `get`: a missing key gives the default, anything but a dictionary raises AttributeError |
| GeoJson.SegmentsUpTo | generation/street_converter.py:21-22 | the segments exist exactly when every index converts, and then segment i is built from positions i and i + 1; otherwise the error is that of the first index that fails |
| GeoJson.ExtractSegments | generation/street_converter.py:14-22 | a document that is not an object raises AttributeError; one without "features" gives no segments |
| GeoJson.LineStringSegments | generation/street_converter.py:19-22 | a LineString feature of k positions gives max(k - 1, 0) segments, segment i joining positions i and i + 1 by their first two components |
| GeoJson.MissingKeys | python/src/segintbench/main/generate.py:68-70 | a feature without "geometry", a geometry without "coordinates" and a document without "features" give no segments |
| GeoJson.NullGeometry | python/src/segintbench/main/generate.py:69 | a null geometry raises AttributeError at the second `get` |
| GeoJson.ShortPosition | python/src/segintbench/main/generate.py:71 | a position of one component followed by another position raises IndexError |
| GeoJson.StringCoordinates | generation/street_converter.py:21-22 | coordinates given as a string of two or more characters raise IndexError |
| GeoJson.FeaturesAppend | generation/street_converter.py:19-22 | the segments of two feature lists in a row are those of the first followed by those of the second, an exception in the first winning |
| GeoJson.LineStringCount | generation/street_converter.py:19-22 | a document of well-formed LineStrings gives one segment fewer than positions per non-empty feature, in total |
| StreetConverter.NumberValue | generation/street_converter.py:9 | `struct.pack` accepts exactly numbers and Booleans (as 1 or 0) and raises struct.error on anything else |
| StreetConverter.BinaryRow | generation/street_converter.py:34-39 | an encoded row exists exactly when all four values are numbers; otherwise struct.error |
| StreetConverter.BinaryRowEncoded | generation/street_converter.py:34-39 | an encoded row is the row `segintbench.utils` writes for the segment of those numbers |
| StreetConverter.Rows | generation/street_converter.py:32-43 | the rows exist exactly when every segment's row does, row k being segment k's; otherwise the error is that of some segment's row |
| StreetConverter.WriteSegmentsToCsv | generation/street_converter.py:25-43 | the header and then one line per segment |
| StreetConverter.RawFile | generation/street_converter.py:40-43 | without encoding nothing fails and line k + 1 holds segment k's four values in the order x1, y1, x2, y2 |
| StreetConverter.RawRowFields | generation/street_converter.py:41-43 | a raw row whose values render without ';' splits back into those renderings |
| StreetConverter.BinaryFile | generation/street_converter.py:32-43 | with encoding the file exists exactly when every row is numeric, line k + 1 being segment k's encoded row; otherwise struct.error |
| StreetConverter.BinaryRowFields | generation/street_converter.py:34-39 | an encoded row has four fields of 64 binary digits, each spelling the word of its value |
| StreetConverter.NumberSegments | generation/street_converter.py:32 | one segment per numeric row, segment k being row k's |
| StreetConverter.StreetLinesEncoded | generation/street_converter.py:46-50 | an encoded street file is the file `segintbench.utils` writes for the segments of its numbers |
| StreetConverter.StreetFileReadsBack | generation/street_converter.py:46-50 | the street file reads back, with a decoder that reads every written number back as that number, as the segments of the network |
| LengthRandomizer.ScaleSegment | generation/length_randomizer.py:20-32 | the first endpoint stays; a zero-length segment comes back unchanged; otherwise the direction is multiplied by the factor |
| LengthRandomizer.ScaleSegmentOne | generation/processing/length_randomizer.py:9-21 | factor 1 gives the segment back |
| LengthRandomizer.ScaleSegmentIsScale | generation/processing/length_randomizer.py:9-21 | the tuple version agrees with `Segment.scale` of the package |
| LengthRandomizer.BinToFloatBits | generation/length_randomizer.py:7-11 | a word exists exactly when the text is non-empty binary digits whose value fits the width, and then it is that value; ValueError for empty or non-binary text, OverflowError for a value too wide |
| LengthRandomizer.LeadingZero | generation/length_randomizer.py:10 | there is no length check: a leading zero changes nothing |
| LengthRandomizer.LeadingZeroValue | generation/length_randomizer.py:10 | a leading zero does not change the value of a digit string |
| LengthRandomizer.ShortString | generation/length_randomizer.py:9-11 | the three-digit string "101" is accepted as the word 5 |
| LengthRandomizer.AgreesAtFullWidth | generation/length_randomizer.py:7-11 | on strings of exactly the width it agrees with `bin2float` of the package |
| LengthRandomizer.FloatToBin | generation/length_randomizer.py:14-17 | the rendering has the width's number of digits and reads back as the word it came from |
| Summarizer.Records | summarizer.py:14-16 | one record per row, holding its stripped command, input and result |
| Summarizer.Summary | summarizer.py:13-23 | every input in the summary is named by some kept row |
| Summarizer.SummaryKeys | summarizer.py:13-23 | an input is in the summary exactly when a kept row names it, and a command is under it exactly when a kept row names both |
| Summarizer.SummaryLastWrite | summarizer.py:22 | the result under an input and command is that of the last kept row naming both |
| Summarizer.StrLtIrreflexive | summarizer.py:25 | no string sorts before itself |
| Summarizer.StrLtTransitive | summarizer.py:25 | string order is transitive |
| Summarizer.StrLtTotal | summarizer.py:25 | any two different strings are ordered |
| Summarizer.InsertStr | summarizer.py:25 | inserting into a strictly sorted list keeps it strictly sorted, adds the new string and nothing else, and grows it by one unless the string was there |
| Summarizer.SortedStrings | summarizer.py:25-31 | `sorted` of a set is strictly increasing and holds exactly the set's members |
| Summarizer.Collect | summarizer.py:11-23 | the reading loop builds the summary of the kept rows, and `inputs_set` is its key set |
| Summarizer.SummaryStep | summarizer.py:13-23 | one more row either leaves the summary or writes its result under its input and command |
| Summarizer.FullCommands | summarizer.py:28-30 | the full commands are those occurring under some input |
| Summarizer.BuildTable | summarizer.py:33-39 | one row per input, starting with the input, then the input's result for each command or "" |
| Summarizer.SummarizeResults | summarizer.py:6-41 | the headers are "Input" and the sorted full commands; the rows are the inputs in strictly increasing order, every input present once, each cell its input's result for its column's command or "" |
| Summarizer.PivotTable | summarizer.py:25-41 | a table built from the sorted inputs and commands has exactly those properties |
| Summarizer.DroppedRow | summarizer.py:19-20 | a row whose command contains no requested substring leaves the summary unchanged |
| Summarizer.NoCommands | summarizer.py:19-20 | with no substrings requested the summary is empty |
| SanityCheck.ParseInt | sanity_check.py:13-16 | `int` of stripped text: a digit string reads as its value, optionally signed; the empty string and anything else give None |
| SanityCheck.ParseIntToString | sanity_check.py:13-16 | the decimal text of a number reads back as that number |
| SanityCheck.Classify | sanity_check.py:18-24 | fine exactly for exit code 0 with a result, an error exactly for another exit code (or none) without a result, to investigate exactly otherwise |
| SanityCheck.ClassifyExamples | sanity_check.py:13-24 | an unparsable exit code without a result is an error; "0" and "-0" with a result are fine; "1" with a result needs a look |
| SanityCheck.AnalyzeResults | sanity_check.py:3-24 | the loop prints, in row order, the line of every row that is not fine |
| SanityCheck.ReportedCount | sanity_check.py:7-24 | one line per row that is not fine, so never more lines than rows, and none when every row is fine |
| SanityCheck.RowReportMeaning | sanity_check.py:18-24 | a row prints nothing exactly when its exit code parses as 0 and its result is not empty; any line it prints ends with its command and input |
| SanityCheck.PresentCount | sanity_check.py:7-24 | the values present number the elements that have one, at most the number of elements |
| SanityCheck.ReportedAppend | sanity_check.py:7-24 | the lines of consecutive parts of a file are consecutive |
| SanityCheck.PresentAppend | sanity_check.py:7-24 | the values present among consecutive parts are consecutive |

## Left out

- Floating point: `struct.pack`/`unpack`, `memcpy`, `f64::from_bits` and `to_bits` are the parameters `value` and `bits`. Double and Decimal rounding, `getcontext().prec`, NaN and infinities are not modelled. The geometry is exact.
- Engines built on foreign libraries are not modelled because their behaviour lives in code that is not part of this model. These are the CGAL arrangement, the Rust `geo` sweep, and the C++ adapters' `compute_crossings`. The C++ `process_line` is modelled only up to its field split.
- pandas, tqdm and tabulate are represented only by what the model needs: frames as column sequences, the bar's messages and counter, and tables as rows of cells.
- Process I/O, subprocesses, time and memory measurement, randomness (`random.sample`, `random.uniform`), thread and process pools are parameters of the members that use them or are not modelled.
- Plotting with matplotlib in the displayers and in generator.py is not modelled; it only draws.
- The distance computation of `calculate_distances` (`math.sqrt` on floats) is not modelled. A distance cell records the two point lists it would compare, together with the gating that decides between a distance and "Error".
- The argparse and click command lines are not modelled. This covers the `main` functions of the driver, tester and summarizer scripts and their table writing. It also covers the top-level argument and file code of python/test_toFraction_r.py.
- `load_csv` of the Rust adapter, `load_segments_from_csv` of the displayers and the file loops of the length randomisers (`process_segments`) are not modelled; they are file reading around the modelled functions.
- The random or trigonometric test generators of generator.py other than the swap/revert step of `star_intersections_9` are not modelled, because they depend on a random number generator and cos/sin.
- The partial file that `write_segments_to_csv` leaves behind when it raises halfway is not modelled. The result is the error alone.
- generation/tester_accuracy.py calls a `run_command` it does not define. The model gives it generation/tester.py's `run_command`.
- The many verbatim copies of `bin2float` are modelled once, by SegUtils.Bin2FloatBits. The copies of `bitstring_to_double` in the C++ adapters are modelled by CppUtils.
- SegUtils.Bin2FloatBits: the model accepts only strings of '0' and '1'. `int(s, 2)` also accepts a sign, a `0b` prefix, underscores and surrounding whitespace. For a 64-character string holding any of these, Python reads a value or raises OverflowError, where the model reports ValueError.
- LengthRandomizer.BinToFloatBits: the same `int(s, 2)` extras are not modelled.
- SanityCheck.ParseInt: `int(s)` also accepts underscores between digits and non-ASCII Unicode digits. The model accepts only an optional sign followed by ASCII digits.

## Findings

| source | as written | input that shows it | evidently intended | confidence | as-written member | corrected member |
|---|---|---|---|---|---|---|
| generator.py:740 | the crossing is returned as (x1 * u * (x2 - x1), y1 * u * (y2 - y1)), a product | (0,0)-(2,2) against (0,2)-(2,0) returns (0, 0); the segments cross at (1, 1) | the point p2 + u * (p1 - p2) on the first segment | not executed | Generator.ProductPointWrong | Generator.FindIntersectionCorrected, Generator.CorrectedMatchesUtils |
| python/src/segintbench/utils.py:108 | the collinear resolver tests disjointness on x only | the vertical segments (0,0)-(0,2) and (0,3)-(0,5) give the two points (0,3) and (0,2), though they share no point | a disjointness test in (x, y) point order, reporting nothing for disjoint segments | not executed | Collinear.VerticalDisjointReported | Collinear.FindCollinearIntersectionsPointOrder, Collinear.PointOrderSound |
| python/src/segintbench/fast_inter.py:48 | a row pair is selected only when 0 <= det1 <= det and 0 <= det2 <= det, with no sign normalisation | later (0,0)-(2,2) and earlier (0,2)-(2,0) give det = -8 and nothing is reported, while the determinant engine returns (1, 1) | negate the three determinants when det < 0 before the test | not executed | FastInter.NegativeDetDropped | FastInter.PairRecordsNormalized, FastInter.PairRecordsNormalizedMatchUtils |
| generator.py:490-491 | the swap assigns segments[i] first, and line 491 then reads the already-updated segments[i].p2 | for any i != j, segment j keeps its endpoints while segment i takes segment j's second endpoint | exchange the second endpoints of segments i and j | not executed | Generator.StarSwapLeavesSecond | Generator.StarSwapCorrected, Generator.StarSwapCorrectedExchanges |
| generation/tester.py:159 | the double reference is chosen when the command matches `_(.*?)d.*?\.` | the rational adapter ./test_vectorized_r.py matches through the 'd' of "vectorized" and is compared with the double reference | choose the reference by the suffix letter before the extension | not executed | Tester.RationalCommandComparedWithDouble | Tester.SuffixReference, Tester.SuffixReferenceExamples |
