/** The two adapters' `postprocess` steps over the batch engine's records:
    an overlap record becomes its start and end, any other record its
    start. */
module Postprocess {
  import opened Geometry
  import opened Bits
  import opened FastInter
  import SegUtils

  /** `postprocess` of the exact-output adapter: the points in record order. */
  method PostprocessR(inp: seq<Record>) returns (out: seq<Point>)
    ensures out == Expand(inp)
    ensures |out| == |inp| + CountKind(inp, SegmentOverlapType)
  {
    out := [];
    for k := 0 to |inp|
      invariant out == Expand(inp[..k])
    {
      assert inp[..k + 1][..k] == inp[..k];
      var i := inp[k];
      if i.SegmentOverlap? {
        out := out + [i.start];
        out := out + [i.end];
      } else {
        out := out + [i.start];
      }
    }
    assert inp[..|inp|] == inp;
  }

  /** The 64-digit rendering of one coordinate, given the binary64 word of
      the float (the reinterpretation itself is not modelled). */
  function EncodeCoord(x: real, bits: real -> Word64): (r: string)
    ensures |r| == 64
    ensures SegUtils.Bin2FloatBits(r, false).Ok? && SegUtils.Bin2FloatBits(r, false).value == bits(x)
  {
    SegUtils.Float2Bin(bits(x), false, false)
  }

  function EncodePoint(p: Point, bits: real -> Word64): (string, string) {
    (EncodeCoord(p.x, bits), EncodeCoord(p.y, bits))
  }

  /** `postprocess` of the bit-string adapter: the same points, each
      coordinate rendered as 64 binary digits. */
  method PostprocessD(inp: seq<Record>, bits: real -> Word64) returns (out: seq<(string, string)>)
    ensures |out| == |Expand(inp)| == |inp| + CountKind(inp, SegmentOverlapType)
    ensures forall k :: 0 <= k < |out| ==> out[k] == EncodePoint(Expand(inp)[k], bits)
    ensures forall k :: 0 <= k < |out| ==> |out[k].0| == 64 && |out[k].1| == 64
  {
    out := [];
    ghost var points: seq<Point> := [];
    for k := 0 to |inp|
      invariant points == Expand(inp[..k])
      invariant |out| == |points|
      invariant forall m :: 0 <= m < |out| ==> out[m] == EncodePoint(points[m], bits)
    {
      assert inp[..k + 1][..k] == inp[..k];
      var i := inp[k];
      if i.SegmentOverlap? {
        out := out + [EncodePoint(i.start, bits)];
        points := points + [i.start];
        out := out + [EncodePoint(i.end, bits)];
        points := points + [i.end];
      } else {
        out := out + [EncodePoint(i.start, bits)];
        points := points + [i.start];
      }
    }
    assert inp[..|inp|] == inp;
  }
}
