/** The two length randomisers (generation/length_randomizer.py and
    generation/processing/length_randomizer.py): `scale_segment`, which
    both define identically, and the first file's own bit-string codec
    `bin_to_float`/`float_to_bin`. The random factor and the file loop are
    not modelled; the factor is a parameter. */
module LengthRandomizer {
  import opened Wrappers
  import opened Bits
  import opened Geometry
  import opened SegUtils

  /** `scale_segment(x1, y1, x2, y2, factor)`: a zero-length segment comes
      back unchanged; otherwise the first endpoint stays and the direction
      is multiplied by the factor. `math.hypot(dx, dy) == 0` exactly when
      both differences are 0. */
  function ScaleSegment(x1: real, y1: real, x2: real, y2: real, factor: real): (r: (real, real, real, real))
    ensures r.0 == x1 && r.1 == y1
    ensures x1 == x2 && y1 == y2 ==> r == (x1, y1, x2, y2)
    ensures !(x1 == x2 && y1 == y2) ==> r.2 - r.0 == factor * (x2 - x1) && r.3 - r.1 == factor * (y2 - y1)
  {
    var dx, dy := x2 - x1, y2 - y1;
    if dx == 0.0 && dy == 0.0 then (x1, y1, x2, y2)
    else (x1, y1, x1 + dx * factor, y1 + dy * factor)
  }

  /** Factor 1 gives the segment back. */
  lemma ScaleSegmentOne(x1: real, y1: real, x2: real, y2: real)
    ensures ScaleSegment(x1, y1, x2, y2, 1.0) == (x1, y1, x2, y2)
  {
  }

  /** The tuple version agrees with `Segment.scale` of
      python/src/segintbench/utils.py. */
  lemma ScaleSegmentIsScale(seg: Segment, factor: real)
    ensures var r := ScaleSegment(seg.p1.x, seg.p1.y, seg.p2.x, seg.p2.y, factor);
      Scale(seg, factor) == Segment(Point(r.0, r.1), Point(r.2, r.3))
  {
  }

  /** The checks of `bin_to_float` before the bytes are reinterpreted:
      `int(bin_str, 2)` rejects the empty string and non-binary text with
      ValueError, and `to_bytes(8)` (4 when single) raises OverflowError
      for a value that does not fit. There is no length check. */
  function BinToFloatBits(s: string, single: bool): (r: Result<nat, Exception>)
    ensures r.Ok? <==> s != [] && IsBinary(s) && BitsValue(s) < Pow2(Width(single))
    ensures (s == [] || !IsBinary(s)) ==> r == Err(ValueError)
    ensures s != [] && IsBinary(s) && BitsValue(s) >= Pow2(Width(single)) ==> r == Err(OverflowError)
    ensures r.Ok? ==> r.value == BitsValue(s)
  {
    if s == [] || !IsBinary(s) then Err(ValueError)
    else if BitsValue(s) >= Pow2(Width(single)) then Err(OverflowError)
    else Ok(BitsValue(s))
  }

  /** Unlike `bin2float` of the other modules, strings of any length are
      accepted: a leading zero changes nothing, "101" is the word 5, and a
      65-digit string starting with '0' is read as the word of the
      remaining 64 digits. */
  lemma {:induction false} LeadingZero(s: string, single: bool)
    requires s != []
    ensures BinToFloatBits("0" + s, single) == BinToFloatBits(s, single)
  {
    LeadingZeroValue(s);
    var z := "0" + s;
    assert z != [];
    assert IsBinary(z) <==> IsBinary(s) by {
      assert forall i :: 0 <= i < |s| ==> z[i + 1] == s[i];
      assert IsBit(z[0]);
      if IsBinary(s) {
        forall i | 0 <= i < |z| ensures IsBit(z[i]) {
          if i > 0 { assert z[i] == s[i - 1]; }
        }
      }
    }
  }

  lemma {:induction false} LeadingZeroValue(s: string)
    ensures BitsValue("0" + s) == BitsValue(s)
  {
    if s != [] {
      assert ("0" + s)[..|"0" + s| - 1] == "0" + s[..|s| - 1];
      LeadingZeroValue(s[..|s| - 1]);
    } else {
      assert BitsValue("0") == 2 * BitsValue([]) + 0;
    }
  }

  lemma ShortString()
    ensures BinToFloatBits("101", false) == Ok(5)
  {
    assert "101"[..2] == "10" && "10"[..1] == "1" && "1"[..0] == [];
  }

  /** On 64 (32) characters the codec agrees with `bin2float`'s. */
  lemma AgreesAtFullWidth(s: string, single: bool)
    requires |s| == Width(single)
    ensures BinToFloatBits(s, single) == Bin2FloatBits(s, single)
  {
    if IsBinary(s) {
      BitsValueBound(s);
    }
  }

  /** `float_to_bin(value, single)`: eight digits per byte of the packed
      value, given here by its bits `w`; reading the text back gives `w`. */
  function FloatToBin(w: nat, single: bool): (r: string)
    requires w < Pow2(Width(single))
    ensures |r| == Width(single)
    ensures BinToFloatBits(r, single) == Ok(w)
  {
    var r := Float2Bin(w, false, single);
    ToBitsBinary(w, Width(single));
    ParseRender(w, Width(single));
    r
  }
}
