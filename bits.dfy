/** Fixed-width words as big-endian strings of '0' and '1': the text
    encoding every adapter uses for the 64 raw bits of a binary64 value
    (section 3.4 of IEEE 754-2019). Only the word is modelled; the
    reinterpretation of its bits as a floating-point number is not. */
module Bits {

  function Pow2(n: nat): (r: nat)
    ensures r >= 1
  {
    if n == 0 then 1 else 2 * Pow2(n - 1)
  }

  const TWO_64: nat := Pow2(64)

  /** The raw bits of a binary64 value. */
  type Word64 = w: nat | w < TWO_64

  predicate IsBit(c: char) {
    c == '0' || c == '1'
  }

  predicate IsBinary(s: string) {
    forall i :: 0 <= i < |s| ==> IsBit(s[i])
  }

  function BitOf(c: char): nat {
    if c == '1' then 1 else 0
  }

  /** The value of a binary string read most-significant digit first. */
  function BitsValue(s: string): nat {
    if s == [] then 0 else 2 * BitsValue(s[..|s| - 1]) + BitOf(s[|s| - 1])
  }

  /** The lowest `width` bits of `w`, most-significant first, zero-padded:
      `std::bitset<64>` output, `format!("{:064b}")`, `bin(b)[2:].rjust(8, '0')`. */
  function ToBits(w: nat, width: nat): (r: string)
    ensures |r| == width
  {
    if width == 0 then [] else ToBits(w / 2, width - 1) + [if w % 2 == 1 then '1' else '0']
  }

  /** The rendering consists of '0' and '1' only. */
  lemma {:induction false} ToBitsBinary(w: nat, width: nat)
    ensures IsBinary(ToBits(w, width))
  {
    if width > 0 {
      ToBitsBinary(w / 2, width - 1);
    }
  }

  /** Euclidean division has unique quotient and remainder. */
  lemma DivModUnique(w: nat, d: nat, q: nat, r: nat)
    requires d > 0 && w == d * q + r && r < d
    ensures w / d == q && w % d == r
  {
    var q', r' := w / d, w % d;
    assert d * (q - q') == r' - r;
    MulSmall(d, q - q');
  }

  lemma MulSmall(d: int, k: int)
    requires d > 0 && -d < d * k < d
    ensures k == 0
  {
    assert k >= 1 ==> d * k >= d * 1;
    assert k <= -1 ==> d * k <= d * -1;
  }

  /** Dividing by `2 * m` is halving and then dividing by `m`. */
  lemma HalfStep(w: nat, m: nat)
    requires m > 0
    ensures w / (2 * m) == (w / 2) / m
    ensures w % (2 * m) == 2 * ((w / 2) % m) + w % 2
  {
    var q, r := (w / 2) / m, (w / 2) % m;
    assert w / 2 == m * q + r;
    assert w == 2 * (w / 2) + w % 2;
    assert w == (2 * m) * q + (2 * r + w % 2);
    DivModUnique(w, 2 * m, q, 2 * r + w % 2);
  }

  /** A string of k digits has a value below 2^k. */
  lemma {:induction false} BitsValueBound(s: string)
    ensures BitsValue(s) < Pow2(|s|)
  {
    if s != [] {
      BitsValueBound(s[..|s| - 1]);
    }
  }

  /** Reading back `ToBits(w, k)` gives `w` modulo 2^k. */
  lemma {:induction false} BitsValueToBits(w: nat, width: nat)
    ensures BitsValue(ToBits(w, width)) == w % Pow2(width)
  {
    if width == 0 {
    } else {
      var s := ToBits(w, width);
      assert s[..|s| - 1] == ToBits(w / 2, width - 1);
      BitsValueToBits(w / 2, width - 1);
      HalfStep(w, Pow2(width - 1));
      assert Pow2(width) == 2 * Pow2(width - 1);
    }
  }

  /** Rendering the value of a binary string at its own width gives the
      string back. */
  lemma {:induction false} ToBitsBitsValue(s: string)
    requires IsBinary(s)
    ensures ToBits(BitsValue(s), |s|) == s
  {
    if s != [] {
      var init := s[..|s| - 1];
      var v := BitsValue(s);
      DivModUnique(v, 2, BitsValue(init), BitOf(s[|s| - 1]));
      ToBitsBitsValue(init);
      assert s == init + [s[|s| - 1]];
    }
  }

  /** Round trip on words that fit the width. */
  lemma ParseRender(w: nat, width: nat)
    requires w < Pow2(width)
    ensures BitsValue(ToBits(w, width)) == w
  {
    BitsValueToBits(w, width);
  }

  /** `ToBits` only looks at the lowest bits. */
  lemma RenderMod(w: nat, width: nat)
    ensures ToBits(w % Pow2(width), width) == ToBits(w, width)
  {
    BitsValueToBits(w, width);
    ToBitsBinary(w, width);
    ToBitsBitsValue(ToBits(w, width));
  }

  /** `w >> b`. */
  function Shift(w: nat, b: nat): nat {
    var d := Pow2(b);
    DivNonNegative(w, d);
    w / d
  }

  lemma DivNonNegative(w: nat, d: nat)
    requires d >= 1
    ensures w / d >= 0
  {
  }

  lemma ToBitsStep(w: nat, width: nat)
    requires width > 0
    ensures ToBits(w, width) == ToBits(w / 2, width - 1) + [if w % 2 == 1 then '1' else '0']
  {
  }

  /** The rendering of `w` at width `a + b` is its high part at width `a`
      followed by its low `b` bits. */
  lemma {:induction false} ToBitsSplit(w: nat, a: nat, b: nat)
    ensures ToBits(w, a + b) == ToBits(Shift(w, b), a) + ToBits(w, b)
  {
    if b == 0 {
      assert ToBits(w, 0) == [];
    } else {
      var c := b - 1;
      var m := Pow2(c);
      HalfStep(w, m);
      var hi := Shift(w, b);
      assert hi == w / 2 / m;
      ToBitsSplit(w / 2, a, c);
      ToBitsStep(w, a + b);
      ToBitsStep(w, b);
      var x, y, bit := ToBits(hi, a), ToBits(w / 2, c), [if w % 2 == 1 then '1' else '0'];
      assert ToBits(w, a + b) == (x + y) + bit;
      assert ToBits(w, b) == y + bit;
      assert (x + y) + bit == x + (y + bit);
    }
  }

  /** The big-endian bytes of the lowest `n` bytes of `w`, each rendered as
      eight digits and joined: the `float2bin` loop over the packed bytes. */
  function BytesToBits(w: nat, n: nat): (r: string)
    ensures |r| == 8 * n
  {
    if n == 0 then [] else BytesToBits(w / 256, n - 1) + ToBits(w % 256, 8)
  }

  /** Joining the eight-digit renderings of the bytes is the same as
      rendering the word at eight digits per byte. */
  lemma {:induction false} BytesToBitsIsToBits(w: nat, n: nat)
    ensures BytesToBits(w, n) == ToBits(w, 8 * n)
  {
    if n > 0 {
      BytesToBitsIsToBits(w / 256, n - 1);
      assert Pow2(8) == 256;
      RenderMod(w, 8);
      ToBitsSplit(w, 8 * (n - 1), 8);
    }
  }
}
