/** The text layer of the CGAL exact-rational adapter
    (test_cgal_intersector_rational_f.cpp): decimal text to and from
    `__int128`, and the row of eight `std::stoll` numerators and
    denominators. Its `bitstring_to_double` is the one of cpp/utils.h
    (`CppUtils.BitstringToDouble`). The CGAL arrangement is not modelled. */
module CgalRational {
  import opened Wrappers
  import opened Bits
  import opened Text
  import opened Geometry
  import opened CppUtils
  import AdapterMain

  const TWO_127: int := 0x8000_0000_0000_0000_0000_0000_0000_0000
  const TWO_128: int := 2 * TWO_127
  const INT128_MIN: int := -TWO_127
  const INT128_MAX: int := TWO_127 - 1

  predicate IsInt128(v: int) {
    INT128_MIN <= v <= INT128_MAX
  }

  /** Two's-complement wrap-around to 128 bits, the value a signed
      overflow leaves behind on the targets the adapter runs on. */
  function Wrap128(v: int): (r: int)
    ensures IsInt128(r)
    ensures IsInt128(v) ==> r == v
    ensures (v - r) % TWO_128 == 0
  {
    var m := (v + TWO_127) % TWO_128;
    assert v - (m - TWO_127) == TWO_128 * ((v + TWO_127) / TWO_128);
    m - TWO_127
  }

  /** `str[i] - '0'`: no check that the character is a digit. */
  function CharValue(c: char): int {
    c as int - '0' as int
  }

  /** The fold `result = result * 10 + (str[i] - '0')` over `s`, wrapping
      at 128 bits. */
  function Fold(s: string): (r: int)
    ensures IsInt128(r)
  {
    if s == [] then 0 else Wrap128(10 * Fold(s[..|s| - 1]) + CharValue(s[|s| - 1]))
  }

  /** What `str_to_int128` returns. An empty string reads its terminating
      '\0' at index 0, which is not '-', and gives 0. */
  function StrToInt128Value(str: string): (r: int)
    ensures IsInt128(r)
    ensures str == [] ==> r == 0
  {
    if |str| > 0 && str[0] == '-' then Wrap128(-Fold(str[1..])) else Fold(str)
  }

  /** `str_to_int128`. */
  method StrToInt128(str: string) returns (result: int)
    ensures result == StrToInt128Value(str)
  {
    result := 0;
    var negative := false;
    var i := 0;
    if |str| > 0 && str[0] == '-' {
      negative := true;
      i := 1;
    }
    ghost var start := i;
    assert str[start..start] == [];
    while i < |str|
      invariant start <= i <= |str|
      invariant result == Fold(str[start..i])
    {
      assert str[start..i + 1][..i - start] == str[start..i];
      result := Wrap128(result * 10 + CharValue(str[i]));
      i := i + 1;
    }
    assert str[start..|str|] == str[start..];
    if negative {
      result := Wrap128(-result);
    } else {
      assert str[0..] == str;
    }
  }

  /** A digit string's prefix is not worth more than the string. */
  lemma {:induction false} PrefixValue(s: string)
    requires IsDigits(s) && s != []
    ensures DigitsValue(s[..|s| - 1]) <= DigitsValue(s)
  {
  }

  /** On digit strings whose value fits, the wrapping fold is the exact
      decimal value. */
  lemma {:induction false} FoldExact(s: string)
    requires IsDigits(s) && DigitsValue(s) <= INT128_MAX
    ensures Fold(s) == DigitsValue(s)
  {
    if s != [] {
      var init := s[..|s| - 1];
      PrefixValue(s);
      FoldExact(init);
    }
  }

  /** What `print_int128` writes: "0" for zero; otherwise '-' for a
      negative number, then the digits of the (wrapped) negation. The
      negation of the minimum wraps back to the minimum, which is not
      positive, so no digit follows the '-'. */
  function Int128Text(n: int): (r: string)
    requires IsInt128(n)
  {
    if n == 0 then "0"
    else
      var m := if n < 0 then Wrap128(-n) else n;
      (if n < 0 then "-" else "") + (if m > 0 then DecimalDigits(m) else "")
  }

  /** The text is a '-' exactly for a negative value, followed by the
      decimal digits of the magnitude; the minimum alone, whose magnitude
      wraps, has no digits. */
  lemma Int128TextDigits(n: int)
    requires IsInt128(n)
    ensures var r := Int128Text(n); r != [] && (r[0] == '-' <==> n < 0)
    ensures n >= 0 ==> IsDigits(Int128Text(n)) && DigitsValue(Int128Text(n)) == n
    ensures n < 0 && n != INT128_MIN ==>
      var t := Int128Text(n)[1..]; t != [] && IsDigits(t) && DigitsValue(t) == -n
  {
    Int128TextCases(n);
    if n == 0 {
      assert DigitsValue("0") == 10 * DigitsValue("0"[..0]) + 0;
    } else if n < 0 && n != INT128_MIN {
      var d := DecimalDigits(-n);
      assert ("-" + d)[1..] == d;
    }
  }

  /** The three shapes of the text, one per sign. */
  lemma Int128TextCases(n: int)
    requires IsInt128(n)
    ensures n == 0 ==> Int128Text(n) == "0"
    ensures n > 0 ==> Int128Text(n) == DecimalDigits(n)
    ensures n < 0 && n != INT128_MIN ==> Int128Text(n) == "-" + DecimalDigits(-n)
    ensures n == INT128_MIN ==> Int128Text(n) == "-"
  {
    if n > 0 {
      assert "" + DecimalDigits(n) == DecimalDigits(n);
    } else if n < 0 {
      NegationWraps(n);
    }
  }

  /** Negation stays in range except at the minimum, which it maps to
      itself. */
  lemma NegationWraps(n: int)
    requires IsInt128(n) && n < 0
    ensures n != INT128_MIN ==> Wrap128(-n) == -n
    ensures n == INT128_MIN ==> Wrap128(-n) == n
  {
    if n == INT128_MIN {
      assert -n == TWO_127;
      assert (-n + TWO_127) % TWO_128 == 0;
    }
  }

  function Reverse<X>(s: seq<X>): (r: seq<X>)
    ensures |r| == |s|
  {
    if s == [] then [] else [s[|s| - 1]] + Reverse(s[..|s| - 1])
  }

  /** `print_int128` as a producer of its text: the digits are collected
      least significant first and then written in reverse. */
  method PrintInt128(n: int) returns (out: string)
    requires IsInt128(n)
    ensures out == Int128Text(n)
  {
    Int128TextCases(n);
    if n == 0 {
      return "0";
    }
    out := [];
    var m := n;
    if m < 0 {
      out := "-";
      m := Wrap128(-m);
    }
    var output: string := [];
    if m > 0 {
      output := CollectDigits(m);
    }
    out := WriteReversed(out, output);
  }

  /** The first loop of `print_int128`: `output += '0' + m % 10` until
      `m` is 0, which leaves the digits least significant first. */
  method CollectDigits(m0: nat) returns (output: string)
    requires m0 > 0
    ensures Reverse(output) == DecimalDigits(m0)
  {
    var m: nat := m0;
    output := [];
    while m > 0
      invariant m > 0 ==> DecimalDigits(m0) == DecimalDigits(m) + Reverse(output)
      invariant m == 0 ==> DecimalDigits(m0) == Reverse(output)
    {
      DigitsStep(m, output);
      output := output + [DigitChar(m % 10)];
      m := m / 10;
    }
  }

  /** The second loop of `print_int128`: the collected characters from the
      last to the first. */
  method WriteReversed(prefix: string, output: string) returns (out: string)
    ensures out == prefix + Reverse(output)
  {
    var k := |output|;
    out := prefix;
    while k > 0
      invariant 0 <= k <= |output|
      invariant out == prefix + Reverse(output[k..])
    {
      ReverseStep(output, k);
      out := out + [output[k - 1]];
      k := k - 1;
    }
    assert output[0..] == output;
  }

  lemma DigitsStep(m: nat, output: string)
    requires m > 0
    ensures m / 10 > 0 ==> DecimalDigits(m) + Reverse(output) == DecimalDigits(m / 10) + Reverse(output + [DigitChar(m % 10)])
    ensures m / 10 == 0 ==> DecimalDigits(m) + Reverse(output) == Reverse(output + [DigitChar(m % 10)])
  {
    var d := DigitChar(m % 10);
    var o := output + [d];
    assert o[..|o| - 1] == output;
    assert Reverse(o) == [d] + Reverse(output);
  }

  lemma ReverseStep(s: string, k: nat)
    requires 0 < k <= |s|
    ensures Reverse(s[k - 1..]) == Reverse(s[k..]) + [s[k - 1]]
  {
    ReverseAppend([s[k - 1]], s[k..]);
    assert s[k - 1..] == [s[k - 1]] + s[k..];
  }

  lemma {:induction false} ReverseAppend<X>(a: seq<X>, b: seq<X>)
    ensures Reverse(a + b) == Reverse(b) + Reverse(a)
  {
    if b == [] {
      assert a + b == a;
    } else {
      var c, init := a + b, b[..|b| - 1];
      assert c[..|c| - 1] == a + init && c[|c| - 1] == b[|b| - 1];
      ReverseAppend(a, init);
      assert Reverse(b) == [b[|b| - 1]] + Reverse(init);
    }
  }

  /** Reading back what `print_int128` writes gives the number, for every
      128-bit value except the minimum. */
  lemma RoundTrip(n: int)
    requires IsInt128(n) && n != INT128_MIN
    ensures StrToInt128Value(Int128Text(n)) == n
  {
    Int128TextCases(n);
    if n == 0 {
      assert Fold("0"[..0]) == 0;
    } else if n > 0 {
      var t := DecimalDigits(n);
      FoldExact(t);
      assert t[0] != '-';
    } else {
      var t := DecimalDigits(-n);
      FoldExact(t);
      assert ("-" + t)[1..] == t;
    }
  }

  /** The minimum is written as a lone '-', which reads back as 0. */
  lemma MinimumText()
    ensures Int128Text(INT128_MIN) == "-"
    ensures StrToInt128Value("-") == 0
  {
    assert Wrap128(-INT128_MIN) == INT128_MIN;
    assert "-"[1..] == [];
  }

  /** Characters are not validated: "1a" reads as 10 + ('a' - '0'). */
  lemma NoValidation()
    ensures StrToInt128Value("1a") == 59
  {
    assert "1a"[..1] == "1";
    assert "1"[..0] == [];
  }

  // -----------------------------------------------------------------------
  // The data rows

  const INT64_MIN: int := -0x8000_0000_0000_0000
  const INT64_MAX: int := 0x7FFF_FFFF_FFFF_FFFF

  /** The longest prefix of decimal digits. */
  function LeadingDigits(s: string): (r: string)
    ensures IsDigits(r)
  {
    if s != [] && IsDigit(s[0]) then [s[0]] + LeadingDigits(s[1..]) else []
  }

  /** `std::stoll(token)` in base 10: leading whitespace, an optional sign
      and at least one digit; the rest of the text is ignored.
      `std::invalid_argument` without a digit, `std::out_of_range`
      (here `OverflowError`) when the value does not fit 64 bits. */
  function Stoll(token: string): (r: Result<int, Exception>)
    ensures r.Ok? ==> INT64_MIN <= r.value <= INT64_MAX
    ensures r.Err? ==> r.error == InvalidArgument || r.error == OverflowError
  {
    var t := AdapterMain.TrimLeft(token);
    var negative := |t| > 0 && t[0] == '-';
    var u := if |t| > 0 && (t[0] == '-' || t[0] == '+') then t[1..] else t;
    var digits := LeadingDigits(u);
    if digits == [] then Err(InvalidArgument)
    else
      var magnitude: int := DigitsValue(digits);
      var v := if negative then -magnitude else magnitude;
      if v < INT64_MIN || v > INT64_MAX then Err(OverflowError) else Ok(v)
  }

  /** Stoll reads back a number written in decimal. */
  lemma StollText(n: int)
    requires INT64_MIN <= n <= INT64_MAX
    ensures Stoll(IntToString(n)) == Ok(n)
  {
    if n == 0 {
      assert "0"[..0] == [];
      StollUnsigned("0");
    } else if n > 0 {
      StollUnsigned(DecimalDigits(n));
    } else {
      StollNegative(DecimalDigits(-n));
    }
  }

  lemma StollUnsigned(d: string)
    requires IsDigits(d) && d != [] && DigitsValue(d) <= INT64_MAX
    ensures Stoll(d) == Ok(DigitsValue(d) as int)
  {
    DigitsOnly(d);
    assert !(d[0] == '-' || d[0] == '+');
  }

  lemma StollNegative(d: string)
    requires IsDigits(d) && d != [] && -(DigitsValue(d) as int) >= INT64_MIN
    ensures Stoll("-" + d) == Ok(-(DigitsValue(d) as int))
  {
    DigitsOnly(d);
    var s := "-" + d;
    assert AdapterMain.TrimLeft(s) == s;
    assert s[1..] == d;
  }

  lemma {:induction false} DigitsOnly(s: string)
    requires IsDigits(s)
    ensures LeadingDigits(s) == s
    ensures s != [] ==> AdapterMain.TrimLeft(s) == s
  {
    if s != [] {
      DigitsOnly(s[1..]);
    }
  }

  /** `count` successive `std::getline(ss, token, ';')` calls reusing one
      token: what the token holds after each. */
  function Tokens(ss: Stream, token: string, count: nat): (r: seq<string>)
    ensures |r| == count
    decreases count
  {
    if count == 0 then []
    else
      var next := GetLine(ss, token, ';');
      [next.1] + Tokens(next.0, next.1, count - 1)
  }

  /** The eight tokens of one data row. */
  function RowTokens(line: string): (r: seq<string>)
    ensures |r| == 8
  {
    Tokens(OpenStream(line), [], 8)
  }

  /** With at least eight fields the tokens are the first eight fields. */
  lemma {:induction false} TokensFrom(ss: Stream, token: string, parts: seq<string>, k: nat, count: nat)
    requires Positioned(ss, parts, k) && k + count <= |parts|
    ensures Tokens(ss, token, count) == parts[k..k + count]
    decreases count
  {
    if count > 0 {
      var next := TokensStep(ss, token, parts, k, count);
      TokensFrom(next, parts[k], parts, k + 1, count - 1);
      SliceCons(parts, k, count);
    } else {
      assert parts[k..k] == [];
    }
  }

  lemma TokensStep(ss: Stream, token: string, parts: seq<string>, k: nat, count: nat) returns (next: Stream)
    requires Positioned(ss, parts, k) && k < |parts| && count > 0
    ensures Positioned(next, parts, k + 1)
    ensures Tokens(ss, token, count) == [parts[k]] + Tokens(next, parts[k], count - 1)
  {
    GetLineField(ss, token, parts, k);
    next := GetLine(ss, token, ';').0;
  }

  lemma SliceCons(parts: seq<string>, k: nat, count: nat)
    requires 0 < count && k + count <= |parts|
    ensures parts[k..k + count] == [parts[k]] + parts[k + 1..k + count]
  {
    var a := parts[k..k + count];
    assert a[0] == parts[k] && a[1..] == parts[k + 1..k + count];
    assert a == [a[0]] + a[1..];
  }

  lemma RowTokensFull(line: string)
    requires |Split(line, ';')| >= 8
    ensures RowTokens(line) == Split(line, ';')[..8]
  {
    var parts := Split(line, ';');
    assert parts[0..] == parts;
    assert Positioned(OpenStream(line), parts, 0);
    TokensFrom(OpenStream(line), [], parts, 0, 8);
    assert parts[0..0 + 8] == parts[..8];
  }

  /** A short row repeats its last field: after the field that hit the
      end of the line, every `getline` fails and leaves the token alone. */
  lemma {:induction false} TokensAfterEnd(ss: Stream, token: string, count: nat)
    requires ss.eof || ss.fail
    ensures Tokens(ss, token, count) == seq(count, _ => token)
    decreases count
  {
    if count > 0 {
      TokensAfterEnd(GetLine(ss, token, ';').0, token, count - 1);
    }
  }

  /** `std::stoll` over the tokens in order; the first throw aborts. */
  function StollAll(tokens: seq<string>): (r: Result<seq<int>, Exception>)
    ensures r.Ok? <==> forall k :: 0 <= k < |tokens| ==> Stoll(tokens[k]).Ok?
    ensures r.Ok? ==> |r.value| == |tokens| && forall k :: 0 <= k < |tokens| ==> r.value[k] == Stoll(tokens[k]).value
    ensures r.Err? ==> exists k :: 0 <= k < |tokens| && Stoll(tokens[k]) == Err(r.error)
  {
    if tokens == [] then Ok([])
    else
      var head := Stoll(tokens[0]);
      if head.Err? then Err(head.error)
      else
        var rest := StollAll(tokens[1..]);
        if rest.Err? then
          ghost var k :| 0 <= k < |tokens[1..]| && Stoll(tokens[1..][k]) == Err(rest.error);
          assert Stoll(tokens[k + 1]) == Err(rest.error);
          Err(rest.error)
        else Ok([head.value] + rest.value)
  }

  /** The segment of one row, x1n/x1d, y1n/y1d, x2n/x2d, y2n/y2d; `None`
      when a denominator is 0, where `CGAL::Quotient` has no value. */
  function RowSegment(v: seq<int>): (r: Option<Segment>)
    requires |v| == 8
    ensures r.Some? <==> v[1] != 0 && v[3] != 0 && v[5] != 0 && v[7] != 0
    ensures r.Some? ==>
      && r.value.p1.x * (v[1] as real) == v[0] as real && r.value.p1.y * (v[3] as real) == v[2] as real
      && r.value.p2.x * (v[5] as real) == v[4] as real && r.value.p2.y * (v[7] as real) == v[6] as real
  {
    if v[1] == 0 || v[3] == 0 || v[5] == 0 || v[7] == 0 then None
    else Some(Segment(Point(v[0] as real / v[1] as real, v[2] as real / v[3] as real),
                      Point(v[4] as real / v[5] as real, v[6] as real / v[7] as real)))
  }

  /** One data row of the file: eight `std::stoll` values. */
  function ReadRow(line: string): (r: Result<seq<int>, Exception>)
    ensures r.Ok? ==> |r.value| == 8
  {
    StollAll(RowTokens(line))
  }

  /** A row with at least eight fields is read as its first eight. */
  lemma ReadRowFull(line: string)
    requires |Split(line, ';')| >= 8
    ensures ReadRow(line) == StollAll(Split(line, ';')[..8])
  {
    RowTokensFull(line);
  }

  /** A row with fewer fields reads its last field again for every
      missing one. */
  lemma ReadRowShort()
    ensures RowTokens("1;2") == ["1", "2", "2", "2", "2", "2", "2", "2"]
  {
    var first := GetLine(OpenStream("1;2"), [], ';');
    assert FirstIndex("1;2", ';') == 1;
    assert first.1 == "1" && first.0 == Stream("2", false, false);
    var second := GetLine(first.0, first.1, ';');
    assert second.1 == "2" && second.0.eof;
    TokensAfterEnd(second.0, "2", 6);
  }
}
