/** The C++ adapters' shared text layer (cpp/utils.h): the 64-character
    bit-string codec for binary64 words and the `;`-separated line reader.
    A `std::string` is a sequence of characters; the `std::stringstream`
    that `std::getline` reads from is the `Stream` value below. */
module CppUtils {
  import opened Wrappers
  import opened Bits
  import opened Text

  /** `s` with every `std::isspace` character removed, the other
      characters in their order (the erase/remove_if idiom). */
  function RemoveSpace(s: string): (r: string)
    ensures |r| <= |s|
    ensures forall i :: 0 <= i < |r| ==> !IsCSpace(r[i])
  {
    if s == [] then []
    else RemoveSpace(s[..|s| - 1]) + (if IsCSpace(s[|s| - 1]) then [] else [s[|s| - 1]])
  }

  /** A string without whitespace is left as it is. */
  lemma {:induction false} RemoveSpaceFree(s: string)
    requires forall i :: 0 <= i < |s| ==> !IsCSpace(s[i])
    ensures RemoveSpace(s) == s
  {
    if s != [] {
      RemoveSpaceFree(s[..|s| - 1]);
    }
  }

  /** Removing whitespace twice is removing it once. */
  lemma RemoveSpaceIdempotent(s: string)
    ensures RemoveSpace(RemoveSpace(s)) == RemoveSpace(s)
  {
    RemoveSpaceFree(RemoveSpace(s));
  }

  /** The in-place erase of line 16, as a loop over the characters. */
  method EraseSpace(s: string) returns (t: string)
    ensures t == RemoveSpace(s)
  {
    t := [];
    for i := 0 to |s|
      invariant t == RemoveSpace(s[..i])
    {
      assert s[..i + 1][..i] == s[..i];
      if !IsCSpace(s[i]) {
        t := t + [s[i]];
      }
    }
    assert s[..|s|] == s;
  }

  /** 2^a <= 2^b for a <= b. */
  lemma {:induction false} Pow2Monotone(a: nat, b: nat)
    requires a <= b
    ensures Pow2(a) <= Pow2(b)
  {
    if a < b {
      Pow2Monotone(a, b - 1);
    }
  }

  /** Shifting the value of the first k - 1 of at most 64 digits left by
      one does not wrap, and appending the k-th digit is the same as
      reading the longer prefix. */
  lemma ShiftNoWrap(p: string)
    requires 0 < |p| <= 64
    ensures 2 * BitsValue(p[..|p| - 1]) < TWO_64
    ensures (2 * BitsValue(p[..|p| - 1])) % TWO_64 + BitOf(p[|p| - 1]) == BitsValue(p)
  {
    var init := p[..|p| - 1];
    var v := 2 * BitsValue(init);
    BitsValueBound(init);
    Pow2Monotone(|p|, 64);
    assert v < Pow2(|p|);
    ModSmall(v, TWO_64);
  }

  lemma ModSmall(a: nat, m: nat)
    requires a < m
    ensures a % m == a
  {
  }

  /** What `bitstring_to_double` hands to `memcpy`: the word spelled by
      the whitespace-free text, or `std::invalid_argument` when that text
      is not 64 characters of '0' and '1'. */
  function BitstringWord(s: string): (r: Result<Word64, Exception>)
    ensures r.Ok? <==> |RemoveSpace(s)| == 64 && IsBinary(RemoveSpace(s))
    ensures r.Err? ==> r.error == InvalidArgument
    ensures r.Ok? ==> ToBits(r.value, 64) == RemoveSpace(s)
  {
    var t := RemoveSpace(s);
    if |t| != 64 || !IsBinary(t) then Err(InvalidArgument)
    else
      BitsValueBound(t);
      ToBitsBitsValue(t);
      Ok(BitsValue(t))
  }

  /** `bitstring_to_double` up to the `memcpy`: erase whitespace, check
      the length, then shift the digits into a 64-bit accumulator most
      significant first. `x << 1` is taken modulo 2^64 as on `unsigned
      long long`; the proof shows it never wraps. */
  method BitstringToDouble(s: string) returns (r: Result<Word64, Exception>)
    ensures r == BitstringWord(s)
  {
    var t := EraseSpace(s);
    if |t| != 64 {
      return Err(InvalidArgument);
    }
    var x: nat := 0;
    for i := 0 to |t|
      invariant IsBinary(t[..i])
      invariant x == BitsValue(t[..i])
    {
      if t[i] != '0' && t[i] != '1' {
        assert !IsBinary(t);
        return Err(InvalidArgument);
      }
      x := ShiftIn(t, i, x);
    }
    assert t[..|t|] == t;
    BitsValueBound(t);
    return Ok(x);
  }

  /** `x = (x << 1) | bit` for digit i. */
  method ShiftIn(t: string, i: nat, x: nat) returns (x': nat)
    requires i < |t| <= 64 && IsBit(t[i])
    requires IsBinary(t[..i]) && x == BitsValue(t[..i])
    ensures IsBinary(t[..i + 1]) && x' == BitsValue(t[..i + 1])
  {
    var p := t[..i + 1];
    assert p[..i] == t[..i] && p[i] == t[i];
    ShiftNoWrap(p);
    x' := (2 * x) % TWO_64 + BitOf(t[i]);
  }

  /** `print_binary`: `std::bitset<64>` of the word, most significant bit
      first; reading it back gives the same word. */
  function PrintBinary(w: Word64): (r: string)
    ensures |r| == 64
    ensures IsBinary(r) && RemoveSpace(r) == r
    ensures BitstringWord(r) == Ok(w)
  {
    var r := ToBits(w, 64);
    ToBitsBinary(w, 64);
    RemoveSpaceFree(r);
    ParseRender(w, 64);
    r
  }

  /** `print_point`: the x word, ';', the y word, end of line. Splitting
      the line without its newline at ';' gives back the two words. */
  function PrintPoint(x: Word64, y: Word64): (r: string)
    ensures |r| == 130 && r[|r| - 1] == '\n'
    ensures Split(r[..|r| - 1], ';') == [PrintBinary(x), PrintBinary(y)]
  {
    var bitsX, bitsY := PrintBinary(x), PrintBinary(y);
    assert ';' !in bitsX && ';' !in bitsY;
    var line := bitsX + [';'] + bitsY;
    SplitFree(bitsY, ';');
    SplitPrefix(bitsX, bitsY, ';');
    assert (line + ['\n'])[..|line|] == line;
    line + ['\n']
  }

  // -----------------------------------------------------------------------
  // std::getline over a string stream

  /** The unread text of a `std::stringstream` and its state bits. */
  datatype Stream = Stream(rest: string, eof: bool, fail: bool)

  function OpenStream(line: string): Stream {
    Stream(line, false, false)
  }

  /** `std::getline(ss, token, delim)`. When the stream is already at end
      of file or failed, the sentry fails: the stream fails and `token`
      is left as it was. Otherwise `token` is cleared and receives the
      characters up to the next delimiter, which is consumed; without a
      delimiter it receives the rest and the end-of-file bit is set, and
      when nothing at all was extracted the stream also fails. */
  function GetLine(ss: Stream, token: string, delim: char): (r: (Stream, string))
    ensures ss.eof || ss.fail ==> r.1 == token && r.0.fail
    ensures !ss.eof && !ss.fail ==> r.1 == Split(ss.rest, delim)[0]
    ensures !ss.eof && !ss.fail && delim in ss.rest ==>
      !r.0.eof && !r.0.fail && Split(r.0.rest, delim) == Split(ss.rest, delim)[1..]
    ensures !ss.eof && !ss.fail && delim !in ss.rest ==> r.0.eof && r.0.rest == []
  {
    if ss.eof || ss.fail then (Stream(ss.rest, ss.eof, true), token)
    else
      var i := FirstIndex(ss.rest, delim);
      if i < |ss.rest| then
        assert ss.rest == ss.rest[..i] + [delim] + ss.rest[i + 1..];
        SplitPrefix(ss.rest[..i], ss.rest[i + 1..], delim);
        (Stream(ss.rest[i + 1..], false, false), ss.rest[..i])
      else
        SplitFree(ss.rest, delim);
        (Stream([], true, ss.rest == []), ss.rest)
  }

  /** Field `k` of the line as `process_line` sees it: field `k` of the
      `;` split, or the empty string past the last field. */
  function Field(line: string, k: nat): (r: string)
    ensures ';' !in r
  {
    var parts := Split(line, ';');
    if k < |parts| then parts[k] else []
  }

  /** The stream has delivered the fields of `parts` before index k:
      it is still good with those that follow, or it is exhausted. */
  predicate Positioned(ss: Stream, parts: seq<string>, k: nat) {
    if k < |parts| then !ss.eof && !ss.fail && Split(ss.rest, ';') == parts[k..]
    else ss.eof || ss.fail
  }

  /** One `getline` delivers field k and moves on; past the last field
      it leaves the token as it was. */
  lemma GetLineField(ss: Stream, token: string, parts: seq<string>, k: nat)
    requires Positioned(ss, parts, k)
    ensures Positioned(GetLine(ss, token, ';').0, parts, k + 1)
    ensures GetLine(ss, token, ';').1 == if k < |parts| then parts[k] else token
  {
    if k < |parts| {
      if ';' !in ss.rest {
        SplitFree(ss.rest, ';');
      } else {
        assert |Split(GetLine(ss, token, ';').0.rest, ';')| >= 1;
      }
    }
  }

  /** `process_line(line)`: four `std::getline` calls on a fresh stream,
      each into a fresh empty string. */
  method ProcessLine(line: string) returns (x1: string, y1: string, x2: string, y2: string)
    ensures [x1, y1, x2, y2] == [Field(line, 0), Field(line, 1), Field(line, 2), Field(line, 3)]
  {
    ghost var parts := Split(line, ';');
    var ss := OpenStream(line);
    GetLineField(ss, [], parts, 0);
    var step := GetLine(ss, [], ';');
    ss, x1 := step.0, step.1;
    GetLineField(ss, [], parts, 1);
    step := GetLine(ss, [], ';');
    ss, y1 := step.0, step.1;
    GetLineField(ss, [], parts, 2);
    step := GetLine(ss, [], ';');
    ss, x2 := step.0, step.1;
    GetLineField(ss, [], parts, 3);
    step := GetLine(ss, [], ';');
    ss, y2 := step.0, step.1;
  }

  /** A line written as four `;`-free fields joined by ';' is read back
      as those four fields. */
  lemma FieldsOfJoin(a: string, b: string, c: string, d: string)
    requires ';' !in a && ';' !in b && ';' !in c && ';' !in d
    ensures var line := Join([a, b, c, d], ';');
      [Field(line, 0), Field(line, 1), Field(line, 2), Field(line, 3)] == [a, b, c, d]
  {
    SplitJoin([a, b, c, d], ';');
  }
}
