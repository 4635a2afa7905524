/** Character classes and string splitting as the C and Python standard
    libraries define them. Strings are sequences of code points. */
module Text {
  /** The header line of a segment file. */
  const HEADER := "x1;y1;x2;y2"

  /** The header line of a point file and of the points a command prints. */
  const POINT_HEADER := "p_x;p_y"


  /** `std::isspace` in the "C" locale. */
  predicate IsCSpace(c: char) {
    c == ' ' || c == '\t' || c == '\n' || c == '\U{000B}' || c == '\U{000C}' || c == '\r'
  }

  /** `str.isspace` for one character: the whitespace that `str.strip()`
      removes. */
  predicate IsPySpace(c: char) {
    IsCSpace(c) || ('\U{001C}' <= c <= '\U{001F}') || c == '\U{0085}' || c == '\U{00A0}'
    || c == '\U{1680}' || ('\U{2000}' <= c <= '\U{200A}') || c == '\U{2028}' || c == '\U{2029}'
    || c == '\U{202F}' || c == '\U{205F}' || c == '\U{3000}'
  }

  /** Python's `str.strip()` with no argument. */
  function PyStrip(s: string): (r: string)
    ensures r == [] || (!IsPySpace(r[0]) && !IsPySpace(r[|r| - 1]))
  {
    StripRight(StripLeft(s))
  }

  function StripLeft(s: string): (r: string)
    ensures r == [] || !IsPySpace(r[0])
    ensures exists i :: 0 <= i <= |s| && r == s[i..]
  {
    if s != [] && IsPySpace(s[0]) then
      var r := StripLeft(s[1..]);
      ghost var i :| 0 <= i <= |s[1..]| && r == s[1..][i..];
      assert r == s[i + 1..];
      r
    else
      assert s == s[0..];
      s
  }

  function StripRight(s: string): (r: string)
    ensures r == [] || !IsPySpace(r[|r| - 1])
    ensures exists j :: 0 <= j <= |s| && r == s[..j]
  {
    if s != [] && IsPySpace(s[|s| - 1]) then
      var r := StripRight(s[..|s| - 1]);
      ghost var j :| 0 <= j <= |s| - 1 && r == s[..|s| - 1][..j];
      assert r == s[..j];
      r
    else
      assert s == s[..|s|];
      s
  }

  /** Python's `s.split(sep)` for a one-character separator: the pieces
      between separators, never an empty list (`"".split(";") == [""]`). */
  function Split(s: string, sep: char): (r: seq<string>)
    ensures |r| >= 1
    ensures forall k :: 0 <= k < |r| ==> sep !in r[k]
    ensures |r| == Count(s, sep) + 1
  {
    if s == [] then [[]]
    else
      var rest := Split(s[1..], sep);
      if s[0] == sep then [[]] + rest
      else [[s[0]] + rest[0]] + rest[1..]
  }

  /** The number of occurrences of `c` in `s`. */
  function Count(s: string, c: char): nat {
    if s == [] then 0 else (if s[0] == c then 1 else 0) + Count(s[1..], c)
  }

  /** `sep.join(parts)`, the inverse of `Split`. */
  function Join(parts: seq<string>, sep: char): string
    requires |parts| >= 1
  {
    if |parts| == 1 then parts[0] else parts[0] + [sep] + Join(parts[1..], sep)
  }

  /** Splitting and joining again restores the text. */
  lemma {:induction false} JoinSplit(s: string, sep: char)
    ensures Join(Split(s, sep), sep) == s
  {
    if s != [] {
      JoinSplit(s[1..], sep);
      var rest := Split(s[1..], sep);
      if s[0] != sep {
        var r := Split(s, sep);
        assert r[0] == [s[0]] + rest[0] && r[1..] == rest[1..];
        if |rest| > 1 {
          assert Join(r, sep) == r[0] + [sep] + Join(r[1..], sep);
          assert Join(rest, sep) == rest[0] + [sep] + Join(rest[1..], sep);
        }
      }
    }
  }

  /** Joining pieces free of the separator and splitting again restores
      the pieces. */
  lemma {:induction false} SplitJoin(parts: seq<string>, sep: char)
    requires |parts| >= 1
    requires forall k :: 0 <= k < |parts| ==> sep !in parts[k]
    ensures Split(Join(parts, sep), sep) == parts
  {
    if |parts| == 1 {
      SplitFree(parts[0], sep);
    } else {
      SplitJoin(parts[1..], sep);
      SplitPrefix(parts[0], Join(parts[1..], sep), sep);
    }
  }

  lemma {:induction false} SplitFree(s: string, sep: char)
    requires sep !in s
    ensures Split(s, sep) == [s]
  {
    if s != [] {
      SplitFree(s[1..], sep);
      assert [s[0]] + s[1..] == s;
    }
  }

  lemma {:induction false} SplitPrefix(a: string, b: string, sep: char)
    requires sep !in a
    ensures Split(a + [sep] + b, sep) == [a] + Split(b, sep)
  {
    if a == [] {
      assert a + [sep] + b == [sep] + b;
      assert ([sep] + b)[1..] == b;
    } else {
      SplitPrefix(a[1..], b, sep);
      assert (a + [sep] + b)[1..] == a[1..] + [sep] + b;
      assert (a + [sep] + b)[0] == a[0] != sep;
      assert [a[0]] + a[1..] == a;
    }
  }

  // ---------------------------------------------------------------------
  // Decimal integers

  predicate IsDigit(c: char) {
    '0' <= c <= '9'
  }

  predicate IsDigits(s: string) {
    forall i :: 0 <= i < |s| ==> IsDigit(s[i])
  }

  /** The character for a digit value. */
  function DigitChar(d: nat): (c: char)
    requires d < 10
    ensures IsDigit(c) && c as int - '0' as int == d
  {
    (d + '0' as int) as char
  }

  /** The value of a digit string read most-significant digit first. */
  function DigitsValue(s: string): nat
    requires IsDigits(s)
  {
    if s == [] then 0 else 10 * DigitsValue(s[..|s| - 1]) + (s[|s| - 1] as int - '0' as int)
  }

  /** The decimal digits of a positive number, most significant first,
      without leading zeros. */
  function DecimalDigits(m: nat): (r: string)
    requires m > 0
    ensures r != [] && IsDigits(r) && r[0] != '0'
    ensures DigitsValue(r) == m
  {
    if m < 10 then [DigitChar(m)]
    else
      var init := DecimalDigits(m / 10);
      var r := init + [DigitChar(m % 10)];
      assert r[..|r| - 1] == init;
      r
  }

  /** An integer in decimal: "0", or an optional '-' and the digits of the
      magnitude (Python's `str(n)`, C++ stream output of an integer). */
  function IntToString(n: int): (r: string)
    ensures r != []
  {
    if n == 0 then "0"
    else if n < 0 then "-" + DecimalDigits(-n)
    else DecimalDigits(n)
  }

  /** The position of the first `c` in `s`, or `|s|` when there is none. */
  function FirstIndex(s: string, c: char): (i: nat)
    ensures i <= |s| && c !in s[..i]
    ensures i < |s| ==> s[i] == c
    ensures i == |s| <==> c !in s
  {
    if s == [] then 0
    else if s[0] == c then 0
    else
      var j := FirstIndex(s[1..], c);
      assert s[..j + 1] == [s[0]] + s[1..][..j];
      j + 1
  }

  /** The index just past the last `c` in `s`, or 0 when there is none. */
  function AfterLast(s: string, c: char): (i: nat)
    ensures i <= |s|
    ensures i > 0 ==> s[i - 1] == c && c !in s[i..]
    ensures i == 0 ==> c !in s
  {
    if s == [] then 0
    else if s[|s| - 1] == c then |s|
    else
      var i := AfterLast(s[..|s| - 1], c);
      assert s[i..] == s[..|s| - 1][i..] + [s[|s| - 1]];
      i
  }

  /** A string that neither starts nor ends with whitespace is its own
      `strip()`. */
  lemma PyStripTrimmed(s: string)
    requires s == [] || (!IsPySpace(s[0]) && !IsPySpace(s[|s| - 1]))
    ensures PyStrip(s) == s
  {
  }

  /** Four parts joined, written out. */
  lemma Join4(a: string, b: string, c: string, d: string, sep: char)
    ensures Join([a, b, c, d], sep) == a + [sep] + b + [sep] + c + [sep] + d
  {
    assert [a, b, c, d][1..] == [b, c, d];
    assert [b, c, d][1..] == [c, d];
    assert [c, d][1..] == [d];
    assert Join([c, d], sep) == c + [sep] + d;
    assert Join([b, c, d], sep) == b + [sep] + (c + [sep] + d);
  }
}
