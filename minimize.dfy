/** The line minimiser (python/src/segintbench/main/minimize.py): given a
    file of lines that makes a tester fail, drop data lines one at a time
    as long as the tester keeps failing. The tester run is the parameter
    `fails`, which says of a file's lines whether the tester exits with a
    non-zero status on it; the file reads and writes around it are not
    modelled, only the lines of the last write are returned. */
module Minimize {
  import opened Wrappers

  /** `idx` lists, in increasing order, positions of `big` holding the
      elements of `small`. */
  ghost predicate Embeds<T>(small: seq<T>, big: seq<T>, idx: seq<nat>) {
    |idx| == |small| &&
    (forall m :: 0 <= m < |idx| ==> idx[m] < |big| && small[m] == big[idx[m]]) &&
    (forall m, n :: 0 <= m < n < |idx| ==> idx[m] < idx[n])
  }

  /** `small` is `big` with some elements left out, the rest in order. */
  ghost predicate IsSubsequence<T>(small: seq<T>, big: seq<T>) {
    exists idx: seq<nat> :: Embeds(small, big, idx)
  }

  /** Leaving out element i keeps an embedding an embedding. */
  lemma EmbedsRemove<T>(small: seq<T>, big: seq<T>, idx: seq<nat>, i: nat)
    requires Embeds(small, big, idx) && i < |small|
    ensures Embeds(small[..i] + small[i + 1..], big, idx[..i] + idx[i + 1..])
  {
    var s, d := small[..i] + small[i + 1..], idx[..i] + idx[i + 1..];
    forall m | 0 <= m < |d|
      ensures d[m] < |big| && s[m] == big[d[m]]
    {
      if m < i {
        assert d[m] == idx[m] && s[m] == small[m];
      } else {
        assert d[m] == idx[m + 1] && s[m] == small[m + 1];
      }
    }
    forall m, n | 0 <= m < n < |d|
      ensures d[m] < d[n]
    {
      var m', n' := if m < i then m else m + 1, if n < i then n else n + 1;
      assert d[m] == idx[m'] && d[n] == idx[n'];
    }
  }

  /** A subsequence is never longer than the sequence it is taken from. */
  lemma {:induction false} EmbedsShorter<T>(small: seq<T>, big: seq<T>, idx: seq<nat>)
    requires Embeds(small, big, idx)
    ensures |small| <= |big|
  {
    if small != [] {
      var last := |idx| - 1;
      var rest := idx[..last];
      assert forall m :: 0 <= m < |rest| ==> rest[m] < idx[last];
      EmbedsShorter(small[..last], big[..idx[last]], rest);
    }
  }

  /** The file with data line i left out. */
  function Without(header: string, data: seq<string>, i: nat): seq<string>
    requires i < |data|
  {
    [header] + (data[..i] + data[i + 1..])
  }

  /** Every single data line is needed: leaving any one out makes the
      tester pass. */
  ghost predicate OneMinimal(header: string, data: seq<string>, fails: seq<string> -> bool) {
    forall i :: 0 <= i < |data| ==> !fails(Without(header, data, i))
  }

  /** `minimize_file`. An empty input raises IndexError at `lines[0]`; an
      input the tester does not fail on gives no output. Otherwise the
      output keeps the header and a subsequence of the data lines, the
      tester still fails on it, and leaving out any one of its data lines
      makes the tester pass. */
  method MinimizeFile(lines: seq<string>, fails: seq<string> -> bool) returns (r: Result<Option<seq<string>>, Exception>)
    ensures lines == [] ==> r == Err(IndexError)
    ensures lines != [] && !fails(lines) ==> r == Ok(None)
    ensures lines != [] && fails(lines) ==>
      r.Ok? && r.value.Some? && |r.value.value| >= 1 &&
      var out := r.value.value;
      out[0] == lines[0] && IsSubsequence(out[1..], lines[1..]) &&
      fails(out) && OneMinimal(out[0], out[1..], fails)
  {
    if lines == [] {
      return Err(IndexError);
    }
    var header := lines[0];
    var data := lines[1..];
    if !fails(lines) {
      return Ok(None);
    }
    assert lines == [header] + data;
    ghost var idx: seq<nat> := seq(|data|, (m: nat) => m);
    var removed := 1;
    while removed > 0
      invariant fails([header] + data)
      invariant Embeds(data, lines[1..], idx)
      invariant removed == 0 ==> OneMinimal(header, data, fails)
      decreases |data| + (if removed > 0 then 1 else 0)
    {
      ghost var before := |data|;
      removed := 0;
      var i := 0;
      while i < |data|
        invariant i <= |data|
        invariant fails([header] + data)
        invariant Embeds(data, lines[1..], idx)
        invariant |data| + removed == before
        invariant removed == 0 ==> forall m :: 0 <= m < i ==> !fails(Without(header, data, m))
        decreases |data| - i
      {
        var reduced := data[..i] + data[i + 1..];
        if fails([header] + reduced) {
          EmbedsRemove(data, lines[1..], idx, i);
          idx := idx[..i] + idx[i + 1..];
          data := reduced;
          removed := removed + 1;
        } else {
          i := i + 1;
        }
      }
    }
    var out := [header] + data;
    assert out[1..] == data;
    assert Embeds(out[1..], lines[1..], idx);
    return Ok(Some(out));
  }

  /** The output is never longer than the input. */
  lemma MinimalNoLonger(data: seq<string>, original: seq<string>)
    requires IsSubsequence(data, original)
    ensures |data| <= |original|
  {
    var idx :| Embeds(data, original, idx);
    EmbedsShorter(data, original, idx);
  }

  /** When the tester fails exactly on the files that contain one culprit
      line among their data lines, a one-minimal failing result is the
      header and that line alone. */
  lemma SingleCulprit(header: string, data: seq<string>, culprit: string, fails: seq<string> -> bool)
    requires forall f :: fails(f) <==> |f| >= 1 && culprit in f[1..]
    requires fails([header] + data) && OneMinimal(header, data, fails)
    ensures data == [culprit]
  {
    assert ([header] + data)[1..] == data;
    var k :| 0 <= k < |data| && data[k] == culprit;
    CulpritSurvives(header, data, culprit, fails, k);
  }

  /** Leaving out any line other than the culprit keeps the tester failing. */
  lemma CulpritSurvives(header: string, data: seq<string>, culprit: string, fails: seq<string> -> bool, k: nat)
    requires forall f :: fails(f) <==> |f| >= 1 && culprit in f[1..]
    requires k < |data| && data[k] == culprit
    ensures forall j :: 0 <= j < |data| && j != k ==> fails(Without(header, data, j))
    ensures |data| >= 2 ==> fails(Without(header, data, if k == 0 then 1 else 0))
  {
    forall j | 0 <= j < |data| && j != k
      ensures fails(Without(header, data, j))
    {
      var f := Without(header, data, j);
      assert f[1..] == data[..j] + data[j + 1..];
      var at := if k < j then k else k - 1;
      assert f[1..][at] == culprit;
    }
  }
}
