/** The pair enumeration of `itertools.combinations(range(n), 2)` and the
    flattening of per-pair results that every all-pairs driver performs. */
module Pairs {

  /** `itertools.combinations(range(n), 2)`: every (i, j) with
      i < j < n, lexicographically. */
  function Combinations(n: nat): seq<(nat, nat)> {
    CombinationsFrom(0, n)
  }

  /** The pairs whose first index is at least `i`. */
  function CombinationsFrom(i: nat, n: nat): seq<(nat, nat)>
    decreases n - i
  {
    if i >= n then [] else Row(i, i + 1, n) + CombinationsFrom(i + 1, n)
  }

  lemma {:induction false} CombinationsFromLength(i: nat, n: nat)
    ensures |CombinationsFrom(i, n)| == if i < n then (n - i) * (n - i - 1) / 2 else 0
    decreases n - i
  {
    if i < n {
      CombinationsFromLength(i + 1, n);
      var m := n - i;
      assert m * (m - 1) / 2 == (m - 1) + (m - 1) * (m - 2) / 2 by {
        assert m * (m - 1) == 2 * (m - 1) + (m - 1) * (m - 2);
      }
    }
  }

  /** There are n(n - 1)/2 pairs. */
  lemma CombinationsLength(n: nat)
    ensures |Combinations(n)| == n * (n - 1) / 2
  {
    CombinationsFromLength(0, n);
  }

  /** (i, j), (i, j + 1), ..., (i, n - 1). */
  function Row(i: nat, j: nat, n: nat): (r: seq<(nat, nat)>)
    ensures |r| == if j < n then n - j else 0
    decreases n - j
  {
    if j >= n then [] else [(i, j)] + Row(i, j + 1, n)
  }

  lemma {:induction false} RowMembers(i: nat, j: nat, n: nat, a: nat, b: nat)
    ensures (a, b) in Row(i, j, n) <==> a == i && j <= b < n
    decreases n - j
  {
    if j < n {
      RowMembers(i, j + 1, n, a, b);
    }
  }

  lemma {:induction false} CombinationsFromMembers(i: nat, n: nat, a: nat, b: nat)
    ensures (a, b) in CombinationsFrom(i, n) <==> i <= a < b < n
    decreases n - i
  {
    if i < n {
      RowMembers(i, i + 1, n, a, b);
      CombinationsFromMembers(i + 1, n, a, b);
    }
  }

  /** Exactly the pairs i < j < n occur. */
  lemma CombinationsMembers(n: nat, a: nat, b: nat)
    ensures (a, b) in Combinations(n) <==> a < b < n
  {
    CombinationsFromMembers(0, n, a, b);
  }

  /** Pairs in strictly increasing lexicographic order. */
  predicate LexIncreasing(r: seq<(nat, nat)>) {
    forall k, l :: 0 <= k < l < |r| ==> PairLt(r[k], r[l])
  }

  predicate PairLt(p: (nat, nat), q: (nat, nat)) {
    p.0 < q.0 || (p.0 == q.0 && p.1 < q.1)
  }

  lemma {:induction false} RowIncreasing(i: nat, j: nat, n: nat)
    ensures LexIncreasing(Row(i, j, n))
    ensures forall k :: 0 <= k < |Row(i, j, n)| ==> Row(i, j, n)[k].0 == i && Row(i, j, n)[k].1 >= j
    decreases n - j
  {
    if j < n {
      RowIncreasing(i, j + 1, n);
    }
  }

  lemma {:induction false} CombinationsFromIncreasing(i: nat, n: nat)
    ensures LexIncreasing(CombinationsFrom(i, n))
    ensures forall k :: 0 <= k < |CombinationsFrom(i, n)| ==> CombinationsFrom(i, n)[k].0 >= i
    decreases n - i
  {
    if i < n {
      RowIncreasing(i, i + 1, n);
      CombinationsFromIncreasing(i + 1, n);
      var row, rest := Row(i, i + 1, n), CombinationsFrom(i + 1, n);
      var all: seq<(nat, nat)> := row + rest;
      assert CombinationsFrom(i, n) == all;
      forall k, l | 0 <= k < l < |all| ensures PairLt(all[k], all[l])
      {
        if l < |row| {
          assert all[k] == row[k] && all[l] == row[l];
        } else if k >= |row| {
          assert all[k] == rest[k - |row|] && all[l] == rest[l - |row|];
        } else {
          assert all[k] == row[k] && all[l] == rest[l - |row|];
        }
      }
    }
  }

  /** The enumeration is duplicate-free and in lexicographic i < j order. */
  lemma CombinationsIncreasing(n: nat)
    ensures LexIncreasing(Combinations(n))
  {
    CombinationsFromIncreasing(0, n);
  }

  predicate InRange(pairs: seq<(nat, nat)>, n: nat) {
    forall k :: 0 <= k < |pairs| ==> pairs[k].0 < n && pairs[k].1 < n
  }

  lemma CombinationsInRange(n: nat)
    ensures InRange(Combinations(n), n)
  {
    forall k | 0 <= k < |Combinations(n)| ensures Combinations(n)[k].0 < n && Combinations(n)[k].1 < n {
      CombinationsMembers(n, Combinations(n)[k].0, Combinations(n)[k].1);
    }
  }

  /** The concatenation of `f(segs[i], segs[j])` over the given pairs, in
      order: what `for a, b in pairs: yield from f(a, b)` produces. */
  function FlatMap<S, T>(segs: seq<S>, pairs: seq<(nat, nat)>, f: (S, S) -> seq<T>): seq<T>
    requires InRange(pairs, |segs|)
  {
    if pairs == [] then []
    else
      var last := pairs[|pairs| - 1];
      FlatMap(segs, pairs[..|pairs| - 1], f) + f(segs[last.0], segs[last.1])
  }

  /** The total number of results over the given pairs. */
  function TotalLength<S, T>(segs: seq<S>, pairs: seq<(nat, nat)>, f: (S, S) -> seq<T>): nat
    requires InRange(pairs, |segs|)
  {
    if pairs == [] then 0
    else
      var last := pairs[|pairs| - 1];
      TotalLength(segs, pairs[..|pairs| - 1], f) + |f(segs[last.0], segs[last.1])|
  }

  /** The flattened length is the sum of the per-pair lengths. */
  lemma {:induction false} FlatMapLength<S, T>(segs: seq<S>, pairs: seq<(nat, nat)>, f: (S, S) -> seq<T>)
    requires InRange(pairs, |segs|)
    ensures |FlatMap(segs, pairs, f)| == TotalLength(segs, pairs, f)
  {
    if pairs != [] {
      FlatMapLength(segs, pairs[..|pairs| - 1], f);
    }
  }

  /** At most `bound` results per pair give at most `bound` times the pair
      count. */
  lemma {:induction false} TotalLengthBound<S, T>(segs: seq<S>, pairs: seq<(nat, nat)>, f: (S, S) -> seq<T>, bound: nat)
    requires InRange(pairs, |segs|)
    requires forall a, b :: |f(a, b)| <= bound
    ensures TotalLength(segs, pairs, f) <= bound * |pairs|
  {
    if pairs != [] {
      var m := |pairs| - 1;
      TotalLengthBound(segs, pairs[..m], f, bound);
      assert bound * |pairs| == bound * m + bound;
    }
  }

  /** Every result comes from some pair of the enumeration. */
  lemma {:induction false} FlatMapFrom<S, T>(segs: seq<S>, pairs: seq<(nat, nat)>, f: (S, S) -> seq<T>, x: T)
    requires InRange(pairs, |segs|)
    requires x in FlatMap(segs, pairs, f)
    ensures exists k :: 0 <= k < |pairs| && x in f(segs[pairs[k].0], segs[pairs[k].1])
  {
    var last := pairs[|pairs| - 1];
    if x !in f(segs[last.0], segs[last.1]) {
      FlatMapFrom(segs, pairs[..|pairs| - 1], f, x);
      var k :| 0 <= k < |pairs| - 1 && x in f(segs[pairs[..|pairs| - 1][k].0], segs[pairs[..|pairs| - 1][k].1]);
      assert pairs[..|pairs| - 1][k] == pairs[k];
    }
  }

  /** The loop `out = []; for a, b in pairs: out.extend(f(a, b))`, the
      imperative form of the all-pairs drivers. */
  method ExtendOverPairs<S, T>(segs: seq<S>, pairs: seq<(nat, nat)>, f: (S, S) -> seq<T>) returns (out: seq<T>)
    requires InRange(pairs, |segs|)
    ensures out == FlatMap(segs, pairs, f)
    ensures |out| == TotalLength(segs, pairs, f)
  {
    out := [];
    for k := 0 to |pairs|
      invariant out == FlatMap(segs, pairs[..k], f)
    {
      assert pairs[..k + 1][..k] == pairs[..k];
      out := out + f(segs[pairs[k].0], segs[pairs[k].1]);
    }
    assert pairs[..|pairs|] == pairs;
    FlatMapLength(segs, pairs, f);
  }

  lemma InRangeConcat(p: seq<(nat, nat)>, q: seq<(nat, nat)>, n: nat)
    requires InRange(p, n) && InRange(q, n)
    ensures InRange(p + q, n)
  {
    forall k | 0 <= k < |p + q| ensures (p + q)[k].0 < n && (p + q)[k].1 < n {
      if k >= |p| {
        assert (p + q)[k] == q[k - |p|];
      }
    }
  }

  lemma FlatMapSnoc<S, T>(segs: seq<S>, done: seq<(nat, nat)>, x: (nat, nat), f: (S, S) -> seq<T>)
    requires InRange(done + [x], |segs|)
    ensures InRange(done, |segs|) && x.0 < |segs| && x.1 < |segs|
    ensures FlatMap(segs, done + [x], f) == FlatMap(segs, done, f) + f(segs[x.0], segs[x.1])
  {
    assert forall k :: 0 <= k < |done| ==> done[k] == (done + [x])[k];
    assert (done + [x])[|done|] == x;
    assert (done + [x])[..|done|] == done;
  }

  lemma {:induction false} FlatMapAppend<S, T>(segs: seq<S>, p: seq<(nat, nat)>, q: seq<(nat, nat)>, f: (S, S) -> seq<T>)
    requires InRange(p, |segs|) && InRange(q, |segs|)
    ensures InRange(p + q, |segs|)
    ensures FlatMap(segs, p + q, f) == FlatMap(segs, p, f) + FlatMap(segs, q, f)
    decreases |q|
  {
    InRangeConcat(p, q, |segs|);
    if q != [] {
      var q0 := q[..|q| - 1];
      assert InRange(q0, |segs|) by {
        assert forall k :: 0 <= k < |q0| ==> q0[k] == q[k];
      }
      FlatMapAppend(segs, p, q0, f);
      assert (p + q)[..|p + q| - 1] == p + q0;
      var last := q[|q| - 1];
      assert (p + q)[|p + q| - 1] == last;
      var a, b, c := FlatMap(segs, p, f), FlatMap(segs, q0, f), f(segs[last.0], segs[last.1]);
      assert FlatMap(segs, p + q, f) == FlatMap(segs, p + q0, f) + c;
      assert FlatMap(segs, q, f) == b + c;
      assert (a + b) + c == a + (b + c);
    } else {
      assert p + q == p;
    }
  }

  /** Pointwise equal per-pair functions give equal concatenations. */
  lemma {:induction false} FlatMapCongruent<S, T>(segs: seq<S>, pairs: seq<(nat, nat)>, f: (S, S) -> seq<T>, g: (S, S) -> seq<T>)
    requires InRange(pairs, |segs|)
    requires forall k :: 0 <= k < |pairs| ==> f(segs[pairs[k].0], segs[pairs[k].1]) == g(segs[pairs[k].0], segs[pairs[k].1])
    ensures FlatMap(segs, pairs, f) == FlatMap(segs, pairs, g)
  {
    if pairs != [] {
      var init := pairs[..|pairs| - 1];
      assert forall k :: 0 <= k < |init| ==> init[k] == pairs[k];
      FlatMapCongruent(segs, init, f, g);
    }
  }

  /** A per-pair function that never yields more gives a total that is
      never larger. */
  lemma {:induction false} TotalLengthMonotone<S, T>(segs: seq<S>, pairs: seq<(nat, nat)>, f: (S, S) -> seq<T>, g: (S, S) -> seq<T>)
    requires InRange(pairs, |segs|)
    requires forall a, b :: |f(a, b)| <= |g(a, b)|
    ensures TotalLength(segs, pairs, f) <= TotalLength(segs, pairs, g)
  {
    if pairs != [] {
      TotalLengthMonotone(segs, pairs[..|pairs| - 1], f, g);
    }
  }
}
