/** `median`: places each new point at the coordinate-wise median of the
    reference-embedding rows of its neighbours (`np.median(embedding[neighbors], axis=1)`). */
module Median {
  import opened Outcomes
  import opened Matrices
  import opened Sorting

  /** The median of a non-empty sequence: the middle value once sorted, or the
      mean of the two middle values when the count is even. */
  function MedianOf(xs: seq<real>): (m: real)
    requires |xs| > 0
    ensures Min(xs) <= m <= Max(xs)
    ensures |xs| % 2 == 1 ==> m in xs
  {
    var s := Sort(xs);
    var k := |s|;
    SortedWithinRange(xs, s);
    if k % 2 == 1 then s[k / 2] else (s[k / 2 - 1] + s[k / 2]) / 2.0
  }

  lemma {:induction false} SortedWithinRange(xs: seq<real>, s: seq<real>)
    requires |xs| > 0 && multiset(s) == multiset(xs)
    ensures |s| == |xs|
    ensures forall j :: 0 <= j < |s| ==> s[j] in xs && Min(xs) <= s[j] <= Max(xs)
  {
    assert |s| == |multiset(s)| == |multiset(xs)| == |xs|;
    forall j | 0 <= j < |s|
      ensures s[j] in xs
    {
      assert s[j] in multiset(s);
    }
  }

  /** The median read off ANY ascending arrangement of the values: its middle
      entry for an odd count, the mean of its two middle entries for an even
      one. */
  lemma {:induction false} MedianOfArrangement(xs: seq<real>, s: seq<real>)
    requires |xs| > 0 && Ascending(s) && multiset(s) == multiset(xs)
    ensures |s| == |xs|
    ensures |s| % 2 == 1 ==> MedianOf(xs) == s[|s| / 2]
    ensures |s| % 2 == 0 ==> MedianOf(xs) == (s[|s| / 2 - 1] + s[|s| / 2]) / 2.0
  {
    assert |s| == |multiset(s)| == |multiset(xs)| == |xs|;
    AscendingUnique(Sort(xs), s);
  }

  /** The median depends on the values only, not on the order they come in. */
  lemma {:induction false} MedianOrderIndependent(xs: seq<real>, ys: seq<real>)
    requires |xs| > 0 && multiset(xs) == multiset(ys)
    ensures |ys| > 0
    ensures MedianOf(xs) == MedianOf(ys)
  {
    assert |ys| == |multiset(ys)| == |multiset(xs)| == |xs|;
    var s := Sort(xs);
    MedianOfArrangement(xs, s);
    MedianOfArrangement(ys, s);
  }

  /** A neighbour index numpy accepts for an array of `n` rows: `0..n-1`, or
      `-n..-1` counting back from the end. */
  predicate Resolvable(row: seq<int>, n: nat) {
    forall k :: 0 <= k < |row| ==> InBounds(row[k], n)
  }

  predicate InBounds(j: int, n: nat) {
    -(n as int) <= j < n
  }

  /** The row a resolvable index names. */
  function Wrap(j: int, n: nat): (r: nat)
    requires InBounds(j, n)
    ensures r < n && r % n == j % n
  {
    if j < 0 then j + n else j
  }

  /** Column `c` of the reference rows named by `row`. */
  function Values(emb: Matrix, d: nat, row: seq<int>, c: nat): (v: seq<real>)
    requires IsMatrix(emb, |emb|, d) && c < d && Resolvable(row, |emb|)
    ensures |v| == |row|
    ensures forall k :: 0 <= k < |row| ==> v[k] == emb[Wrap(row[k], |emb|)][c]
  {
    seq(|row|, k requires 0 <= k < |row| => emb[Wrap(row[k], |emb|)][c])
  }

  /** `median(embedding, neighbors)`; `neighbors` is a 2-D array, so every
      point has the same number of neighbours. */
  function Median(emb: Matrix, d: nat, neighbors: seq<seq<int>>): (r: Result<Matrix>)
    requires IsMatrix(emb, |emb|, d)
    requires forall i, j :: 0 <= i < |neighbors| && 0 <= j < |neighbors| ==> |neighbors[i]| == |neighbors[j]|
    ensures (exists i :: 0 <= i < |neighbors| && !Resolvable(neighbors[i], |emb|)) ==> r == Err(IndexOutOfRange)
    ensures r.Err? && (forall i :: 0 <= i < |neighbors| ==> Resolvable(neighbors[i], |emb|)) ==> r == Err(EmptyNeighbourhood)
    ensures r.Ok? <==>
      && (forall i :: 0 <= i < |neighbors| ==> Resolvable(neighbors[i], |emb|))
      && (d == 0 || forall i :: 0 <= i < |neighbors| ==> |neighbors[i]| > 0)
    ensures r.Ok? ==> IsMatrix(r.value, |neighbors|, d)
    ensures r.Ok? ==> forall i, c :: 0 <= i < |neighbors| && 0 <= c < d ==>
      var v := Values(emb, d, neighbors[i], c);
      && Min(v) <= r.value[i][c] <= Max(v)
      && r.value[i][c] == MedianOf(v)
  {
    if exists i :: 0 <= i < |neighbors| && !Resolvable(neighbors[i], |emb|) then Err(IndexOutOfRange)
    else if d > 0 && |neighbors| > 0 && |neighbors[0]| == 0 then Err(EmptyNeighbourhood)
    else
      Ok(seq(|neighbors|, i requires 0 <= i < |neighbors| =>
        seq(d, c requires 0 <= c < d => MedianOf(Values(emb, d, neighbors[i], c)))))
  }

  /** A new point with exactly one neighbour is placed on that neighbour's
      reference position. */
  lemma {:induction false} MedianSingleNeighbour(emb: Matrix, d: nat, neighbors: seq<seq<int>>, i: nat)
    requires IsMatrix(emb, |emb|, d)
    requires forall i, j :: 0 <= i < |neighbors| && 0 <= j < |neighbors| ==> |neighbors[i]| == |neighbors[j]|
    requires Median(emb, d, neighbors).Ok?
    requires i < |neighbors| && |neighbors[i]| == 1
    ensures InBounds(neighbors[i][0], |emb|)
    ensures Median(emb, d, neighbors).value[i] == emb[Wrap(neighbors[i][0], |emb|)]
  {
    var r := Median(emb, d, neighbors).value;
    var j := Wrap(neighbors[i][0], |emb|);
    forall c | 0 <= c < d
      ensures r[i][c] == emb[j][c]
    {
      var v := Values(emb, d, neighbors[i], c);
      assert v == [emb[j][c]];
      assert Sort(v) == [emb[j][c]];
    }
  }

  lemma {:induction false} ValuesAppend(emb: Matrix, d: nat, x: seq<int>, y: seq<int>, c: nat)
    requires IsMatrix(emb, |emb|, d) && c < d
    requires Resolvable(x, |emb|) && Resolvable(y, |emb|)
    ensures Resolvable(x + y, |emb|)
    ensures Values(emb, d, x + y, c) == Values(emb, d, x, c) + Values(emb, d, y, c)
  {
  }

  /** Finds `a[0]` in a rearrangement `b` of `a`; what is left on both sides
      is again a rearrangement. */
  lemma {:induction false} MatchFirst(a: seq<int>, b: seq<int>) returns (j: nat)
    requires |a| > 0 && multiset(a) == multiset(b)
    ensures j < |b| && b[j] == a[0]
    ensures b == b[..j] + ([a[0]] + b[j + 1..])
    ensures multiset(a[1..]) == multiset(b[..j] + b[j + 1..])
  {
    assert a[0] in multiset(a);
    assert a[0] in multiset(b);
    j :| 0 <= j < |b| && b[j] == a[0];
    var a1, b1, b2 := a[1..], b[..j], b[j + 1..];
    assert a == [a[0]] + a1;
    assert b == b1 + ([a[0]] + b2);
    assert multiset(a) == multiset{a[0]} + multiset(a1);
    assert multiset(b) == multiset(b1) + multiset{a[0]} + multiset(b2);
    assert multiset(b1 + b2) == multiset(b1) + multiset(b2);
    assert multiset(a1) == multiset(a) - multiset{a[0]};
  }

  /** Values read through two neighbour lists holding the same indices, in
      any order, are the same multiset. */
  lemma {:induction false} ValuesPermutation(emb: Matrix, d: nat, a: seq<int>, b: seq<int>, c: nat)
    requires IsMatrix(emb, |emb|, d) && c < d
    requires Resolvable(a, |emb|) && Resolvable(b, |emb|) && multiset(a) == multiset(b)
    ensures multiset(Values(emb, d, a, c)) == multiset(Values(emb, d, b, c))
    decreases |a|
  {
    if |a| == 0 {
      assert |b| == |multiset(b)| == 0;
    } else {
      var j := MatchFirst(a, b);
      var a0, a1, b1, b2 := [a[0]], a[1..], b[..j], b[j + 1..];
      assert a == a0 + a1;
      ValuesAppend(emb, d, b1, b2, c);
      ValuesPermutation(emb, d, a1, b1 + b2, c);
      ValuesAppend(emb, d, a0, a1, c);
      ValuesAppend(emb, d, a0, b2, c);
      ValuesAppend(emb, d, b1, a0 + b2, c);
      var v0, va1, vb1, vb2 := Values(emb, d, a0, c), Values(emb, d, a1, c), Values(emb, d, b1, c), Values(emb, d, b2, c);
      assert multiset(va1) == multiset(vb1) + multiset(vb2);
      assert multiset(v0 + va1) == multiset(v0) + multiset(va1);
      assert multiset(vb1 + (v0 + vb2)) == multiset(vb1) + multiset(v0) + multiset(vb2);
    }
  }

  /** Listing a point's neighbours in another order does not move it. */
  lemma {:induction false} MedianNeighbourOrderIrrelevant(emb: Matrix, d: nat, ns: seq<seq<int>>, ms: seq<seq<int>>)
    requires IsMatrix(emb, |emb|, d)
    requires forall i, j :: 0 <= i < |ns| && 0 <= j < |ns| ==> |ns[i]| == |ns[j]|
    requires |ns| == |ms| && forall i :: 0 <= i < |ns| ==> multiset(ns[i]) == multiset(ms[i])
    ensures forall i, j :: 0 <= i < |ms| && 0 <= j < |ms| ==> |ms[i]| == |ms[j]|
    ensures Median(emb, d, ns) == Median(emb, d, ms)
  {
    forall i | 0 <= i < |ns|
      ensures |ms[i]| == |ns[i]|
    {
      assert |ms[i]| == |multiset(ms[i])| == |multiset(ns[i])| == |ns[i]|;
    }
    forall i | 0 <= i < |ns|
      ensures Resolvable(ns[i], |emb|) <==> Resolvable(ms[i], |emb|)
    {
      if Resolvable(ns[i], |emb|) {
        ValuesPermutationResolvable(ns[i], ms[i], |emb|);
      }
      if Resolvable(ms[i], |emb|) {
        ValuesPermutationResolvable(ms[i], ns[i], |emb|);
      }
    }
    var r1, r2 := Median(emb, d, ns), Median(emb, d, ms);
    if r1.Ok? {
      assert r2.Ok?;
      forall i, c | 0 <= i < |ns| && 0 <= c < d
        ensures r1.value[i][c] == r2.value[i][c]
      {
        ValuesPermutation(emb, d, ns[i], ms[i], c);
        MedianOrderIndependent(Values(emb, d, ns[i], c), Values(emb, d, ms[i], c));
      }
      forall i | 0 <= i < |ns|
        ensures r1.value[i] == r2.value[i]
      {
        assert |r1.value[i]| == d == |r2.value[i]|;
      }
      assert |r1.value| == |r2.value|;
      assert r1.value == r2.value;
    }
  }

  lemma {:induction false} ValuesPermutationResolvable(a: seq<int>, b: seq<int>, n: nat)
    requires Resolvable(a, n) && multiset(a) == multiset(b)
    ensures Resolvable(b, n)
  {
    forall k | 0 <= k < |b|
      ensures InBounds(b[k], n)
    {
      assert b[k] in multiset(a);
    }
  }
}
