/** The two sorts the initialisation code relies on: an ascending sort of values
    (inside numpy's `median`) and a descending argsort of eigenvalues. */
module Sorting {

  predicate Ascending(s: seq<real>) {
    forall a, b :: 0 <= a < b < |s| ==> s[a] <= s[b]
  }

  /** A value no larger than the head of an ascending sequence extends it. */
  lemma {:induction false} ConsAscending(h: real, t: seq<real>)
    requires Ascending(t) && (|t| > 0 ==> h <= t[0])
    ensures Ascending([h] + t)
  {
    var r := [h] + t;
    forall a, b | 0 <= a < b < |r|
      ensures r[a] <= r[b]
    {
      if a == 0 && b > 1 {
        assert t[0] <= t[b - 1];
      }
    }
  }

  /** Inserts `x` into the ascending sequence `s`. */
  function Insert(x: real, s: seq<real>): (r: seq<real>)
    requires Ascending(s)
    ensures Ascending(r)
    ensures |r| == |s| + 1 && (r[0] == x || (|s| > 0 && r[0] == s[0]))
  {
    if |s| == 0 || x <= s[0] then
      ConsAscending(x, s);
      [x] + s
    else
      var rest := s[1..];
      var tail := Insert(x, rest);
      assert |rest| > 0 ==> s[0] <= rest[0];
      ConsAscending(s[0], tail);
      [s[0]] + tail
  }

  /** Inserting adds `x` and loses nothing. */
  lemma {:induction false} InsertPermutes(x: real, s: seq<real>)
    requires Ascending(s)
    ensures multiset(Insert(x, s)) == multiset(s) + multiset{x}
  {
    if |s| > 0 && x > s[0] {
      var rest := s[1..];
      InsertPermutes(x, rest);
      assert s == [s[0]] + rest;
      assert Insert(x, s) == [s[0]] + Insert(x, rest);
    }
  }

  /** `xs` in ascending order. */
  function Sort(xs: seq<real>): (r: seq<real>)
    ensures Ascending(r)
    ensures multiset(r) == multiset(xs)
  {
    if |xs| == 0 then []
    else
      var rest := Sort(xs[1..]);
      InsertPermutes(xs[0], rest);
      assert xs == [xs[0]] + xs[1..];
      Insert(xs[0], rest)
  }

  /** Two ascending arrangements of the same multiset are the same sequence. */
  lemma {:induction false} AscendingUnique(a: seq<real>, b: seq<real>)
    requires Ascending(a) && Ascending(b)
    requires multiset(a) == multiset(b)
    ensures a == b
  {
    if |a| == 0 {
      assert |b| == |multiset(b)| == 0;
    } else {
      assert |b| == |multiset(b)| == |multiset(a)| == |a|;
      assert a[0] in multiset(b);
      assert b[0] in multiset(a);
      assert a[0] == b[0];
      assert a == [a[0]] + a[1..];
      assert b == [b[0]] + b[1..];
      assert multiset(a) == multiset{a[0]} + multiset(a[1..]);
      assert multiset(b) == multiset{b[0]} + multiset(b[1..]);
      assert multiset(a[1..]) == multiset(a) - multiset{a[0]};
      assert multiset(b[1..]) == multiset(b) - multiset{b[0]};
      AscendingUnique(a[1..], b[1..]);
    }
  }

  /** `0, 1, …, k-1`. */
  function Range(k: nat): (r: seq<nat>)
    ensures |r| == k
    ensures forall j :: 0 <= j < k ==> r[j] == j
  {
    seq(k, j => j)
  }

  /** Every entry of `order` is below `k`. */
  predicate Below(order: seq<nat>, k: nat) {
    forall j :: 0 <= j < |order| ==> order[j] < k
  }

  /** Every index in `order` is a position of `vals`. */
  predicate IndicesOf(order: seq<nat>, vals: seq<real>) {
    Below(order, |vals|)
  }

  /** The values `order` picks out of `vals` are non-increasing. */
  predicate Descending(order: seq<nat>, vals: seq<real>)
    requires IndicesOf(order, vals)
  {
    forall a, b :: 0 <= a < b < |order| ==> vals[order[a]] >= vals[order[b]]
  }

  /** Inserts index `x` into `s`, kept in non-increasing order of `vals`; `x`
      goes after the indices whose value equals its own. */
  function InsertIndex(x: nat, s: seq<nat>, vals: seq<real>): (r: seq<nat>)
    requires x < |vals| && IndicesOf(s, vals) && Descending(s, vals)
    ensures IndicesOf(r, vals) && Descending(r, vals)
    ensures |r| == |s| + 1 && (r[0] == x || (|s| > 0 && r[0] == s[0]))
  {
    if |s| == 0 || vals[x] > vals[s[0]] then
      ConsDescending(x, s, vals);
      [x] + s
    else
      var rest := s[1..];
      var tail := InsertIndex(x, rest, vals);
      assert |rest| > 0 ==> vals[s[0]] >= vals[rest[0]];
      ConsDescending(s[0], tail, vals);
      [s[0]] + tail
  }

  /** Inserting an index adds it and loses nothing. */
  lemma {:induction false} InsertIndexPermutes(x: nat, s: seq<nat>, vals: seq<real>)
    requires x < |vals| && IndicesOf(s, vals) && Descending(s, vals)
    ensures multiset(InsertIndex(x, s, vals)) == multiset(s) + multiset{x}
  {
    if |s| > 0 && vals[x] <= vals[s[0]] {
      var rest := s[1..];
      InsertIndexPermutes(x, rest, vals);
      assert s == [s[0]] + rest;
      assert InsertIndex(x, s, vals) == [s[0]] + InsertIndex(x, rest, vals);
    }
  }

  /** An index whose value is at least that of the head of a descending
      index sequence extends it. */
  lemma {:induction false} ConsDescending(h: nat, t: seq<nat>, vals: seq<real>)
    requires h < |vals| && IndicesOf(t, vals) && Descending(t, vals)
    requires |t| > 0 ==> vals[h] >= vals[t[0]]
    ensures IndicesOf([h] + t, vals) && Descending([h] + t, vals)
  {
    var r := [h] + t;
    forall a, b | 0 <= a < b < |r|
      ensures vals[r[a]] >= vals[r[b]]
    {
      if a == 0 && b > 1 {
        assert vals[t[0]] >= vals[t[b - 1]];
      }
    }
  }

  function SortIndices(ix: seq<nat>, vals: seq<real>): (r: seq<nat>)
    requires IndicesOf(ix, vals)
    ensures IndicesOf(r, vals) && Descending(r, vals) && |r| == |ix|
  {
    if |ix| == 0 then []
    else InsertIndex(ix[0], SortIndices(ix[1..], vals), vals)
  }

  /** Sorting indices keeps every one of them, as often as it occurs. */
  lemma {:induction false} SortIndicesPermutes(ix: seq<nat>, vals: seq<real>)
    requires IndicesOf(ix, vals)
    ensures multiset(SortIndices(ix, vals)) == multiset(ix)
  {
    if |ix| > 0 {
      var tail := ix[1..];
      var rest := SortIndices(tail, vals);
      assert SortIndices(ix, vals) == InsertIndex(ix[0], rest, vals);
      SortIndicesPermutes(tail, vals);
      InsertIndexPermutes(ix[0], rest, vals);
      assert ix == [ix[0]] + tail;
      assert multiset(ix) == multiset(tail) + multiset{ix[0]};
    }
  }

  /** numpy's `argsort(vals)[::-1]`: a permutation of the positions of `vals`
      listing them by non-increasing value. Equal values keep the order the
      reversal of a stable ascending argsort gives them (later position first). */
  function ArgsortDescending(vals: seq<real>): (order: seq<nat>)
    ensures IndicesOf(order, vals) && Descending(order, vals)
    ensures multiset(order) == multiset(Range(|vals|)) && |order| == |vals|
  {
    SortIndicesPermutes(Range(|vals|), vals);
    SortIndices(Range(|vals|), vals)
  }

  /** `multiset(Range(k))` holds each index below `k` exactly once. */
  lemma {:induction false} RangeCountsOnce(k: nat, v: nat)
    requires v < k
    ensures multiset(Range(k))[v] == 1
  {
    if k == v + 1 {
      assert Range(k) == Range(v) + [v];
      assert v !in Range(v);
    } else {
      assert Range(k) == Range(k - 1) + [k - 1];
      RangeCountsOnce(k - 1, v);
    }
  }

  /** An index that appears at two positions is counted at least twice. */
  lemma {:induction false} RepeatCountsTwice(s: seq<nat>, a: nat, b: nat)
    requires a < b < |s| && s[a] == s[b]
    ensures multiset(s)[s[a]] >= 2
  {
    assert s == s[..b] + s[b..];
    assert s[..b][a] == s[a];
    assert s[b..][0] == s[a];
    assert multiset(s)[s[a]] == multiset(s[..b])[s[a]] + multiset(s[b..])[s[a]];
  }

  /** A permutation of `0..k-1` has length `k`, stays below `k` and never repeats. */
  lemma {:induction false} PermutationDistinct(order: seq<nat>, k: nat, a: nat, b: nat)
    requires multiset(order) == multiset(Range(k))
    requires a < b < |order|
    ensures |order| == k
    ensures order[a] < k
    ensures order[a] != order[b]
  {
    assert |order| == |multiset(order)| == |multiset(Range(k))| == k;
    assert order[a] in multiset(Range(k));
    RangeCountsOnce(k, order[a]);
    if order[a] == order[b] {
      RepeatCountsTwice(order, a, b);
    }
  }
}
