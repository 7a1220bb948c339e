/** `rescale`: divides every coordinate of an embedding by ten thousand times
    the standard deviation of its first column. */
module Rescale {
  import opened Outcomes
  import opened Matrices

  /** The factor the first column's standard deviation is multiplied by. */
  const Shrink: real := 10000.0

  /** What a call leaves behind: the array it returns, and the caller's array
      afterwards. */
  datatype Rescaled = Rescaled(returned: Matrix, callerArray: Matrix)

  /** Every value of `xs` divided by `s`. */
  function Divided(xs: seq<real>, s: real): (r: seq<real>)
    requires s != 0.0
    ensures |r| == |xs|
  {
    if |xs| == 0 then [] else [xs[0] / s] + Divided(xs[1..], s)
  }

  lemma {:induction false} DividedAt(xs: seq<real>, s: real, k: nat)
    requires s != 0.0 && k < |xs|
    ensures Divided(xs, s)[k] == xs[k] / s
  {
    if k > 0 {
      DividedAt(xs[1..], s, k - 1);
    }
  }

  /** A sequence holding `xs[k] / s` at every position `k` is `Divided(xs, s)`. */
  lemma {:induction false} MatchesDivided(xs: seq<real>, s: real, ys: seq<real>)
    requires s != 0.0 && |ys| == |xs|
    requires forall k :: 0 <= k < |xs| ==> ys[k] == xs[k] / s
    ensures ys == Divided(xs, s)
  {
    forall k | 0 <= k < |xs|
      ensures Divided(xs, s)[k] == ys[k]
    {
      DividedAt(xs, s, k);
    }
  }

  /** `rescale(x, inplace)`, where `std` is `np.std(x[:, 0])` (the square root
      is not computed here; `RescaledFirstColumnSpread` ties `std` to `x`).
      An array without a column 0 makes `x[:, 0]` raise IndexError before
      anything is written. */
  function Rescale(x: Matrix, cols: nat, std: real, inplace: bool): (r: Result<Rescaled>)
    requires IsMatrix(x, |x|, cols)
    requires std > 0.0
    ensures r.Err? <==> cols == 0
    ensures r.Err? ==> r.error == IndexOutOfRange
    ensures r.Ok? ==> IsMatrix(r.value.returned, |x|, cols)
    ensures r.Ok? ==> forall i, j :: 0 <= i < |x| && 0 <= j < cols ==>
      r.value.returned[i][j] == x[i][j] / (std * Shrink)
    ensures r.Ok? && !inplace ==> r.value.callerArray == x
    ensures r.Ok? && inplace ==> r.value.callerArray == r.value.returned
  {
    if cols == 0 then Err(IndexOutOfRange)
    else
      var s := std * Shrink;
      var y := seq(|x|, i requires 0 <= i < |x| => seq(cols, j requires 0 <= j < cols => x[i][j] / s));
      Ok(Rescaled(y, if inplace then y else x))
  }

  lemma {:induction false} QuotientTimes(a: real, s: real)
    requires s != 0.0
    ensures (a / s) * s == a
  {
  }

  lemma {:induction false} CrossProducts(a: real, b: real, s: real)
    requires s != 0.0
    ensures a * (b / s) == b * (a / s)
  {
    assert a * (b / s) == (a * b) / s;
    assert b * (a / s) == (a * b) / s;
  }

  /** The same scalar divides every entry, so the ratio between any two
      entries is unchanged. */
  lemma {:induction false} RescalePreservesRatios(x: Matrix, cols: nat, std: real, inplace: bool, i: nat, j: nat, k: nat, l: nat)
    requires IsMatrix(x, |x|, cols) && std > 0.0
    requires i < |x| && k < |x| && j < cols && l < cols
    ensures var y := Rescale(x, cols, std, inplace).value.returned;
      x[i][j] * y[k][l] == x[k][l] * y[i][j]
  {
    var s := std * Shrink;
    var y := Rescale(x, cols, std, inplace).value.returned;
    assert y[k][l] == x[k][l] / s && y[i][j] == x[i][j] / s;
    CrossProducts(x[i][j], x[k][l], s);
  }

  /** The squared Euclidean length of a vector. */
  function SquaredNorm(w: seq<real>): real {
    if |w| == 0 then 0.0 else w[0] * w[0] + SquaredNorm(w[1..])
  }

  /** The vector from `v` to `u`. */
  function Difference(u: seq<real>, v: seq<real>): (w: seq<real>)
    requires |u| == |v|
    ensures |w| == |u| && forall k :: 0 <= k < |u| ==> w[k] == u[k] - v[k]
  {
    seq(|u|, k requires 0 <= k < |u| => u[k] - v[k])
  }

  /** The squared Euclidean distance between two points. */
  function SquaredDistance(u: seq<real>, v: seq<real>): real
    requires |u| == |v|
  {
    SquaredNorm(Difference(u, v))
  }

  /** `((a - b) / s)² · s² = (a - b)²`, with the quotients taken term by term. */
  lemma {:induction false} SquareOfDividedDifference(a: real, b: real, s: real, p: real, q: real, h: real)
    requires s != 0.0 && p == a / s && q == b / s && h == (p - q) * (p - q)
    ensures h * (s * s) == (a - b) * (a - b)
  {
    var t := p - q;
    assert t * s == a - b;
    assert t * t * (s * s) == (t * s) * (t * s);
  }

  /** If each of two parts, scaled by `s²`, gives the matching part of a second
      sum, the whole first sum scaled by `s²` gives the whole second sum. */
  lemma {:induction false} ScaledSum(t: real, p: real, q: real, s: real, t': real, p': real, q': real)
    requires t == p + q && t' == p' + q'
    requires p * (s * s) == p' && q * (s * s) == q'
    ensures t * (s * s) == t'
  {
    assert (p + q) * (s * s) == p * (s * s) + q * (s * s);
  }

  lemma {:induction false} LinearSum(t: real, p: real, q: real, s: real, t': real, p': real, q': real)
    requires t == p + q && t' == p' + q'
    requires p * s == p' && q * s == q'
    ensures t * s == t'
  {
    assert (p + q) * s == p * s + q * s;
  }

  /** One step of `SquaredNormDivided`: a head `(w / s)²` plus a rest that
      scales by `s²` scales by `s²` as a whole. */
  lemma {:induction false} NormStep(whole: real, rest: real, whole': real, rest': real, w: real, d: real, s: real)
    requires s != 0.0 && d == w / s
    requires whole == d * d + rest && whole' == w * w + rest'
    requires rest * (s * s) == rest'
    ensures whole * (s * s) == whole'
  {
    var head, head' := (d - 0.0) * (d - 0.0), (w - 0.0) * (w - 0.0);
    SquareOfDividedDifference(w, 0.0, s, d, 0.0, head);
    ScaledSum(whole, head, rest, s, whole', head', rest');
  }

  lemma {:induction false} SquaredNormDivided(w: seq<real>, s: real)
    requires s != 0.0
    ensures SquaredNorm(Divided(w, s)) * (s * s) == SquaredNorm(w)
  {
    if |w| > 0 {
      var dw := Divided(w, s);
      assert dw[1..] == Divided(w[1..], s);
      SquaredNormDivided(w[1..], s);
      NormStep(SquaredNorm(dw), SquaredNorm(dw[1..]), SquaredNorm(w), SquaredNorm(w[1..]), w[0], dw[0], s);
    }
  }


  lemma {:induction false} DifferenceOfQuotients(a: real, b: real, s: real, p: real, q: real)
    requires s != 0.0 && p == a / s && q == b / s
    ensures p - q == (a - b) / s
  {
    assert (p - q) * s == a - b;
  }

  /** Dividing both points divides the vector between them. */
  lemma {:induction false} DifferenceDivided(u: seq<real>, v: seq<real>, s: real)
    requires |u| == |v| && s != 0.0
    ensures Difference(Divided(u, s), Divided(v, s)) == Divided(Difference(u, v), s)
  {
    var du, dv := Divided(u, s), Divided(v, s);
    var w, dw := Difference(u, v), Difference(du, dv);
    forall k | 0 <= k < |u|
      ensures dw[k] == w[k] / s
    {
      DividedAt(u, s, k);
      DividedAt(v, s, k);
      DifferenceOfQuotients(u[k], v[k], s, du[k], dv[k]);
    }
    MatchesDivided(w, s, dw);
  }

  lemma {:induction false} SquaredDistanceDivided(u: seq<real>, v: seq<real>, s: real)
    requires |u| == |v| && s != 0.0
    ensures SquaredDistance(Divided(u, s), Divided(v, s)) * (s * s) == SquaredDistance(u, v)
  {
    DifferenceDivided(u, v, s);
    SquaredNormDivided(Difference(u, v), s);
  }


  /** All pairwise distances shrink by the same factor, so the embedding keeps
      its shape. */
  lemma {:induction false} RescalePreservesDistanceRatios(x: Matrix, cols: nat, std: real, inplace: bool, i: nat, k: nat)
    requires IsMatrix(x, |x|, cols) && cols > 0 && std > 0.0
    requires i < |x| && k < |x|
    ensures var y := Rescale(x, cols, std, inplace).value.returned;
      var s := std * Shrink;
      SquaredDistance(y[i], y[k]) * (s * s) == SquaredDistance(x[i], x[k])
  {
    var s := std * Shrink;
    var y := Rescale(x, cols, std, inplace).value.returned;
    MatchesDivided(x[i], s, y[i]);
    MatchesDivided(x[k], s, y[k]);
    SquaredDistanceDivided(x[i], x[k], s);
  }

  lemma {:induction false} SumDivided(xs: seq<real>, s: real)
    requires s != 0.0
    ensures Sum(Divided(xs, s)) * s == Sum(xs)
  {
    if |xs| > 0 {
      var ds := Divided(xs, s);
      assert ds[1..] == Divided(xs[1..], s);
      SumDivided(xs[1..], s);
      QuotientTimes(xs[0], s);
      LinearSum(Sum(ds), ds[0], Sum(ds[1..]), s, Sum(xs), xs[0], Sum(xs[1..]));
    }
  }

  /** The squared deviation of `xs` about `m` is the squared length of
      `xs` shifted by `-m`. */
  lemma {:induction false} DeviationAsNorm(xs: seq<real>, m: real)
    ensures SquaredDeviation(xs, m) == SquaredNorm(seq(|xs|, k requires 0 <= k < |xs| => xs[k] - m))
  {
    if |xs| > 0 {
      var w := seq(|xs|, k requires 0 <= k < |xs| => xs[k] - m);
      var rest := xs[1..];
      DeviationAsNorm(rest, m);
      assert w[1..] == seq(|rest|, k requires 0 <= k < |rest| => rest[k] - m);
    }
  }

  /** The point of `n` coordinates, each `m`. */
  function Constant(n: nat, m: real): (c: seq<real>)
    ensures |c| == n && forall k :: 0 <= k < n ==> c[k] == m
  {
    seq(n, k => m)
  }

  /** Subtracting the constant point is subtracting `m` from every coordinate. */
  lemma {:induction false} ShiftByConstant(xs: seq<real>, m: real)
    ensures Difference(xs, Constant(|xs|, m)) == seq(|xs|, k requires 0 <= k < |xs| => xs[k] - m)
  {
  }

  /** The squared deviation about `m` is the squared distance to the point
      whose every coordinate is `m`. */
  lemma {:induction false} DeviationAsDistance(xs: seq<real>, m: real)
    ensures SquaredDeviation(xs, m) == SquaredDistance(xs, Constant(|xs|, m))
  {
    ShiftByConstant(xs, m);
    DeviationAsNorm(xs, m);
  }

  lemma {:induction false} DividedConstant(n: nat, m: real, s: real)
    requires s != 0.0
    ensures Divided(Constant(n, m), s) == Constant(n, m / s)
  {
    MatchesDivided(Constant(n, m), s, Constant(n, m / s));
  }

  /** Deviations scale as distances do. */
  lemma {:induction false} SquaredDeviationDivided(xs: seq<real>, m: real, s: real)
    requires s != 0.0
    ensures SquaredDeviation(Divided(xs, s), m / s) * (s * s) == SquaredDeviation(xs, m)
  {
    DeviationAsDistance(xs, m);
    DeviationAsDistance(Divided(xs, s), m / s);
    DividedConstant(|xs|, m, s);
    SquaredDistanceDivided(xs, Constant(|xs|, m), s);
  }

  lemma {:induction false} MeanDivided(xs: seq<real>, s: real)
    requires |xs| > 0 && s != 0.0
    ensures Mean(Divided(xs, s)) == Mean(xs) / s
  {
    SumDivided(xs, s);
    DivisionCommutes(Sum(Divided(xs, s)), Sum(xs), s, |xs| as real);
  }

  lemma {:induction false} DivisionCommutes(a: real, b: real, s: real, n: real)
    requires s != 0.0 && n > 0.0 && a * s == b
    ensures a / n == (b / n) / s
  {
    assert a == b / s;
  }

  lemma {:induction false} QuotientScales(q: real, n: real, c: real)
    requires n > 0.0
    ensures (q / n) * c == (q * c) / n
  {
  }

  /** Dividing by `s` divides the variance by `s²`. */
  lemma {:induction false} VarianceDivided(xs: seq<real>, s: real)
    requires |xs| > 0 && s != 0.0
    ensures Variance(Divided(xs, s)) * (s * s) == Variance(xs)
  {
    var ys := Divided(xs, s);
    MeanDivided(xs, s);
    SquaredDeviationDivided(xs, Mean(xs), s);
    QuotientScales(SquaredDeviation(ys, Mean(ys)), |xs| as real, s * s);
  }

  /** `v · s² = std²` with `s = std · k` leaves `v · k² = 1`. */
  lemma {:induction false} CancelSquare(v: real, std: real, s: real, k: real)
    requires std > 0.0 && s == std * k
    requires v * (s * s) == std * std
    ensures v * (k * k) == 1.0
  {
    assert std * std > 0.0;
    assert (k * k) * (std * std) == s * s;
    calc {
      (v * (k * k)) * (std * std);
      v * ((k * k) * (std * std));
      v * (s * s);
      std * std;
    }
    assert (v * (k * k) - 1.0) * (std * std) == 0.0;
  }

  /** When `std` really is the standard deviation of column 0 (its square is
      the column's variance), the rescaled column 0 has standard deviation
      1/10000: its variance is (1/10000)². */
  lemma {:induction false} RescaledFirstColumnSpread(x: Matrix, cols: nat, std: real, inplace: bool)
    requires IsMatrix(x, |x|, cols) && |x| > 0 && cols > 0
    requires std > 0.0 && std * std == Variance(Column(x, 0))
    ensures Variance(Column(Rescale(x, cols, std, inplace).value.returned, 0)) == (1.0 / Shrink) * (1.0 / Shrink)
  {
    var s := std * Shrink;
    var y := Rescale(x, cols, std, inplace).value.returned;
    var c := Column(x, 0);
    MatchesDivided(c, s, Column(y, 0));
    VarianceDivided(c, s);
    CancelSquare(Variance(Divided(c, s)), std, s, Shrink);
  }
}
