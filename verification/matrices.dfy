/** Dense matrices and the reductions over real sequences the initialisation code uses. */
module Matrices {

  /** A dense matrix in row-major order: `m[i][j]` is row `i`, column `j`. */
  type Matrix = seq<seq<real>>

  /** `m` has exactly `rows` rows of exactly `cols` entries each. */
  predicate IsMatrix(m: Matrix, rows: nat, cols: nat) {
    |m| == rows && forall i :: 0 <= i < |m| ==> |m[i]| == cols
  }

  /** Every entry of `ix` names a row of a matrix with `n` rows. */
  predicate RowsInRange(ix: seq<int>, n: nat) {
    forall k :: 0 <= k < |ix| ==> 0 <= ix[k] < n
  }

  /** Column `j` of `m`, as numpy's `m[:, j]`. */
  function Column(m: Matrix, j: nat): (c: seq<real>)
    requires forall i :: 0 <= i < |m| ==> j < |m[i]|
    ensures |c| == |m|
    ensures forall i :: 0 <= i < |m| ==> c[i] == m[i][j]
  {
    seq(|m|, i requires 0 <= i < |m| => m[i][j])
  }

  /** Column `c` of the rows of `m` selected by `ix`, as numpy's `m[ix][:, c]`. */
  function Gather(m: Matrix, d: nat, ix: seq<int>, c: nat): (g: seq<real>)
    requires IsMatrix(m, |m|, d) && c < d && RowsInRange(ix, |m|)
    ensures |g| == |ix|
    ensures forall k :: 0 <= k < |ix| ==> g[k] == m[ix[k]][c]
  {
    seq(|ix|, k requires 0 <= k < |ix| => m[ix[k]][c])
  }

  function Sum(xs: seq<real>): real {
    if |xs| == 0 then 0.0 else xs[0] + Sum(xs[1..])
  }

  function Min(xs: seq<real>): (m: real)
    requires |xs| > 0
    ensures m in xs
    ensures forall k :: 0 <= k < |xs| ==> m <= xs[k]
  {
    if |xs| == 1 then xs[0]
    else
      var rest := Min(xs[1..]);
      if xs[0] <= rest then xs[0] else rest
  }

  function Max(xs: seq<real>): (m: real)
    requires |xs| > 0
    ensures m in xs
    ensures forall k :: 0 <= k < |xs| ==> xs[k] <= m
  {
    if |xs| == 1 then xs[0]
    else
      var rest := Max(xs[1..]);
      if rest <= xs[0] then xs[0] else rest
  }

  /** The arithmetic mean, as numpy's `mean`. */
  function Mean(xs: seq<real>): real
    requires |xs| > 0
  {
    Sum(xs) / |xs| as real
  }

  /** The sum of squared deviations of `xs` from `m`. */
  function SquaredDeviation(xs: seq<real>, m: real): real {
    if |xs| == 0 then 0.0 else (xs[0] - m) * (xs[0] - m) + SquaredDeviation(xs[1..], m)
  }

  /** The population variance, the square of numpy's `std` (which uses `ddof=0`). */
  function Variance(xs: seq<real>): real
    requires |xs| > 0
  {
    SquaredDeviation(xs, Mean(xs)) / |xs| as real
  }
}
