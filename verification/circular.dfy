/** `random_circular_2d`: points placed at random inside, or on, a circle
    whose radius comes from the reference embedding's interpolation grid.
    The random draws and the square roots, sines and cosines taken of them
    are parameters; the model states what the routine builds from them. */
module Circular {
  import opened Outcomes
  import opened Matrices
  import opened Sorting

  function Abs(x: real): (a: real)
    ensures a >= 0.0 && (a == x || a == -x)
  {
    if x < 0.0 then -x else x
  }

  /** The radius: the larger magnitude of the first and the last lower bound
      of the grid boxes along the first axis. With no boxes `[0]` raises. */
  function Radius(lowerBounds: seq<real>): (r: Result<real>)
    ensures r.Err? <==> |lowerBounds| == 0
    ensures r.Err? ==> r.error == IndexOutOfRange
    ensures r.Ok? ==> var first, last := lowerBounds[0], lowerBounds[|lowerBounds| - 1];
      && r.value >= Abs(first) && r.value >= Abs(last)
      && (r.value == Abs(first) || r.value == Abs(last))
  {
    if |lowerBounds| == 0 then Err(IndexOutOfRange)
    else
      var lower, upper := Abs(lowerBounds[0]), Abs(lowerBounds[|lowerBounds| - 1]);
      Ok(if lower >= upper then lower else upper)
  }

  /** The grid's lower bounds ascend, so the circle spans all of them: every
      bound lies in `[-radius, radius]`. */
  lemma {:induction false} RadiusCoversBounds(lowerBounds: seq<real>, k: nat)
    requires Ascending(lowerBounds) && k < |lowerBounds|
    ensures Radius(lowerBounds).Ok?
    ensures -Radius(lowerBounds).value <= lowerBounds[k] <= Radius(lowerBounds).value
  {
    var r := Radius(lowerBounds).value;
    assert lowerBounds[0] <= lowerBounds[k] <= lowerBounds[|lowerBounds| - 1];
  }

  lemma {:induction false} ProductPositive(x: real, y: real)
    ensures x > 0.0 && y > 0.0 ==> x * y > 0.0
  {
  }

  /** A non-negative number whose square is at most `radius²` is at most
      `radius`: the root of a draw from `[0, radius²]` stays within the circle. */
  lemma {:induction false} RootAtMost(rho: real, radius: real)
    requires rho >= 0.0 && radius >= 0.0 && rho * rho <= radius * radius
    ensures rho <= radius
  {
    ProductPositive(rho - radius, rho + radius);
    assert (rho - radius) * (rho + radius) == rho * rho - radius * radius;
  }

  /** `(ρ·sin φ, ρ·cos φ)` lies at distance `ρ` from the origin. */
  lemma {:induction false} PolarNorm(rho: real, sine: real, cosine: real)
    requires sine * sine + cosine * cosine == 1.0
    ensures (rho * sine) * (rho * sine) + (rho * cosine) * (rho * cosine) == rho * rho
  {
    calc {
      (rho * sine) * (rho * sine) + (rho * cosine) * (rho * cosine);
      (rho * rho) * (sine * sine + cosine * cosine);
      rho * rho;
    }
  }

  /** What the random source supplies for `n` points: for each point a draw
      `u` from `uniform(0, radius²)`, the square root `ρ` of it, and the sine
      and cosine of an angle drawn from `uniform(0, 2π)`. */
  datatype Draws = Draws(squares: seq<real>, roots: seq<real>, sines: seq<real>, cosines: seq<real>)

  predicate ValidDraws(d: Draws, n: nat) {
    && |d.squares| == n && |d.roots| == n && |d.sines| == n && |d.cosines| == n
    && (forall i :: 0 <= i < n ==> d.roots[i] >= 0.0 && d.roots[i] * d.roots[i] == d.squares[i])
    && (forall i :: 0 <= i < n ==> d.sines[i] * d.sines[i] + d.cosines[i] * d.cosines[i] == 1.0)
  }

  /** The draws for the radii lie in `[0, radius²]`. */
  predicate DrawsWithin(d: Draws, radius: real) {
    forall i :: 0 <= i < |d.squares| ==> 0.0 <= d.squares[i] <= radius * radius
  }

  /** `random_circular_2d(X, embedding, …, only_boundary)` for `n` rows of
      `X`. Point `i` is `(ρ·sin φ, ρ·cos φ)` for the drawn angle `φ`, where `ρ`
      is the radius itself with `onlyBoundary` and the root of the drawn
      square otherwise; so every point lies within the circle, and with
      `onlyBoundary` exactly on it. */
  function RandomCircular(n: nat, lowerBounds: seq<real>, onlyBoundary: bool, d: Draws): (r: Result<Matrix>)
    requires ValidDraws(d, n)
    requires |lowerBounds| > 0 ==> DrawsWithin(d, Radius(lowerBounds).value)
    ensures r.Err? <==> |lowerBounds| == 0
    ensures r.Err? ==> r.error == IndexOutOfRange
    ensures r.Ok? ==> IsMatrix(r.value, n, 2)
    ensures r.Ok? ==> forall i :: 0 <= i < n ==>
      r.value[i] == Point(if onlyBoundary then Radius(lowerBounds).value else d.roots[i], d.sines[i], d.cosines[i])
  {
    if |lowerBounds| == 0 then Err(IndexOutOfRange)
    else
      var radius := Radius(lowerBounds).value;
      var rhos := if onlyBoundary then seq(n, i => radius) else d.roots;
      Ok(Polar(rhos, d.sines, d.cosines))
  }

  /** With `onlyBoundary`, every point lies on the circle of radius
      `Radius(lowerBounds)`. */
  lemma {:induction false} BoundaryPointsOnCircle(n: nat, lowerBounds: seq<real>, d: Draws, i: nat)
    requires ValidDraws(d, n) && |lowerBounds| > 0
    requires DrawsWithin(d, Radius(lowerBounds).value)
    requires i < n
    ensures var p := RandomCircular(n, lowerBounds, true, d).value[i];
      var radius := Radius(lowerBounds).value;
      p[0] * p[0] + p[1] * p[1] == radius * radius
  {
    var p := RandomCircular(n, lowerBounds, true, d).value[i];
    var radius, sine, cosine := Radius(lowerBounds).value, d.sines[i], d.cosines[i];
    assert p == Point(radius, sine, cosine);
    assert sine * sine + cosine * cosine == 1.0;
    PolarNorm(radius, sine, cosine);
  }

  /** Without it, point `i` lies at distance `√u` from the origin, which is
      at most the radius: every point falls inside the circle. */
  lemma {:induction false} DiscPointsWithinCircle(n: nat, lowerBounds: seq<real>, d: Draws, i: nat)
    requires ValidDraws(d, n) && |lowerBounds| > 0
    requires DrawsWithin(d, Radius(lowerBounds).value)
    requires i < n
    ensures var p := RandomCircular(n, lowerBounds, false, d).value[i];
      var radius := Radius(lowerBounds).value;
      && p[0] * p[0] + p[1] * p[1] == d.squares[i] <= radius * radius
      && 0.0 <= d.roots[i] <= radius
  {
    var p := RandomCircular(n, lowerBounds, false, d).value[i];
    var radius, rho, sine, cosine := Radius(lowerBounds).value, d.roots[i], d.sines[i], d.cosines[i];
    assert p == Point(rho, sine, cosine);
    assert sine * sine + cosine * cosine == 1.0;
    assert rho >= 0.0 && rho * rho == d.squares[i];
    assert 0.0 <= d.squares[i] <= radius * radius;
    PolarNorm(rho, sine, cosine);
    RootAtMost(rho, radius);
  }

  /** The point `(ρ·sin φ, ρ·cos φ)`. */
  function Point(rho: real, sine: real, cosine: real): seq<real> {
    [rho * sine, rho * cosine]
  }

  /** The points `(ρᵢ·sin φᵢ, ρᵢ·cos φᵢ)`, one per row. */
  function Polar(rhos: seq<real>, sines: seq<real>, cosines: seq<real>): (m: Matrix)
    requires |sines| == |rhos| && |cosines| == |rhos|
    ensures IsMatrix(m, |rhos|, 2)
    ensures forall i :: 0 <= i < |rhos| ==> m[i] == Point(rhos[i], sines[i], cosines[i])
  {
    seq(|rhos|, i requires 0 <= i < |rhos| => Point(rhos[i], sines[i], cosines[i]))
  }
}
