/** `spectral`: the diffusion-map initialisation. The generalised eigensolver
    is not modelled; its answer enters as an `Eigenpairs` value, and only the
    validation and the reordering, scaling and slicing around it are. */
module Spectral {
  import opened Outcomes
  import opened Matrices
  import opened Sorting
  import Rescale

  /** The eigensolver's answer: `k` eigenvalues and an `n × k` matrix whose
      column `j` is the eigenvector of `eigvals[j]`; or a failure to converge
      within the iteration cap. */
  datatype Eigenpairs = Converged(eigvals: seq<real>, eigvecs: Matrix) | NotConverged

  /** The solver answered with `k` eigenpairs of length `n`, as asked. */
  predicate WellShaped(e: Eigenpairs, n: nat, k: nat) {
    e.Converged? ==> |e.eigvals| == k && IsMatrix(e.eigvecs, n, k)
  }

  /** The adjacency check on `A.shape` (one entry per dimension). */
  function CheckAdjacency(shape: seq<nat>): (r: Option<Error>)
    ensures r.None? <==> |shape| == 2 && shape[0] == shape[1]
    ensures |shape| != 2 ==> r == Some(NotTwoDimensional)
    ensures |shape| == 2 && shape[0] != shape[1] ==> r == Some(NotSquare)
  {
    if |shape| != 2 then Some(NotTwoDimensional)
    else if shape[0] != shape[1] then Some(NotSquare)
    else None
  }

  /** `m[:, order]`. */
  function PermuteColumns(m: Matrix, cols: nat, order: seq<nat>): (r: Matrix)
    requires IsMatrix(m, |m|, cols) && Below(order, cols)
    ensures IsMatrix(r, |m|, |order|)
    ensures forall i, j :: 0 <= i < |m| && 0 <= j < |order| ==> r[i][j] == m[i][order[j]]
  {
    seq(|m|, i requires 0 <= i < |m| =>
      seq(|order|, j requires 0 <= j < |order| => m[i][order[j]]))
  }

  /** `m *= factors`: numpy broadcasts the vector along the rows, so column
      `j` is multiplied by `factors[j]`. */
  function ScaleColumns(m: Matrix, factors: seq<real>): (r: Matrix)
    requires IsMatrix(m, |m|, |factors|)
    ensures IsMatrix(r, |m|, |factors|)
    ensures forall i, j :: 0 <= i < |m| && 0 <= j < |factors| ==> r[i][j] == m[i][j] * factors[j]
  {
    seq(|m|, i requires 0 <= i < |m| =>
      seq(|factors|, j requires 0 <= j < |factors| => m[i][j] * factors[j]))
  }

  /** `m[:, 1:]`. */
  function DropFirstColumn(m: Matrix, cols: nat): (r: Matrix)
    requires IsMatrix(m, |m|, cols) && cols >= 1
    ensures IsMatrix(r, |m|, cols - 1)
    ensures forall i, j :: 0 <= i < |m| && 0 <= j < cols - 1 ==> r[i][j] == m[i][j + 1]
  {
    seq(|m|, i requires 0 <= i < |m| => m[i][1..])
  }

  /** `vals[order]`. */
  function Permute(vals: seq<real>, order: seq<nat>): (r: seq<real>)
    requires IndicesOf(order, vals)
    ensures |r| == |order|
    ensures forall j :: 0 <= j < |order| ==> r[j] == vals[order[j]]
  {
    seq(|order|, j requires 0 <= j < |order| => vals[order[j]])
  }

  /** Lines 149-156 as the comment on line 152 describes them: eigenpairs in
      decreasing order of eigenvalue, each eigenvector multiplied by its own
      eigenvalue, the leading one dropped. Column `j` of the result is the
      eigenvector whose eigenvalue ranks `j + 1` (rank 0 being the largest),
      times that eigenvalue. */
  function DiffusionCoordinates(eigvals: seq<real>, eigvecs: Matrix, n: nat): (r: Matrix)
    requires |eigvals| >= 1 && IsMatrix(eigvecs, n, |eigvals|)
    ensures IsMatrix(r, n, |eigvals| - 1)
    ensures var order := ArgsortDescending(eigvals);
      forall i, j :: 0 <= i < n && 0 <= j < |eigvals| - 1 ==>
        r[i][j] == eigvecs[i][order[j + 1]] * eigvals[order[j + 1]]
  {
    var order := ArgsortDescending(eigvals);
    ReorderScaleDrop(eigvecs, n, |eigvals|, order, Permute(eigvals, order))
  }

  /** Reorders the columns of `m` by `order`, scales them by `factors` and
      drops the first: column `j` of the result is input column
      `order[j + 1]` times `factors[j + 1]`. */
  function ReorderScaleDrop(m: Matrix, n: nat, k: nat, order: seq<nat>, factors: seq<real>): (r: Matrix)
    requires k >= 1 && |order| == k && |factors| == k && IsMatrix(m, n, k)
    requires Below(order, k)
    ensures IsMatrix(r, n, k - 1)
    ensures forall i, j :: 0 <= i < n && 0 <= j < k - 1 ==> r[i][j] == m[i][order[j + 1]] * factors[j + 1]
    ensures ReorderedScaled(r, m, n, k, order, factors)
  {
    var sorted := PermuteColumns(m, k, order);
    var scaled := ScaleColumns(sorted, factors);
    var r := DropFirstColumn(scaled, k);
    assert forall i, j :: 0 <= i < n && 0 <= j < k - 1 ==> r[i][j] == scaled[i][j + 1];
    r
  }

  /** Column `j` of `r` is column `order[j + 1]` of `m` times `factors[j + 1]`. */
  predicate ReorderedScaled(r: Matrix, m: Matrix, n: nat, k: nat, order: seq<nat>, factors: seq<real>)
    requires k >= 1 && |order| == k && |factors| == k && IsMatrix(m, n, k) && IsMatrix(r, n, k - 1)
    requires Below(order, k)
  {
    forall i, j :: 0 <= i < n && 0 <= j < k - 1 ==> r[i][j] == m[i][order[j + 1]] * factors[j + 1]
  }

  lemma {:induction false} ReorderScaleDropAt(m: Matrix, n: nat, k: nat, order: seq<nat>, factors: seq<real>, i: nat, j: nat)
    requires k >= 1 && |order| == k && |factors| == k && IsMatrix(m, n, k)
    requires Below(order, k) && i < n && j < k - 1
    ensures ReorderScaleDrop(m, n, k, order, factors)[i][j] == m[i][order[j + 1]] * factors[j + 1]
  {
  }

  /** The eigenpair the diffusion coordinates drop has the largest eigenvalue. */
  lemma {:induction false} DroppedEigenvalueIsLargest(eigvals: seq<real>, c: nat)
    requires c < |eigvals|
    ensures eigvals[c] <= eigvals[ArgsortDescending(eigvals)[0]]
  {
    var order := ArgsortDescending(eigvals);
    assert c in multiset(Range(|eigvals|)) by { assert Range(|eigvals|)[c] == c; }
    assert c in multiset(order);
    var p :| 0 <= p < |order| && order[p] == c;
  }

  /** Distinct columns of the diffusion coordinates come from distinct
      eigenvectors, and no kept column is the dropped one. */
  lemma {:induction false} KeptColumnsDistinct(eigvals: seq<real>, a: nat, b: nat)
    requires a < b < |eigvals|
    ensures ArgsortDescending(eigvals)[a] != ArgsortDescending(eigvals)[b]
  {
    PermutationDistinct(ArgsortDescending(eigvals), |eigvals|, a, b);
  }

  /** `spectral(A, n_components)` up to the final rescale, with `shape` for
      `A.shape` and `eig` for what the eigensolver returns when asked for
      `n_components + 1` eigenpairs. */
  function Spectral(shape: seq<nat>, nComponents: nat, eig: Eigenpairs): (r: Result<Matrix>)
    requires |shape| == 2 ==> WellShaped(eig, shape[0], nComponents + 1)
    ensures CheckAdjacency(shape).Some? ==> r == Err(CheckAdjacency(shape).value)
    ensures CheckAdjacency(shape).None? && eig.NotConverged? ==> r == Err(NoConvergence)
    ensures r.Ok? <==> CheckAdjacency(shape).None? && eig.Converged?
    ensures r.Ok? ==> IsMatrix(r.value, shape[0], nComponents)
    ensures r.Ok? ==> r.value == DiffusionCoordinates(eig.eigvals, eig.eigvecs, shape[0])
  {
    match CheckAdjacency(shape)
    case Some(e) => Err(e)
    case None =>
      match eig
      case NotConverged => Err(NoConvergence)
      case Converged(vals, vecs) =>
        assert |vals| == nComponents + 1 && IsMatrix(vecs, shape[0], |vals|);
        Ok(DiffusionCoordinates(vals, vecs, shape[0]))
  }

  /** Entry `(i, j)` of a successful `spectral` is the eigenvector whose
      eigenvalue ranks `j + 1`, times that eigenvalue. */
  lemma {:induction false} SpectralEntry(shape: seq<nat>, nComponents: nat, eig: Eigenpairs, i: nat, j: nat)
    requires |shape| == 2 ==> WellShaped(eig, shape[0], nComponents + 1)
    requires Spectral(shape, nComponents, eig).Ok?
    requires i < shape[0] && j < nComponents
    ensures var order := ArgsortDescending(eig.eigvals);
      && |order| == nComponents + 1
      && Spectral(shape, nComponents, eig).value[i][j] == eig.eigvecs[i][order[j + 1]] * eig.eigvals[order[j + 1]]
  {
    DiffusionEntry(eig.eigvals, eig.eigvecs, shape[0], i, j);
  }

  /** The whole of `spectral`: the diffusion coordinates, rescaled in place.
      `std` stands for the standard deviation of their first column; with
      `n_components == 0` there is no first column and the rescale raises. */
  function SpectralInit(shape: seq<nat>, nComponents: nat, eig: Eigenpairs, std: real): (r: Result<Matrix>)
    requires |shape| == 2 ==> WellShaped(eig, shape[0], nComponents + 1)
    requires std > 0.0
    ensures r.Ok? <==> Spectral(shape, nComponents, eig).Ok? && nComponents >= 1
    ensures Spectral(shape, nComponents, eig).Err? ==> r == Spectral(shape, nComponents, eig)
    ensures Spectral(shape, nComponents, eig).Ok? && nComponents == 0 ==> r == Err(IndexOutOfRange)
    ensures r.Ok? ==> IsMatrix(r.value, shape[0], nComponents)
    ensures r.Ok? ==> forall i, j :: 0 <= i < shape[0] && 0 <= j < nComponents ==>
      r.value[i][j] == Spectral(shape, nComponents, eig).value[i][j] / (std * Rescale.Shrink)
  {
    match Spectral(shape, nComponents, eig)
    case Err(e) => Err(e)
    case Ok(coords) =>
      match Rescale.Rescale(coords, nComponents, std, true)
      case Err(e) => Err(e)
      case Ok(out) => Ok(out.returned)
  }

  // ----- Line 153 as written -----

  /** Lines 149-156 as written: the columns are reordered, but `eigvals` is
      not, so broadcasting multiplies the column in position `j` by the
      `j`-th eigenvalue in the solver's order, not by its own. */
  function DiffusionCoordinatesAsWritten(eigvals: seq<real>, eigvecs: Matrix, n: nat): (r: Matrix)
    requires |eigvals| >= 1 && IsMatrix(eigvecs, n, |eigvals|)
    ensures IsMatrix(r, n, |eigvals| - 1)
    ensures var order := ArgsortDescending(eigvals);
      ReorderedScaled(r, eigvecs, n, |eigvals|, order, eigvals)
  {
    var order := ArgsortDescending(eigvals);
    ReorderScaleDrop(eigvecs, n, |eigvals|, order, eigvals)
  }

  /** Entry `(i, j)` of the diffusion coordinates, one at a time. */
  lemma {:induction false} DiffusionEntry(eigvals: seq<real>, eigvecs: Matrix, n: nat, i: nat, j: nat)
    requires |eigvals| >= 1 && IsMatrix(eigvecs, n, |eigvals|)
    requires i < n && j < |eigvals| - 1
    ensures var order := ArgsortDescending(eigvals);
      DiffusionCoordinates(eigvals, eigvecs, n)[i][j] == eigvecs[i][order[j + 1]] * eigvals[order[j + 1]]
  {
  }

  /** As written, entry `(i, j)` is the reordered eigenvector times the
      eigenvalue at the solver's position `j + 1`, whichever eigenvector that
      eigenvalue belongs to. */
  lemma {:induction false} AsWrittenEntry(eigvals: seq<real>, eigvecs: Matrix, n: nat, i: nat, j: nat)
    requires |eigvals| >= 1 && IsMatrix(eigvecs, n, |eigvals|)
    requires i < n && j < |eigvals| - 1
    ensures var order := ArgsortDescending(eigvals);
      DiffusionCoordinatesAsWritten(eigvals, eigvecs, n)[i][j] == eigvecs[i][order[j + 1]] * eigvals[j + 1]
  {
    var order := ArgsortDescending(eigvals);
    AsWrittenUnfolds(eigvals, eigvecs, n);
    ReorderScaleDropAt(eigvecs, n, |eigvals|, order, eigvals, i, j);
  }

  lemma {:induction false} AsWrittenUnfolds(eigvals: seq<real>, eigvecs: Matrix, n: nat)
    requires |eigvals| >= 1 && IsMatrix(eigvecs, n, |eigvals|)
    ensures DiffusionCoordinatesAsWritten(eigvals, eigvecs, n)
      == ReorderScaleDrop(eigvecs, n, |eigvals|, ArgsortDescending(eigvals), eigvals)
  {
  }

  /** The order the example below reorders its two eigenpairs into. */
  lemma {:induction false} TwoAscendingReversed()
    ensures ArgsortDescending([0.5, 1.0]) == [1, 0]
  {
    var vals := [0.5, 1.0];
    assert Range(2) == [0, 1];
    assert [0, 1][1..] == [1] && [1][1..] == [];
    assert SortIndices([], vals) == [];
    assert InsertIndex(1, [], vals) == [1];
    assert SortIndices([1], vals) == [1];
    assert InsertIndex(0, [], vals) == [0];
    assert InsertIndex(0, [1], vals) == [1, 0];
    assert SortIndices([0, 1], vals) == [1, 0];
  }

  /** The solver returns eigenvalues in ascending order. With two eigenpairs
      `(0.5, u)` and `(1.0, w)` the kept column is `0.5 · u`, the vector of
      the smaller eigenvalue scaled by that eigenvalue. */
  lemma {:induction false} CorrectedExample()
    ensures var good := DiffusionCoordinates([0.5, 1.0], [[1.0, 2.0], [3.0, 4.0], [5.0, 6.0]], 3);
      && IsMatrix(good, 3, 1)
      && good[0][0] == 0.5 && good[1][0] == 1.5 && good[2][0] == 2.5
  {
    var vals := [0.5, 1.0];
    var vecs := [[1.0, 2.0], [3.0, 4.0], [5.0, 6.0]];
    TwoAscendingReversed();
    DiffusionEntry(vals, vecs, 3, 0, 0);
    DiffusionEntry(vals, vecs, 3, 1, 0);
    DiffusionEntry(vals, vecs, 3, 2, 0);
  }

  /** As written, the same input gives `1.0 · u`: the smaller eigenvalue's
      vector scaled by the larger eigenvalue. */
  lemma {:induction false} AsWrittenExample()
    ensures var bad := DiffusionCoordinatesAsWritten([0.5, 1.0], [[1.0, 2.0], [3.0, 4.0], [5.0, 6.0]], 3);
      && IsMatrix(bad, 3, 1)
      && bad[0][0] == 1.0 && bad[1][0] == 3.0 && bad[2][0] == 5.0
  {
    var vals := [0.5, 1.0];
    var vecs := [[1.0, 2.0], [3.0, 4.0], [5.0, 6.0]];
    TwoAscendingReversed();
    AsWrittenEntry(vals, vecs, 3, 0, 0);
    AsWrittenEntry(vals, vecs, 3, 1, 0);
    AsWrittenEntry(vals, vecs, 3, 2, 0);
  }

  /** The two disagree on that input. */
  lemma {:induction false} AsWrittenScalesByWrongEigenvalue()
    ensures var vals := [0.5, 1.0];
      var vecs := [[1.0, 2.0], [3.0, 4.0], [5.0, 6.0]];
      DiffusionCoordinates(vals, vecs, 3) != DiffusionCoordinatesAsWritten(vals, vecs, 3)
  {
    CorrectedExample();
    AsWrittenExample();
  }
}
