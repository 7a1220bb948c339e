# openTSNE initialisation, modelled in Dafny

openTSNE starts its t-SNE optimisation from an initial embedding. This
project models the parts of `openTSNE/initialization.py` that have index,
shape and arithmetic logic of their own:

- `weighted_mean` is documented (openTSNE/initialization.py:200-201) to place
  new points at the similarity-weighted mean of their neighbours' reference
  positions, with the similarities in a CSR sparse matrix. The model states
  that documented behaviour, and separately the loop as written, which raises
  on every call with at least one new point (see "## Findings").
- `median` places new points at the coordinate-wise median of their
  neighbours' reference positions.
- `spectral` does its own work before and after the generalised eigensolver:
  it checks the adjacency matrix's shape, reorders the eigenpairs by
  decreasing eigenvalue, scales the eigenvectors, drops the leading pair, and
  rescales. The comment on line 152 says each eigenvector is multiplied by
  its own eigenvalue, and the main model follows that comment. Line 153 as
  written multiplies the reordered column `j` by the `j`-th eigenvalue in
  solver order instead; that version is modelled too (see "## Findings").
- `rescale` divides an embedding by ten thousand times the standard deviation
  of its first column. It can work in place or on a copy.
- `random_circular_2d` computes the radius from the reference grid's box
  bounds and places every point inside that circle or on its boundary.

Coordinates are Dafny `real`s, so all arithmetic is exact. Matrices are
`seq<seq<real>>`, with `IsMatrix(m, rows, cols)` stating their shape. A
raised exception becomes `Err` of an `Outcomes.Error`, with one constructor
per exception the routines raise. One more constructor, `EmptyNeighbourhood`,
stands for numpy's NaN median of an empty neighbourhood, which is a result
rather than an exception. Results the model cannot compute enter as
parameters:

- the eigensolver's answer (`Spectral.Eigenpairs`);
- the standard deviation of the first column (`std`);
- the random draws, together with their square roots, sines and cosines
  (`Circular.Draws`).

The draws come with the equations that define them (`ρ² = u` and
`sin² + cos² = 1`). `RescaledFirstColumnSpread` takes `std²` to be the
column's variance. The eigensolver's output is constrained only in shape:
`n_components + 1` eigenvalues and eigenvectors of length `n`. The
generalised eigen-equation `A·v = λ·D·v` is not stated.

Modules:

- `Outcomes`: `Option`, `Result`, `Error`.
- `Matrices`: shapes, columns, gathering rows, sums, min/max, mean, variance.
- `Sorting`: insertion sort, a descending argsort, and permutation facts.
- `Csr`: CSR storage, its validity invariant and row slicing.
- `WeightedMean`, `Median`, `Spectral`, `Rescale`, `Circular`: one module per
  routine.

## Model

| member | source | states |
|---|---|---|
| Csr.RowIndices | openTSNE/initialization.py:228 | The neighbours of row `i` are the `indptr[i+1] - indptr[i]` stored indices of that row, each a valid reference row. |
| Csr.RowData | openTSNE/initialization.py:229 | Row `i`'s similarities are aligned one-to-one with its neighbour indices. |
| Csr.RowsTileEntries | openTSNE/initialization.py:227-229 | Read in row order, the row slices from row `i` onwards are exactly the stored entries from `indptr[i]` to `indptr[nRows]`: each entry belongs to exactly one row. |
| Csr.IndptrMonotone | openTSNE/initialization.py:228-229 | Under a valid CSR invariant, `indptr` is non-decreasing over any span, so every row slice is well-formed. |
| WeightedMean.Average | openTSNE/initialization.py:231-233 | numpy's `average(xs, weights=ws)`: `Σ w·x / Σ w`, defined only when the weights do not sum to zero. Its value times the weight total is the weighted sum. |
| WeightedMean.AverageBetween | openTSNE/initialization.py:231-233 | A weighted average with non-negative weights and a positive total lies between the smallest and largest averaged value. |
| WeightedMean.AverageScaleInvariant | openTSNE/initialization.py:231-233 | The average is normalised: multiplying every weight by the same non-zero factor does not change it. |
| WeightedMean.FirstZeroWeightRow | openTSNE/initialization.py:227-233 | Finds the first row whose similarities sum to zero, which is where numpy's average raises ZeroDivisionError; `None` exactly when no such row exists. |
| WeightedMean.WeightedMean | openTSNE/initialization.py:221-235 | A shape mismatch between P, the new samples and the reference embedding fails the assertion. Otherwise the call succeeds exactly when every row's similarities have a non-zero sum; a failure names the first row that does not. On success the result has `n_samples` rows of `embedding.shape[1]` columns, each the weighted average of the row's neighbours. This is the documented behaviour (lines 200-201), not line 232 as written (see `WeightedMeanAsWritten`). |
| WeightedMean.WeightedMeanWithinNeighbours | openTSNE/initialization.py:231-233 | With non-negative similarities, each coordinate of a placed point lies between the min and max of that coordinate over its neighbours. |
| WeightedMean.WeightedMeanSingleNeighbour | openTSNE/initialization.py:231-233 | A point with exactly one neighbour is placed exactly on that neighbour's reference row. |
| WeightedMean.OffsetEntry | openTSNE/initialization.py:232 | As written, line 232 reads a single entry: the one at offset `i` inside row `i`. It exists exactly when row `i` stores more than `i` entries. |
| WeightedMean.AsWrittenIterationError | openTSNE/initialization.py:231-233 | As written, each loop iteration raises. It raises IndexError exactly when the row-`i` offset `i` is missing; otherwise numpy rejects a 0-d weight against a 1-d row. That is a TypeError in numpy 1.x and a ValueError in numpy 2.x. |
| WeightedMean.WeightedMeanAsWritten | openTSNE/initialization.py:221-235 | As written, the routine succeeds only on the shape-checked empty case. Any other call with matching shapes fails with exactly row 0's iteration error (`AsWrittenIterationError(p, 0)`): IndexError when row 0 is empty, and the weight-shape error otherwise. |
| WeightedMean.AsWrittenNeverPlaces | openTSNE/initialization.py:227-233 | As written, no call with at least one new sample returns. |
| WeightedMean.SingleNeighbourExample | openTSNE/initialization.py:227-233 | Two points, each with one neighbour of similarity 1: the documented mean places both exactly on their neighbours' reference rows. |
| WeightedMean.SingleNeighbourAsWritten | openTSNE/initialization.py:227-233 | On the same input the loop as written raises on row 0 (a weight-shape error), and row 1 has no entry at offset 1. |
| Median.MedianOf | openTSNE/initialization.py:254 | The median of a non-empty sequence lies between its min and max; for an odd count it is one of the values. |
| Median.MedianOfArrangement | openTSNE/initialization.py:254 | Reading any ascending arrangement of the values gives the median: the middle entry for an odd count, and the mean of the two middle entries for an even count. |
| Median.MedianOrderIndependent | openTSNE/initialization.py:254 | The median depends only on the multiset of values. |
| Median.Wrap | openTSNE/initialization.py:254 | A numpy index in `-n..n-1` names row `j mod n`. |
| Median.Median | openTSNE/initialization.py:253-255 | An out-of-range neighbour index raises IndexError. When every index resolves, the only failure is `EmptyNeighbourhood`: an empty neighbourhood has no median (numpy gives NaN). Otherwise the result has one row per new point and `d` columns, and each entry is the median of that coordinate over the point's neighbours, between their min and max. |
| Median.MedianSingleNeighbour | openTSNE/initialization.py:254 | A point with one neighbour is placed exactly on that neighbour's row. |
| Median.MedianNeighbourOrderIrrelevant | openTSNE/initialization.py:254 | Permuting each point's neighbour list leaves the result unchanged. |
| Sorting.Sort | openTSNE/initialization.py:254 | The sort behind the median returns an ascending permutation of its input. |
| Sorting.AscendingUnique | openTSNE/initialization.py:254 | Two ascending sequences with the same multiset of values are equal, so the sorted order is unique. |
| Sorting.ArgsortDescending | openTSNE/initialization.py:149 | `argsort(eigvals)[::-1]` is a permutation of the positions, ordered by non-increasing eigenvalue. |
| Sorting.PermutationDistinct | openTSNE/initialization.py:149-150 | A permutation of `0..k-1` has length `k` and never repeats a position. |
| Spectral.CheckAdjacency | openTSNE/initialization.py:132-135 | A non-2-D adjacency matrix raises one ValueError, a non-square one another, and nothing else raises. |
| Spectral.PermuteColumns | openTSNE/initialization.py:150 | `eigvecs[:, order]`: column `j` of the result is column `order[j]` of the input. |
| Spectral.ScaleColumns | openTSNE/initialization.py:153 | Broadcasting a vector over a matrix multiplies column `j` by entry `j`. |
| Spectral.DropFirstColumn | openTSNE/initialization.py:156 | `[:, 1:]` keeps every column but the first, shifted left by one. |
| Spectral.DiffusionCoordinates | openTSNE/initialization.py:149-156 | The result has `k-1` columns. Column `j` is the eigenvector whose eigenvalue ranks `j+1` in decreasing order, times that eigenvalue. |
| Spectral.DroppedEigenvalueIsLargest | openTSNE/initialization.py:149-156 | The dropped eigenpair has the largest eigenvalue of all. |
| Spectral.KeptColumnsDistinct | openTSNE/initialization.py:149-150 | Distinct columns come from distinct eigenvectors. |
| Spectral.Spectral | openTSNE/initialization.py:132-156 | Shape errors come first. Non-convergence of the solver raises. Otherwise the call succeeds with an `n × n_components` matrix: the diffusion coordinates of the solver's eigenpairs. The scaling follows the comment on line 152, not line 153 as written (see `AsWrittenEntry`). |
| Spectral.SpectralEntry | openTSNE/initialization.py:149-156 | Entry `(i, j)` of a successful result is entry `i` of the eigenvector whose eigenvalue ranks `j+1` in decreasing order, times that eigenvalue. |
| Spectral.SpectralInit | openTSNE/initialization.py:143-158 | The diffusion coordinates are rescaled in place. The call fails exactly when `spectral` fails, with `spectral`'s error, or when there is no column to take the deviation of: with `n_components = 0`, `rescale`'s `x[:, 0]` raises IndexError. Like `Spectral.Spectral`, it follows the comment on line 152 rather than line 153 as written. |
| Spectral.DiffusionCoordinatesAsWritten | openTSNE/initialization.py:149-156 | As written, the result has `k-1` columns, and column `j` is the eigenvector ranked `j+1` times `eigvals[j+1]` in solver order (`ReorderedScaled` with the unreordered eigenvalues), not times its own eigenvalue; see also `AsWrittenEntry`. |
| Spectral.AsWrittenEntry | openTSNE/initialization.py:149-156 | As written, entry `(i, j)` is the eigenvector ranked `j+1` times the eigenvalue at position `j+1` in solver order, not times its own eigenvalue. |
| Spectral.CorrectedExample | openTSNE/initialization.py:149-156 | With eigenvalues `[0.5, 1.0]` and eigenvectors `u = (1, 3, 5)`, `w = (2, 4, 6)`, the kept column is `0.5·u`. |
| Spectral.AsWrittenExample | openTSNE/initialization.py:149-156 | On the same input the code as written keeps `1.0·u`. |
| Spectral.AsWrittenScalesByWrongEigenvalue | openTSNE/initialization.py:149-156 | The code as written and the corrected definition disagree on that input. |
| Rescale.Rescale | openTSNE/initialization.py:9-28 | Every entry is divided by the same scalar `std · 10000`. A missing column 0 raises IndexError. A copy leaves the caller's array unchanged; in place, the caller's array becomes the result. |
| Rescale.RescalePreservesRatios | openTSNE/initialization.py:26 | Ratios between any two entries are preserved. |
| Rescale.RescalePreservesDistanceRatios | openTSNE/initialization.py:26 | Every squared pairwise distance shrinks by the same factor `(std · 10000)²`. |
| Rescale.SquaredDistanceDivided | openTSNE/initialization.py:26 | Dividing two points by `s` divides their squared distance by `s²`. |
| Rescale.SquaredDeviationDivided | openTSNE/initialization.py:26 | Dividing the values and the centre by `s` divides the sum of squared deviations by `s²`. |
| Rescale.VarianceDivided | openTSNE/initialization.py:26 | Dividing by `s` divides the variance by `s²`. |
| Rescale.RescaledFirstColumnSpread | openTSNE/initialization.py:23-26 | When `std` is column 0's standard deviation, the rescaled column 0 has standard deviation 1/10000. |
| Circular.Radius | openTSNE/initialization.py:186-188 | Without box bounds `[0]` raises. Otherwise the radius is the larger of the absolute values of the first and last lower bounds. |
| Circular.RadiusCoversBounds | openTSNE/initialization.py:186-188 | For ascending grid bounds, every bound lies within `[-radius, radius]`. |
| Circular.RootAtMost | openTSNE/initialization.py:191 | The root of a draw from `[0, radius²]` is at most `radius`. |
| Circular.RandomCircular | openTSNE/initialization.py:184-195 | The result has `n` rows and 2 columns. Point `i` is `(ρ sin φ, ρ cos φ)`, where `ρ` is the radius in boundary mode and the root of the drawn square otherwise. |
| Circular.BoundaryPointsOnCircle | openTSNE/initialization.py:192-195 | In boundary mode every point lies exactly on the circle. |
| Circular.DiscPointsWithinCircle | openTSNE/initialization.py:190-195 | In filled mode a point's squared distance from the origin is its drawn square, at most `radius²`, and its own radius is at most `radius`. |

## Left out

- `random` and `pca` (openTSNE/initialization.py:31-98): Gaussian sampling and a call into scikit-learn; neither has logic of its own to model.
- The generalised eigensolver (openTSNE/initialization.py:140-147): the degree matrix, the start vector and `eigsh` itself are foreign numerical code. Their output enters as `Spectral.Eigenpairs`, and `WellShaped` requires it to hold `n_components + 1` eigenpairs of length `n`. The solver's own demand that `k < n` is not modelled.
- Random sampling and `check_random_state` (openTSNE/initialization.py:183, 191, 194): the draws are parameters. `DrawsWithin` states the range `[0, radius²]` that `uniform` samples from.
- Square roots, sines and cosines (openTSNE/initialization.py:191, 195): they are parameters related by `ρ² = u` and `sin² + cos² = 1`.
- `np.std` (openTSNE/initialization.py:26): the square root is not computed. `Rescale.Rescale` takes `std` as a parameter and `RescaledFirstColumnSpread` ties it to the column's variance.
- Rescale.Rescale: requires `std > 0`. A constant first column (`std = 0`) and an embedding with no rows (`std` is NaN) make numpy produce infinities or NaNs, and neither is modelled.
- Median.Median: an empty neighbourhood is modelled as an error rather than numpy's NaN result with a RuntimeWarning. With zero columns numpy returns an empty array, and so does the model.
- Sorting.ArgsortDescending: equal eigenvalues are ordered as reversing a stable ascending argsort orders them. numpy's default quicksort leaves the order of ties unspecified.
- `utils.Timer`, verbosity and `np.ascontiguousarray` (openTSNE/initialization.py:87-96, 137-160, 196, 225, 253-255): these are output and memory layout only.
- IEEE floating-point rounding: coordinates are exact reals.
- The radius uses the LAST lower bound `box_x_lower_bounds[-1]`, exactly as written on line 187, rather than the grid's upper extent. `RadiusCoversBounds` shows the circle still spans every lower bound.

## Findings

| source | as written | input that shows it | evidently intended | confidence | as-written member | corrected member |
|---|---|---|---|---|---|---|
| openTSNE/initialization.py:231-233 | `np.average(embedding[neighbors_i[i]], axis=0, weights=sim_i[i])` averages one reference row with a scalar weight, taken at offset `i` within row `i` | P with rows `[0]` and `[1]` (one neighbour each, similarity 1): row 0 gives numpy a 1-D row and a 0-D weight (TypeError in numpy 1.x, ValueError in 2.x); row 1 has no offset-1 entry (IndexError) | the weighted mean over all of row `i`'s neighbours, `np.average(embedding[neighbors_i], axis=0, weights=sim_i)`, as the docstring says | high; not executed | WeightedMean.SingleNeighbourAsWritten | WeightedMean.WeightedMean |
| openTSNE/initialization.py:153 | `eigvecs *= eigvals` after `eigvecs = eigvecs[:, order]` scales the reordered column `j` by the unreordered `eigvals[j]` | eigenvalues `[0.5, 1.0]`, eigenvectors `[[1, 2], [3, 4], [5, 6]]`: the kept column is `[1, 3, 5]` instead of `[0.5, 1.5, 2.5]` | each eigenvector multiplied by its own eigenvalue, `eigvecs *= eigvals[order]`, as the comment on line 152 says | high; not executed | Spectral.AsWrittenExample | Spectral.DiffusionCoordinates |
