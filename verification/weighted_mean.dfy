/** `weighted_mean`: places each new point at the similarity-weighted mean of
    the reference-embedding rows of its neighbours, read from a CSR matrix `P`
    with one row per new point and one column per reference point. */
module WeightedMean {
  import opened Outcomes
  import opened Matrices
  import opened Csr

  /** `Σ_k ws[k] · xs[k]`. */
  function WeightedSum(ws: seq<real>, xs: seq<real>): real
    requires |ws| == |xs|
  {
    if |ws| == 0 then 0.0 else ws[0] * xs[0] + WeightedSum(ws[1..], xs[1..])
  }

  /** numpy's `average(xs, weights=ws)`; numpy raises when the weights sum to zero. */
  function Average(xs: seq<real>, ws: seq<real>): (r: real)
    requires |xs| == |ws| && Sum(ws) != 0.0
    ensures r * Sum(ws) == WeightedSum(ws, xs)
  {
    WeightedSum(ws, xs) / Sum(ws)
  }

  lemma {:induction false} WeightedSumBetween(ws: seq<real>, xs: seq<real>, lo: real, hi: real)
    requires |ws| == |xs|
    requires forall k :: 0 <= k < |ws| ==> ws[k] >= 0.0
    requires forall k :: 0 <= k < |xs| ==> lo <= xs[k] <= hi
    ensures lo * Sum(ws) <= WeightedSum(ws, xs) <= hi * Sum(ws)
  {
    if |ws| > 0 {
      WeightedSumBetween(ws[1..], xs[1..], lo, hi);
      assert ws[0] * (xs[0] - lo) >= 0.0;
      assert ws[0] * (hi - xs[0]) >= 0.0;
    }
  }

  /** With non-negative weights of positive total, the weighted mean lies
      between the smallest and the largest value averaged. */
  lemma {:induction false} AverageBetween(xs: seq<real>, ws: seq<real>)
    requires |xs| == |ws|
    requires forall k :: 0 <= k < |ws| ==> ws[k] >= 0.0
    requires Sum(ws) > 0.0
    ensures |xs| > 0
    ensures Min(xs) <= Average(xs, ws) <= Max(xs)
  {
    assert |ws| > 0;
    var lo, hi := Min(xs), Max(xs);
    var w, s := WeightedSum(ws, xs), Sum(ws);
    WeightedSumBetween(ws, xs, lo, hi);
    QuotientBetween(w, s, lo, hi);
    assert Average(xs, ws) == w / s;
  }

  lemma {:induction false} QuotientBetween(w: real, s: real, lo: real, hi: real)
    requires s > 0.0 && lo * s <= w <= hi * s
    ensures lo <= w / s <= hi
  {
    assert w / s - lo == (w - lo * s) / s;
    assert hi - w / s == (hi * s - w) / s;
  }

  lemma {:induction false} ScaledSums(ws: seq<real>, xs: seq<real>, t: real)
    requires |ws| == |xs|
    ensures Sum(Scale(ws, t)) == t * Sum(ws)
    ensures WeightedSum(Scale(ws, t), xs) == t * WeightedSum(ws, xs)
  {
    if |ws| > 0 {
      ScaledSums(ws[1..], xs[1..], t);
    }
  }

  /** Every weight multiplied by `t`. */
  function Scale(ws: seq<real>, t: real): (r: seq<real>)
    ensures |r| == |ws|
  {
    if |ws| == 0 then [] else [t * ws[0]] + Scale(ws[1..], t)
  }

  /** The weights are normalised by the average: multiplying every
      similarity of a row by the same non-zero factor does not move the point. */
  lemma {:induction false} AverageScaleInvariant(xs: seq<real>, ws: seq<real>, t: real)
    requires |xs| == |ws| && Sum(ws) != 0.0 && t != 0.0
    ensures Sum(Scale(ws, t)) != 0.0
    ensures Average(xs, Scale(ws, t)) == Average(xs, ws)
  {
    ScaledSums(ws, xs, t);
  }

  /** Row `c`-th coordinates of the mean position of `nbrs` weighted by `ws`. */
  function MeanRow(emb: Matrix, d: nat, nbrs: seq<int>, ws: seq<real>): (row: seq<real>)
    requires IsMatrix(emb, |emb|, d) && RowsInRange(nbrs, |emb|)
    requires |nbrs| == |ws| && Sum(ws) != 0.0
    ensures |row| == d
  {
    seq(d, c requires 0 <= c < d => Average(Gather(emb, d, nbrs, c), ws))
  }

  /** The first row at or after `i` whose weights sum to zero, if any. */
  function FirstZeroWeightRow(p: CsrMatrix, i: nat): (z: Option<nat>)
    requires Valid(p) && i <= p.nRows
    ensures z.None? <==> forall k :: i <= k < p.nRows ==> Sum(RowData(p, k)) != 0.0
    ensures z.Some? ==> i <= z.value < p.nRows && Sum(RowData(p, z.value)) == 0.0
    ensures z.Some? ==> forall k :: i <= k < z.value ==> Sum(RowData(p, k)) != 0.0
    decreases p.nRows - i
  {
    if i == p.nRows then None
    else if Sum(RowData(p, i)) == 0.0 then Some(i)
    else FirstZeroWeightRow(p, i + 1)
  }

  /** `weighted_mean(X, embedding, P)` with `n_samples = X.shape[0]` and an
      embedding of `|emb|` rows and `d` columns, taking each new point's mean
      over ALL of its stored neighbours, as the routine's documentation says. */
  function WeightedMean(nSamples: nat, emb: Matrix, d: nat, p: CsrMatrix): (r: Result<Matrix>)
    requires IsMatrix(emb, |emb|, d) && Valid(p)
    ensures p.nRows != nSamples || p.nCols != |emb| ==> r == Err(ShapeMismatch)
    ensures r.Ok? <==>
      && p.nRows == nSamples && p.nCols == |emb|
      && forall i :: 0 <= i < nSamples ==> Sum(RowData(p, i)) != 0.0
    ensures p.nRows == nSamples && p.nCols == |emb| && r.Err? ==> r.error.WeightsSumToZero?
    ensures r.Err? && r.error.WeightsSumToZero? ==>
      && r.error.row < p.nRows && Sum(RowData(p, r.error.row)) == 0.0
      && forall i :: 0 <= i < r.error.row ==> Sum(RowData(p, i)) != 0.0
    ensures r.Ok? ==> IsMatrix(r.value, nSamples, d)
    ensures r.Ok? ==> forall i, c :: 0 <= i < nSamples && 0 <= c < d ==>
      r.value[i][c] == Average(Gather(emb, d, RowIndices(p, i), c), RowData(p, i))
  {
    if p.nRows != nSamples || p.nCols != |emb| then Err(ShapeMismatch)
    else match FirstZeroWeightRow(p, 0)
      case Some(i) => Err(WeightsSumToZero(i))
      case None =>
        Ok(seq(nSamples, i requires 0 <= i < nSamples => MeanRow(emb, d, RowIndices(p, i), RowData(p, i))))
  }

  /** With non-negative similarities, every coordinate of a placed point lies
      between the smallest and largest value of that coordinate among the
      point's neighbours. */
  lemma {:induction false} WeightedMeanWithinNeighbours(nSamples: nat, emb: Matrix, d: nat, p: CsrMatrix, i: nat, c: nat)
    requires IsMatrix(emb, |emb|, d) && Valid(p)
    requires WeightedMean(nSamples, emb, d, p).Ok?
    requires i < nSamples && c < d
    requires forall k :: 0 <= k < |p.data| ==> p.data[k] >= 0.0
    ensures |RowIndices(p, i)| > 0
    ensures var g := Gather(emb, d, RowIndices(p, i), c);
      Min(g) <= WeightedMean(nSamples, emb, d, p).value[i][c] <= Max(g)
  {
    var ws := RowData(p, i);
    RowBounds(p, i);
    assert forall k :: 0 <= k < |ws| ==> ws[k] == p.data[p.indptr[i] + k];
    NonNegativeSum(ws);
    assert Sum(ws) > 0.0;
    AverageBetween(Gather(emb, d, RowIndices(p, i), c), ws);
  }

  lemma {:induction false} NonNegativeSum(ws: seq<real>)
    requires forall k :: 0 <= k < |ws| ==> ws[k] >= 0.0
    ensures Sum(ws) >= 0.0
  {
    if |ws| > 0 {
      NonNegativeSum(ws[1..]);
    }
  }

  /** A new point with a single stored neighbour of non-zero similarity is
      placed exactly on that neighbour's reference position. */
  lemma {:induction false} WeightedMeanSingleNeighbour(nSamples: nat, emb: Matrix, d: nat, p: CsrMatrix, i: nat)
    requires IsMatrix(emb, |emb|, d) && Valid(p)
    requires WeightedMean(nSamples, emb, d, p).Ok?
    requires i < nSamples && |RowIndices(p, i)| == 1
    ensures RowIndices(p, i)[0] < |emb|
    ensures WeightedMean(nSamples, emb, d, p).value[i] == emb[RowIndices(p, i)[0]]
  {
    var r := WeightedMean(nSamples, emb, d, p).value;
    var j, w := RowIndices(p, i)[0], RowData(p, i)[0];
    assert RowData(p, i) == [w];
    assert Sum([w]) == w;
    assert w != 0.0;
    forall c | 0 <= c < d
      ensures r[i][c] == emb[j][c]
    {
      var g := Gather(emb, d, RowIndices(p, i), c);
      assert g == [emb[j][c]];
      assert WeightedSum([w], g) == w * emb[j][c];
      assert r[i][c] == (w * emb[j][c]) / w;
    }
  }

  // ----- The loop body as written -----

  /** Line 232 reads `neighbors_i[i]` and `sim_i[i]`: the one stored entry at
      offset `i` WITHIN row `i`, which exists only when row `i` stores more
      than `i` entries. All other neighbours of the row are ignored. */
  function OffsetEntry(p: CsrMatrix, i: nat): (e: Option<(int, real)>)
    requires Valid(p) && i < p.nRows
    ensures e.Some? <==> i < |RowIndices(p, i)|
    ensures e.Some? ==> e.value == (RowIndices(p, i)[i], RowData(p, i)[i])
  {
    if i < |RowIndices(p, i)| then Some((RowIndices(p, i)[i], RowData(p, i)[i])) else None
  }

  /** The exception one loop iteration raises as written: indexing past the
      row raises IndexError; otherwise `numpy.average` receives one 1-D
      reference row and a 0-D weight, and numpy refuses weights whose shape
      differs from the data's unless they are 1-D (TypeError in numpy 1.x,
      ValueError in numpy 2.x). No iteration completes. */
  function AsWrittenIterationError(p: CsrMatrix, i: nat): (e: Error)
    requires Valid(p) && i < p.nRows
    ensures e.IndexOutOfRange? <==> |RowIndices(p, i)| <= i
    ensures e.IndexOutOfRange? || e.WeightsShapeMismatch?
  {
    match OffsetEntry(p, i)
    case None => IndexOutOfRange
    case Some(_) => WeightsShapeMismatch
  }

  /** `weighted_mean` exactly as lines 221-235 are written: the shape check,
      then the loop from row 0, which ends at the first exception. */
  function WeightedMeanAsWritten(nSamples: nat, emb: Matrix, d: nat, p: CsrMatrix): (r: Result<Matrix>)
    requires IsMatrix(emb, |emb|, d) && Valid(p)
    ensures p.nRows != nSamples || p.nCols != |emb| ==> r == Err(ShapeMismatch)
    ensures r.Ok? <==> p.nRows == nSamples && p.nCols == |emb| && nSamples == 0
    ensures r.Err? && p.nRows == nSamples && p.nCols == |emb| ==>
      (r.error == IndexOutOfRange <==> |RowIndices(p, 0)| == 0)
    ensures r.Err? && p.nRows == nSamples && p.nCols == |emb| ==> r.error == AsWrittenIterationError(p, 0)
  {
    if p.nRows != nSamples || p.nCols != |emb| then Err(ShapeMismatch)
    else if nSamples == 0 then Ok([])
    else Err(AsWrittenIterationError(p, 0))
  }

  /** As written, the routine cannot place even one new point: the first
      iteration already raises. */
  lemma {:induction false} AsWrittenNeverPlaces(nSamples: nat, emb: Matrix, d: nat, p: CsrMatrix)
    requires IsMatrix(emb, |emb|, d) && Valid(p)
    requires nSamples >= 1
    ensures WeightedMeanAsWritten(nSamples, emb, d, p).Err?
  {
  }

  /** The input of the examples: two new points, each with a single
      neighbour of similarity 1 (new point `k` next to reference point `k`). */
  function ExampleEmbedding(): Matrix {
    [[1.0, 2.0], [3.0, 4.0]]
  }

  function ExampleAffinities(): CsrMatrix {
    CsrMatrix(2, 2, [0, 1, 2], [0, 1], [1.0, 1.0])
  }

  lemma {:induction false} ExampleRows()
    ensures Valid(ExampleAffinities()) && IsMatrix(ExampleEmbedding(), 2, 2)
    ensures RowIndices(ExampleAffinities(), 0) == [0] && RowIndices(ExampleAffinities(), 1) == [1]
    ensures RowData(ExampleAffinities(), 0) == [1.0] && RowData(ExampleAffinities(), 1) == [1.0]
  {
    var p := ExampleAffinities();
    assert Valid(p);
    assert RowIndices(p, 0) == [0] && RowIndices(p, 1) == [1];
    assert RowData(p, 0) == [1.0] && RowData(p, 1) == [1.0];
  }

  /** On that input the documented routine places each new point on its
      neighbour's reference row. */
  lemma {:induction false} SingleNeighbourExample()
    ensures var emb, p := ExampleEmbedding(), ExampleAffinities();
      && Valid(p) && IsMatrix(emb, 2, 2)
      && WeightedMean(2, emb, 2, p) == Ok(emb)
  {
    var emb, p := ExampleEmbedding(), ExampleAffinities();
    ExampleRows();
    assert Sum([1.0]) == 1.0;
    var r := WeightedMean(2, emb, 2, p);
    assert r.Ok?;
    WeightedMeanSingleNeighbour(2, emb, 2, p, 0);
    WeightedMeanSingleNeighbour(2, emb, 2, p, 1);
    assert r.value == emb;
  }

  /** The written loop raises on the same input, and row 1's offset-1 entry
      does not even exist. */
  lemma {:induction false} SingleNeighbourAsWritten()
    ensures var emb, p := ExampleEmbedding(), ExampleAffinities();
      && Valid(p) && IsMatrix(emb, 2, 2)
      && OffsetEntry(p, 1).None?
      && WeightedMeanAsWritten(2, emb, 2, p) == Err(WeightsShapeMismatch)
  {
    ExampleRows();
  }
}
