/** Compressed sparse row storage, as scipy's `csr_matrix` keeps it: row `i`
    stores its column indices in `indices[indptr[i]..indptr[i+1]]` and the
    matching values in `data[indptr[i]..indptr[i+1]]`. */
module Csr {

  datatype CsrMatrix = CsrMatrix(
    nRows: nat,
    nCols: nat,
    indptr: seq<int>,
    indices: seq<int>,
    data: seq<real>)

  /** The structural invariant scipy maintains for a CSR matrix. */
  predicate Valid(p: CsrMatrix) {
    && |p.indptr| == p.nRows + 1
    && |p.indices| == |p.data|
    && 0 <= p.indptr[0]
    && (forall i :: 0 <= i < p.nRows ==> p.indptr[i] <= p.indptr[i + 1])
    && p.indptr[p.nRows] <= |p.indices|
    && (forall k :: 0 <= k < |p.indices| ==> 0 <= p.indices[k] < p.nCols)
  }

  /** A non-decreasing step relation gives a non-decreasing sequence. */
  lemma {:induction false} IndptrMonotone(p: CsrMatrix, i: nat, j: nat)
    requires Valid(p) && i <= j <= p.nRows
    ensures p.indptr[i] <= p.indptr[j]
    decreases j - i
  {
    if i < j {
      IndptrMonotone(p, i + 1, j);
    }
  }

  /** Every row's slice lies inside the stored entries. */
  lemma {:induction false} RowBounds(p: CsrMatrix, i: nat)
    requires Valid(p) && i < p.nRows
    ensures 0 <= p.indptr[i] <= p.indptr[i + 1] <= |p.indices|
  {
    IndptrMonotone(p, 0, i);
    IndptrMonotone(p, i + 1, p.nRows);
  }

  /** The column indices stored for row `i` (`P.indices[P.indptr[i]:P.indptr[i + 1]]`). */
  function RowIndices(p: CsrMatrix, i: nat): (r: seq<int>)
    requires Valid(p) && i < p.nRows
    ensures |r| == p.indptr[i + 1] - p.indptr[i]
    ensures forall k :: 0 <= k < |r| ==> 0 <= r[k] < p.nCols
  {
    RowBounds(p, i);
    p.indices[p.indptr[i]..p.indptr[i + 1]]
  }

  /** The values stored for row `i` (`P.data[P.indptr[i]:P.indptr[i + 1]]`),
      aligned with `RowIndices(p, i)`. */
  function RowData(p: CsrMatrix, i: nat): (r: seq<real>)
    requires Valid(p) && i < p.nRows
    ensures |r| == |RowIndices(p, i)|
  {
    RowBounds(p, i);
    p.data[p.indptr[i]..p.indptr[i + 1]]
  }

  /** The row slices of rows `i..nRows-1`, laid end to end. */
  function IndicesFrom(p: CsrMatrix, i: nat): seq<int>
    requires Valid(p) && i <= p.nRows
    decreases p.nRows - i
  {
    if i == p.nRows then [] else RowIndices(p, i) + IndicesFrom(p, i + 1)
  }

  function DataFrom(p: CsrMatrix, i: nat): seq<real>
    requires Valid(p) && i <= p.nRows
    decreases p.nRows - i
  {
    if i == p.nRows then [] else RowData(p, i) + DataFrom(p, i + 1)
  }

  /** The row slices tile the stored entries: read in row order, rows `i..`
      hold exactly the entries from `indptr[i]` to `indptr[nRows]`, each once. */
  lemma {:induction false} RowsTileEntries(p: CsrMatrix, i: nat)
    requires Valid(p) && i <= p.nRows
    ensures IndptrInRange(p, i)
    ensures IndicesFrom(p, i) == p.indices[p.indptr[i]..p.indptr[p.nRows]]
    ensures DataFrom(p, i) == p.data[p.indptr[i]..p.indptr[p.nRows]]
    decreases p.nRows - i
  {
    IndptrMonotone(p, 0, i);
    IndptrMonotone(p, i, p.nRows);
    if i < p.nRows {
      RowsTileEntries(p, i + 1);
      RowBounds(p, i);
      var a, b, c := p.indptr[i], p.indptr[i + 1], p.indptr[p.nRows];
      assert p.indices[a..c] == p.indices[a..b] + p.indices[b..c];
      assert p.data[a..c] == p.data[a..b] + p.data[b..c];
    }
  }

  /** `indptr[i]` lies between `0` and `indptr[nRows] <= |indices|`. */
  predicate IndptrInRange(p: CsrMatrix, i: nat)
    requires Valid(p) && i <= p.nRows
  {
    0 <= p.indptr[i] <= p.indptr[p.nRows] <= |p.indices|
  }
}
