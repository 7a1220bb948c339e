/** Failure-carrying values shared by every initialisation routine. */
module Outcomes {

  datatype Option<+T> = None | Some(value: T)

  /** The exceptions the initialisation routines raise, one constructor each. */
  datatype Error =
    /** `assert` on the similarity matrix's shape failed (AssertionError). */
    | ShapeMismatch
    /** The adjacency matrix is not two-dimensional (ValueError). */
    | NotTwoDimensional
    /** The adjacency matrix is not square (ValueError). */
    | NotSquare
    /** The eigensolver hit its iteration cap. */
    | NoConvergence
    /** `numpy.average` found that the weights of this row sum to zero (ZeroDivisionError). */
    | WeightsSumToZero(row: nat)
    /** `numpy.average` got weights of a shape it cannot align with the data
        (TypeError in numpy 1.x, ValueError in numpy 2.x). */
    | WeightsShapeMismatch
    /** An index past the end of an array (IndexError). */
    | IndexOutOfRange
    /** A median over zero neighbours, which numpy returns as NaN. */
    | EmptyNeighbourhood

  datatype Result<+T> = Ok(value: T) | Err(error: Error)
}
