/** Failure-aware return values shared by the linear-algebra and cipher models. */
module Results {

  /** A value that may be missing: the model of a Python function that can return `None`. */
  datatype Option<+T> = None | Some(value: T)

  /** A computed value, or the reason why it could not be computed. */
  datatype Result<+T, +E> = Success(value: T) | Failure(error: E)

  /** Errors of the linear-algebra routines. */
  datatype LinAlgError =
    | ShapeMismatch            // a square matrix was required
    | SingularPivot(at: nat)   // no usable (nonzero) pivot for this row/column
}
