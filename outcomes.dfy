/** The errors the engine raises, and the result type that carries them. */
module Outcomes {

  /** One kind per exception the engine raises. */
  datatype Error =
    | ShapeMismatch(rows: nat, cols: nat)  // supplied initial grid has the wrong shape (ValueError)
    | NotFinished                          // export requested before simulate() (Exception)
    | InvalidDestination                   // path does not end in the export format's suffix (ValueError)
    | ZeroSteps                            // restore asked for with n_steps == 0 (ZeroDivisionError)
    | InvalidReshape                       // row count not divisible by n_steps (numpy reshape ValueError)
    | NotTwoDimensional                    // the loaded array has fewer than two axes (IndexError on shape[1])

  datatype Result<T> = Success(value: T) | Failure(error: Error)

  /** An argument that may be absent (Python's None). */
  datatype Option<T> = None | Some(value: T)
}
