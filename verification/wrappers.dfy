/** Failure-carrying result types shared by the numeric kernels. */
module Wrappers {

  /** A value that may be absent. */
  datatype Option<+T> = None | Some(value: T)

  /** Either a computed value or the error the computation raised. */
  datatype Result<+T, +E> = Success(value: T) | Failure(error: E)

  /** The Python exceptions the kernels can raise to their callers. */
  datatype Error =
    | IndexError      // writing element 0 of an empty array
    | BroadcastError  // numpy cannot broadcast a slice assignment (a ValueError)
}
