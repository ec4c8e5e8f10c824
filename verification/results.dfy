/** Failure-carrying values used in place of the program's `sys.exit(1)` calls
    and caught exceptions. */
module Results {

  /** A value that may be absent, e.g. the outcome of parsing an integer. */
  datatype Option<+T> = None | Some(value: T)

  /** Either the value a stage produced or the reason the run stops. */
  datatype Result<+R, +E> = Success(value: R) | Failure(error: E)
}
