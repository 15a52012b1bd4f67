/** The result type used for the loader's and the selectors' error paths. */
module Wrappers {

  /** Either a computed value or the error that prevented computing it. */
  datatype Result<+T, +E> = Success(value: T) | Failure(error: E)
}
