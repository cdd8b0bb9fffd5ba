/** Failure-compatible wrappers used for the nil returns and raised errors
    of the dining core. */
module Wrappers {

  /** Ruby's `nil`-or-value, as returned by `allergen_cleanup` and
      `allergen_reference`. */
  datatype Option<+T> = None | Some(value: T)

  /** A value or the error that `fetch` would raise instead. */
  datatype Result<+R, +E> = Success(value: R) | Failure(error: E)
}
