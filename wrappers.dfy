/** Failure-compatible wrappers: `Option` for Go's nil-or-value, `Outcome` for a returned `error`. */
module Wrappers {

  /** `None` stands for Go's `nil`. */
  datatype Option<+T> = None | Some(value: T)

  /** `Pass` stands for a nil `error`, `Fail(e)` for a non-nil one. */
  datatype Outcome<+E> = Pass | Fail(error: E)
}
