/** Option and Outcome, used for JavaScript's null / NaN and for thrown errors. */
module Wrappers {

  /** `None` stands for JavaScript's `null` (or `NaN` for numbers). */
  datatype Option<+T> = None | Some(value: T)

  /** The result of an operation that either returns normally or throws `error`. */
  datatype Outcome<+E> = Pass | Fail(error: E)
}
