/** Optional values and results with an error, for JavaScript's `undefined` and thrown errors. */
module Wrappers {

  /** `None` stands for JavaScript's `undefined`, or for a pattern that did not match. */
  datatype Option<+T> = None | Some(value: T)

  /** `Err` stands for an error that the JavaScript code throws instead of returning. */
  datatype Result<+T, +E> = Ok(value: T) | Err(error: E)
}
