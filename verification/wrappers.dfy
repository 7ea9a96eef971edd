/** Option and result types shared by the locator and the dataset updater. */
module Wrappers {

  /** A value that may be absent, as `Array.prototype.find` may return `undefined`. */
  datatype Option<+T> = None | Some(value: T)

  /** Either a computed value or the error that interrupted the computation. */
  datatype Result<+R, +E> = Success(value: R) | Failure(error: E)
}
