/** Option and Result values used for JavaScript's `undefined`/`null` and for the
    operations that stop early with an alert instead of producing a result. */
module Wrappers {

  datatype Option<+T> = None | Some(value: T)

  datatype Result<+R, +E> = Success(value: R) | Failure(error: E)
}
