/** Option and Result datatypes: a possibly-null reference, and a return value
    or a thrown exception. */
module Wrappers {

  /** `None` is the null reference, `Some(v)` a present value. */
  datatype Option<+T> = None | Some(value: T)

  /** `Success(v)` is a normal return of `v`; `Failure(e)` is a thrown exception carrying `e`. */
  datatype Result<+R, +E> = Success(value: R) | Failure(error: E)
}
