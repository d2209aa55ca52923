/** Option and Result, used for the "undefined" decode slot and for the
    errors that abort a generator run or a codec call. */
module Wrappers {

  datatype Option<+T> = None | Some(value: T)

  datatype Result<+T, +E> = Success(value: T) | Failure(error: E)
}
