/** Option and Result values, used for the absent JSON key in a reply and for
    the first validation failure of a submission. */
module Wrappers {

  datatype Option<+T> = None | Some(value: T)

  datatype Result<+R, +E> = Success(value: R) | Failure(error: E)
}
