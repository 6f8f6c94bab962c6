/** Option and Result, for the values the component reads that may be absent
    and for the operations that end in an error message. */
module Wrappers {

  datatype Option<+T> = None | Some(value: T)

  datatype Result<+R, +E> = Success(value: R) | Failure(error: E)
}
