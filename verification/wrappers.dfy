/** Option and Result values for lookups that can miss and configurations
    that can be rejected. */
module Wrappers {

  datatype Option<+T> = None | Some(value: T)

  datatype Result<+T, +E> = Success(value: T) | Failure(error: E)
}
