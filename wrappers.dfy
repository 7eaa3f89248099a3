/** Option and Result values, standing in for C#'s nullable references and
    for operations that either yield a value or throw. */
module Wrappers {

  datatype Option<+T> = None | Some(value: T)

  datatype Result<+R, +E> = Success(value: R) | Failure(error: E)
}
