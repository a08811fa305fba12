/** Failure-compatible wrappers used throughout the model: `Option` stands for
    a JavaScript value that may be `NaN` or `null`, `Result` for an operation
    that either succeeds or reports one of the handler's validation errors. */
module Wrappers {

  datatype Option<+T> = None | Some(value: T)

  datatype Result<+R, +E> = Success(value: R) | Failure(error: E)
}
