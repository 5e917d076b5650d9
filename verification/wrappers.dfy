/** Failure-compatible wrappers: `Option` stands for a C# reference that may be
    null, `Result` for an operation that may throw instead of returning. */
module Wrappers {

  datatype Option<+T> = None | Some(value: T)

  datatype Result<+R, +E> = Success(value: R) | Failure(error: E)
}
