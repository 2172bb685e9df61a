/** Value-carrying failure types: `Option` stands for `std::optional`, and
    `Result` for an operation that may throw instead of returning. */
module Wrappers {

  datatype Option<+T> = None | Some(value: T)

  datatype Result<+T, +E> = Success(value: T) | Failure(error: E)
}
