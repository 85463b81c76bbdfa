/** Option and Result types shared by the container models, and the two
    standard exceptions the containers throw. */
module Wrappers {

  datatype Option<T> = None | Some(value: T)

  /** The exception classes thrown by the containers. */
  datatype Error =
    | OutOfRange   // std::out_of_range
    | LogicError   // std::logic_error

  /** A value, or the exception an operation throws instead of returning. */
  datatype Result<T> = Ok(value: T) | Err(error: Error)
}
