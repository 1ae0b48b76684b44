/** Small value types shared by the models: an optional value, and the result
    of an operation that may throw one of the C++ standard exceptions the
    containers use. */
module Wrappers {

  datatype Option<+T> = None | Some(value: T)

  /** The standard exceptions thrown by the containers and the table. */
  datatype Exception = OutOfRange | InvalidArgument | LogicError

  /** A value, or the exception the operation throws instead. */
  datatype Result<+T> = Ok(value: T) | Throws(exception: Exception)

  /** The outcome of an operation that returns nothing but may throw. */
  datatype Outcome = Done | Failed(exception: Exception)
}
