/** Error reporting shared by every list structure of the model.
    The C++ sources throw `std::out_of_range` for a bad index and
    `std::runtime_error` when popping an empty container; here a call
    that throws returns the matching failure value instead. */
module Errors {

  datatype Error =
    | OutOfRange     // std::out_of_range
    | EmptyContainer // std::runtime_error("Cannot pop from empty stack")

  /** The result of an operation that returns a value or throws. */
  datatype Result<T> = Ok(value: T) | Err(error: Error)

  /** The result of an operation that returns nothing or throws. */
  datatype Status = Done | Failed(error: Error)
}
