/** Error kinds and failure-carrying results shared by the whole model.
    The C++ source reports failures by throwing `std::invalid_argument` or
    `std::out_of_range`; here every throwing operation returns one of these. */
module Wrappers {

  /** The two exception classes the search server throws. */
  datatype ErrorKind = InvalidArgument | OutOfRange

  /** A value or the exception that replaced it. */
  datatype Result<+T> = Ok(value: T) | Err(error: ErrorKind)

  /** The outcome of an operation that returns nothing (`void`) or throws. */
  datatype Outcome = Pass | Fail(error: ErrorKind)
}
