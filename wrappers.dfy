/** Success/failure results, standing for the values a Python function returns
    and the exceptions it raises. */
module Wrappers {

  datatype Result<+T, +E> = Success(value: T) | Failure(error: E)

}
