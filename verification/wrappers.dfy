/** Result: the shape of an operation that can fail where the C# code
    throws an exception. */
module Wrappers {

  datatype Result<+R, +E> = Success(value: R) | Failure(error: E)
}
