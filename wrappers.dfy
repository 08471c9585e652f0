/** Optional values, results and the exceptions the C++ library can raise. */
module Wrappers {

  datatype Option<+T> = None | Some(value: T)

  /** The exceptions thrown by the modelled code (std::runtime_error, std::out_of_range,
      std::bad_optional_access from `optional::value()` on an empty optional). */
  datatype Exception =
    | RuntimeError(message: string)
    | OutOfRange(message: string)
    | BadOptionalAccess

  /** The outcome of a call that either returns a value or throws. */
  datatype Result<+T> = Success(value: T) | Failure(error: Exception)
}
