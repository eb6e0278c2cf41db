/** The exceptions the frame-distribution core and the NumPy frame view raise,
    named after the source's exception types, and the result types that carry them. */
module Errors {

  datatype Error =
    | ObserverError(message: string)   // gg::ObserverError
    | BasicException(message: string)  // gg::BasicException
    | OutOfRange                        // std::out_of_range from a per-view accessor

  /** A value, or the exception raised instead of returning it. */
  datatype Result<T> = Ok(value: T) | Err(error: Error)

  /** A void operation that either returns or raises. */
  datatype Outcome = Pass | Fail(error: Error)
}
