/** Optional values and failure outcomes, standing in for Java's `null` and for thrown exceptions. */
module Wrappers {

  /** A value that may be absent: Java's nullable reference. */
  datatype Option<+T> = None | Some(value: T)

  /** The exceptions the modelled code can raise. */
  datatype Error =
    | IllegalArgument      // IllegalArgumentException (bad capacity, buffer position, thread count)
    | NullPointer          // NullPointerException (buffer already released)
    | ArithmeticDivByZero  // ArithmeticException: / by zero
    | Execution(cause: Error)  // ExecutionException: `Future.get` rethrowing a worker's exception

  /** The outcome of an operation that either yields a value or throws. */
  datatype Result<+T> = Success(value: T) | Failure(error: Error)

  /** The outcome of an operation that yields nothing or throws. */
  datatype Outcome = Pass | Fail(error: Error)
}
