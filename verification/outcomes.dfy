/** Success/failure results of the loan calculator.

    The calculator has one way to fail: Python's float division (and raising
    0.0 to a negative power) raises ZeroDivisionError. Instead of a NaN or an
    exception, every operation of the model returns a `Result`.
 */
module Outcomes {

  /** The only exception the arithmetic core can raise. */
  datatype Error = ZeroDivisionError

  /** Either the computed value or the error that aborted the computation.
      Usable with `:-`, which propagates the failure like an uncaught exception. */
  datatype Result<+T> = Success(value: T) | Failure(error: Error) {

    predicate IsFailure() {
      Failure?
    }

    function PropagateFailure<U>(): Result<U>
      requires Failure?
    {
      Failure(error)
    }

    function Extract(): T
      requires Success?
    {
      value
    }
  }
}
