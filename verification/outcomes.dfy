/** The success-or-error value that stands for a Python call that may raise. */
module Outcomes {

  datatype Result<+T, +E> = Success(value: T) | Failure(error: E) {

    predicate IsFailure() {
      Failure?
    }

    function PropagateFailure<U>(): Result<U, E>
      requires Failure?
    {
      Failure(error)
    }

    function Extract(): T
      requires Success?
    {
      value
    }
  }

  /** Python's `IndexError` from a list subscript out of range, and the
      `ValueError` of `random.randint(0, -1)` when there is nothing to draw. */
  datatype Fault = IndexOutOfRange | EmptyRange
}
