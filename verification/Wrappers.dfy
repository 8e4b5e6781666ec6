/** Failure-compatible result types (include/backbook/domain/outcome.hpp). */
module Wrappers {

  datatype Option<+T> = None | Some(value: T)

  /** A value, or the reason why there is none. */
  datatype Outcome<+T, +E> = Success(value: T) | Failure(error: E)
  {
    predicate IsFailure() {
      Failure?
    }

    function PropagateFailure<U>(): Outcome<U, E>
      requires Failure?
    {
      Failure(error)
    }

    function Extract(): T
      requires Success?
    {
      value
    }

    function MapFailure<F>(wrap: E -> F): Outcome<T, F> {
      match this
      case Success(v) => Success(v)
      case Failure(e) => Failure(wrap(e))
    }
  }
}
