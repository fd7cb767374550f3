/** Optional values and results, the model's stand-in for Python's None and for raised exceptions. */
module Wrappers {

  /** `None` is Python's `None` (and pandas' NaN in a column); `Some(v)` a present value. */
  datatype Option<+T> = None | Some(value: T) {

    /** The value, or `default` when missing: pandas' `fillna(default)` on one cell. */
    function GetOr(default: T): T {
      match this
      case Some(v) => v
      case None => default
    }
  }

  /** `Failure(e)` stands for an exception raised where the source would raise one. */
  datatype Result<+T, +E> = Success(value: T) | Failure(error: E) {

    predicate IsFailure() {
      Failure?
    }

    function PropagateFailure<U>(): Result<U, E>
      requires Failure?
    {
      Failure(error)
    }

    function Extract(): T
      requires Success?
    {
      value
    }
  }
}
