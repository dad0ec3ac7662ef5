/** Option and Result, the failure-compatible wrappers every module shares. */
module Wrappers {

  datatype Option<T> = None | Some(value: T)

  /** A fatal `error(...)` of the original program becomes `Failure(msg)`. */
  datatype Result<T> = Success(value: T) | Failure(error: string)
  {
    predicate IsFailure() {
      Failure?
    }

    function PropagateFailure<U>(): Result<U>
      requires Failure?
    {
      Failure(error)
    }

    function Extract(): T
      requires Success?
    {
      value
    }
  }
}
