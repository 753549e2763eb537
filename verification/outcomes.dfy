/** Small failure-carrying datatypes shared by the other modules: the Go code
    signals absence with a `nil` or a `false` flag and failure with an
    `error` return or a `panic`; here both become values. */
module Outcomes {

  /** A value that may be absent (a Go pointer that may be nil). */
  datatype Option<+T> = None | Some(value: T)

  /** The result of an operation that either produces a value or stops with
      an error (a returned `error`, or a `panic` that ends the goroutine). */
  datatype Result<+T, +E> = Success(value: T) | Failure(error: E) {
    predicate IsFailure() { Failure? }

    function PropagateFailure<U>(): Result<U, E>
      requires Failure?
    {
      Failure(error)
    }

    function Extract(): T
      requires Success?
    {
      value
    }
  }
}
