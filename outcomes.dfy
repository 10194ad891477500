/**
 * Optional values and failure-carrying results shared by the resolver model.
 * `None` stands for Java's `null`; `Failure` stands for a thrown exception,
 * which aborts the whole resolution.
 */
module Outcomes {

  datatype Option<+T> = None | Some(value: T)

  /** The ways a resolution can end abnormally. */
  datatype Error =
    /** IllegalStateException: a key was re-entered while still pending. */
    | Circular(key: string)
    /** IllegalArgumentException: the placeholder text does not match the expression grammar. */
    | Malformed(expr: string)
    /** UnsupportedOperationException: the function name is not a built-in, so the
        next strategy in the resolver chain throws. */
    | Unsupported
    /** IllegalArgumentException from the final check of the resolver chain (no strategy
        produced a function); the chain never gets there. */
    | Unresolvable(name: string)
    /** A NullPointerException on one of the source's accidental null paths: a computed
        expression without an argument list, or a null function result with no default. */
    | Fault(expr: string)
    /** Not a source exception: the cache-based reading of an expression met a source key
        that has no cached value yet. */
    | Unresolved(key: string)

  datatype Result<+T> = Success(value: T) | Failure(error: Error) {
    predicate IsFailure() { Failure? }
    function PropagateFailure<U>(): Result<U>
      requires Failure?
    {
      Failure(error)
    }
    function Extract(): T
      requires Success?
    {
      value
    }
  }
}
