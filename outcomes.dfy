/** Optional values, results, and the Python exceptions the core can raise. */
module Outcomes {

  /** A value that may be absent (Python's `None`). */
  datatype Option<+T> = None | Some(value: T)

  /** The outcome of an operation that may raise. Usable with `:-`. */
  datatype Result<+T> = Success(value: T) | Failure(error: PyError) {
    predicate IsFailure() {
      Failure?
    }

    function PropagateFailure<U>(): Result<U>
      requires Failure?
    {
      Failure(error)
    }

    function Extract(): T
      requires Success?
    {
      value
    }
  }

  /** The exceptions raised by the modelled code, with the message or key they carry. */
  datatype PyError =
    | KeyError(key: string)          // a missing dictionary key
    | IndexError(what: string)       // indexing an empty or too-short list
    | AssertionError(what: string)   // a failed `assert isinstance(...)`
    | TypeError(what: string)        // iterating a value that is not iterable
    | ValueError(msg: string)
    | RuntimeError(msg: string)
    | NameError(name: string)        // use of a name that was never imported
    | StopIteration                  // `next()` on an exhausted iterator
    | Exception(msg: string)         // a bare `raise Exception(...)`
}
