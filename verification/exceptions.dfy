/** The exceptions the retry governor dispatches on, and what one call of the
    wrapped callable can do: return a value or raise an exception. */
module Exceptions {

  /** An exception raised by the wrapped callable, carrying the text that
      `str(e)` yields. The first two are the package's own fail-fast classes;
      `OtherException` is any other subclass of `Exception`; `BaseOnlyException`
      is a `BaseException` that is not an `Exception` (an interrupt or a
      process exit), which no `except Exception` clause catches. */
  datatype Exc =
    | DoNotRetryException(msg: string)
    | UnAuthException(msg: string)
    | OtherException(msg: string)
    | BaseOnlyException(msg: string)

  /** The outcome of one call: a returned value or a raised exception. */
  datatype Outcome<+T> = Returned(value: T) | Raised(exc: Exc)

  /** The exception raised when the attempt loop runs zero times. */
  const NeverHappens: Exc := OtherException("This should never happen")

  /** True of an exception that the generic `except Exception` clause handles,
      i.e. one that is retried. */
  predicate IsTransient(e: Exc) {
    e.OtherException?
  }

  /** True of an outcome that the governor retries: a raised transient exception. */
  predicate IsTransientFailure<T>(o: Outcome<T>) {
    o.Raised? && IsTransient(o.exc)
  }
}
