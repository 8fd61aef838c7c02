/** Option and Result types: queries that may find no row, and operations
    that may fail with a business error. */
module Wrappers {

  /** The result of a repository query that may find nothing (java.util.Optional). */
  datatype Option<+T> = None | Some(value: T) {

    /** Turns an empty query result into a failure (Optional.orElseThrow). */
    function ToResult<E>(error: E): Result<T, E> {
      match this
      case Some(v) => Success(v)
      case None => Failure(error)
    }
  }

  /** Either a value or the error that aborted the computation. */
  datatype Result<+T, +E> = Success(value: T) | Failure(error: E) {

    predicate IsFailure() {
      Failure?
    }

    function PropagateFailure<U>(): Result<U, E>
      requires Failure?
    {
      Failure(error)
    }

    function Extract(): T
      requires Success?
    {
      value
    }
  }
}

/** The business errors a BusinessException carries (response/ResponseEnum.java). */
module Errors {

  datatype BusinessError = SystemError | ParamException | CardNotFound | UserNotFound {

    /** The HTTP status the error is reported with. */
    function Code(): int {
      match this
      case SystemError => 500
      case ParamException => 400
      case CardNotFound => 404
      case UserNotFound => 404
    }
  }
}
