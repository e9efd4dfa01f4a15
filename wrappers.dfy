/** Optional values and results with an error side, as the pipeline's nullable
    columns and raised exceptions are modelled throughout. */
module Wrappers {

  /** A nullable value: `None` stands for a null cell or a Python `None`. */
  datatype Option<+T> = None | Some(value: T) {
    function GetOr(default: T): T {
      match this
      case Some(v) => v
      case None => default
    }
  }

  /** The outcome of an operation that may raise: `Failure` carries the exception. */
  datatype Result<+R, +E> = Success(value: R) | Failure(error: E)
}
