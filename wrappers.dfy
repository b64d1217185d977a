/** Optional values and fallible results shared by every module of the model. */
module Wrappers {

  /** Python's `None` versus a present value. */
  datatype Option<+T> = None | Some(value: T) {
    function GetOr(default: T): T {
      match this
      case Some(v) => v
      case None => default
    }
  }

  /** The outcome of an operation that can raise: the value, or the exception's message. */
  datatype Result<+T> = Success(value: T) | Failure(error: string)
}
