/** Option and Result, used for the optional fields of a partial update,
    for the outcome of the hosted model call and for the outcome of JSON parsing. */
module Wrappers {

  datatype Option<+T> = None | Some(value: T) {
    /** The value if present, otherwise the default (what an object spread does with an absent key). */
    function GetOr(default: T): T {
      match this
      case Some(v) => v
      case None => default
    }
  }

  datatype Result<+R, +E> = Success(value: R) | Failure(error: E)
}
