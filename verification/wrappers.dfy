/** Failure-carrying datatypes shared by every module of the model.
    `None` stands for Python's `None` (and for an argument that is not a
    string where the source tests `isinstance(x, str)`); `Failure` stands
    for a raised exception. */
module Wrappers {

  datatype Option<+T> = None | Some(value: T) {
    function GetOr(default: T): T {
      match this
      case Some(v) => v
      case None => default
    }
  }

  datatype Result<+R, +E> = Success(value: R) | Failure(error: E)
}
