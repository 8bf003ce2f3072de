/** Option and Result, the two failure-carrying datatypes the rest of the model uses
    for Python's `None` results and raised exceptions. */
module Wrappers {

  datatype Option<+T> = None | Some(value: T)

  datatype Result<+R, +E> = Success(value: R) | Failure(error: E) {

    /** Forgets the error, as a caller that catches the exception and returns `None` does. */
    function ToOption(): Option<R>
    {
      match this
      case Success(v) => Some(v)
      case Failure(_) => None
    }
  }
}
