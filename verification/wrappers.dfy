/** Failure-carrying results shared by every component of the storage layer.
    The Objective-C classes signal failures by exceptions, `nil` returns or the
    `NSNotFound` sentinel; the model makes each such outcome an explicit value. */
module Wrappers {

  /** `None` stands for the `NSNotFound` sentinel of the bit searches and for an
      un-materialised (nil) child or leaf. */
  datatype Option<+T> = None | Some(value: T) {

    function GetOr(default: T): T {
      match this
      case Some(v) => v
      case None => default
    }
  }

  /** The error taxonomy of the storage layer. */
  datatype Error =
    | OutOfRange        // an index or coordinate beyond a fixed bound
    | InvalidArgument   // a bad range, shape or position
    | Overflow          // a sample array whose byte size exceeds the word

  datatype Result<+T> = Success(value: T) | Failure(error: Error) {

    predicate IsFailure() {
      Failure?
    }

    function PropagateFailure<U>(): Result<U>
      requires Failure?
    {
      Failure(error)
    }

    function Extract(): T
      requires Success?
    {
      value
    }
  }
}
