/** Failure-compatible wrappers used throughout the model: `Option` for
    values the source represents by `null`, `Result` for computations that
    the source aborts with an exception. */
module Wrappers {

  datatype Option<+T> = None | Some(value: T) {
    predicate IsFailure() { None? }

    function PropagateFailure<U>(): Option<U>
      requires None?
    {
      None
    }

    function Extract(): T
      requires Some?
    {
      value
    }
  }

  /** The Java exceptions the modelled code can raise. */
  datatype Error =
    | IndexOutOfBounds       // StringIndexOutOfBounds / IndexOutOfBounds
    | NullPointer            // dereferencing a missing graph node or parent
    | NoSuchNode             // SemanticGraph.getNodeByIndex on an unknown index
    | NoUserStory(message: string)

  datatype Result<+R> = Success(value: R) | Failure(error: Error) {
    predicate IsFailure() { Failure? }

    function PropagateFailure<U>(): Result<U>
      requires Failure?
    {
      Failure(error)
    }

    function Extract(): R
      requires Success?
    {
      value
    }
  }
}
