/** Failure-compatible wrappers shared by every module of the model. */
module Wrappers {

  /** A value that may be absent; stands for a Java reference that may be null. */
  datatype Option<+T> = None | Some(value: T)

  /** A computation that either returns a value or raises an error. */
  datatype Result<+R, +E> = Success(value: R) | Failure(error: E) {

    predicate IsFailure() {
      Failure?
    }

    function PropagateFailure<U>(): Result<U, E>
      requires Failure?
    {
      Failure(error)
    }

    function Extract(): R
      requires Success?
    {
      value
    }
  }

  /** A computation that returns nothing, or raises an error. */
  datatype Outcome<+E> = Pass | Fail(error: E)
}

/** The exceptions that the modelled Java and Python code raises or catches. */
module Errors {

  datatype Exception =
    | IllegalArgument         // java.lang.IllegalArgumentException
    | IndexOutOfBounds        // java.lang.ArrayIndexOutOfBoundsException
    | StringIndexOutOfBounds  // java.lang.StringIndexOutOfBoundsException
    | NumberFormat            // java.lang.NumberFormatException
    | NullPointer             // java.lang.NullPointerException
    | TypeError               // Python TypeError
    | AttributeError          // Python AttributeError
}
