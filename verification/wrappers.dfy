/** Option and Result values standing for the source's nullable references and thrown exceptions. */
module Wrappers {

  /** A C# nullable reference or nullable value: `None` is `null`. */
  datatype Option<+T> = None | Some(value: T) {
    function GetOr(default: T): T {
      match this
      case Some(v) => v
      case None => default
    }
  }

  /** The exception kinds the modelled code throws. */
  datatype Error =
    | ArgumentNull        // ArgumentNullException
    | Argument            // ArgumentException
    | ArgumentOutOfRange  // ArgumentOutOfRangeException
    | Arithmetic          // ArithmeticException
    | Overflow            // OverflowException (negative array size)
    | IndexOutOfRange     // IndexOutOfRangeException
    | InvalidOperation    // InvalidOperationException (Max or Average of an empty sequence)

  /** The outcome of a call that may throw. */
  datatype Result<+T> = Success(value: T) | Failure(error: Error) {
    predicate IsFailure() {
      Failure?
    }

    function PropagateFailure<U>(): Result<U>
      requires Failure?
    {
      Failure(error)
    }

    function Extract(): T
      requires Success?
    {
      value
    }
  }
}
