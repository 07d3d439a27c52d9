/** Failure-compatible result types and the closed set of exceptions the
    modelled program can raise. Every operation of the model that can raise
    in the program returns a `Result` carrying one of these errors. */
module Wrappers {

  /** One constructor per exception class the program raises. */
  datatype Error =
    | FormatError        // MovFileError: truncated atom, overrun of a parent, writer size discipline
    | RuntimeError       // misuse of a reader or of a tree node
    | ValueError         // splitting twice, an unregistered record type, a bad field declaration
    | AssertionError     // a failing `assert` of the program (a declared size below 8, ...)
    | UnpackError        // too few bytes for a record field
    | PackError          // a record field value that does not fit its layout
    | StructError        // `struct.pack` / `struct.unpack` used outside the record codec
    | IndexError
    | KeyError
    | TypeError
    | AttributeError
    | ZeroDivisionError

  datatype Option<+T> = None | Some(value: T)

  datatype Result<+T> = Ok(value: T) | Err(error: Error) {

    predicate IsFailure() {
      Err?
    }

    function PropagateFailure<U>(): Result<U>
      requires Err?
    {
      Err(error)
    }

    function Extract(): T
      requires Ok?
    {
      value
    }
  }

  /** A check that either passes or names the error to raise. */
  datatype Outcome = Pass | Fail(error: Error) {

    predicate IsFailure() {
      Fail?
    }

    function PropagateFailure<U>(): Result<U>
      requires Fail?
    {
      Err(error)
    }
  }

  function Need(condition: bool, error: Error): (o: Outcome)
    ensures o.Pass? <==> condition
  {
    if condition then Pass else Fail(error)
  }
}
