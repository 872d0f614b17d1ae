/** Result shapes shared by the modules: an optional value, and the outcome of a
    Go call that either returns or panics. */
module Outcomes {

  datatype Option<+T> = None | Some(value: T) {
    function GetOr(default: T): T {
      match this
      case Some(v) => v
      case None => default
    }
  }

  /** The run-time panics the modelled Go code can raise. */
  datatype Crash =
    | EndOfData        // a read past the end of the input (bufio's io.EOF, re-raised by panic)
    | SliceOutOfRange  // a slice expression beyond the capacity of its operand

  /** A Go call that either returns a value or panics; `:-` propagates the panic. */
  datatype Outcome<+T> = Done(value: T) | Panic(crash: Crash) {
    predicate IsFailure() {
      Panic?
    }

    function PropagateFailure<U>(): Outcome<U>
      requires Panic?
    {
      Panic(crash)
    }

    function Extract(): T
      requires Done?
    {
      value
    }
  }

  /** A Go call returning a value and an error; the error carries its message. */
  datatype Result<+T> = Success(value: T) | Failure(error: string)

  /** A Go call with no result that either returns or panics. */
  datatype Status = Ok | Crashed(crash: Crash)
}
