/** Failure-compatible result types shared by the buffer and the command codecs. */
module Wrappers {

  /** The ways a buffer access or a command decoder can fail. */
  datatype Error =
    | BufferOverrun              // a read past the end of the buffer
    | BufferOverflow             // a write past the capacity of the buffer
    | WrongBufferSize(size: nat) // a body whose length the command refuses
    | BufferNotEmpty             // bytes left over after every field was read

  /** A JavaScript value that may be `undefined`. */
  datatype Option<+T> = None | Some(value: T)

  /** The value of an operation that returns or throws. */
  datatype Result<+T> = Ok(value: T) | Err(error: Error) {
    predicate IsFailure() {
      Err?
    }

    function PropagateFailure<U>(): Result<U>
      requires Err?
    {
      Err(error)
    }

    function Extract(): T
      requires Ok?
    {
      value
    }
  }

  /** The outcome of an operation that returns nothing or throws. */
  datatype Outcome = Pass | Fail(error: Error) {
    predicate IsFailure() {
      Fail?
    }

    function PropagateFailure<U>(): Result<U>
      requires Fail?
    {
      Err(error)
    }
  }
}
