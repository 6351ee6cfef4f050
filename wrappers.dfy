/** Error values and the result wrappers that stand for the Python exceptions
    the C extension raises and the Python layer raises. */
module Wrappers {

  /** The exceptions the modelled code raises, one per distinct message. */
  datatype Error =
    | NegativeDuration          // "negative duration"
    | TooManyChannels           // "exceeding maximum number of channels"
    | IndexOutOfRange           // "index out of range" / "set index error"
    | ChannelMismatch           // "channels number mismatch" / "wrong number of channels"
    | RateMismatch              // "sample rate mismatch" / "wrong sample rate"
    | UnsupportedWidth          // "unsupported sample width"
    | InvalidBufferLength       // "invalid buffer length"
    | KIsZero                   // "k must not be 0"
    | NegativeDelay             // "delay time must be >= 0"
    | FormatRequired            // "Format required with file objects"
    | ZeroFrameSize             // ZeroDivisionError in the chunk size
    | MalformedHeader           // a header item that is not exactly one "k=v"
    | MissingAttribute          // KeyError on a required header key
    | NotAnInteger              // ValueError from int()
    | FormatTooRecent           // "Format is more recent than this version of Splat"
    | PrecisionMismatch         // "Sample precision mismatch"

  /** A value or the error raised instead of returning it. */
  datatype Result<+T> = Success(value: T) | Failure(error: Error) {
    predicate IsFailure() { Failure? }
    function PropagateFailure<U>(): Result<U>
      requires Failure?
    {
      Failure(error)
    }
    function Extract(): T
      requires Success?
    {
      value
    }
  }

  /** The outcome of an operation that returns nothing on success (`Py_RETURN_NONE`). */
  datatype Outcome = Pass | Fail(error: Error)

  /** A value or nothing (`None`). */
  datatype Option<+T> = None | Some(value: T)
}
