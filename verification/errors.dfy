/**
 * The driver's error taxonomy (`Error<TXE, RXE>` in src/utils.rs) and the
 * result type of every fallible operation.
 */
module Errors {
  /** An opaque error value reported by the serial transport; the driver only wraps it. */
  datatype TransportError = TransportError(code: int)

  datatype Error =
    /** The command could not be written to (or flushed on) the serial port. */
    | WriteError(txError: TransportError)
    /** A byte of the reply could not be read from the serial port. */
    | RecvReadError(rxError: TransportError)
    /** Fewer than 7 bytes were received: the packet-type byte is not there. */
    | RecvPacketTooShort
    /** A reply arrived while no command was in flight. */
    | RecvUnsolicitedReply
    /** The packet-type byte of the reply is not `0x07`. */
    | RecvWrongReplyType
    // The three outcomes below are reached by a panic in the driver; the model
    // turns each panic into a reported failure.
    /** A status decoder met a byte outside its mapped set. */
    | UnknownStatusCode(code: int)
    /** A reply decoder read a field past the end of the received bytes. */
    | MalformedReply
    /** A reply byte arrived while the 1024-byte receive buffer was full. */
    | ReceiveBufferFull

  datatype Result<+T> = Ok(value: T) | Err(error: Error) {
    /** Applies `f` to a success value and passes an error through unchanged. */
    function MapOk<U>(f: T -> U): Result<U>
    {
      match this
      case Ok(v) => Ok(f(v))
      case Err(e) => Err(e)
    }
  }
}
