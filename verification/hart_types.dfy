/**
 Shared vocabulary of the HART session controller model: bytes, the 32-bit
 signed integers the controller counts retries with, decoded responses,
 outgoing requests, the outcome of one request/response attempt, and the
 session state the controller owns.
 */
module HartTypes {

  /** One octet on the wire; bit tests are written with the controller's own masks. */
  type byte = bv8

  /** A C# `int`: the type of `MaxNumberOfRetries` and of the retry counter. */
  newtype int32 = x: int | -0x8000_0000 <= x < 0x8000_0000

  const Int32Min: int32 := -0x8000_0000
  const Int32Max: int32 := 0x7FFF_FFFF

  /** A nullable reference: `None` is the source's `null`. */
  datatype Option<+T> = None | Some(value: T)

  /** The two status bytes of a response; the first carries the communication-status bit. */
  datatype ResponseCode = ResponseCode(firstByte: byte, secondByte: byte)

  /** A decoded response frame as handed over by the stream parser. */
  datatype CommandResult = CommandResult(commandNumber: byte, responseCode: ResponseCode, data: seq<byte>)

  /** What one attempt asks the controller to send: the reserved zero command (no address),
      or a numbered command carrying the cached address, which may still be null. */
  datatype Request =
    | ZeroRequest(preambleLength: int32)
    | CommandRequest(preambleLength: int32, address: Option<seq<byte>>, commandNumber: byte, data: seq<byte>)

  /** How one transmit-and-wait attempt ends, as seen by the controller:
      the wait timed out, something threw, or the parser completed a frame. */
  datatype Attempt = TimedOut | Threw | Completed(frame: CommandResult)

  /** The configuration surface the decision logic reads. */
  datatype Config = Config(preambleLength: int32, maxRetries: int32, automaticZeroCommand: bool)

  /** Session state: configuration, the cached long address, the zero-command
      flag and the retry counter. */
  datatype Session = Session(config: Config, address: Option<seq<byte>>, zeroCommandExecuted: bool, retries: int32)
}
