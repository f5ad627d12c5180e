/**
 Classification of a response's first status byte. Bit 7 set means the byte
 is a communication-status byte: the device saw a line-level fault in the
 request, and bits 6, 5, 4, 3 and 1 name which faults. Bit 7 clear means the
 byte is a command-specific status and the exchange itself succeeded.
 */
module CommunicationStatus {
  import opened HartTypes

  /** The transport faults a communication-status byte can flag. */
  datatype LineFault = VerticalParity | Overrun | Framing | LongitudinalParity | BufferOverflow

  const AllFaults: set<LineFault> := {VerticalParity, Overrun, Framing, LongitudinalParity, BufferOverflow}

  /** The mask the controller tests for each fault. */
  function Mask(f: LineFault): byte {
    match f
    case VerticalParity => 0x40
    case Overrun => 0x20
    case Framing => 0x10
    case LongitudinalParity => 0x08
    case BufferOverflow => 0x02
  }

  /** The bit position of each fault within the status byte, as the protocol numbers them. */
  function FaultBit(f: LineFault): nat {
    match f
    case VerticalParity => 6
    case Overrun => 5
    case Framing => 4
    case LongitudinalParity => 3
    case BufferOverflow => 1
  }

  /** True when the bit at position `k` of `b` is set. */
  predicate BitSet(b: byte, k: nat)
    requires k < 8
  {
    (b >> k) & 1 == 1
  }

  /** The controller's test: a first status byte of 128 or more is a communication error. */
  function HasCommunicationError(firstByte: byte): (r: bool)
    ensures r <==> BitSet(firstByte, 7)
  {
    !(firstByte < 128)
  }

  /** The faults the controller reports for a first status byte: none when the
      byte is a command-specific status, otherwise every fault whose mask is set. */
  function ReportedFaults(firstByte: byte): (faults: set<LineFault>)
    ensures !HasCommunicationError(firstByte) ==> faults == {}
    ensures forall f :: f in faults <==> HasCommunicationError(firstByte) && BitSet(firstByte, FaultBit(f))
  {
    if !HasCommunicationError(firstByte) then {}
    else set f | f in AllFaults && firstByte & Mask(f) == Mask(f)
  }

  /** The communication-status byte that flags exactly `faults`: bit 7 plus one
      bit per fault, with the undefined bits 0 and 2 clear. */
  function StatusByteFor(faults: set<LineFault>): (b: byte)
    ensures HasCommunicationError(b)
    ensures b & 0x05 == 0
  {
    0x80
    | (if VerticalParity in faults then 0x40 else 0)
    | (if Overrun in faults then 0x20 else 0)
    | (if Framing in faults then 0x10 else 0)
    | (if LongitudinalParity in faults then 0x08 else 0)
    | (if BufferOverflow in faults then 0x02 else 0)
  }

  /** Classifying the byte built for a set of faults reports exactly that set. */
  lemma ReportedFaultsOfStatusByte(faults: set<LineFault>)
    ensures ReportedFaults(StatusByteFor(faults)) == faults
  {
  }

  /** Every communication-status byte is the byte for its reported faults plus
      whatever the undefined bits 0 and 2 carry: no other bit goes unreported. */
  lemma StatusByteDecomposes(b: byte)
    requires HasCommunicationError(b)
    ensures b == StatusByteFor(ReportedFaults(b)) | (b & 0x05)
  {
  }

  /** A first status byte of 0xD0 is a communication error flagging parity and
      framing, and nothing else. */
  lemma ParityAndFramingExample()
    ensures HasCommunicationError(0xD0)
    ensures ReportedFaults(0xD0) == {VerticalParity, Framing}
  {
  }
}
