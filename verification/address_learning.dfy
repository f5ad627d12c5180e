/**
 Address learning on frame completion. Every frame the parser completes
 passes through the controller's completion handler before any waiting
 exchange sees it. A frame with command number 0 is a Read Unique Identifier
 response: the handler builds the 5-byte long address from fixed data
 offsets, caches it and marks the zero command as executed for the session.
 */
module AddressLearning {
  import opened HartTypes

  /** Data offsets of the address bytes, in the order the handler copies them:
      manufacturer id, device type, then the three device-id bytes. */
  const AddressOffsets: seq<nat> := [1, 2, 9, 10, 11]

  /** The data length a Read Unique Identifier response needs for a full copy. */
  const FullIdentifierLength: nat := 12

  /** The long address of a complete Read Unique Identifier response. */
  function LongAddress(data: seq<byte>): (a: seq<byte>)
    requires |data| >= FullIdentifierLength
    ensures |a| == 5
    ensures a[0] & 0x80 == 0x80 && a[0] & 0x7F == data[1] & 0x7F
    ensures a[1] == data[2] && a[2..] == data[9..12]
  {
    [data[1] | 0x80, data[2], data[9], data[10], data[11]]
  }

  /** The number of address bytes the handler writes before it reaches a data
      offset that does not exist. */
  function BytesCopied(dataLength: nat): (n: nat)
    ensures n <= 5
    ensures forall k :: 0 <= k < 5 ==> (k < n <==> AddressOffsets[k] < dataLength)
  {
    if dataLength <= 1 then 0
    else if dataLength <= 2 then 1
    else if dataLength <= 9 then 2
    else if dataLength <= 10 then 3
    else if dataLength <= 11 then 4
    else 5
  }

  /** A run of zero bytes, as a freshly allocated array holds. */
  function Zeros(n: nat): (z: seq<byte>)
    ensures |z| == n && forall k :: 0 <= k < n ==> z[k] == 0
  {
    seq(n, _ => 0)
  }

  /** The cached address after the handler copies what `data` provides into a
      fresh 5-byte array, byte by byte, stopping at the first missing offset.
      It is the long address of the data padded with zeros, kept up to the
      bytes actually copied, and zero after them. */
  function CopiedAddress(data: seq<byte>): (a: seq<byte>)
    ensures |a| == 5
    ensures a == LongAddress(data + Zeros(FullIdentifierLength))[..BytesCopied(|data|)] + Zeros(5 - BytesCopied(|data|))
    ensures |data| >= FullIdentifierLength ==> a == LongAddress(data)
  {
    var a := seq(5, k requires 0 <= k < 5 =>
      if AddressOffsets[k] < |data| then
        (if k == 0 then data[1] | 0x80 else data[AddressOffsets[k]])
      else 0);
    var padded := data + Zeros(FullIdentifierLength);
    var n := BytesCopied(|data|);
    var expected := LongAddress(padded)[..n] + Zeros(5 - n);
    assert forall k :: 0 <= k < 5 ==> a[k] == expected[k] by {
      forall k | 0 <= k < 5
        ensures a[k] == expected[k]
      {
        if k < n {
          assert padded[AddressOffsets[k]] == data[AddressOffsets[k]];
          assert expected[k] == LongAddress(padded)[k];
        } else {
          assert expected[k] == Zeros(5 - n)[k - n];
        }
      }
    }
    a
  }

  /** True when the handler runs to the end and raises the response to the
      waiting exchange; a short command-0 response makes it throw instead. */
  predicate Delivers(frame: CommandResult) {
    frame.commandNumber != 0 || |frame.data| >= FullIdentifierLength
  }

  /** What the completion handler leaves behind: the session and whether the
      frame reached the waiting exchange. */
  datatype Completion = Completion(session: Session, delivered: bool)

  /** The completion handler. The response code plays no part: a frame carrying
      a communication error still teaches the address. */
  function CommandComplete(s: Session, frame: CommandResult): (c: Completion)
    ensures c.delivered <==> Delivers(frame)
    ensures frame.commandNumber != 0 ==> c.session == s
    ensures frame.commandNumber == 0 && |frame.data| >= FullIdentifierLength ==>
      c.session == s.(address := Some(LongAddress(frame.data)), zeroCommandExecuted := true)
    ensures frame.commandNumber == 0 && |frame.data| < FullIdentifierLength ==>
      c.session == s.(address := Some(CopiedAddress(frame.data)))
  {
    if frame.commandNumber == 0 then
      var address := CopiedAddress(frame.data);
      if |frame.data| < FullIdentifierLength then Completion(s.(address := Some(address)), false)
      else Completion(s.(address := Some(address), zeroCommandExecuted := true), true)
    else Completion(s, true)
  }

  /** After a complete command-0 frame the cached address has five bytes with
      the high bit of the first one set, and the zero-command flag is raised;
      the configuration and the retry counter are untouched. */
  lemma LearnedAddressIsLong(s: Session, frame: CommandResult)
    requires frame.commandNumber == 0 && |frame.data| >= FullIdentifierLength
    ensures CommandComplete(s, frame).session.address.Some?
    ensures |CommandComplete(s, frame).session.address.value| == 5
    ensures CommandComplete(s, frame).session.address.value[0] & 0x80 == 0x80
    ensures CommandComplete(s, frame).session.zeroCommandExecuted
    ensures CommandComplete(s, frame).session.config == s.config
    ensures CommandComplete(s, frame).session.retries == s.retries
  {
  }

  /** The zero-command flag is never cleared by the handler. */
  lemma FlagNeverCleared(s: Session, frame: CommandResult)
    ensures s.zeroCommandExecuted ==> CommandComplete(s, frame).session.zeroCommandExecuted
    ensures CommandComplete(s, frame).session.config == s.config
  {
  }

  /** Manufacturer id 0x12, device type 0x34 and device id AA BB CC give the
      address 92 34 AA BB CC. */
  lemma LearnedAddressExample(s: Session, frame: CommandResult)
    requires frame.commandNumber == 0 && |frame.data| == 12
    requires frame.data[1] == 0x12 && frame.data[2] == 0x34
    requires frame.data[9] == 0xAA && frame.data[10] == 0xBB && frame.data[11] == 0xCC
    ensures CommandComplete(s, frame).session.address == Some([0x92, 0x34, 0xAA, 0xBB, 0xCC])
  {
  }
}
