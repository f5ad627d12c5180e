# HART Lite session controller — decision logic

This project models the decision logic of `HartCommunicationLite`, the
master-side session controller of a HART (Highway Addressable Remote
Transducer) library. The serial port, threads, sleeps and logger are left
out. What remains is sequential and deterministic once the outcome of each
transmit-and-wait attempt is given as input:

- **Communication-error classification** (`CommunicationStatus`). Bit 7 of a
  response's first status byte marks a communication-status byte. Bits 6, 5,
  4, 3 and 1 then flag vertical parity, overrun, framing, longitudinal parity
  and buffer overflow.
- **Retry counter** (`RetryPolicy`). `ShouldRetry` is a post-decrement test
  on a C# `int`. The unchecked wrap-around at `int.MinValue` is written out.
- **Exchange with retries** (`Exchange`). Each attempt ends in one of three
  ways: a timeout, an exception, or a frame the parser completed. `Execute`
  is the self-recursion of `ExecuteCommand`. `ExecuteLoop` is the same
  decision as a bounded loop, proved equal to it.
- **Address learning** (`AddressLearning`). Every completed frame passes
  through the completion handler first. For command number 0 (Read Unique
  Identifier), the handler caches the 5-byte long address
  `[Data[1] | 0x80, Data[2], Data[9], Data[10], Data[11]]` and raises the
  zero-command flag.
- **Top-level calls** (`SessionController`). `Send` and `SendZeroCommand` each
  reset the retry counter. `Send` runs the automatic zero-command exchange
  first when the rule fires. `RunCalls` runs a session's successive `Send` and
  `SendZeroCommand` calls, interleaved with assignments through the public
  setters of `PreambleLength`, `MaxNumberOfRetries` and `AutomaticZeroCommand`.

Bytes are `bv8`, so the source's mask tests appear as they are written.
`MaxNumberOfRetries` and the retry counter are `int32`. A `null` result is
`None`.

A command-0 frame may carry fewer than 12 data bytes. The handler then
allocates the new 5-byte address, copies bytes until it reaches the first
missing data offset, and throws. The cached address is left partly filled
with zeros after the last byte copied. The flag is not set, and the
`Receive` event is not raised, so the waiting exchange never sees the frame.
The model treats that attempt as a timeout. `CopiedAddress` and
`CommandComplete` model this case as the code behaves, instead of excluding
it with a precondition.

Two facts about the code shape the model:

- `ShouldRetry` decrements the retry counter on every failed attempt,
  including the last one, where it answers "no"
  (HartCommunicationLite.cs lines 151, 159, 167 and 197).
- Every completed command-0 frame with full data overwrites the cached
  address (lines 255-266). This includes the answer to a `Send(0, …)` and a
  frame that carries a communication error.

## Model

| member | source | states |
|---|---|---|
| CommunicationStatus.HasCommunicationError | tags/0.4.0/Finaltec.Communication.HartLite/HartCommunicationLite.cs:174-177 | a first status byte is a communication error exactly when its bit 7 is set (byte ≥ 128) |
| CommunicationStatus.ReportedFaults | tags/0.4.0/Finaltec.Communication.HartLite/HartCommunicationLite.cs:176-190 | no fault is reported for a byte below 128; otherwise a fault is reported exactly when its protocol bit (6 parity, 5 overrun, 4 framing, 3 longitudinal parity, 1 buffer overflow) is set |
| CommunicationStatus.StatusByteFor | tags/0.4.0/Finaltec.Communication.HartLite/HartCommunicationLite.cs:181-190 | the byte built for a fault set is a communication error with the undefined bits 0 and 2 clear |
| CommunicationStatus.ReportedFaultsOfStatusByte | tags/0.4.0/Finaltec.Communication.HartLite/HartCommunicationLite.cs:181-190 | classifying the byte built for any fault set reports exactly that set (round trip) |
| CommunicationStatus.StatusByteDecomposes | tags/0.4.0/Finaltec.Communication.HartLite/HartCommunicationLite.cs:174-192 | every communication-error byte is the byte for its reported faults plus bits 0 and 2, so no defined fault bit goes unreported |
| CommunicationStatus.ParityAndFramingExample | tags/0.4.0/Finaltec.Communication.HartLite/HartCommunicationLite.cs:176-190 | 0xD0 is a communication error that flags parity and framing and nothing else, overrun included |
| RetryPolicy.ShouldRetry | tags/0.4.0/Finaltec.Communication.HartLite/HartCommunicationLite.cs:195-198 | the answer is yes exactly when the counter was positive before the decrement, and the counter is always decremented |
| RetryPolicy.AnswersFromBudget | tags/0.4.0/Finaltec.Communication.HartLite/HartCommunicationLite.cs:195-198 | from a counter b ≥ 0, the i-th of up to b + 1 consecutive calls says yes exactly when i < b |
| RetryPolicy.AnswersExhaustBudget | tags/0.4.0/Finaltec.Communication.HartLite/HartCommunicationLite.cs:195-198 | from a counter b ≥ 0, b + 1 consecutive calls answer b yeses and then one no |
| AddressLearning.LongAddress | tags/0.4.0/Finaltec.Communication.HartLite/HartCommunicationLite.cs:259-264 | the learned address has 5 bytes: the manufacturer id with its high bit forced set and its low 7 bits kept, then the device type, then data bytes 9–11 |
| AddressLearning.BytesCopied | tags/0.4.0/Finaltec.Communication.HartLite/HartCommunicationLite.cs:259-264 | address byte k is copied before the handler stops exactly when its data offset exists |
| AddressLearning.CopiedAddress | tags/0.4.0/Finaltec.Communication.HartLite/HartCommunicationLite.cs:259-264 | the cached 5-byte array is the long address of the zero-padded data, up to the bytes the copy reached, and zero after them; for complete data it is the long address |
| AddressLearning.CommandComplete | tags/0.4.0/Finaltec.Communication.HartLite/HartCommunicationLite.cs:253-270 | any other command number leaves the session unchanged and the frame is delivered. Command 0 with 12 or more data bytes caches the long address, sets the flag and delivers. Command 0 with less data leaves a partial address, does not set the flag and does not deliver. The response code plays no part |
| AddressLearning.LearnedAddressIsLong | tags/0.4.0/Finaltec.Communication.HartLite/HartCommunicationLite.cs:255-266 | after a complete command-0 frame the address is present, has 5 bytes and has its first byte's high bit set; the flag is true; configuration and retry counter are unchanged |
| AddressLearning.FlagNeverCleared | tags/0.4.0/Finaltec.Communication.HartLite/HartCommunicationLite.cs:253-267 | the completion handler never clears the zero-command flag and never touches the configuration |
| AddressLearning.LearnedAddressExample | tags/0.4.0/Finaltec.Communication.HartLite/HartCommunicationLite.cs:259-264 | data bytes 0x12, 0x34 at offsets 1–2 and AA BB CC at 9–11 teach the address 92 34 AA BB CC |
| Exchange.Await | tags/0.4.0/Finaltec.Communication.HartLite/HartCommunicationLite.cs:253-270 | a wait hands over a frame exactly when one completed and the handler ran to the end; it keeps the configuration, the counter and a raised flag |
| Exchange.Observe | tags/0.4.0/Finaltec.Communication.HartLite/HartCommunicationLite.cs:253-267 | running the completion handler over a series of attempts keeps the configuration, the counter and a raised flag |
| Exchange.Execute | tags/0.4.0/Finaltec.Communication.HartLite/HartCommunicationLite.cs:141-172 | an exchange makes at least one and at most MaxAttempts attempts (counter + 1, or 1 when the counter is not positive); its result is the frame the last attempt delivered, or null when that attempt delivered none; it keeps the configuration and a raised flag |
| Exchange.ExecuteStopsAtFirstSuccess | tags/0.4.0/Finaltec.Communication.HartLite/HartCommunicationLite.cs:147-161 | no attempt before the last one was a success (a delivered frame with bit 7 clear), and an exchange that stops before the maximum stopped on a success |
| Exchange.ExecuteObservesAttempts | tags/0.4.0/Finaltec.Communication.HartLite/HartCommunicationLite.cs:253-267 | the session after an exchange is the one the completion handler leaves after exactly the attempts made, apart from the retry counter |
| Exchange.ExecuteLoop | tags/0.4.0/Finaltec.Communication.HartLite/HartCommunicationLite.cs:141-172 | the exchange as a bounded loop returns the same session, result and attempt count as the self-recursive exchange |
| Exchange.ExhaustedWithoutResponse | tags/0.4.0/Finaltec.Communication.HartLite/HartCommunicationLite.cs:147-170 | from a counter ≥ 0, when every attempt times out or throws, exactly counter + 1 attempts are made and null is returned |
| Exchange.AcceptedAtOnce | tags/0.4.0/Finaltec.Communication.HartLite/HartCommunicationLite.cs:156-161 | a delivered response with its first status byte below 128 is returned after one attempt |
| Exchange.PersistentFaultReturned | tags/0.4.0/Finaltec.Communication.HartLite/HartCommunicationLite.cs:156-159 | from a counter ≥ 0, a device that always answers with a communication error is asked counter + 1 times, and its last faulty answer is returned, never null |
| Exchange.NullOnlyWhenExhausted | tags/0.4.0/Finaltec.Communication.HartLite/HartCommunicationLite.cs:147-170 | null is returned exactly when all allowed attempts were used and the last one delivered no frame |
| SessionController.DefaultSession | tags/0.4.0/Finaltec.Communication.HartLite/HartCommunicationLite.cs:45-46 | the controller built from a port name alone has two retries, preamble length 10, automatic zero command on, no address and the flag clear |
| SessionController.NewSession | tags/0.4.0/Finaltec.Communication.HartLite/HartCommunicationLite.cs:53-58 | a new controller has preamble length 10, the given retry maximum, automatic zero command on, no address and the flag clear |
| SessionController.SendZeroCommand | tags/0.4.0/Finaltec.Communication.HartLite/HartCommunicationLite.cs:135-139 | with a fresh counter, the zero command is attempted once per attempt, at most MaxNumberOfRetries + 1 times, or once when MaxNumberOfRetries is not positive; the result is the last attempt's frame or null |
| SessionController.PreExchange | tags/0.4.0/Finaltec.Communication.HartLite/HartCommunicationLite.cs:128-129 | the pre-exchange attempts something exactly when automatic zero is on, the command is non-zero and the flag is clear; it attempts only the automatic zero command (`ZeroRequest`) |
| SessionController.Send | tags/0.4.0/Finaltec.Communication.HartLite/HartCommunicationLite.cs:126-133 | the first attempted request is the automatic zero command (`ZeroRequest`) exactly when the rule fires. Then the requested command is attempted, carrying the address held after the pre-exchange, at most MaxNumberOfRetries + 1 times, or once when MaxNumberOfRetries is not positive. The result is the last main attempt's frame or null. The flag is never cleared |
| SessionController.BudgetResetPerCall | tags/0.4.0/Finaltec.Communication.HartLite/HartCommunicationLite.cs:126-139 | when MaxNumberOfRetries ≥ 0 and every attempt fails, the requested command gets the full MaxNumberOfRetries + 1 attempts even after a pre-exchange used MaxNumberOfRetries + 1 of its own, and the call returns null |
| SessionController.NoZeroRequestOnceExecuted | tags/0.4.0/Finaltec.Communication.HartLite/HartCommunicationLite.cs:128-129 | once the flag is set, `Send` attempts no automatic zero command (`ZeroRequest`) and keeps the flag; a `Send` of command 0 still attempts a numbered command 0 |
| SessionController.PreExchangeTeachesAddress | tags/0.4.0/Finaltec.Communication.HartLite/HartCommunicationLite.cs:126-132 | a successful first zero-command answer means one automatic zero command (`ZeroRequest`), then the requested command carrying the address learned from that answer; the flag is set |
| SessionController.Invoke | tags/0.4.0/Finaltec.Communication.HartLite/HartCommunicationLite.cs:28-39 | a setter assignment replaces the configuration and changes nothing else: address, flag and counter are kept and nothing is attempted. A `Send` or `SendZeroCommand` call keeps the configuration and the flag and attempts at least once; `SendZeroCommand` attempts only the zero command, and a `Send` attempts it first exactly when the rule fires |
| SessionController.RunCalls | tags/0.4.0/Finaltec.Communication.HartLite/HartCommunicationLite.cs:28-39 | a run has one step per invocation; a setter step leaves exactly the configuration it assigned, and every call step runs under the configuration in force before it |
| SessionController.RunAfterZeroCommand | tags/0.4.0/Finaltec.Communication.HartLite/HartCommunicationLite.cs:128-133 | in a run of `Send` and `SendZeroCommand` calls and setter assignments that starts with the flag set, every step keeps the flag and no `Send` call attempts the automatic zero command (`ZeroRequest`) |
| SessionController.ZeroCommandNeverRepeated | tags/0.4.0/Finaltec.Communication.HartLite/HartCommunicationLite.cs:126-139 | once any step of a run of `Send` and `SendZeroCommand` calls and setter assignments leaves the flag set, every later step keeps it and no later `Send` attempts the automatic zero command (`ZeroRequest`) |

## Left out

- `Open`, `Close` and every `SerialPort` call (RTS/DTR toggling, `Write`, `Read`, `DataReceived`): transport I/O. The attempt outcome `Threw` stands for any exception raised inside an attempt.
- `SendCommand`'s sleeps, `SleepAfterSend` and `CalculateWaitTime`: these depend on the wall clock and on `double` arithmetic. For the same reason the `Timeout` setting is not part of `Config`; a timeout appears only as the `TimedOut` outcome.
- `AutoResetEvent` signalling and the `Receive` event subscription: this is cross-thread handoff. The per-attempt `Attempt` input replaces it.
- Frames that complete after their wait has timed out: they still pass through `CommandComplete`, but an attempt's outcome carries at most the frame its own wait received. `AddressLearning.CommandComplete` applies to such a frame directly.
- What happens to the exception a short command-0 frame raises in the handler once it leaves the handler. The model assumes `HartCommandParser` contains it, so the attempt ends like a timeout. If the exception instead escapes the `DataReceived` handler, it is unhandled on the serial port's thread-pool thread, which by default ends the process. The parser is not part of this model, so neither case can be checked.
- log4net output: the model states which faults are reported, not the message text.
- `Command.ToByteArray`, `Command.Zero`, `CommandResult` and `HartCommandParser` are not part of this model. A request is a descriptor (`ZeroRequest`, `CommandRequest`), not wire bytes. A response is its decoded command number, two status bytes and data.
- Frames sent: a `Call` lists the request of every attempt (`attempted`), not the frames that reached the wire. A `Threw` attempt may fail before anything is written, in `command.ToByteArray()` or in `_port.Write` on a closed port.
- `Send(byte command)`: this overload is `Send` with empty data, so it is not a separate member.
- Exchange.Execute: it requires one outcome for each attempt that can happen (`MaxAttempts`), because the environment supplies one outcome per attempt. This is not a precondition of the source.
- SessionController.Send: it requires enough outcomes for the pre-exchange and the main exchange (`OutcomesNeeded`), for the same reason.
- Call-stack depth of the retry recursion: Dafny's integers and recursion are unbounded.
