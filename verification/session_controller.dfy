/**
 The public entry points of the session controller. Each top-level call
 resets the retry counter to the configured maximum and runs one exchange.
 `Send` of a non-zero command first runs a zero-command exchange when
 automatic addressing is on and no zero command has completed yet; the
 requested command then carries whatever address the session holds.
 */
module SessionController {
  import opened HartTypes
  import opened AddressLearning
  import opened Exchange

  const DefaultPreambleLength: int32 := 10
  const DefaultMaxRetries: int32 := 2

  /** A fresh controller: no cached address, zero command not yet executed. */
  function NewSession(maxRetries: int32): (s: Session)
    ensures s.config == Config(DefaultPreambleLength, maxRetries, true)
    ensures s.address == None && !s.zeroCommandExecuted
  {
    Session(Config(DefaultPreambleLength, maxRetries, true), None, false, 0)
  }

  /** The controller built from a port name alone: two retries by default. */
  function DefaultSession(): (s: Session)
    ensures s.config.maxRetries == 2 && s.config.preambleLength == 10 && s.config.automaticZeroCommand
    ensures s.address == None && !s.zeroCommandExecuted
  {
    NewSession(DefaultMaxRetries)
  }

  /** The rule for the automatic zero-command pre-exchange. */
  predicate NeedsZeroCommand(s: Session, command: byte) {
    s.config.automaticZeroCommand && command != 0 && !s.zeroCommandExecuted
  }

  /** `n` attempts with the same request. */
  function Repeat(request: Request, n: nat): (rs: seq<Request>)
    ensures |rs| == n && forall i :: 0 <= i < n ==> rs[i] == request
  {
    seq(n, _ => request)
  }

  /** A top-level call: the session afterwards, the result, the request of
      every attempt in order, and how many attempts the call's own exchange
      made. An attempt that throws before writing to the port still lists its
      request: this is what was attempted, not what reached the wire. */
  datatype Call = Call(session: Session, result: Option<CommandResult>, attempted: seq<Request>, attempts: nat)

  /** Sends the reserved zero command with a fresh retry counter. */
  function SendZeroCommand(s: Session, outcomes: seq<Attempt>): (r: Call)
    requires |outcomes| >= MaxAttempts(s.config.maxRetries)
    ensures 1 <= r.attempts <= MaxAttempts(s.config.maxRetries)
    ensures r.attempted == Repeat(ZeroRequest(s.config.preambleLength), r.attempts)
    ensures r.result == Received(outcomes[r.attempts - 1])
    ensures r.session.config == s.config
    ensures s.zeroCommandExecuted ==> r.session.zeroCommandExecuted
  {
    var ex := Execute(s.(retries := s.config.maxRetries), outcomes);
    Call(ex.session, ex.result, Repeat(ZeroRequest(s.config.preambleLength), ex.attempts), ex.attempts)
  }

  /** The zero-command exchange `Send` runs first, or nothing when the rule does not fire. */
  function PreExchange(s: Session, command: byte, outcomes: seq<Attempt>): (r: Call)
    requires NeedsZeroCommand(s, command) ==> |outcomes| >= MaxAttempts(s.config.maxRetries)
    ensures NeedsZeroCommand(s, command) <==> |r.attempted| > 0
    ensures |r.attempted| <= MaxAttempts(s.config.maxRetries)
    ensures forall i :: 0 <= i < |r.attempted| ==> r.attempted[i] == ZeroRequest(s.config.preambleLength)
    ensures r.session.config == s.config
    ensures s.zeroCommandExecuted ==> r.session.zeroCommandExecuted
  {
    if NeedsZeroCommand(s, command) then SendZeroCommand(s, outcomes) else Call(s, None, [], 0)
  }

  /** The outcomes a `Send` may consume: one exchange's worth, two with the pre-exchange. */
  function OutcomesNeeded(s: Session, command: byte): nat {
    (if NeedsZeroCommand(s, command) then 2 else 1) * MaxAttempts(s.config.maxRetries)
  }

  /** Sends `command` with `data`, preceded by the automatic zero command when needed. */
  function Send(s: Session, command: byte, data: seq<byte>, outcomes: seq<Attempt>): (r: Call)
    requires |outcomes| >= OutcomesNeeded(s, command)
    ensures 1 <= r.attempts <= MaxAttempts(s.config.maxRetries)
    ensures var pre := PreExchange(s, command, outcomes);
      && r.attempted == pre.attempted
           + Repeat(CommandRequest(s.config.preambleLength, pre.session.address, command, data), r.attempts)
      && r.result == Received(outcomes[|pre.attempted| + r.attempts - 1])
    ensures r.attempted[0].ZeroRequest? <==> NeedsZeroCommand(s, command)
    ensures r.session.config == s.config
    ensures s.zeroCommandExecuted ==> r.session.zeroCommandExecuted
  {
    var pre := PreExchange(s, command, outcomes);
    var rest := outcomes[|pre.attempted|..];
    var request := CommandRequest(s.config.preambleLength, pre.session.address, command, data);
    var ex := Execute(pre.session.(retries := s.config.maxRetries), rest);
    Call(ex.session, ex.result, pre.attempted + Repeat(request, ex.attempts), ex.attempts)
  }

  /** The retry counter is reset per top-level call: with MaxNumberOfRetries of
      zero or more, when every attempt fails, the requested command gets the full MaxNumberOfRetries + 1 attempts
      whether or not a pre-exchange used up its own, and the call returns null. */
  lemma {:induction false} BudgetResetPerCall(s: Session, command: byte, data: seq<byte>, outcomes: seq<Attempt>)
    requires s.config.maxRetries >= 0
    requires |outcomes| >= OutcomesNeeded(s, command)
    requires forall i :: 0 <= i < |outcomes| ==> !outcomes[i].Completed?
    ensures |PreExchange(s, command, outcomes).attempted|
      == (if NeedsZeroCommand(s, command) then s.config.maxRetries as int + 1 else 0)
    ensures Send(s, command, data, outcomes).attempts == s.config.maxRetries as int + 1
    ensures |Send(s, command, data, outcomes).attempted|
      == (if NeedsZeroCommand(s, command) then 2 else 1) * (s.config.maxRetries as int + 1)
    ensures Send(s, command, data, outcomes).result == None
  {
    var budget := s.config.maxRetries;
    if NeedsZeroCommand(s, command) {
      ExhaustedWithoutResponse(s.(retries := budget), outcomes);
    }
    var pre := PreExchange(s, command, outcomes);
    var rest := outcomes[|pre.attempted|..];
    ExhaustedWithoutResponse(pre.session.(retries := budget), rest);
  }

  /** A session that already ran the zero command never attempts the automatic
      zero command (`ZeroRequest`) again through `Send`; a `Send` of command 0
      still attempts a `CommandRequest` numbered 0. */
  lemma {:induction false} NoZeroRequestOnceExecuted(s: Session, command: byte, data: seq<byte>, outcomes: seq<Attempt>)
    requires s.zeroCommandExecuted
    requires |outcomes| >= OutcomesNeeded(s, command)
    ensures forall i :: 0 <= i < |Send(s, command, data, outcomes).attempted| ==>
      !Send(s, command, data, outcomes).attempted[i].ZeroRequest?
    ensures Send(s, command, data, outcomes).session.zeroCommandExecuted
  {
  }

  /** When the pre-exchange's first answer is a complete Read Unique Identifier
      response, the requested command carries the address it taught, and the
      session remembers that the zero command ran. */
  lemma {:induction false} PreExchangeTeachesAddress(s: Session, command: byte, data: seq<byte>, outcomes: seq<Attempt>)
    requires NeedsZeroCommand(s, command)
    requires |outcomes| >= OutcomesNeeded(s, command)
    requires outcomes[0].Completed? && outcomes[0].frame.commandNumber == 0
    requires |outcomes[0].frame.data| >= FullIdentifierLength
    requires Accepted(outcomes[0])
    ensures var address := Some(LongAddress(outcomes[0].frame.data));
      var r := Send(s, command, data, outcomes);
      r.attempted == [ZeroRequest(s.config.preambleLength)]
        + Repeat(CommandRequest(s.config.preambleLength, address, command, data), r.attempts)
    ensures Send(s, command, data, outcomes).session.zeroCommandExecuted
  {
  }

  /** One step of a session's life: a top-level call with the outcomes of its
      attempts, or an assignment through the public setters. The setters of
      `PreambleLength`, `MaxNumberOfRetries` and `AutomaticZeroCommand` are
      plain properties, so any sequence of them amounts to replacing `Config`;
      none of them touches the cached address, the flag or the counter. */
  datatype Invocation =
    | SendCall(command: byte, data: seq<byte>, outcomes: seq<Attempt>)
    | SendZeroCall(outcomes: seq<Attempt>)
    | Configure(config: Config)

  /** The outcomes an invocation may consume under `config`: a `Send` may need a
      pre-exchange as well as its own exchange, `SendZeroCommand` only its own. */
  function OutcomesFor(config: Config, call: Invocation): nat {
    match call
    case SendCall(_, _, _) => 2 * MaxAttempts(config.maxRetries)
    case SendZeroCall(_) => MaxAttempts(config.maxRetries)
    case Configure(_) => 0
  }

  /** Every call of a run comes with enough outcomes for the configuration in
      force when it is made. */
  predicate Supplied(config: Config, calls: seq<Invocation>)
    decreases |calls|
  {
    if |calls| == 0 then true
    else if calls[0].Configure? then Supplied(calls[0].config, calls[1..])
    else |calls[0].outcomes| >= OutcomesFor(config, calls[0]) && Supplied(config, calls[1..])
  }

  /** Performs one invocation. */
  function Invoke(s: Session, call: Invocation): (r: Call)
    requires !call.Configure? ==> |call.outcomes| >= OutcomesFor(s.config, call)
    ensures r.session.config == (if call.Configure? then call.config else s.config)
    ensures s.zeroCommandExecuted ==> r.session.zeroCommandExecuted
    ensures call.Configure? ==>
      && r.session.address == s.address
      && r.session.zeroCommandExecuted == s.zeroCommandExecuted
      && r.session.retries == s.retries
      && r.attempted == [] && r.result == None
    ensures !call.Configure? ==> |r.attempted| >= 1
    ensures call.SendZeroCall? ==> forall n :: 0 <= n < |r.attempted| ==> r.attempted[n].ZeroRequest?
    ensures call.SendCall? ==> (r.attempted[0].ZeroRequest? <==> NeedsZeroCommand(s, call.command))
  {
    match call
    case SendCall(command, data, outcomes) => Send(s, command, data, outcomes)
    case SendZeroCall(outcomes) => SendZeroCommand(s, outcomes)
    case Configure(config) => Call(s.(config := config), None, [], 0)
  }

  /** A session's successive invocations, each starting from the state the
      previous one left. A call runs under the configuration last assigned. */
  function RunCalls(s: Session, calls: seq<Invocation>): (r: seq<Call>)
    requires Supplied(s.config, calls)
    ensures |r| == |calls|
    ensures forall i :: 0 <= i < |r| && calls[i].Configure? ==> r[i].session.config == calls[i].config
    ensures forall i :: 0 < i < |r| && !calls[i].Configure? ==> r[i].session.config == r[i - 1].session.config
    ensures |r| > 0 && !calls[0].Configure? ==> r[0].session.config == s.config
    decreases |calls|
  {
    if |calls| == 0 then []
    else
      var first := Invoke(s, calls[0]);
      var later := RunCalls(first.session, calls[1..]);
      assert forall i :: 0 < i < |calls| ==> calls[1..][i - 1] == calls[i];
      [first] + later
  }

  /** In a run that starts with the zero-command flag set, every step keeps it
      set, whatever the setters assign, and no `Send` call attempts the
      automatic zero command. */
  lemma {:induction false} RunAfterZeroCommand(s: Session, calls: seq<Invocation>)
    requires Supplied(s.config, calls)
    requires s.zeroCommandExecuted
    ensures forall k :: 0 <= k < |calls| ==> RunCalls(s, calls)[k].session.zeroCommandExecuted
    ensures forall k, n :: 0 <= k < |calls| && calls[k].SendCall? && 0 <= n < |RunCalls(s, calls)[k].attempted| ==>
      !RunCalls(s, calls)[k].attempted[n].ZeroRequest?
    decreases |calls|
  {
    if |calls| > 0 {
      var first := Invoke(s, calls[0]);
      if calls[0].SendCall? {
        NoZeroRequestOnceExecuted(s, calls[0].command, calls[0].data, calls[0].outcomes);
      }
      RunAfterZeroCommand(first.session, calls[1..]);
      var later := RunCalls(first.session, calls[1..]);
      assert RunCalls(s, calls) == [first] + later;
      assert forall k :: 0 < k < |calls| ==> calls[1..][k - 1] == calls[k];
    }
  }

  /** Once any step of a run leaves the zero-command flag set, every later step
      keeps it set, setter assignments included, and no later `Send` attempts
      the automatic zero command. */
  lemma {:induction false} ZeroCommandNeverRepeated(s: Session, calls: seq<Invocation>, i: nat, j: nat)
    requires Supplied(s.config, calls)
    requires i < j < |calls|
    requires RunCalls(s, calls)[i].session.zeroCommandExecuted
    ensures RunCalls(s, calls)[j].session.zeroCommandExecuted
    ensures calls[j].SendCall? ==>
      forall n :: 0 <= n < |RunCalls(s, calls)[j].attempted| ==> !RunCalls(s, calls)[j].attempted[n].ZeroRequest?
    decreases i
  {
    var first := Invoke(s, calls[0]);
    assert Supplied(first.session.config, calls[1..]);
    var later := RunCalls(first.session, calls[1..]);
    assert RunCalls(s, calls) == [first] + later;
    assert RunCalls(s, calls)[j] == later[j - 1];
    assert calls[1..][j - 1] == calls[j];
    if i == 0 {
      RunAfterZeroCommand(first.session, calls[1..]);
    } else {
      assert RunCalls(s, calls)[i] == later[i - 1];
      ZeroCommandNeverRepeated(first.session, calls[1..], i - 1, j - 1);
    }
  }
}
