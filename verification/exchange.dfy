/**
 One exchange with retries: transmit the request, wait, and decide. A timed
 out or throwing attempt is retried while the counter allows and otherwise
 yields null. A received frame with bit 7 of its first status byte clear is
 returned at once. A received frame with bit 7 set is retried while the
 counter allows and otherwise returned as it is. Every attempt resends the
 same request, so the model only needs the outcome of each attempt.
 */
module Exchange {
  import opened HartTypes
  import opened CommunicationStatus
  import opened RetryPolicy
  import opened AddressLearning

  /** The most attempts one exchange can make when it starts from `budget`. */
  function MaxAttempts(budget: int32): (n: nat)
    ensures n >= 1
    ensures budget >= 0 ==> n == budget as int + 1
    ensures budget <= 0 ==> n == 1
  {
    if budget > 0 then budget as nat + 1 else 1
  }

  /** The frame an attempt hands to the waiting exchange, if any. */
  function Received(a: Attempt): Option<CommandResult> {
    if a.Completed? && Delivers(a.frame) then Some(a.frame) else None
  }

  /** An attempt that ends the exchange with success: a frame arrived and its
      first status byte is a command-specific status. */
  predicate Accepted(a: Attempt) {
    Received(a).Some? && !HasCommunicationError(Received(a).value.responseCode.firstByte)
  }

  /** One wait: a completed frame first passes through the completion handler. */
  function Await(s: Session, a: Attempt): (r: (Session, Option<CommandResult>))
    ensures r.0.config == s.config && r.0.retries == s.retries
    ensures s.zeroCommandExecuted ==> r.0.zeroCommandExecuted
    ensures r.1 == Received(a)
  {
    if a.Completed? then
      var c := CommandComplete(s, a.frame);
      (c.session, if c.delivered then Some(a.frame) else None)
    else (s, None)
  }

  /** The session after the completion handler has seen every frame of `outcomes`, in order. */
  function Observe(s: Session, outcomes: seq<Attempt>): (r: Session)
    ensures r.config == s.config && r.retries == s.retries
    ensures s.zeroCommandExecuted ==> r.zeroCommandExecuted
    decreases |outcomes|
  {
    if |outcomes| == 0 then s else Observe(Await(s, outcomes[0]).0, outcomes[1..])
  }

  /** The retry counter is carried through the completion handler untouched. */
  lemma {:induction false} ObserveIgnoresRetries(s: Session, outcomes: seq<Attempt>, budget: int32)
    ensures Observe(s.(retries := budget), outcomes) == Observe(s, outcomes).(retries := budget)
    decreases |outcomes|
  {
    if |outcomes| > 0 {
      var a := outcomes[0];
      if a.Completed? {
        assert Await(s.(retries := budget), a).0 == Await(s, a).0.(retries := budget);
      }
      ObserveIgnoresRetries(Await(s, a).0, outcomes[1..], budget);
    }
  }

  /** What an exchange returns: the session afterwards, the result (None is
      the source's null) and the number of attempts made. */
  datatype ExchangeResult = ExchangeResult(session: Session, result: Option<CommandResult>, attempts: nat)

  /** The retry recursion of an exchange, on the outcomes of successive attempts:
      at least one attempt, never more than the counter allows, and the result
      is whatever the last attempt delivered. */
  function Execute(s: Session, outcomes: seq<Attempt>): (r: ExchangeResult)
    requires |outcomes| >= MaxAttempts(s.retries)
    ensures 1 <= r.attempts <= MaxAttempts(s.retries)
    ensures r.result == Received(outcomes[r.attempts - 1])
    ensures r.session.config == s.config
    ensures s.zeroCommandExecuted ==> r.session.zeroCommandExecuted
    decreases |outcomes|
  {
    var (next, received) := Await(s, outcomes[0]);
    if received.Some? && !HasCommunicationError(received.value.responseCode.firstByte) then
      ExchangeResult(next, received, 1)
    else
      var (retry, rest) := ShouldRetry(next.retries);
      if retry then
        var later := Execute(next.(retries := rest), outcomes[1..]);
        later.(attempts := later.attempts + 1)
      else
        ExchangeResult(next.(retries := rest), received, 1)
  }

  /** The exchange stops at the first success: no attempt before the last one
      succeeded, and stopping short of the maximum means the last one did. */
  lemma {:induction false} ExecuteStopsAtFirstSuccess(s: Session, outcomes: seq<Attempt>)
    requires |outcomes| >= MaxAttempts(s.retries)
    ensures forall i :: 0 <= i < Execute(s, outcomes).attempts - 1 ==> !Accepted(outcomes[i])
    ensures Execute(s, outcomes).attempts < MaxAttempts(s.retries) ==> Accepted(outcomes[Execute(s, outcomes).attempts - 1])
    decreases |outcomes|
  {
    var (next, received) := Await(s, outcomes[0]);
    if !Accepted(outcomes[0]) && s.retries > 0 {
      var rest := next.(retries := s.retries - 1);
      ExecuteStopsAtFirstSuccess(rest, outcomes[1..]);
      var later := Execute(rest, outcomes[1..]);
      assert Execute(s, outcomes).attempts == later.attempts + 1;
      forall i | 1 <= i < later.attempts
        ensures !Accepted(outcomes[i])
      {
        assert outcomes[1..][i - 1] == outcomes[i];
      }
    }
  }

  /** The session an exchange leaves is the one the completion handler leaves
      after exactly the attempts made; only the retry counter differs. */
  lemma {:induction false} ExecuteObservesAttempts(s: Session, outcomes: seq<Attempt>)
    requires |outcomes| >= MaxAttempts(s.retries)
    ensures var r := Execute(s, outcomes);
      r.session == Observe(s, outcomes[..r.attempts]).(retries := r.session.retries)
    decreases |outcomes|
  {
    var (next, received) := Await(s, outcomes[0]);
    var r := Execute(s, outcomes);
    if !Accepted(outcomes[0]) && s.retries > 0 {
      var rest := next.(retries := s.retries - 1);
      ExecuteObservesAttempts(rest, outcomes[1..]);
      var later := Execute(rest, outcomes[1..]);
      assert outcomes[..later.attempts + 1][1..] == outcomes[1..][..later.attempts];
      ObserveIgnoresRetries(next, outcomes[1..][..later.attempts], s.retries - 1);
    } else {
      assert outcomes[..1][1..] == [];
    }
  }

  /** The same exchange as a bounded loop instead of self-recursion. */
  method ExecuteLoop(s: Session, outcomes: seq<Attempt>)
    returns (session: Session, result: Option<CommandResult>, attempts: nat)
    requires |outcomes| >= MaxAttempts(s.retries)
    ensures ExchangeResult(session, result, attempts) == Execute(s, outcomes)
  {
    var current := s;
    var i := 0;
    while true
      invariant 0 <= i && |outcomes| - i >= MaxAttempts(current.retries)
      invariant Execute(s, outcomes) == Execute(current, outcomes[i..]).(attempts := Execute(current, outcomes[i..]).attempts + i)
      decreases |outcomes| - i
    {
      var (next, received) := Await(current, outcomes[i]);
      if received.Some? && !HasCommunicationError(received.value.responseCode.firstByte) {
        return next, received, i + 1;
      }
      var (retry, rest) := ShouldRetry(next.retries);
      if !retry {
        return next.(retries := rest), received, i + 1;
      }
      assert outcomes[i..][1..] == outcomes[i + 1..];
      current := next.(retries := rest);
      i := i + 1;
    }
  }

  /** From a counter of zero or more, timeouts and exceptions on every attempt
      mean exactly budget + 1 attempts, then null. */
  lemma {:induction false} ExhaustedWithoutResponse(s: Session, outcomes: seq<Attempt>)
    requires s.retries >= 0
    requires |outcomes| >= MaxAttempts(s.retries)
    requires forall i :: 0 <= i < |outcomes| ==> !outcomes[i].Completed?
    ensures Execute(s, outcomes).attempts == s.retries as int + 1
    ensures Execute(s, outcomes).result == None
  {
    ExecuteStopsAtFirstSuccess(s, outcomes);
  }

  /** A frame with a command-specific status on the first attempt is returned
      at once, with no further attempts. */
  lemma {:induction false} AcceptedAtOnce(s: Session, outcomes: seq<Attempt>)
    requires |outcomes| >= MaxAttempts(s.retries)
    requires Accepted(outcomes[0])
    ensures Execute(s, outcomes).attempts == 1
    ensures Execute(s, outcomes).result == Some(outcomes[0].frame)
  {
  }

  /** From a counter of zero or more, a device that keeps answering with a
      communication error is asked budget + 1 times and its last faulty answer
      is returned, never null. */
  lemma {:induction false} PersistentFaultReturned(s: Session, outcomes: seq<Attempt>)
    requires s.retries >= 0
    requires |outcomes| >= MaxAttempts(s.retries)
    requires forall i :: 0 <= i < |outcomes| ==>
      Received(outcomes[i]).Some? && HasCommunicationError(outcomes[i].frame.responseCode.firstByte)
    ensures Execute(s, outcomes).attempts == s.retries as int + 1
    ensures Execute(s, outcomes).result == Some(outcomes[s.retries].frame)
  {
    ExecuteStopsAtFirstSuccess(s, outcomes);
  }

  /** Null comes back only when the last attempt delivered nothing, and then
      only after the counter ran out. */
  lemma {:induction false} NullOnlyWhenExhausted(s: Session, outcomes: seq<Attempt>)
    requires |outcomes| >= MaxAttempts(s.retries)
    ensures Execute(s, outcomes).result == None <==>
      (Execute(s, outcomes).attempts == MaxAttempts(s.retries)
       && Received(outcomes[MaxAttempts(s.retries) - 1]) == None)
  {
    ExecuteStopsAtFirstSuccess(s, outcomes);
  }
}
