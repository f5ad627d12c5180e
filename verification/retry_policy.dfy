/**
 The retry counter. `ShouldRetry` always decrements the counter (as a C#
 `int`, which wraps in an unchecked context) and answers whether the value
 before the decrement was positive.
 */
module RetryPolicy {
  import opened HartTypes

  /** Unchecked 32-bit decrement: the minimum value wraps to the maximum. */
  function Decrement(x: int32): (y: int32)
    ensures x > Int32Min ==> y as int == x as int - 1
    ensures x == Int32Min ==> y == Int32Max
  {
    if x == Int32Min then Int32Max else x - 1
  }

  /** One call of the post-decrement test: the answer and the counter left behind. */
  function ShouldRetry(budget: int32): (r: (bool, int32))
    ensures r.0 <==> budget > 0
    ensures r.1 == Decrement(budget)
  {
    (budget > 0, Decrement(budget))
  }

  /** The answers of `n` consecutive calls starting from `budget`. */
  function Answers(budget: int32, n: nat): (r: seq<bool>)
    ensures |r| == n
    decreases n
  {
    if n == 0 then []
    else
      var (retry, rest) := ShouldRetry(budget);
      [retry] + Answers(rest, n - 1)
  }

  /** From a budget b >= 0 the counter says yes exactly b times in a row, then no. */
  lemma {:induction false} AnswersFromBudget(budget: int32, n: nat)
    requires budget >= 0
    requires n <= budget as int + 1
    ensures forall i :: 0 <= i < n ==> Answers(budget, n)[i] == (i < budget as int)
  {
    if n > 0 {
      var rest := Decrement(budget);
      if budget > 0 {
        AnswersFromBudget(rest, n - 1);
      }
      var tail := Answers(rest, n - 1);
      assert Answers(budget, n) == [budget > 0] + tail;
      forall i | 0 <= i < n
        ensures Answers(budget, n)[i] == (i < budget as int)
      {
        if i > 0 {
          assert Answers(budget, n)[i] == tail[i - 1];
        }
      }
    }
  }

  /** The sequence form of the same fact: b yeses followed by one no. */
  lemma AnswersExhaustBudget(budget: int32)
    requires budget >= 0
    ensures Answers(budget, budget as nat + 1) == seq(budget as nat, _ => true) + [false]
  {
    AnswersFromBudget(budget, budget as nat + 1);
  }
}
