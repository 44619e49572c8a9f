/**
 * The retry policy wrapped around each product-page fetch: retry only on a
 * connection reset, at most Tries attempts, sleeping Delay, then Delay *
 * Backoff, ... between attempts. Sleeping is modelled by the list of delays.
 */
module Retry {

  const Tries: nat := 3
  const Delay: nat := 10
  const Backoff: nat := 10

  datatype Failure = ConnectionReset | OtherError

  /** What one call of the wrapped function does: return a value or raise. */
  datatype Attempt<T> = Returned(value: T) | Raised(failure: Failure)

  /** Attempts are numbered from 1; the network decides each one's outcome. */
  type Attempts<T> = nat -> Attempt<T>

  /** The only failure the policy retries. */
  predicate Retried<T>(a: Attempt<T>) {
    a.Raised? && a.failure == ConnectionReset
  }

  function Pow(b: nat, e: nat): nat {
    if e == 0 then 1 else b * Pow(b, e - 1)
  }

  /** The number of attempts made when attempt i is the next one. */
  function UsedFrom<T>(attempt: Attempts<T>, i: nat): (n: nat)
    requires 1 <= i <= Tries
    ensures i <= n <= Tries
    ensures forall j :: i <= j < n ==> Retried(attempt(j))
    ensures n < Tries ==> !Retried(attempt(n))
    decreases Tries - i
  {
    if i == Tries || !Retried(attempt(i)) then i else UsedFrom(attempt, i + 1)
  }

  /**
   * The number of attempts made: every attempt before the last raised a
   * connection reset, and the last either did something else or was the
   * Tries-th.
   */
  function AttemptsUsed<T>(attempt: Attempts<T>): (n: nat)
    ensures 1 <= n <= Tries
    ensures forall j :: 1 <= j < n ==> Retried(attempt(j))
    ensures n < Tries ==> !Retried(attempt(n))
  {
    UsedFrom(attempt, 1)
  }

  /** What the decorated call returns or raises. */
  function Settle<T>(attempt: Attempts<T>): Attempt<T> {
    attempt(AttemptsUsed(attempt))
  }

  /** The sleeps before attempts 2..n + 1. */
  function Sleeps(n: nat): (s: seq<nat>)
    ensures |s| == n
    ensures forall i :: 0 <= i < n ==> s[i] == Delay * Pow(Backoff, i)
  {
    if n == 0 then [] else Sleeps(n - 1) + [Delay * Pow(Backoff, n - 1)]
  }

  /**
   * The retry decorator applied to one call: `attempts` calls are made, the
   * outcome of the last is returned or raised, and `sleeps` are the waits
   * in between.
   */
  method Call<T>(attempt: Attempts<T>) returns (outcome: Attempt<T>, attempts: nat, sleeps: seq<nat>)
    ensures attempts == AttemptsUsed(attempt)
    ensures outcome == attempt(attempts) && outcome == Settle(attempt)
    ensures sleeps == Sleeps(attempts - 1)
  {
    var triesLeft := Tries;
    var delay := Delay;
    attempts, sleeps := 0, [];
    outcome := Raised(ConnectionReset);
    while true
      invariant attempts + triesLeft == Tries && 1 <= triesLeft
      invariant forall j :: 1 <= j <= attempts ==> Retried(attempt(j))
      invariant sleeps == Sleeps(attempts)
      invariant delay == Delay * Pow(Backoff, attempts)
      decreases triesLeft
    {
      attempts := attempts + 1;
      outcome := attempt(attempts);
      if !Retried(outcome) {
        break;
      }
      triesLeft := triesLeft - 1;
      if triesLeft == 0 {
        break;
      }
      sleeps := sleeps + [delay];
      delay := delay * Backoff;
    }
  }

  /** Two connection resets, then success: the third attempt's value is returned after waits of 10 and 100. */
  lemma SucceedsOnThirdAttempt<T>(attempt: Attempts<T>, v: T)
    requires Retried(attempt(1)) && Retried(attempt(2)) && attempt(3) == Returned(v)
    ensures AttemptsUsed(attempt) == 3 && Settle(attempt) == Returned(v)
    ensures Sleeps(AttemptsUsed(attempt) - 1) == [10, 100]
  {
  }

  /** A fetch that always resets is given up after exactly three attempts, and the reset reaches the caller. */
  lemma GivesUpAfterThreeResets<T>(attempt: Attempts<T>)
    requires forall j :: 1 <= j ==> Retried(attempt(j))
    ensures AttemptsUsed(attempt) == 3 && Settle(attempt) == Raised(ConnectionReset)
    ensures Sleeps(AttemptsUsed(attempt) - 1) == [10, 100]
  {
  }

  /** Any other failure is raised on the first attempt, without waiting. */
  lemma OtherFailuresAreNotRetried<T>(attempt: Attempts<T>)
    requires attempt(1) == Raised(OtherError)
    ensures AttemptsUsed(attempt) == 1 && Settle(attempt) == Raised(OtherError)
    ensures Sleeps(AttemptsUsed(attempt) - 1) == []
  {
  }
}
