/** The backoff schedule retries and renewal failures share, in seconds. */
module Backoff {
  import opened Numbers

  const BACKOFF_START: nat := 1
  const BACKOFF_MAX: nat := 60

  /** The wait after the one of length d. */
  function NextBackoff(d: nat): nat {
    Min(d * 2, BACKOFF_MAX)
  }

  /** The wait after failure n, counting from 0. */
  function BackoffAt(n: nat): nat {
    if n == 0 then BACKOFF_START else NextBackoff(BackoffAt(n - 1))
  }

  function Pow2(n: nat): nat {
    if n == 0 then 1 else 2 * Pow2(n - 1)
  }

  /** Waits double from one second and stay at a minute from the seventh on. */
  lemma {:induction false} BackoffClosedForm(n: nat)
    ensures BackoffAt(n) == if n < 6 then Pow2(n) else BACKOFF_MAX
    ensures BACKOFF_START <= BackoffAt(n) <= BACKOFF_MAX
  {
    if n > 0 {
      BackoffClosedForm(n - 1);
      if n <= 6 {
        Pow2Small(n);
      }
    }
  }

  lemma Pow2Small(n: nat)
    requires n <= 6
    ensures Pow2(0) == 1 && Pow2(1) == 2 && Pow2(2) == 4 && Pow2(3) == 8 && Pow2(4) == 16 && Pow2(5) == 32 && Pow2(6) == 64
  {
  }

  function Sum(waits: seq<nat>): nat {
    if waits == [] then 0 else Sum(waits[..|waits| - 1]) + waits[|waits| - 1]
  }

  predicate Scheduled(waits: seq<nat>) {
    forall i :: 0 <= i < |waits| ==> waits[i] == BackoffAt(i)
  }

  /** Retrying n times takes 2^n - 1 seconds of waiting up to n = 6, and a minute more each time
      after that. */
  lemma {:induction false} TotalWait(waits: seq<nat>)
    requires Scheduled(waits)
    ensures Sum(waits) == if |waits| <= 6 then Pow2(|waits|) - 1 else 63 + 60 * (|waits| - 6)
    decreases |waits|
  {
    if waits != [] {
      TotalWait(waits[..|waits| - 1]);
      BackoffClosedForm(|waits| - 1);
      Pow2Small(6);
    }
  }

  // ----- withRetry -----

  /** How one attempt ended, and whether the caller had given up by then or during the wait. */
  datatype Attempt = Success | Failure(retryable: bool, canceled: bool, canceledInWait: bool)

  datatype RetryResult = Succeeded | GaveUp(last: Attempt) | Canceled | StillRetrying

  /** Another attempt is due after a wait: this one failed in a way that is worth it, or without
      fail-fast in any way, and the caller has not given up. */
  predicate TryAgain(a: Attempt, failFast: bool) {
    a.Failure? && !a.canceled && (failFast ==> a.retryable)
  }

  /** withRetry over the attempts an environment answers, with the waits between them. It stops at
      the first attempt that ends it, without waiting for another. */
  method WithRetry(attempts: seq<Attempt>, failFast: bool) returns (r: RetryResult, made: nat, waits: seq<nat>)
    ensures made <= |attempts| && Scheduled(waits)
    ensures forall i :: 0 <= i < made - 1 ==> TryAgain(attempts[i], failFast) && !attempts[i].canceledInWait
    ensures match r
            case StillRetrying => made == |attempts| == |waits| && (forall a :: a in attempts ==> TryAgain(a, failFast) && !a.canceledInWait)
            case Canceled => made > 0 && |waits| == made && TryAgain(attempts[made - 1], failFast) && attempts[made - 1].canceledInWait
            case Succeeded => made > 0 && |waits| == made - 1 && attempts[made - 1].Success?
            case GaveUp(last) =>
              && made > 0 && |waits| == made - 1 && last == attempts[made - 1]
              && last.Failure? && (last.canceled || (failFast && !last.retryable))
  {
    var backoff := BACKOFF_START;
    waits := [];
    made := 0;
    while made < |attempts|
      invariant made <= |attempts| && |waits| == made && Scheduled(waits) && backoff == BackoffAt(made)
      invariant forall i :: 0 <= i < made ==> TryAgain(attempts[i], failFast) && !attempts[i].canceledInWait
    {
      var a := attempts[made];
      made := made + 1;
      if a.Success? {
        return Succeeded, made, waits;
      }
      if failFast && !a.retryable {
        return GaveUp(a), made, waits;
      }
      if a.canceled {
        return GaveUp(a), made, waits;
      }
      waits := waits + [backoff];
      if a.canceledInWait {
        return Canceled, made, waits;
      }
      backoff := NextBackoff(backoff);
    }
    return StillRetrying, made, waits;
  }
}
