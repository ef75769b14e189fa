/**
  The two retry loops of the scenario runner, on an explicit millisecond clock:
  polling an assertion, and reconnecting a client.  Sleeps take exactly as long as
  asked; how long an attempt takes and how it ends is up to the environment.
 */
module Retries {
  // ----- Polling an assertion -----

  datatype Verdict = Passed | FailedAssertion | OtherError
  datatype Poll = Poll(verdict: Verdict, duration: nat)
  datatype WaitResult = InvalidArguments | Returned(attempts: nat) | Threw(attempts: nat) | TimedOut(attempts: nat)

  /** Time on the clock when attempt n has ended. */
  function Elapsed(polls: nat -> Poll, interval: nat, n: nat): nat {
    if n == 0 then 0
    else Elapsed(polls, interval, n - 1) + (if n > 1 then interval else 0) + polls(n).duration
  }

  /** Attempt k is followed by another one. */
  predicate Retries(polls: nat -> Poll, timeout: nat, interval: nat, k: nat) {
    polls(k).verdict == FailedAssertion && Elapsed(polls, interval, k) < timeout
  }

  predicate Reaches(polls: nat -> Poll, timeout: nat, interval: nat, n: nat) {
    n >= 1 && forall k: nat :: 1 <= k < n ==> Retries(polls, timeout, interval, k)
  }

  /** The attempt the loop ends with is determined by the environment. */
  predicate EndsAt(polls: nat -> Poll, timeout: nat, interval: nat, n: nat) {
    Reaches(polls, timeout, interval, n) && !Retries(polls, timeout, interval, n)
  }

  lemma EndIsUnique(polls: nat -> Poll, timeout: nat, interval: nat, m: nat, n: nat)
    requires EndsAt(polls, timeout, interval, m) && EndsAt(polls, timeout, interval, n)
    ensures m == n
  {
  }

  lemma {:induction false} ElapsedGrows(polls: nat -> Poll, interval: nat, n: nat)
    requires n >= 1
    ensures Elapsed(polls, interval, n) >= (n - 1) * interval
  {
    if n > 1 { ElapsedGrows(polls, interval, n - 1); }
  }

  function CeilDiv(a: nat, b: nat): nat
    requires b > 0
  {
    (a + b - 1) / b
  }

  lemma AttemptBound(polls: nat -> Poll, timeout: nat, interval: nat, n: nat)
    requires interval > 0 && Reaches(polls, timeout, interval, n)
    ensures n <= CeilDiv(timeout, interval) + 1
  {
    if n >= 2 {
      assert Retries(polls, timeout, interval, n - 1);
      ElapsedGrows(polls, interval, n - 1);
      var q := CeilDiv(timeout, interval);
      assert timeout + interval - 1 == q * interval + (timeout + interval - 1) % interval;
      assert (n - 2) * interval < timeout <= q * interval;
      if n - 2 >= q { Scale(q, n - 2, interval); }
    }
  }

  lemma Scale(a: nat, b: nat, d: nat)
    requires a <= b
    ensures a * d <= b * d
  {
    assert (b - a) * d >= 0;
  }

  /** Returns n exactly when the first n - 1 attempts failed their assertion in time
      and the n-th passed, after at most ceil(timeout / interval) + 1 attempts. */
  method WaitUntilAssertion(polls: nat -> Poll, timeoutMs: int, intervalMs: int) returns (r: WaitResult)
    ensures r.InvalidArguments? <==> timeoutMs < 0 || intervalMs <= 0
    ensures timeoutMs >= 0 && intervalMs > 0 ==>
      && EndsAt(polls, timeoutMs, intervalMs, r.attempts) && r.attempts <= CeilDiv(timeoutMs, intervalMs) + 1
      && (r.Returned? <==> polls(r.attempts).verdict == Passed)
      && (r.Threw? <==> polls(r.attempts).verdict == OtherError)
      && forall n :: r == Returned(n) <==> Reaches(polls, timeoutMs, intervalMs, n) && polls(n).verdict == Passed
  {
    if timeoutMs < 0 { return InvalidArguments; }
    if intervalMs <= 0 { return InvalidArguments; }
    var clock: nat := 0;
    var attempts: nat := 0;
    while true
      invariant forall k: nat :: 1 <= k <= attempts ==> Retries(polls, timeoutMs, intervalMs, k)
      invariant clock == Elapsed(polls, intervalMs, attempts) + if attempts > 0 then intervalMs else 0
      invariant attempts > 0 ==> clock < timeoutMs + intervalMs
      decreases timeoutMs + intervalMs - clock
    {
      attempts := attempts + 1;
      var poll := polls(attempts);
      clock := clock + poll.duration;
      AttemptBound(polls, timeoutMs, intervalMs, attempts);
      if poll.verdict == Passed {
        OnlyThisEnd(polls, timeoutMs, intervalMs, attempts);
        return Returned(attempts);
      }
      if poll.verdict == OtherError {
        OnlyThisEnd(polls, timeoutMs, intervalMs, attempts);
        return Threw(attempts);
      }
      if clock >= timeoutMs {
        OnlyThisEnd(polls, timeoutMs, intervalMs, attempts);
        return TimedOut(attempts);
      }
      clock := clock + intervalMs;
    }
  }

  lemma OnlyThisEnd(polls: nat -> Poll, timeout: nat, interval: nat, m: nat)
    requires EndsAt(polls, timeout, interval, m)
    ensures forall n :: Reaches(polls, timeout, interval, n) && polls(n).verdict == Passed ==> n == m
  {
    forall n | Reaches(polls, timeout, interval, n) && polls(n).verdict == Passed ensures n == m {
      EndIsUnique(polls, timeout, interval, m, n);
    }
  }

  // ----- Reconnecting a client -----

  /** Ambiguous: rejected before spawning, with a null reason. */
  datatype Connection = Connected | Ambiguous | Refused
  datatype Try = Try(result: Connection, duration: nat)

  /** One attempt as it happened: when it started, what it was granted. */
  datatype Record = Record(start: nat, budget: int, outcome: Try)
  datatype RetryResult = Succeeded(attempt: nat) | Rethrown | Exhausted

  function Max(a: int, b: int): int { if a < b then b else a }

  function End(r: Record): nat { r.start + r.outcome.duration }

  /** Consecutive attempts: a retry happens only after an ambiguous rejection, with
      more than the delay left, and starts after sleeping the delay if it is positive. */
  predicate Follows(earlier: Record, later: Record, timeout: int, delay: int) {
    && earlier.outcome.result == Ambiguous
    && timeout - End(earlier) > delay
    && later.start == End(earlier) + Max(0, delay)
  }

  predicate Chain(log: seq<Record>, operation: (int, nat) -> Try, timeout: int, delay: int) {
    && (log != [] ==> log[0].start == 0)
    && (forall i :: 0 <= i < |log| ==>
          log[i].budget == Max(1, timeout - log[i].start) && log[i].outcome == operation(log[i].budget, i + 1))
    && (forall i :: 0 < i < |log| ==> Follows(log[i - 1], log[i], timeout, delay))
  }

  lemma ChainNext(log: seq<Record>, next: Record, operation: (int, nat) -> Try, timeout: int, delay: int)
    requires Chain(log, operation, timeout, delay)
    requires next.budget == Max(1, timeout - next.start) && next.outcome == operation(next.budget, |log| + 1)
    requires if log == [] then next.start == 0 else Follows(log[|log| - 1], next, timeout, delay)
    ensures Chain(log + [next], operation, timeout, delay)
  {
  }

  predicate Obeys(operation: (int, nat) -> Try, budget: int, attempt: nat) {
    operation(budget, attempt).duration <= Max(1, budget)
  }

  /** A whole run of the retry loop, from its own parameters: nothing without attempts,
      and an ambiguous rejection is final only on the last attempt or when time is short. */
  predicate IsRun(log: seq<Record>, operation: (int, nat) -> Try, timeout: int, maxAttempts: int, delay: int) {
    && Chain(log, operation, timeout, delay)
    && |log| <= Max(0, maxAttempts) && (log == [] <==> maxAttempts < 1)
    && (log != [] && log[|log| - 1].outcome.result == Ambiguous ==>
          |log| == maxAttempts || timeout - End(log[|log| - 1]) <= delay)
  }

  /** The operation alone decides how the run goes. */
  lemma RunIsDetermined(log: seq<Record>, other: seq<Record>, operation: (int, nat) -> Try, timeout: int,
      maxAttempts: int, delay: int)
    requires IsRun(log, operation, timeout, maxAttempts, delay) && IsRun(other, operation, timeout, maxAttempts, delay)
    ensures log == other
  {
    hide IsRun;
    RunIsShorter(log, other, operation, timeout, maxAttempts, delay);
    RunIsShorter(other, log, operation, timeout, maxAttempts, delay);
    SameAttempts(log, other, operation, timeout, maxAttempts, delay, |log|);
  }

  lemma {:induction false} SameAttempts(log: seq<Record>, other: seq<Record>, operation: (int, nat) -> Try,
      timeout: int, maxAttempts: int, delay: int, n: nat)
    requires IsRun(log, operation, timeout, maxAttempts, delay) && IsRun(other, operation, timeout, maxAttempts, delay)
    requires n <= |log| && n <= |other|
    ensures log[..n] == other[..n] && (n > 0 ==> log[n - 1] == other[n - 1])
  {
    if n > 0 {
      SameAttempts(log, other, operation, timeout, maxAttempts, delay, n - 1);
      assert n > 1 ==> Follows(log[n - 2], log[n - 1], timeout, delay);
      assert n > 1 ==> Follows(other[n - 2], other[n - 1], timeout, delay);
      assert log[n - 1] == other[n - 1];
    }
  }

  lemma RunIsShorter(log: seq<Record>, other: seq<Record>, operation: (int, nat) -> Try, timeout: int,
      maxAttempts: int, delay: int)
    requires IsRun(log, operation, timeout, maxAttempts, delay) && IsRun(other, operation, timeout, maxAttempts, delay)
    ensures |log| <= |other|
  {
    if |log| > |other| && other != [] {
      assert Follows(log[|other| - 1], log[|other|], timeout, delay);
      SameAttempts(log, other, operation, timeout, maxAttempts, delay, |other|);
    }
  }

  /** Every attempt kept to its budget. */
  predicate Obedient(log: seq<Record>, operation: (int, nat) -> Try) {
    forall i :: 0 <= i < |log| ==> Obeys(operation, log[i].budget, i + 1)
  }

  predicate KeepsDeadline(log: seq<Record>, timeout: int) {
    forall i :: 0 <= i < |log| ==> End(log[i]) <= timeout
  }

  /** If attempts keep to their budgets, and the delay is not negative or never used, each
      is granted exactly the time left, some of it at least, and all of it ends by the
      deadline, or after one millisecond where there was no time at all. */
  lemma ChainKeepsDeadline(log: seq<Record>, operation: (int, nat) -> Try, timeout: int, delay: int)
    requires Chain(log, operation, timeout, delay) && (delay >= 0 || |log| <= 1)
    requires Obedient(log, operation)
    ensures forall i :: 0 <= i < |log| ==> log[i].budget >= 1 && End(log[i]) <= Max(1, timeout)
    ensures timeout > 0 ==> forall i :: 0 <= i < |log| ==> log[i].budget == timeout - log[i].start
  {
    forall i | 0 <= i < |log|
      ensures log[i].budget >= 1 && End(log[i]) <= Max(1, timeout)
      ensures timeout > 0 ==> log[i].budget == timeout - log[i].start
    {
      assert Obeys(operation, log[i].budget, i + 1);
      if i > 0 { assert Follows(log[i - 1], log[i], timeout, delay); }
    }
  }

  /** Without any time the first attempt is still granted a millisecond, and takes it. */
  lemma NoTimeMissesDeadline(timeout: int, maxAttempts: int, delay: int)
    returns (log: seq<Record>, operation: (int, nat) -> Try)
    requires timeout <= 0 && maxAttempts >= 1
    ensures IsRun(log, operation, timeout, maxAttempts, delay) && Obedient(log, operation)
    ensures |log| == 1 && log[0].outcome.result == Connected && End(log[0]) == 1 > timeout
  {
    operation := (budget: int, attempt: nat) => Try(Connected, 1);
    log := [Record(0, 1, Try(Connected, 1))];
  }

  /** With a negative delay a retry follows although no time is left, is granted a
      millisecond, and takes it. */
  lemma NegativeDelayMissesDeadline(timeout: nat, maxAttempts: int, delay: int)
    returns (log: seq<Record>, operation: (int, nat) -> Try)
    requires timeout > 0 && maxAttempts >= 2 && delay < 0
    ensures IsRun(log, operation, timeout, maxAttempts, delay) && Obedient(log, operation)
    ensures |log| == 2 && log[1].outcome.result == Connected && End(log[1]) == timeout + 1
  {
    operation := (budget: int, attempt: nat) =>
      Try(if attempt == 1 then Ambiguous else Connected, if budget > 0 then budget else 0);
    var first := Record(0, timeout, operation(timeout, 1));
    var second := Record(timeout, 1, operation(1, 2));
    log := [first, second];
    assert log[0] == first && log[1] == second;
    assert Chain(log, operation, timeout, delay);
  }

  /** For all parameters: runs whose attempts keep to their budgets are certain to end by
      the deadline if and only if there is no attempt at all, or there is some time and
      the delay is not negative or never used. */
  lemma DeadlineKeptIff(timeout: int, maxAttempts: int, delay: int)
    ensures (forall log: seq<Record>, operation: (int, nat) -> Try ::
               IsRun(log, operation, timeout, maxAttempts, delay) && Obedient(log, operation) ==>
                 KeepsDeadline(log, timeout))
       <==> maxAttempts < 1 || (timeout >= 1 && (delay >= 0 || maxAttempts <= 1))
  {
    if maxAttempts < 1 || (timeout >= 1 && (delay >= 0 || maxAttempts <= 1)) {
      forall log: seq<Record>, operation: (int, nat) -> Try
        | IsRun(log, operation, timeout, maxAttempts, delay) && Obedient(log, operation)
        ensures KeepsDeadline(log, timeout)
      {
        ChainKeepsDeadline(log, operation, timeout, delay);
      }
    } else if timeout < 1 {
      var log, operation := NoTimeMissesDeadline(timeout, maxAttempts, delay);
      assert !KeepsDeadline(log, timeout);
    } else {
      var log, operation := NegativeDelayMissesDeadline(timeout, maxAttempts, delay);
      assert !KeepsDeadline(log, timeout);
    }
  }

  /** Every attempt is granted the time left; a retry needs an ambiguous rejection and
      more than the delay left, and an ambiguous rejection is final only on the last
      attempt or when time is short. */
  method RetryClientConnection(operation: (int, nat) -> Try, timeoutMs: int, maxAttempts: int, retryDelayMs: int)
    returns (r: RetryResult, log: seq<Record>)
    ensures IsRun(log, operation, timeoutMs, maxAttempts, retryDelayMs)
    ensures r.Exhausted? <==> log == []
    ensures r.Succeeded? <==> log != [] && log[|log| - 1].outcome.result == Connected
    ensures r.Succeeded? ==> r.attempt == |log|
  {
    log := [];
    var clock: nat := 0;
    var attempt: nat := 1;
    assert Chain(log, operation, timeoutMs, retryDelayMs);
    hide Chain;
    while attempt <= maxAttempts
      invariant |log| == attempt - 1
      invariant attempt <= maxAttempts || maxAttempts < 1
      invariant maxAttempts < 1 ==> log == []
      invariant Chain(log, operation, timeoutMs, retryDelayMs)
      invariant log == [] ==> clock == 0
      invariant log != [] ==> clock == End(log[|log| - 1]) + Max(0, retryDelayMs)
      invariant log != [] ==> timeoutMs - End(log[|log| - 1]) > retryDelayMs
      invariant log != [] ==> log[|log| - 1].outcome.result == Ambiguous
      decreases maxAttempts - attempt
    {
      var remainingMs := Max(1, timeoutMs - clock);
      var outcome := operation(remainingMs, attempt);
      ChainNext(log, Record(clock, remainingMs, outcome), operation, timeoutMs, retryDelayMs);
      log := log + [Record(clock, remainingMs, outcome)];
      clock := clock + outcome.duration;
      if outcome.result == Connected { return Succeeded(attempt), log; }
      if outcome.result != Ambiguous || attempt == maxAttempts { return Rethrown, log; }
      var remainingAfterFailure := timeoutMs - clock;
      if remainingAfterFailure <= retryDelayMs { return Rethrown, log; }
      if retryDelayMs > 0 { clock := clock + retryDelayMs; }
      attempt := attempt + 1;
    }
    return Exhausted, log;
  }
}
