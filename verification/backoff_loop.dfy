/** The governor's loop as the source writes it: a bounded `for` loop with
    early returns, proved to behave as the functional model. */
module BackoffLoop {
  import opened Exceptions
  import opened Backoff

  /** `exponential_backoff` as a loop over `attempt in range(maxRetries)`. */
  method RunExponentialBackoff<T>(foo: nat -> Outcome<T>, maxRetries: int := 2, retryDelay: nat := 1)
    returns (result: Outcome<T>, calls: nat, sleeps: seq<nat>, log: seq<LogEvent>)
    ensures Run(result, calls, sleeps, log) == ExponentialBackoff(foo, maxRetries, retryDelay)
  {
    ghost var whole := ExponentialBackoff(foo, maxRetries, retryDelay);
    calls, sleeps, log := 0, [], [];
    var attempt: nat := 0;
    while attempt < maxRetries
      invariant calls == attempt
      invariant whole == Then(calls, sleeps, log, Attempts(foo, maxRetries, retryDelay, attempt))
      decreases maxRetries - attempt
    {
      var out := foo(attempt);
      calls := calls + 1;
      if !IsTransientFailure(out) {
        // `foo` returned, raised `DoNotRetryException` or `UnAuthException`
        // (re-raised as is), or raised an exception `except Exception` misses.
        StopAt(whole, foo, maxRetries, retryDelay, attempt, sleeps, log);
        result := out;
        return;
      }
      var crashed := LogEvent(Warning, CrashedMessage(out.exc));
      if attempt == maxRetries - 1 {
        StopAt(whole, foo, maxRetries, retryDelay, attempt, sleeps, log);
        log := log + [crashed, LogEvent(Error, ExhaustedMessage)];
        result := out;
        return;
      }
      var delay := Delay(retryDelay, attempt);
      ContinueAfter(whole, foo, maxRetries, retryDelay, attempt, sleeps, log);
      log := log + [crashed, LogEvent(Info, RetryingMessage(delay))];
      sleeps := sleeps + [delay];
      attempt := attempt + 1;
    }
    result := Raised(NeverHappens);
  }

  /** If the run so far is followed by the loop from `attempt`, and that
      attempt ends the loop, the whole run is the run so far plus that call. */
  lemma StopAt<T>(whole: Run<T>, foo: nat -> Outcome<T>, maxRetries: int, retryDelay: nat, attempt: nat, sleeps: seq<nat>, log: seq<LogEvent>)
    requires whole == Then(attempt, sleeps, log, Attempts(foo, maxRetries, retryDelay, attempt))
    requires attempt < maxRetries
    requires !IsTransientFailure(foo(attempt)) || attempt == maxRetries - 1
    ensures whole.result == foo(attempt)
    ensures whole.calls == attempt + 1
    ensures whole.sleeps == sleeps
    ensures IsTransientFailure(foo(attempt)) ==>
      whole.log == log + [LogEvent(Warning, CrashedMessage(foo(attempt).exc)), LogEvent(Error, ExhaustedMessage)]
    ensures !IsTransientFailure(foo(attempt)) ==> whole.log == log
  {
    StopStep(foo, maxRetries, retryDelay, attempt);
  }

  /** If the run so far is followed by the loop from `attempt`, and that
      attempt is retried, the invariant holds again one attempt later. */
  lemma ContinueAfter<T>(whole: Run<T>, foo: nat -> Outcome<T>, maxRetries: int, retryDelay: nat, attempt: nat, sleeps: seq<nat>, log: seq<LogEvent>)
    requires whole == Then(attempt, sleeps, log, Attempts(foo, maxRetries, retryDelay, attempt))
    requires attempt < maxRetries - 1
    requires IsTransientFailure(foo(attempt))
    ensures var delay := Delay(retryDelay, attempt);
      whole == Then(attempt + 1, sleeps + [delay],
                    log + [LogEvent(Warning, CrashedMessage(foo(attempt).exc)), LogEvent(Info, RetryingMessage(delay))],
                    Attempts(foo, maxRetries, retryDelay, attempt + 1))
  {
    var delay := Delay(retryDelay, attempt);
    var events := [LogEvent(Warning, CrashedMessage(foo(attempt).exc)), LogEvent(Info, RetryingMessage(delay))];
    RetryStep(foo, maxRetries, retryDelay, attempt);
    assert Attempts(foo, maxRetries, retryDelay, attempt) == Then(1, [delay], events, Attempts(foo, maxRetries, retryDelay, attempt + 1));
    ThenThen(attempt, sleeps, log, 1, [delay], events, Attempts(foo, maxRetries, retryDelay, attempt + 1));
  }
}
