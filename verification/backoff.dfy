/** The retry governor `exponential_backoff`: it calls a callable up to
    `maxRetries` times, lets fail-fast exceptions through at once, retries any
    other `Exception` after sleeping `retryDelay * 2^attempt`, and re-raises the
    last exception when the attempts run out.

    The callable is an oracle `foo` from the attempt index to what that call
    does. A run is summarised by what the caller observes: the outcome, the
    number of calls, the delays slept, and the events handed to the logger. */
module Backoff {
  import opened Exceptions
  import Decimal

  datatype Level = Info | Warning | Error

  /** One call of the logger: its level and the formatted message. */
  datatype LogEvent = LogEvent(level: Level, message: string)

  /** Everything one run of the governor produces. */
  datatype Run<T> = Run(result: Outcome<T>, calls: nat, sleeps: seq<nat>, log: seq<LogEvent>)

  function CrashedMessage(e: Exc): string {
    "Function crashed: " + e.msg
  }

  const ExhaustedMessage: string := "Max retries reached. Exiting..."

  function RetryingMessage(delay: nat): string {
    "Retrying in " + Decimal.NatToString(delay) + " seconds..."
  }

  function Pow2(k: nat): (r: nat)
    ensures 1 <= r
  {
    if k == 0 then 1 else 2 * Pow2(k - 1)
  }

  /** The back-off delay after a transient failure of attempt `attempt`. */
  function Delay(retryDelay: nat, attempt: nat): nat {
    retryDelay * Pow2(attempt)
  }

  /** True when the run ended because the final attempt failed transiently. */
  predicate Exhausted<T>(r: Run<T>) {
    r.calls > 0 && IsTransientFailure(r.result)
  }

  /** The loop of the governor from attempt `attempt` on. */
  function Attempts<T>(foo: nat -> Outcome<T>, maxRetries: int, retryDelay: nat, attempt: nat): Run<T>
    decreases maxRetries - attempt
  {
    if attempt >= maxRetries then
      Run(Raised(NeverHappens), 0, [], [])
    else
      var out := foo(attempt);
      match out
      case Returned(_) => Run(out, 1, [], [])
      case Raised(e) =>
        match e
        case DoNotRetryException(_) => Run(out, 1, [], [])
        case UnAuthException(_) => Run(out, 1, [], [])
        case BaseOnlyException(_) => Run(out, 1, [], [])
        case OtherException(_) =>
          if attempt == maxRetries - 1 then
            Run(out, 1, [], [LogEvent(Warning, CrashedMessage(e)), LogEvent(Error, ExhaustedMessage)])
          else
            var delay := Delay(retryDelay, attempt);
            var rest := Attempts(foo, maxRetries, retryDelay, attempt + 1);
            Run(rest.result, rest.calls + 1, [delay] + rest.sleeps,
                [LogEvent(Warning, CrashedMessage(e)), LogEvent(Info, RetryingMessage(delay))] + rest.log)
  }

  /** The loop stops at the first call that does not fail transiently or at
      the last allowed attempt, whichever comes first; what that last call did
      is handed back unchanged; and a sleep of the exponential schedule
      separates each pair of consecutive calls. */
  lemma {:induction false} AttemptsStops<T>(foo: nat -> Outcome<T>, maxRetries: int, retryDelay: nat, attempt: nat)
    ensures var r := Attempts(foo, maxRetries, retryDelay, attempt);
      && (attempt >= maxRetries ==> r == Run(Raised(NeverHappens), 0, [], []))
      && (attempt < maxRetries ==> 1 <= r.calls <= maxRetries - attempt)
      && (r.calls > 0 ==> r.result == foo(attempt + r.calls - 1))
      && (forall j :: attempt <= j < attempt + r.calls - 1 ==> IsTransientFailure(foo(j)))
      && (Exhausted(r) ==> attempt + r.calls == maxRetries)
      && (|r.sleeps| == if r.calls == 0 then 0 else r.calls - 1)
      && (forall i :: 0 <= i < |r.sleeps| ==> r.sleeps[i] == Delay(retryDelay, attempt + i))
    decreases maxRetries - attempt
  {
    if attempt < maxRetries && IsTransientFailure(foo(attempt)) && attempt != maxRetries - 1 {
      AttemptsStops(foo, maxRetries, retryDelay, attempt + 1);
    }
  }

  /** One retried transient failure: a call, a warning, an info and a sleep,
      followed by the rest of the loop. */
  lemma RetryStep<T>(foo: nat -> Outcome<T>, maxRetries: int, retryDelay: nat, attempt: nat)
    requires attempt < maxRetries - 1
    requires IsTransientFailure(foo(attempt))
    ensures var r := Attempts(foo, maxRetries, retryDelay, attempt);
      var rest := Attempts(foo, maxRetries, retryDelay, attempt + 1);
      var delay := Delay(retryDelay, attempt);
      && r.result == rest.result
      && r.calls == rest.calls + 1
      && r.sleeps == [delay] + rest.sleeps
      && r.log == [LogEvent(Warning, CrashedMessage(foo(attempt).exc)), LogEvent(Info, RetryingMessage(delay))] + rest.log
  {
  }

  /** The attempts that stop the loop at `attempt` log two events when the
      call failed transiently on the final attempt and nothing otherwise. */
  lemma StopStep<T>(foo: nat -> Outcome<T>, maxRetries: int, retryDelay: nat, attempt: nat)
    requires attempt < maxRetries
    requires !IsTransientFailure(foo(attempt)) || attempt == maxRetries - 1
    ensures var r := Attempts(foo, maxRetries, retryDelay, attempt);
      && r.result == foo(attempt)
      && r.calls == 1
      && r.sleeps == []
      && r.log == if IsTransientFailure(foo(attempt))
                  then [LogEvent(Warning, CrashedMessage(foo(attempt).exc)), LogEvent(Error, ExhaustedMessage)]
                  else []
  {
  }

  /** `exponential_backoff(foo, max_retries=maxRetries, retry_delay=retryDelay)`,
      with the same defaults. */
  function ExponentialBackoff<T>(foo: nat -> Outcome<T>, maxRetries: int := 2, retryDelay: nat := 1): (r: Run<T>)
    ensures maxRetries <= 0 ==> r == Run(Raised(NeverHappens), 0, [], [])
    ensures 0 < maxRetries ==> 1 <= r.calls <= maxRetries
    ensures r.calls > 0 ==> r.result == foo(r.calls - 1)
    ensures forall i :: 0 <= i < |r.sleeps| ==> r.sleeps[i] == retryDelay * Pow2(i)
  {
    AttemptsStops(foo, maxRetries, retryDelay, 0);
    Attempts(foo, maxRetries, retryDelay, 0)
  }

  /** A run preceded by `calls` calls that slept `sleeps` and logged `log`. */
  function Then<T>(calls: nat, sleeps: seq<nat>, log: seq<LogEvent>, rest: Run<T>): Run<T> {
    Run(rest.result, calls + rest.calls, sleeps + rest.sleeps, log + rest.log)
  }

  /** Prefixing twice is prefixing once with the combined calls, sleeps and log. */
  lemma ThenThen<T>(c1: nat, s1: seq<nat>, l1: seq<LogEvent>, c2: nat, s2: seq<nat>, l2: seq<LogEvent>, rest: Run<T>)
    ensures Then(c1, s1, l1, Then(c2, s2, l2, rest)) == Then(c1 + c2, s1 + s2, l1 + l2, rest)
  {
  }
}
