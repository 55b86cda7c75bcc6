/** What a caller of `exponential_backoff` can rely on, stated over the
    functional model of the governor. */
module BackoffProperties {
  import opened Exceptions
  import opened Backoff
  import Decimal

  /** The number of events of level `level` in `log`. */
  function CountLevel(log: seq<LogEvent>, level: Level): nat {
    if |log| == 0 then 0 else (if log[0].level == level then 1 else 0) + CountLevel(log[1..], level)
  }

  lemma {:induction false} CountLevelAppend(a: seq<LogEvent>, b: seq<LogEvent>, level: Level)
    ensures CountLevel(a + b, level) == CountLevel(a, level) + CountLevel(b, level)
  {
    if |a| == 0 {
      assert a + b == b;
    } else {
      assert (a + b)[1..] == a[1..] + b;
      CountLevelAppend(a[1..], b, level);
    }
  }

  lemma CountLevelPair(a: LogEvent, b: LogEvent, level: Level)
    ensures CountLevel([a, b], level) == (if a.level == level then 1 else 0) + (if b.level == level then 1 else 0)
  {
    assert [a, b][1..] == [b];
    assert [b][1..] == [];
    assert CountLevel([b], level) == (if b.level == level then 1 else 0) + CountLevel([], level);
  }

  /** The run stops at the first attempt `k` that does not fail transiently,
      hands back exactly what that call did, and has called `foo` k+1 times
      with one sleep between consecutive calls; the log holds only the events
      of the k retries before it, and no error. */
  lemma StopsAtFirstNonTransient<T>(foo: nat -> Outcome<T>, maxRetries: int, retryDelay: nat, k: nat)
    requires k < maxRetries
    requires forall j :: 0 <= j < k ==> IsTransientFailure(foo(j))
    requires !IsTransientFailure(foo(k))
    ensures var r := ExponentialBackoff(foo, maxRetries, retryDelay);
      && r.result == foo(k)
      && r.calls == k + 1
      && |r.sleeps| == k
      && !Exhausted(r)
      && |r.log| == 2 * k
      && CountLevel(r.log, Error) == 0
  {
    AttemptsStops(foo, maxRetries, retryDelay, 0);
    LogLength(foo, maxRetries, retryDelay, 0);
    LogCounts(foo, maxRetries, retryDelay, 0);
  }

  /** The first value `foo` returns is the result, after exactly k+1 calls. */
  lemma ReturnsFirstSuccess<T>(foo: nat -> Outcome<T>, maxRetries: int, retryDelay: nat, k: nat, v: T)
    requires k < maxRetries
    requires forall j :: 0 <= j < k ==> IsTransientFailure(foo(j))
    requires foo(k) == Returned(v)
    ensures var r := ExponentialBackoff(foo, maxRetries, retryDelay);
      r.result == Returned(v) && r.calls == k + 1
  {
    StopsAtFirstNonTransient(foo, maxRetries, retryDelay, k);
  }

  /** A `DoNotRetryException` or `UnAuthException` is raised to the caller as
      it was raised by `foo`: no later call, no sleep after it, and nothing
      logged for it, so the log holds only the k earlier retries. */
  lemma FailFastPropagates<T>(foo: nat -> Outcome<T>, maxRetries: int, retryDelay: nat, k: nat)
    requires k < maxRetries
    requires forall j :: 0 <= j < k ==> IsTransientFailure(foo(j))
    requires foo(k).Raised? && (foo(k).exc.DoNotRetryException? || foo(k).exc.UnAuthException?)
    ensures var r := ExponentialBackoff(foo, maxRetries, retryDelay);
      && r.result == Raised(foo(k).exc)
      && r.calls == k + 1
      && |r.sleeps| == k
      && |r.log| == 2 * k
      && CountLevel(r.log, Error) == 0
      && CountLevel(r.log, Warning) == k
  {
    StopsAtFirstNonTransient(foo, maxRetries, retryDelay, k);
    LogLength(foo, maxRetries, retryDelay, 0);
    LogCounts(foo, maxRetries, retryDelay, 0);
  }

  /** When every attempt fails transiently, `foo` is called exactly
      `maxRetries` times and the last exception is re-raised as it was. */
  lemma ExhaustsRetries<T>(foo: nat -> Outcome<T>, maxRetries: int, retryDelay: nat)
    requires 0 < maxRetries
    requires forall j :: 0 <= j < maxRetries ==> IsTransientFailure(foo(j))
    ensures var r := ExponentialBackoff(foo, maxRetries, retryDelay);
      && r.calls == maxRetries
      && r.result == foo(maxRetries - 1)
      && Exhausted(r)
      && |r.sleeps| == maxRetries - 1
  {
    AttemptsStops(foo, maxRetries, retryDelay, 0);
  }

  /** `foo` is called at least once exactly when `maxRetries` is positive; the
      sentinel exception is raised exactly when it is not called. */
  lemma CalledIffPositiveBudget<T>(foo: nat -> Outcome<T>, maxRetries: int, retryDelay: nat)
    ensures var r := ExponentialBackoff(foo, maxRetries, retryDelay);
      && (r.calls == 0 <==> maxRetries <= 0)
      && (r.calls == 0 ==> r.result == Raised(NeverHappens) && r.sleeps == [] && r.log == [])
  {
  }

  /** With the documented defaults (`max_retries=2`, `retry_delay=1`), `foo`
      is called once or twice, and the only possible sleep lasts one second. */
  lemma DefaultBudget<T>(foo: nat -> Outcome<T>)
    ensures var r := ExponentialBackoff(foo);
      && 1 <= r.calls <= 2
      && r.sleeps == if r.calls == 2 then [1] else []
  {
  }

  /** The sleeps form a prefix of d, 2d, 4d, ...: each delay doubles the one
      before, and there is no sleep after the final call. */
  lemma SleepsDouble<T>(foo: nat -> Outcome<T>, maxRetries: int, retryDelay: nat)
    ensures var r := ExponentialBackoff(foo, maxRetries, retryDelay);
      && (0 < |r.sleeps| ==> r.sleeps[0] == retryDelay)
      && (forall i :: 0 <= i < |r.sleeps| - 1 ==> r.sleeps[i + 1] == 2 * r.sleeps[i])
      && (0 < r.calls ==> |r.sleeps| == r.calls - 1)
      && |r.sleeps| < if maxRetries <= 0 then 1 else maxRetries
  {
    var r := ExponentialBackoff(foo, maxRetries, retryDelay);
    AttemptsStops(foo, maxRetries, retryDelay, 0);
    forall i | 0 <= i < |r.sleeps| - 1
      ensures r.sleeps[i + 1] == 2 * r.sleeps[i]
    {
      DoubleDelay(retryDelay, i);
    }
  }

  /** The log holds two events per retried failure, plus two when the final
      attempt fails transiently. */
  lemma {:induction false} LogLength<T>(foo: nat -> Outcome<T>, maxRetries: int, retryDelay: nat, attempt: nat)
    ensures var r := Attempts(foo, maxRetries, retryDelay, attempt);
      |r.log| == 2 * |r.sleeps| + (if Exhausted(r) then 2 else 0)
    decreases maxRetries - attempt
  {
    if attempt < maxRetries {
      if IsTransientFailure(foo(attempt)) && attempt != maxRetries - 1 {
        RetryStep(foo, maxRetries, retryDelay, attempt);
        LogLength(foo, maxRetries, retryDelay, attempt + 1);
      } else {
        StopStep(foo, maxRetries, retryDelay, attempt);
      }
    }
  }

  /** For the i-th retried failure, the event at position 2i is a warning
      carrying the text of the exception that attempt raised. */
  lemma {:induction false} LogWarnings<T>(foo: nat -> Outcome<T>, maxRetries: int, retryDelay: nat, attempt: nat)
    ensures var r := Attempts(foo, maxRetries, retryDelay, attempt);
      && |r.log| >= 2 * |r.sleeps|
      && forall i :: 0 <= i < |r.sleeps| ==>
           IsTransientFailure(foo(attempt + i)) && r.log[2 * i] == LogEvent(Warning, CrashedMessage(foo(attempt + i).exc))
    decreases maxRetries - attempt
  {
    LogLength(foo, maxRetries, retryDelay, attempt);
    AttemptsStops(foo, maxRetries, retryDelay, attempt);
    if attempt < maxRetries {
      if IsTransientFailure(foo(attempt)) && attempt != maxRetries - 1 {
        var r := Attempts(foo, maxRetries, retryDelay, attempt);
        var rest := Attempts(foo, maxRetries, retryDelay, attempt + 1);
        RetryStep(foo, maxRetries, retryDelay, attempt);
        LogWarnings(foo, maxRetries, retryDelay, attempt + 1);
        forall i | 1 <= i < |r.sleeps|
          ensures IsTransientFailure(foo(attempt + i)) && r.log[2 * i] == LogEvent(Warning, CrashedMessage(foo(attempt + i).exc))
        {
          assert r.log[2 * i] == rest.log[2 * (i - 1)];
        }
      } else {
        StopStep(foo, maxRetries, retryDelay, attempt);
      }
    }
  }

  /** The event right after the i-th warning is an info carrying the very
      delay that is slept after that failure. */
  lemma {:induction false} LogInfos<T>(foo: nat -> Outcome<T>, maxRetries: int, retryDelay: nat, attempt: nat)
    ensures var r := Attempts(foo, maxRetries, retryDelay, attempt);
      && |r.log| >= 2 * |r.sleeps|
      && forall i :: 0 <= i < |r.sleeps| ==> r.log[2 * i + 1] == LogEvent(Info, RetryingMessage(r.sleeps[i]))
    decreases maxRetries - attempt
  {
    LogLength(foo, maxRetries, retryDelay, attempt);
    if attempt < maxRetries {
      if IsTransientFailure(foo(attempt)) && attempt != maxRetries - 1 {
        var r := Attempts(foo, maxRetries, retryDelay, attempt);
        var rest := Attempts(foo, maxRetries, retryDelay, attempt + 1);
        RetryStep(foo, maxRetries, retryDelay, attempt);
        LogInfos(foo, maxRetries, retryDelay, attempt + 1);
        forall i | 1 <= i < |r.sleeps|
          ensures r.log[2 * i + 1] == LogEvent(Info, RetryingMessage(r.sleeps[i]))
        {
          assert r.log[2 * i + 1] == rest.log[2 * (i - 1) + 1];
          assert r.sleeps[i] == rest.sleeps[i - 1];
        }
      } else {
        StopStep(foo, maxRetries, retryDelay, attempt);
      }
    }
  }

  /** The log ends with a warning and the error exactly when the final attempt
      fails transiently. */
  lemma {:induction false} LogTail<T>(foo: nat -> Outcome<T>, maxRetries: int, retryDelay: nat, attempt: nat)
    ensures var r := Attempts(foo, maxRetries, retryDelay, attempt);
      Exhausted(r) ==>
        && |r.log| >= 2
        && r.log[|r.log| - 2] == LogEvent(Warning, CrashedMessage(r.result.exc))
        && r.log[|r.log| - 1] == LogEvent(Error, ExhaustedMessage)
    decreases maxRetries - attempt
  {
    if attempt < maxRetries {
      if IsTransientFailure(foo(attempt)) && attempt != maxRetries - 1 {
        var r := Attempts(foo, maxRetries, retryDelay, attempt);
        var rest := Attempts(foo, maxRetries, retryDelay, attempt + 1);
        RetryStep(foo, maxRetries, retryDelay, attempt);
        LogTail(foo, maxRetries, retryDelay, attempt + 1);
        if Exhausted(r) {
          assert r.log[|r.log| - 2] == rest.log[|rest.log| - 2];
          assert r.log[|r.log| - 1] == rest.log[|rest.log| - 1];
        }
      } else {
        StopStep(foo, maxRetries, retryDelay, attempt);
      }
    }
  }

  /** The three logging rules as counts: one warning per transient failure,
      one info per sleep, and one error exactly when the attempts run out. */
  lemma {:induction false} LogCounts<T>(foo: nat -> Outcome<T>, maxRetries: int, retryDelay: nat, attempt: nat)
    ensures var r := Attempts(foo, maxRetries, retryDelay, attempt);
      && CountLevel(r.log, Warning) == |r.sleeps| + (if Exhausted(r) then 1 else 0)
      && CountLevel(r.log, Info) == |r.sleeps|
      && CountLevel(r.log, Error) == (if Exhausted(r) then 1 else 0)
    decreases maxRetries - attempt
  {
    if attempt < maxRetries {
      if IsTransientFailure(foo(attempt)) && attempt != maxRetries - 1 {
        var r := Attempts(foo, maxRetries, retryDelay, attempt);
        var rest := Attempts(foo, maxRetries, retryDelay, attempt + 1);
        RetryStep(foo, maxRetries, retryDelay, attempt);
        LogCounts(foo, maxRetries, retryDelay, attempt + 1);
        var head := [r.log[0], r.log[1]];
        assert r.log == head + rest.log;
        CountLevelPair(r.log[0], r.log[1], Warning);
        CountLevelPair(r.log[0], r.log[1], Info);
        CountLevelPair(r.log[0], r.log[1], Error);
        CountLevelAppend(head, rest.log, Warning);
        CountLevelAppend(head, rest.log, Info);
        CountLevelAppend(head, rest.log, Error);
      } else {
        var r := Attempts(foo, maxRetries, retryDelay, attempt);
        StopStep(foo, maxRetries, retryDelay, attempt);
        if IsTransientFailure(foo(attempt)) {
          CountLevelPair(r.log[0], r.log[1], Warning);
          CountLevelPair(r.log[0], r.log[1], Info);
          CountLevelPair(r.log[0], r.log[1], Error);
        }
      }
    }
  }

  /** Distinct delays give distinct info messages, so the delay slept can be
      read back from the log. */
  lemma RetryingMessageInjective(a: nat, b: nat)
    requires RetryingMessage(a) == RetryingMessage(b)
    ensures a == b
  {
    var sa, sb := Decimal.NatToString(a), Decimal.NatToString(b);
    var m := RetryingMessage(a);
    assert |sa| == |sb|;
    var start := |"Retrying in "|;
    assert sa == m[start..start + |sa|];
    assert sb == m[start..start + |sb|];
    Decimal.NatToStringInjective(a, b);
  }

  lemma DoubleDelay(retryDelay: nat, i: nat)
    ensures Delay(retryDelay, i + 1) == 2 * Delay(retryDelay, i)
  {
  }

  /** A callable that always raises the same generic exception. */
  function AlwaysBoom(attempt: nat): Outcome<int> {
    Raised(OtherException("boom"))
  }

  /** Three attempts that all fail transiently with base delay 1: three calls,
      two sleeps of 1 and 2 seconds (none after the last call), the last
      exception re-raised, and the six log events in order. */
  lemma ThreeTransientFailures()
    ensures ExponentialBackoff(AlwaysBoom, 3, 1) ==
      Run(Raised(OtherException("boom")), 3, [1, 2],
          [LogEvent(Warning, "Function crashed: boom"), LogEvent(Info, "Retrying in 1 seconds..."),
           LogEvent(Warning, "Function crashed: boom"), LogEvent(Info, "Retrying in 2 seconds..."),
           LogEvent(Warning, "Function crashed: boom"), LogEvent(Error, "Max retries reached. Exiting...")])
  {
    assert Decimal.NatToString(1) == "1";
    assert Decimal.NatToString(2) == "2";
    assert Delay(1, 1) == 2 by { assert Pow2(1) == 2; }
    assert CrashedMessage(OtherException("boom")) == "Function crashed: boom";
    assert RetryingMessage(1) == "Retrying in 1 seconds...";
    assert RetryingMessage(2) == "Retrying in 2 seconds...";
    StopStep(AlwaysBoom, 3, 1, 2);
    RetryStep(AlwaysBoom, 3, 1, 1);
    RetryStep(AlwaysBoom, 3, 1, 0);
  }
}
