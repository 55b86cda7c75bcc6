# ChainFury retry governor and terminal banner, in Dafny

This project models two functions from ChainFury's `chainfury/utils.py`.

- `exponential_backoff` is the retry governor. It calls a callable `foo` up to
  `max_retries` times. A `DoNotRetryException` or an `UnAuthException` is
  re-raised at once. Any other `Exception` is logged and retried after
  sleeping `retry_delay * 2**attempt`. When the final attempt fails, the
  error is logged and the exception is re-raised unchanged. When the loop
  never runs (`max_retries <= 0`), the function raises
  `Exception("This should never happen")`.
- `terminal_top_with_text` builds a full-width banner ending in a message.

The callable is an oracle `foo: nat -> Outcome<T>`. It maps the attempt
index to what that call does: return a value, or raise an exception. An
exception is a value with its class and the text `str(e)` gives. Besides
the two fail-fast classes and any other `Exception`, the model has a class
for a `BaseException` outside `Exception`, such as `KeyboardInterrupt`. No
`except` clause in the loop catches it, so it escapes at once with nothing
logged. One run of the governor is summarised as a `Run`, which holds four things:

- the outcome handed to the caller;
- the number of calls made;
- the delays slept, in order;
- the `(level, message)` events handed to the logger, with messages
  formatted as the source formats them.

Modules:

- `Exceptions` holds the exception classes and call outcomes.
- `Decimal` renders a non-negative `int` in decimal, as an f-string does, and parses it back.
- `Backoff` holds the governor. `Attempts` is the loop as a recursive
  function, and `ExponentialBackoff` is the entry point.
- `BackoffLoop` holds `RunExponentialBackoff`, the same loop written
  imperatively, proved equal to the function.
- `BackoffProperties` holds what a caller can rely on: where the loop stops,
  the call budget, the sleep schedule, and the three logging rules.
- `Terminal` holds the banner as written and as evidently intended.

The code sleeps `retry_delay * 2^k` after a transient failure of attempt
`k`. It never sleeps before the first call or after the final one, so three
failing attempts with `retry_delay = 1` sleep 1 and then 2 seconds
(`ThreeTransientFailures`).

## Model

| member | source | states |
|---|---|---|
| `Backoff.AttemptsStops` | chainfury/utils.py:93-109 | `Attempts`, the recursive model of the loop, is characterised here. The loop from a given attempt stops at the first call that does not raise a generic exception, or at the last allowed attempt. That last call's outcome is returned or raised unchanged. No more than the remaining budget of calls is made. Consecutive calls are separated by sleeps `retry_delay * 2^attempt`. |
| `Backoff.ExponentialBackoff` | chainfury/utils.py:77-110 | The defaults are `max_retries=2` and `retry_delay=1`. With `max_retries <= 0`, nothing is called and the sentinel exception is raised with no sleep or log. Otherwise `foo` is called between 1 and `max_retries` times. The result is exactly what the last call did. The i-th sleep is `retry_delay * 2^i`. |
| `BackoffLoop.RunExponentialBackoff` | chainfury/utils.py:93-110 | The imperative `for attempt in range(max_retries)` loop, with early returns, gives the same outcome, call count, sleeps and log as the functional model. |
| `BackoffProperties.StopsAtFirstNonTransient` | chainfury/utils.py:93-100 | If attempts `0..k-1` raise generic exceptions and attempt `k < max_retries` does not, the result is attempt `k`'s outcome. Exactly `k+1` calls and `k` sleeps happen. The log holds only the `2k` events of the earlier retries, and no error. |
| `BackoffProperties.ReturnsFirstSuccess` | chainfury/utils.py:93-96 | If `foo` first returns `v` on attempt `k < max_retries`, the governor returns `v` after exactly `k+1` calls. |
| `BackoffProperties.FailFastPropagates` | chainfury/utils.py:97-100 | A `DoNotRetryException` or `UnAuthException` on attempt `k` is raised as the same exception. No later call or sleep follows, and nothing is logged for it. The log holds only the `2k` events of the earlier retries, with no error. |
| `BackoffProperties.ExhaustsRetries` | chainfury/utils.py:93-105 | If every attempt raises a generic exception, `foo` is called exactly `max_retries` times. The last exception is re-raised unchanged, after `max_retries - 1` sleeps. |
| `BackoffProperties.CalledIffPositiveBudget` | chainfury/utils.py:93-110 | `foo` is called at least once if and only if `max_retries > 0`. When it is never called, the result is the "This should never happen" exception, with no sleep and no log. |
| `BackoffProperties.DefaultBudget` | chainfury/utils.py:77-83 | With the default arguments, `foo` is called once or twice. The only possible sleep lasts 1 second, and it happens exactly when there are two calls. |
| `BackoffProperties.SleepsDouble` | chainfury/utils.py:103-109 | The sleeps are a prefix of `d, 2d, 4d, ...`. The first is `retry_delay` and each doubles the previous. There is one sleep fewer than calls, so none follows the final call, and fewer sleeps than allowed attempts. |
| `BackoffProperties.LogLength` | chainfury/utils.py:102-108 | The log has two events per retried failure, plus two more exactly when the final attempt fails generically. |
| `BackoffProperties.LogWarnings` | chainfury/utils.py:101-102 | The warning for the i-th retried failure carries the text of the exception that attempt raised. |
| `BackoffProperties.LogInfos` | chainfury/utils.py:107-108 | Each warning for a retried failure is followed by an info carrying the same delay that is then slept. |
| `BackoffProperties.LogTail` | chainfury/utils.py:102-105 | When the final attempt fails generically, the log ends with that exception's warning and then the "Max retries reached" error. |
| `BackoffProperties.LogCounts` | chainfury/utils.py:102-108 | There is one warning per generic failure and one info per sleep. Exactly one error is logged if the final attempt failed generically, and none otherwise. |
| `BackoffProperties.RetryingMessageInjective` | chainfury/utils.py:108 | Distinct delays give distinct "Retrying in ..." messages, so the info fixes the delay slept. |
| `BackoffProperties.ThreeTransientFailures` | chainfury/utils.py:93-110 | Three generic failures with base delay 1 give three calls, sleeps `[1, 2]`, the last exception re-raised, and a log of warning, info, warning, info, warning, error, with their exact texts. |
| `Decimal.NatToString` | chainfury/utils.py:108 | The text `{delay}` puts in the info message is non-empty and all decimal digits, with no leading zero; the text of 0 is exactly `0`. |
| `Decimal.ParseNatToString` | chainfury/utils.py:108 | Parsing the decimal text of a delay gives back the delay. |
| `Decimal.NatToStringInjective` | chainfury/utils.py:108 | Distinct delays have distinct decimal texts. |
| `Terminal.Repeat` | chainfury/utils.py:41-45 | `n` copies of the character, and the empty string when `n <= 0`, as Python's `str * int` does. |
| `Terminal.TerminalTopWithTextAsWritten` | chainfury/utils.py:30-46 | The call raises `TypeError` exactly when `len(msg) > width - 5`. Otherwise it returns a string of length `width` that ends with `msg`. |
| `Terminal.TerminalTopWithText` | chainfury/utils.py:40-45 | For a short message, the banner is `width - len(msg) - 1` signs `=`, a space, then `msg`, exactly `width` long. For a long message, it is a full rule, a newline, `msg`, a newline, and a rule of `width // 2` signs `=`. |
| `Terminal.AsWrittenAgreesOnShortMessages` | chainfury/utils.py:40-45 | On every short message, the function as written returns the intended banner. |
| `Terminal.LongMessageRaises` | chainfury/utils.py:40-43 | An 11-character message at width 10 raises `TypeError`. So does the empty message at width 4. |
| `Terminal.DefaultMessage` | chainfury/utils.py:30-46 | With the default `msg=""`, a terminal at least 5 columns wide gets `width - 1` signs `=` and a space. A narrower terminal raises `TypeError`. |

## Findings

| source | as written | input that shows it | evidently intended | confidence | as-written member | corrected member |
|---|---|---|---|---|---|---|
| chainfury/utils.py:43 | `"=" * width // 2` parses as `("=" * width) // 2`, and `str // int` raises `TypeError`, so the long-message branch never returns | `msg = "hello world"`, `width = 10` (also `msg = ""`, `width = 4`) | `"=" * (width // 2)`: a half-width closing rule | high (operator precedence); not executed | `Terminal.TerminalTopWithTextAsWritten`, `Terminal.LongMessageRaises` | `Terminal.TerminalTopWithText` |

## Left out

- `stories/fury_core.py`: it is a command-line demo that reads tokens from the environment and makes live API calls. The chain, registry and template engine it drives is not part of this model.
- `CFEnv`, the module-level `os.makedirs` calls and `store_blob` (chainfury/utils.py:7-27): environment and filesystem I/O.
- `get_logger` and the logging setup (chainfury/utils.py:49-62): the logger is an ordered list of `(level, message)` events. Events are recorded as handed to the logger, before any level filtering by `FURY_LOG_LEVEL`.
- `folder` and `joinp` (chainfury/utils.py:113-120): thin wrappers over `os.path`.
- `time.sleep`: each delay is recorded, and no wall-clock time is modelled.
- `Backoff.ExponentialBackoff`: any natural-number delay is slept and the loop goes on. In CPython, `time.sleep` raises `OverflowError` for an integer delay beyond about 9.2e9 seconds, the range of its 64-bit nanosecond time type. Examples are `retry_delay = 10**10`, or the sleep of 2^34 seconds after the 35th failed attempt with `retry_delay = 1`. That exception would escape the `except` block at chainfury/utils.py:109, after the warning and the "Retrying in ..." info, and end the run. The limit belongs to the Python runtime, not to this function, so it is not modelled.
- `os.get_terminal_size()`: the width is a parameter. The `OSError` it raises when the process has no terminal is not modelled.
- `Backoff.ExponentialBackoff`: `retry_delay` is a natural number. Float delays, and their `1.0`-style rendering in the info message, are not modelled. Neither is a negative integer delay: there `time.sleep` at chainfury/utils.py:109 raises `ValueError`, after the warning and the info have been logged, and that exception ends the run.
- `Backoff.ExponentialBackoff`: `foo` is a deterministic function of the attempt index. Its `*args` and `**kwargs` are fixed inside the oracle, and any side effects of `foo` are not modelled.
- `Backoff.ExponentialBackoff`: "re-raised unchanged" is modelled as value equality of the exception. The traceback and object identity are not modelled.
- An exception class that subclasses both `DoNotRetryException` and `UnAuthException` is not modelled. Both branches re-raise anyway, so the outcome would be the same.
- `UnAuthException` and `DoNotRetryException` (chainfury/utils.py:69-74) are constructors of `Exceptions.Exc`, with no contract of their own.
