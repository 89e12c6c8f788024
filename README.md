# Utility core: `range`, `throttle`, `debounce`

A Dafny model of two small helper groups of the `ne.util` namespace:

- **`range(start, stop, step)`** (`src/array.js`) builds an integer
  arithmetic progression. A single argument is the stop and the start is 0;
  an absent or zero step becomes 1; a sign flag folds the ascending and the
  descending case into one loop test, `start * flag < stop * flag`.
  Module `ArrayUtil` (`array_util.dfy`) keeps the source's loop in the method
  `Range` and proves it equal to a closed-form reference, `Terms`: `Count`
  terms `start + k * step`, where `Count` is the ceiling of the distance over
  the step. Lemmas then state the bounds, the direction, the spacing, the
  emptiness condition, the length and the documented examples.
- **`throttle(fn, interval)` and `debounce(fn, delay)`** (`src/technic.js`)
  return wrappers whose closure state changes on every call. Module
  `Technic` (`technic.dfy`) gives each wrapper a class:
  - `Throttled` has the anchor `base` (absent or a time stamp).
  - `Debounced` has the latest `args` and a single pending-timer slot `due`.
  - Both have a `log` of the invocations of `fn`, each with its time and
    arguments.
  The clock read is a parameter of each call. The host timer is the `Fire`
  step: it runs the pending callback once its due time is reached. Each
  method is specified by a pure step function (`ThrottleStep`,
  `DebounceStep`). Runs of many calls fold that step
  (`ThrottleRun`, `DebounceRun`), and lemmas about those runs state what the
  wrappers promise:
  - a throttled `fn` that returns normally runs at most once per interval
    (a `fn` that throws is outside the model; see "Left out");
  - a debounced `fn` runs with the latest call's arguments, at most once per
    call, and never without a call.

`Wrappers` (`wrappers.dfy`) holds the `Option` type. It stands for "existy"
and "undefined" tests: `None` is an absent argument or a cleared anchor.

A throttle is often described as re-anchoring its window at the call that
invokes `fn`. This code does something else: it clears `base` (`base = null`,
`src/technic.js:78`), so the NEXT call becomes the anchor. The model follows
the code. With interval 100 and calls at 0, 50, 110, 150 and 215, only the
call at 110 invokes `fn`. The call at 150 anchors, and the call at 215 is
dropped (`ThrottleTimeline`). A window re-anchored at 110 would let the call
at 215 through.

## Model

| member | source | states |
|---|---|---|
| `ArrayUtil.EffectiveStep` | src/array.js:47 | the step used is never zero (so the loop always advances), and any nonzero step given is kept |
| `ArrayUtil.Resolve` | src/array.js:42-47 | collapsing the arguments always yields a nonzero step |
| `ArrayUtil.Flag` | src/array.js:48 | the flag is 1 or -1, and it is -1 exactly for a descending step |
| `ArrayUtil.Range` | src/array.js:38-56 | on unbounded integers the loop terminates, and it returns exactly the reference progression `RangeOf` of the (defaulted) arguments |
| `ArrayUtil.AdmitsScaled` | src/array.js:48-51 | multiplying both sides of the loop test by the sign flag turns it into k*abs(step) < distance in the step's direction, for either sign |
| `ArrayUtil.TermWithinBounds` | src/array.js:48-53 | every appended term lies in [start, stop) for a positive step and in (stop, start] for a negative one |
| `ArrayUtil.CountIsExact` | src/array.js:49-53 | the k-th candidate `start + k*step` passes the loop test `(start + k*step)*flag < stop*flag` iff k < Count, so the length is the number of admitted k >= 0 |
| `ArrayUtil.LengthIsCeiling` | src/array.js:49-53 | the length is 0 when the signed distance is not positive, else the least n with n*abs(step) >= distance (the ceiling of distance/step) |
| `ArrayUtil.AscendingTerms` | src/array.js:48-53 | for step > 0 every element lies in [start, stop), the elements strictly increase, and the result is empty iff start >= stop |
| `ArrayUtil.DescendingTerms` | src/array.js:48-53 | for step < 0 every element lies in (stop, start], the elements strictly decrease, and the result is empty iff start <= stop |
| `ArrayUtil.FirstAndSpacing` | src/array.js:51-52 | a nonempty result starts at start, and consecutive elements differ by exactly step |
| `ArrayUtil.ArgumentDefaults` | src/array.js:42-47 | range(n) equals range(0, n); a zero step, an absent step and a step of 1 give the same result |
| `ArrayUtil.DocumentedExamples` | src/array.js:24-47 | range() = [] (with no argument, stop defaults to 0, so the loop test fails at once), range(5) = [0,1,2,3,4], range(1,5) = [1,2,3,4], range(2,10,2) = [2,4,6,8], range(10,2,-2) = [10,8,6,4] |
| `Wrappers.Option.GetOr` | src/technic.js:32 | an absent value gives the default and a present one is kept: the `existy(x) ? x : 0` defaulting of the delay and of the interval (also line 67) |
| `Technic.ThrottleStep` | src/technic.js:69-80 | one throttled call either appends exactly one invocation with its own stamp and arguments, or leaves the log as it was; it leaves the wrapper idle iff it invoked `fn`; a dropped call keeps the old anchor, or anchors at its own stamp when idle |
| `Technic.ThrottleRun` | src/technic.js:60-80 | a fresh wrapper followed by calls invokes `fn` at most once per call, and is idle when it was never called |
| `Technic.ThrottleLogFromCalls` | src/technic.js:76-77 | every invocation of `fn` in a run carries the stamp and the arguments of one of the calls |
| `Technic.Throttled.constructor` | src/technic.js:60-67 | a new throttled wrapper is idle (no anchor, nothing invoked), and an absent interval is 0 |
| `Technic.Throttled.Call` | src/technic.js:69-80 | the call anchors at its own stamp when idle; it invokes fn with its own arguments iff stamp - anchor >= interval, and then clears the anchor; otherwise it is dropped and the anchor is kept; with interval <= 0 it always invokes fn (the wrapper's invariant: never anchored then) |
| `Technic.IdleCall` | src/technic.js:72-78 | from the idle state the elapsed time is 0: with interval > 0 the call only anchors, and with interval <= 0 it invokes fn and stays idle |
| `Technic.NonPositiveIntervalInvokesAll` | src/technic.js:69-80 | with interval <= 0 every call invokes fn, in order, with its own stamp and arguments, and the wrapper stays idle |
| `Technic.PositiveIntervalAtMostHalf` | src/technic.js:69-80 | with interval > 0 every invocation is preceded by its own anchoring call, so twice the invocations (plus one while anchored) never exceed the calls |
| `Technic.InvocationsSpaced` | src/technic.js:55-80 | when the clock never goes backwards, consecutive invocations of fn are at least interval apart ("at most once per every interval milliseconds") |
| `Technic.ThrottleTimeline` | src/technic.js:72-79 | interval 100, calls at 0, 50, 110, 150, 215: only 110 invokes fn, and the wrapper ends anchored at 150 |
| `Technic.DebounceStep` | src/technic.js:34-41 | a call stores its arguments, schedules the one pending callback at now + delay and does not invoke fn; a timer check keeps the arguments and either changes nothing in the log or, if the callback was due, invokes fn once with the stored arguments and empties the slot |
| `Technic.DebounceRun` | src/technic.js:27-41 | after a fresh wrapper and any events, a pending callback always has arguments to forward, and fn has run at most once per event |
| `Technic.Debounced.constructor` | src/technic.js:27-32 | a new debounced wrapper has no arguments, no pending callback and no invocations, and an absent delay is 0 |
| `Technic.Debounced.Call` | src/technic.js:34-41 | a call stores its arguments as the latest, replaces any pending callback by one due at now + delay, and does not invoke fn |
| `Technic.Debounced.Fire` | src/technic.js:38-40 | the pending callback runs iff it is due: it invokes fn with the stored arguments and empties the slot; otherwise nothing changes |
| `Technic.LatestCallWins` | src/technic.js:34-41 | after any events, the stored arguments are those of the most recent call, and a pending callback is due exactly delay after that call |
| `Technic.FireUsesLatestArgs` | src/technic.js:34-41 | when the pending callback runs, fn receives the most recent call's arguments, no earlier than delay after that call, and the slot is emptied |
| `Technic.InvocationsAtMostCalls` | src/technic.js:34-41 | invocations of fn plus the pending callback never outnumber the calls |
| `Technic.NoCallsNoInvocation` | src/technic.js:34-43 | a wrapper that is never called never invokes fn |
| `Technic.AfterLastCall` | src/technic.js:34-41 | after the last call of a burst (at t, with a) and only timer checks since: the stored arguments are a; while the callback is pending fn has not run since that call; once it has run, fn has run exactly once more, with a, no earlier than t + delay |
| `Technic.DebounceBurst` | src/technic.js:21-41 | delay 30, calls at 0, 10, 20, timer checks at 49, 50, 80: fn runs exactly once, at 50, with the arguments of the call at 20 |

## Left out

- Namespace registration on `window.ne` / `ne.util` (`src/array.js:8-15, 58`, `src/technic.js:9-18, 85-87`): global wiring only.
- `timestamp` (`src/technic.js:50-52`) reads the wall clock. It is not modelled: each throttled call takes its stamp as a parameter. No monotonicity is assumed, except in `InvocationsSpaced`, which requires it.
- `window.setTimeout` / `window.clearTimeout`: the pending timer is one slot holding its due time. The host's timer check is the `Fire` step (`Tick` in runs). A late timer check is modelled: a `Tick` at any time at or after the due time runs the callback and logs that time. Not modelled: the host's promise that a pending callback eventually runs (no `Tick` is ever forced to come), the clamping of negative delays to 0, and browsers running a callback at once when its delay exceeds 2^31 - 1 ms.
- The arbitrary callback `fn`, `fn.apply(null, arguments)` and its return value: arguments are one opaque value of a type parameter, and each invocation is recorded in a log. `fn` is assumed to return normally.
- Technic.InvocationsSpaced: holds only for a `fn` that returns normally. The throttled wrapper calls `fn` (`src/technic.js:77`) before it clears the anchor (`src/technic.js:78`), with no try/finally. A `fn` that throws therefore skips line 78, leaves the wrapper anchored at the old `base`, and passes the exception to the caller. The next call can then invoke `fn` again at once: with interval 100, calls at 0 and 110 and a throw at 110, a call at 111 invokes `fn` again (111 - 0 >= 100).
- Technic.Throttled.Call: like `ThrottleStep`, it always clears the anchor after invoking `fn` and returns normally, so it does not model a throwing `fn`. With such a `fn` the wrapper can stay anchored. Its invariant (never anchored when interval <= 0) and its `interval <= 0 ==> invoked` then fail once the clock goes backwards.
- A debounced `fn` that throws runs inside the timer callback, after the timer has fired, so the wrapper's state is as the model leaves it; only the exception, which the host reports, is not modelled.
- The stale timer handle kept after the callback has run is not modelled. `clearTimeout` on it does nothing, so the model simply empties the slot.
- `ne.util.isExisty` / `ne.util.isUndefined` are defined elsewhere and are not part of this model. An absent argument is `None`; a `null` stop (which JavaScript turns into 0) is not distinguished from a given stop.
- JavaScript numbers: `start`, `stop` and `step` are unbounded integers. Fractional steps, NaN, non-numeric arguments and an undefined `start` next to a given `stop` (`range(undefined, n)`, which returns an empty array because `undefined * flag` is NaN) are outside the model. `range()` itself is modelled: it is `RangeOf(0, None, None)`, which is empty.
- ArrayUtil.Range: termination holds for the unbounded integers of the model only. JavaScript numbers are doubles: beyond 2^53 the update `start += step` (`src/array.js:51`) can leave the cursor unchanged, and the source loop then never ends.
- Re-entrancy and concurrency: the host is single-threaded, and each call or timer check is one atomic step.
