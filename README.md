# BatchingScheduler in Dafny

A model of the `BatchingScheduler` class (src/batching-scheduler/batching-scheduler.ts).
The scheduler invokes an asynchronous task at a configurable rate of tasks per second.
It is a two-state machine, stopped (no timer) or running (a timer armed), driven by a
drift-correcting tick. On each tick it reads the clock and computes the ideal interval
`BASE_PERIOD_MS / rate`. It issues one invocation for every whole interval elapsed since
`lastTick`. It then moves `lastTick` forward by exactly those whole intervals, not to the
clock, and re-arms the timer for the moment the next invocation falls due.

Files:

- `constants.dfy` (module `Constants`): `BASE_PERIOD_MS`, `MIN_RATE_MS`, `MAX_RATE_MS` and the
  default rate. Their values live in a module that is not part of this model.
  `BASE_PERIOD_MS` and `MIN_RATE_MS` are declared without a value, at a positive type.
  `MAX_RATE_MS` is `MIN_RATE_MS + RATE_SPAN`, where `RATE_SPAN` is a non-negative constant
  declared without a value. The only facts used are therefore `BASE_PERIOD_MS > 0` and
  `0 < MIN_RATE_MS <= MAX_RATE_MS`.
- `errors.dfy` (module `Errors`): the failures, as values. They are `RateOutOfRange(value)`,
  thrown by `checkRate`, and `NullTimer`, the null dereference in `setRate` described below.
- `drift.dfy` (module `Drift`): the arithmetic of one tick and what successive ticks add up
  to.
  - `Interval`, `TaskCount`, `Owed`, `Advance` and `NextDelay` are the values the tick
    computes.
  - `Step` is the effect of a tick on `lastTick` and on the invocation count; `Replay` is the
    effect of many ticks.
  - The ledger functions `Issued` and `Consumed` sum a history of ticks.
- `batching_scheduler.dfy` (module `Scheduling`): `checkRate` as a function, and the class
  with its fields `rate`, `timer` (the `timerId` handle: `Unarmed` for null, `Armed(delay)`
  for a pending timeout) and `lastTick`.
  - `Date.now()` becomes clock parameters: `now` for the constructor, and `now1`/`now2` for
    the two readings a tick takes.
  - Each invocation of the task increments a ghost counter `issued`.
  - A ghost `ledger` records what each tick issued and at which interval.

The model follows the code as written:

- There is no batch-size or timer-resolution formula. The only batching is the
  `floor(elapsed / expectedInterval)` count of a tick.
- `lastTick` is set once, when the object is created (line 10). `start` and `setRate`
  never reset it, so a start after a long pause issues a catch-up burst (`CatchUpBurst`).
- `setRate` with a new valid rate while stopped stores the rate first (line 23). It then
  calls `close()` on a null `timerId` (line 25). The model returns `Fail(NullTimer)` in
  that state, with the rate already overwritten and nothing else changed.

## Model

| member | source | states |
|---|---|---|
| Scheduling.CheckRate | src/batching-scheduler/batching-scheduler.ts:46-50 | passes exactly when MIN_RATE_MS <= value <= MAX_RATE_MS; otherwise fails with RateOutOfRange carrying the rejected value; an accepted rate is positive |
| Scheduling.BatchingScheduler.constructor | src/batching-scheduler/batching-scheduler.ts:8-17 | given an accepted rate, stores it, starts with no timer, `lastTick` at the creation clock, nothing issued, and the class invariant established |
| Scheduling.BatchingScheduler.Create | src/batching-scheduler/batching-scheduler.ts:8-17 | `new BatchingScheduler(task, initialRate = 1)`: fails with RateOutOfRange(initialRate) and no object exactly when checkRate rejects; otherwise a fresh, valid, stopped scheduler with rate == initialRate and lastTick == now |
| Scheduling.BatchingScheduler.SetRate | src/batching-scheduler/batching-scheduler.ts:19-28 | rejected rate: RateOutOfRange and nothing changes; same rate: nothing changes (no cancel, no tick); new rate while running: rate replaced and exactly one tick at the new rate from the carried-over lastTick, timer re-armed; new rate while stopped: NullTimer with the rate already replaced and lastTick, issued and the timer untouched |
| Scheduling.BatchingScheduler.Stop | src/batching-scheduler/batching-scheduler.ts:30-37 | ends with no timer; rate, lastTick and the invocations issued are untouched; when already stopped nothing changes at all (idempotent) |
| Scheduling.BatchingScheduler.Start | src/batching-scheduler/batching-scheduler.ts:39-44 | when running, nothing changes; when stopped, one tick from the existing lastTick (never reset); ends running at the same rate |
| Scheduling.BatchingScheduler.Loop | src/batching-scheduler/batching-scheduler.ts:52-68 | issues Owed(now1 - lastTick) invocations, moves lastTick to Advance (never backwards), keeps 0 <= now1 - lastTick < interval when now1 >= old lastTick, re-arms with a delay >= 0 that is <= interval when now2 >= lastTick, appends the tick to the ledger so that lastTick - origin == Consumed(ledger) and issued == Issued(ledger) |
| Constants.Max | src/batching-scheduler/batching-scheduler.ts:66 | `Math.max`: the result is at least both arguments and is one of them |
| Drift.TaskCount | src/batching-scheduler/batching-scheduler.ts:56 | `Math.floor(elapsed / expectedInterval)` over exact reals, negative when the clock is behind lastTick (no contract; characterised through Owed by OwedBounds and OwedUnique) |
| Drift.Owed | src/batching-scheduler/batching-scheduler.ts:56-60 | the invocations the counting loop issues: taskCount when positive, none otherwise (no contract; characterised by OwedBounds and OwedUnique) |
| Drift.Advance | src/batching-scheduler/batching-scheduler.ts:62-64 | the new lastTick: moved by count * interval when the count is positive, unchanged otherwise (no contract; characterised by AdvanceByOwed and AdvanceBounds) |
| Drift.Step | src/batching-scheduler/batching-scheduler.ts:53-64 | one tick's effect on lastTick and the number of invocations issued; BatchingScheduler.TickedAt states every Loop as one Step (no contract; the subject of TwoTicksAsOne) |
| Drift.Replay | src/batching-scheduler/batching-scheduler.ts:53-67 | successive timer firings at one rate, at the given clock readings, as repeated Steps (no contract; the subject of ReplayIsOneTick and Convergence) |
| Drift.Interval | src/batching-scheduler/batching-scheduler.ts:55 | the interval is positive and interval * rate == BASE_PERIOD_MS |
| Drift.NextDelay | src/batching-scheduler/batching-scheduler.ts:66 | the delay is never negative, never fires before lastTick + interval, fires exactly at lastTick + interval when positive, and is at most one interval when the clock has reached lastTick |
| Drift.OwedBounds | src/batching-scheduler/batching-scheduler.ts:56-60 | the invocations a tick issues are whole intervals that fit in the elapsed time, and one more interval would not fit |
| Drift.OwedUnique | src/batching-scheduler/batching-scheduler.ts:56-60 | any count whose intervals fit in the elapsed time, with one more not fitting, is the count the tick issues |
| Drift.CatchUpBurst | src/batching-scheduler/batching-scheduler.ts:53-60 | after a pause of at least k intervals since lastTick, the next tick issues at least k invocations at once; as start (39-44) does not reset lastTick, which is set once at creation (10), this is the burst after a late start |
| Drift.AdvanceByOwed | src/batching-scheduler/batching-scheduler.ts:62-64 | lastTick moves by exactly count * interval, whatever the count |
| Drift.AdvanceBounds | src/batching-scheduler/batching-scheduler.ts:62-64 | lastTick never decreases; with the clock at or past lastTick it stays at or before the clock and within one interval of it; with less than one interval elapsed it does not move |
| Drift.TickFromTaskCount | src/batching-scheduler/batching-scheduler.ts:56-64 | the bridge Loop uses from the raw `taskCount` and its `if (taskCount > 0)` branch to Owed and Advance; it gathers what OwedBounds, AdvanceByOwed and AdvanceBounds establish, and adds nothing beyond them |
| Drift.ConsumedNonNegative | src/batching-scheduler/batching-scheduler.ts:62-64 | the time accounted for by any history of ticks is never negative |
| Drift.TwoTicksCount | src/batching-scheduler/batching-scheduler.ts:53-64 | what a second tick issues completes what the first issued: together they issue what one tick at the later clock would |
| Drift.TwoTicksAsOne | src/batching-scheduler/batching-scheduler.ts:53-64 | two ticks at non-decreasing clock readings leave lastTick and the invocation count exactly as one tick at the later reading |
| Drift.ReplayIsOneTick | src/batching-scheduler/batching-scheduler.ts:53-67 | drift correction: any series of ticks at non-decreasing clock readings, however jittered, ends where a single tick at the last reading would |
| Drift.OwedAtRate | src/batching-scheduler/batching-scheduler.ts:55-56 | a tick after span milliseconds issues a count within one of rate * span / BASE_PERIOD_MS |
| Drift.Convergence | src/batching-scheduler/batching-scheduler.ts:52-67 | over any series of ticks at one rate, the invocations issued are within one of rate * elapsed / BASE_PERIOD_MS |

## Left out

- src/main.ts, the demo driver. It is timing glue built from `sleepMs`, `Math.random()` and a fixed call sequence, and its rates depend on constants whose values are not part of this model.
- src/batching-scheduler/errors.ts, which only formats the error message. The failure is the value `RateOutOfRange(value)`.
- `./constants`, `./types` and `app/scheduler` are not part of this model. `BASE_PERIOD_MS`, `MIN_RATE_MS` and `RATE_SPAN` are declared without values, so `BASE_PERIOD_MS > 0` and `0 < MIN_RATE_MS <= MAX_RATE_MS` are their only assumed facts.
- Real timers, `Date.now()` and the event loop. The clock readings are parameters (`now`, `now1`, `now2`). The timer is `Unarmed` or `Armed(delay)`. A timer firing is modelled as a call of `Loop` on the same object.
- Scheduling.BatchingScheduler.Loop: `setTimeout(this.loop, nextDelay)` (line 67) passes the method without binding it to the scheduler. The model gives the evidently intended behaviour, where each later tick runs on the same object. As written, the callback does not run with the scheduler as `this`, so it cannot tick the object.
- Task execution, the Promise `.catch(console.error)` of each invocation, and the `console.log` calls. These are asynchronous foreign calls and logging. Each invocation is counted by the ghost `issued` and not run.
- IEEE floating-point rounding of `BASE_PERIOD_MS / rate`, of `taskCount * expectedInterval` and of `Math.floor`. Time and rates are exact reals, and `Math.floor` is `.Floor`. With rounding, the exact identities (`lastTick` moves by exactly whole intervals; `Convergence`) hold only up to rounding error.
- Scheduling.CheckRate: a rate is a real number here, so NaN cannot be expressed. In the source NaN passes the guard (line 47), since both comparisons with NaN are false. `setRate(NaN)` on a running scheduler then stores NaN, and every later tick computes a NaN `taskCount`, issues nothing and re-arms the timer with a NaN delay (lines 55-67): the scheduler stalls. The model's guard accepts exactly the real rates in [MIN_RATE_MS, MAX_RATE_MS].
- The `task` constructor parameter is not stored, since its only use is to be invoked.
