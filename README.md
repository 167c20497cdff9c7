# AsyncBatchLimiter: a verified model of the leaky-bucket limiter

`AsyncBatchLimiter` (src/script.py) is an asyncio rate limiter built on the
leaky-bucket algorithm. Its fill `_level` rises by the admitted `amount` and
drains at `max_rate / time_period` units per second of event-loop time. A
caller that finds no room parks a future in the insertion-ordered dictionary
`_waiters`, keyed by its task. Any later capacity probe that finds strict slack
resolves the first waiter whose future is not done yet, so that caller can
re-check early.

The project has three modules:

- `Waiters` (waiters.dfy) is the `_waiters` dictionary. It is a sequence of
  `(task, future state)` entries in insertion order, viewed through `Keys` and
  `Lookup`. It provides assignment to a key (`Register`, which overwrites in
  place when the key is present), `future.cancel()` (`Cancel`), the wake-up
  scan (`WakeFirst`) and `pop(task, None)` (`Unregister`).
- `Bucket` (bucket.dfy) gives the limiter's state and steps as values:
  - the drain arithmetic (`Drained`) and `_leak` (`Leaked`)
  - one `has_capacity` probe (`Probe`)
  - one turn of the `acquire` loop after a refusal (`Suspend`)
  - the admission step (`Admit`)
  - the whole `acquire` call (`Retry`, `AcquireSpec`)

  Properties of these definitions are proved as lemmas. The module also models
  the admission line as the source writes it (see Findings).
- `Limiter` (limiter.dfy) has the class `AsyncBatchLimiter`. Its fields are the
  source's fields and its methods update them in place:
  - `Leak` and `HasCapacity` with its scan loop
  - `Acquire` with its probe loop
  - `Enter` and `Exit`

  Each method is proved to produce exactly the state the `Bucket` definition
  gives. The class invariant `Valid` is: the configuration is positive, the
  fill is non-negative, and no task holds two entries.

The event loop's clock is an explicit `now` argument. The suspension inside
`acquire` is abstracted as a sequence of `Attempt`s. Each attempt gives the
clock reading of the next probe and how the wait after a refusal ended: a peer
resolved the future early, or the wait timed out. An `acquire` that runs out of
supplied attempts reports `Waiting`.

## Model

| member | source | states |
|---|---|---|
| Limiter.AsyncBatchLimiter.constructor | src/script.py:16-22 | Construction leaves an empty bucket (`level == 0`), a zero timestamp and no waiters, stores `maxRate` and `timePeriod` (which defaults to 60 seconds), and sets `ratePerSec == maxRate / timePeriod`; the three configuration fields are `const`, so nothing reassigns them |
| Bucket.Drained | src/script.py:32-35 | The guarded, clamped drain: the result is never negative and never exceeds the fill it started from (`0 <= r <= level`) |
| Bucket.Leaked | src/script.py:28-36 | `_leak` as a state step: keeps the invariant (fill non-negative, keys distinct), never raises the fill, sets `lastCheck` to `now`, and leaves the waiters unchanged |
| Limiter.AsyncBatchLimiter.Leak | src/script.py:28-36 | `_leak` yields exactly the `Leaked` state: the fill never goes negative and never rises, an empty bucket stays empty, `lastCheck` becomes `now`, and the waiters are untouched |
| Bucket.DrainedCases | src/script.py:32-35 | The drained fill is `level - elapsed * rate` when that is positive, and otherwise zero, which happens only when the drain covers the whole fill |
| Bucket.DrainedCompose | src/script.py:32-36 | Draining over two consecutive intervals gives the same fill as draining once over their sum |
| Bucket.DrainedFullPeriod | src/script.py:33-35 | A fill of at most `maxRate` is fully drained once `timePeriod` seconds have passed |
| Bucket.LevelAtSplit | src/script.py:28-36 | A drain up to `later` passes through the fill drained up to any earlier `now` |
| Limiter.AsyncBatchLimiter.HasCapacity | src/script.py:38-55 | `has_capacity` (leak, the three-way comparison, the scan loop over `waiters`; `amount` defaults to 1) yields exactly `Probe`'s answer and state and keeps the class invariant |
| Bucket.Probe | src/script.py:38-55 | The answer is true exactly when the drained fill plus `amount` is at most `maxRate` (all three branches agree); the fill is the drained fill, `lastCheck` is `now`, and the keys and their order are unchanged |
| Bucket.ProbeWakesFirstOnly | src/script.py:44-53 | Only the first entry with a pending future can change, only on strict slack, and only from pending to resolved; on strict slack that entry is always resolved |
| Bucket.ProbePendingCount | src/script.py:47-53 | A probe resolves exactly one future when it finds strict slack and some future is pending, and none otherwise |
| Bucket.ProbeFullAfterIdle | src/script.py:33-45 | After a whole idle `timePeriod` a probe for `maxRate` units succeeds |
| Waiters.WakeFirst | src/script.py:50-53 | The scan resolves the first entry in insertion order whose future is pending; every other entry and the order of the keys are unchanged |
| Waiters.WakeFirstPendingCount | src/script.py:50-53 | Waking lowers the number of pending futures by one exactly when it was positive |
| Waiters.WakeFirstKeepsDone | src/script.py:50-53 | The scan skips entries whose future is already done, so such an entry keeps its state |
| Bucket.ProbeKeepsDone | src/script.py:44-53 | A probe leaves an entry whose future is already done (resolved or cancelled) as it was |
| Waiters.FirstPending | src/script.py:50-51 | The position found is the first entry whose future is pending, and none is found exactly when no future is pending |
| Waiters.Settle | src/script.py:78 | Setting one entry's future in place (assignment to an existing key; also used for a peer's wake-up and for `cancel()`) keeps the keys and their order, gives `t` the new future state when it has an entry (and no entry otherwise), and leaves every other key's lookup unchanged |
| Waiters.Register | src/script.py:77-78 | Assignment to a task's key keeps the position of an existing key and appends a new one; the task now maps to a pending future; every other key maps as before; keys stay distinct |
| Waiters.RegisterInPlace | src/script.py:78 | Re-registering a task that already has an entry keeps the registry's length, puts a pending future at that entry's own position, and leaves every other entry as it was |
| Waiters.Cancel | src/script.py:86 | `future.cancel()` turns a pending future into a cancelled one and leaves a done future, and every other entry, as it was |
| Waiters.Unregister | src/script.py:88 | `pop(task, None)` removes the task's entry if there is one, tolerates its absence, and keeps the remaining keys distinct and in order; other keys map as before |
| Waiters.UnregisterIdempotent | src/script.py:88 | Removing a task's entry twice is the same as removing it once |
| Waiters.RegisterUnregister | src/script.py:78-88 | Registering a task that had no entry and then popping it restores the registry exactly |
| Bucket.Suspend | src/script.py:77-86 | After a refused probe, the caller's key is overwritten in place or appended, its future ends resolved (woken early) or cancelled (timed out), and the fill and timestamp are unchanged |
| Bucket.SuspendPeers | src/script.py:77-86 | A suspension changes no other task's entry |
| Bucket.Admit | src/script.py:88-89 | Admission as intended: the caller's entry is removed if present, the fill rises by exactly `amount`, and the remaining keys keep their order |
| Bucket.AdmitPeers | src/script.py:88 | Admission changes no other task's entry |
| Bucket.Retry | src/script.py:72-89 | The probe loop never reports an overflow and never moves the clock backwards; on admission the fill is between `amount` and `maxRate` and the caller has no entry; while still waiting the fill has only drained |
| Bucket.RetryAt | src/script.py:72-89 | The one-turn unfolding of `Retry` that the loop invariant of `Acquire` needs, not a property of its own: turn `i` admits after a successful probe, otherwise suspends and continues with the remaining attempts, whose clock readings stay ordered |
| Bucket.RetryKeys | src/script.py:72-89 | After the loop, the keys are the old keys without the caller if it was admitted; otherwise they are the old keys, with the caller appended if it had no entry and was suspended |
| Bucket.RetryParkedClock | src/script.py:72-86 | A caller still waiting after its last attempt was stamped at that attempt's clock reading |
| Bucket.RetryParkedEntry | src/script.py:77-86 | A caller still waiting holds an entry whose future is done, either resolved or cancelled |
| Bucket.RetryPeers | src/script.py:50-53 | The loop of one caller can only wake another task's pending entry, and never adds, removes or cancels it |
| Bucket.AcquireSpec | src/script.py:57-91 | `acquire` reports a capacity overflow exactly when `amount > maxRate`, and then leaves the state unchanged; an admitted call leaves the fill at most `maxRate` and the caller without an entry |
| Bucket.RetryAdmitsOnceDrained | src/script.py:72-89 | With no other activity, the loop admits the caller by its last attempt whenever the bucket, drained up to that attempt's clock reading, has room for `amount` |
| Bucket.SuspendedLevelAt | src/script.py:72-86 | A refused probe followed by a suspension leaves the fill drained as if neither had happened |
| Bucket.ProbeLevelAt | src/script.py:31-42 | A probe drains the bucket up to its reading and no further, so the fill seen at any later reading is unchanged |
| Bucket.SuspendLevelAt | src/script.py:77-86 | Registering, waiting and cancelling a future do not touch the fill or the drain time, so the fill seen later is unchanged |
| Bucket.AdmittedWithinPeriod | src/script.py:64-89 | A request of at most `maxRate` on a bucket filled to at most `maxRate` is admitted by an attempt made a whole `timePeriod` after the last drain |
| Bucket.AdmittedWithoutDelay | src/script.py:42-48 | At the clock reading of the last check, a request that fits (an exact fill to `maxRate` included) is admitted at once and the fill rises by exactly `amount` |
| Limiter.AsyncBatchLimiter.Acquire | src/script.py:57-91 | `acquire` on the object (`amount` defaults to 1): an overflow is refused before any field changes; otherwise the loop of `HasCapacity` and `Park`, followed by `Charge`, yields exactly `AcquireSpec`'s outcome and state |
| Limiter.AsyncBatchLimiter.Park | src/script.py:77-86 | One suspension on the object yields exactly `Suspend`'s state |
| Limiter.AsyncBatchLimiter.Charge | src/script.py:88-89 | The statements after the loop (as intended) yield exactly `Admit`'s state |
| Limiter.AsyncBatchLimiter.Enter | src/script.py:93-95 | Scoped entry is `acquire(1)` |
| Limiter.AsyncBatchLimiter.Exit | src/script.py:97-103 | Scoped exit changes nothing |
| Bucket.AwaitPopped | src/script.py:88 | Awaiting the popped value returns only when it is a resolved future |
| Bucket.AdmitAsWritten | src/script.py:88-89 | Admission as written returns, and raises the fill, only when the caller's entry holds a resolved future; the caller's entry is popped whichever way the await ends |
| Bucket.FirstProbeAdmissionRaises | src/script.py:72-89 | A caller with no entry admitted at its first probe makes the as-written line raise with the fill unchanged, while the intended admission charges `amount` |
| Bucket.FreshLimiterFirstAcquire | src/script.py:16-89 | On a fresh limiter (500 units per 60 s), the first `acquire(1)` raises as written and is admitted with a fill of 1 as intended |
| Bucket.TimedOutLastWaitRaises | src/script.py:83-89 | A caller whose last wait timed out awaits a cancelled future, so the as-written line raises and leaves the fill unchanged |
| Bucket.TimedOutThenAdmittedRaises | src/script.py:72-89 | After a wait that timed out, a successful probe at any later reading leaves the caller's future cancelled, so the as-written line raises CancelledError and the fill is not raised |

## Left out

- The asyncio machinery (`get_running_loop`, `current_task`, `create_future`, `wait_for`, `shield`, the `TimeoutError` handler, task cancellation) is not modelled. The clock is a `now` argument. Each suspension is an `Attempt` that says how the wait ended.
- The wait's timeout value `amount / ratePerSec` is not modelled. Only whether the wait ended early or timed out matters to the state.
- Concurrency between tasks is not modelled. The model is sequential: peers that act while a caller is suspended (probing, admitting, waking it) appear only through how that caller's wait ends. The source itself has no race between a successful probe and the increment, because the only statement between them awaits an entry that is absent or already done, and that does not hand control to another task. `RetryAdmitsOnceDrained` and `AdmittedWithinPeriod` hold only when no peer acts between the caller's attempts.
- Bucket.Retry: liveness is stated only for the attempts supplied. A call that runs out of them reports `Waiting` and says nothing about later wake-ups.
- Limiter.AsyncBatchLimiter.Leak: `_leak` reads the clock twice, once for the elapsed time and once for the new timestamp. The model uses a single reading `now` for both, so time that passes between the two reads is not modelled.
- Floating point is not modelled. `level`, the rates and the clock are mathematical reals. The exact-equality branch of `has_capacity` is real equality, and rounding is out of scope.
- Limiter.AsyncBatchLimiter.constructor requires `0 < maxRate` and `0 < timePeriod`, and Limiter.AsyncBatchLimiter.Acquire requires `0 < amount`. The source does not check these. A zero period raises `ZeroDivisionError` in `__init__`, and non-positive rates or amounts give a limiter with no meaningful behaviour.
- The `assert task is not None` in `acquire` is not modelled. The caller's task is always an explicit `TaskId`.
- src/batch.py is not part of this model. It is HTTP fetching and I/O plumbing that uses the limiter.

## Findings

| source | as written | input that shows it | evidently intended | confidence | as-written member | corrected member |
|---|---|---|---|---|---|---|
| src/script.py:88 | `await self._waiters.pop(task, None)` awaits the popped value. It awaits `None` (`TypeError`) when the caller was admitted at its first probe and never registered. It awaits a cancelled future (`CancelledError`) when its last wait timed out. Either way `_level` is never raised. | A fresh `AsyncBatchLimiter(500, 60)` and one `acquire(1)`: the first probe succeeds, nothing was registered, and `await None` raises | Remove the caller's entry if present, tolerate its absence, then raise the fill by `amount` | not executed | Bucket.FreshLimiterFirstAcquire | Limiter.AsyncBatchLimiter.Charge |
