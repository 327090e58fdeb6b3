# Verified model of govnilo's scheduler, store and scoring

govnilo runs game checkers at configured rates and counts their points. This project models four of its parts in
Dafny and proves what they are relied on for.

- **Entity store** (`Redis.dfy`, `RedisStore.dfy`, `StoreRuns.dfy`). Values with a time to live and an index of their
  ids, scored by creation second, in one Redis key space. `Storage` holds the operations as methods; `StoreRuns` is
  the same store under any interleaving of clients, clock, eviction, a cleanup whose read and removal are two steps,
  and random getters whose read and delete are two steps.
- **Worker pool and autoscaler** (`Handshake.dfy`, `TaskPool.dfy`, `Statistics.dfy`, `Scaling.dfy`,
  `RateRunner.dfy`, `OptionRaces.dfy`). The stop handshake as a step machine, the pool and runner as classes over it, the sliding-window
  percentile, the sizing rule, and the control loop that joins them.
- **Rate limiter** (`RateLimit.dfy`). The condition-variable protocol as a step machine over any number of acquirers,
  spec changes, context ends and clock steps, in front of a token bucket of burst one kept as the time of its next
  grant; `Limiter` is its object, whose methods are proved against the machine's steps.
- **Settings, normalization, sync and scoring** (`Settings.dfy`, `Normalize.dfy`, `Controller.dfy`, `Scoring.dfy`).
  Validation, the lookup tables, the in-place normalization of points, the sync that pushes options to the limiters,
  and the counters a check moves.

Durations are whole nanoseconds, points, rates and grant times exact reals, a nil pointer is `None`, a Go error is the
`Err`, `Fail` or `Some` of its result. The clock, what Redis delivers, the outcome of a check and the schedule of goroutines are
parameters or steps. `dfyconfig.toml` lists the files.

## Where the code departs from its documentation

The model follows the code; each departure has a lemma.

- The limiter's comment (`pkg/ratelimit/ratelimit.go:18-20`) promises the bound on every window. It holds if and only
  if the specs set later all repeat the first or all pause the limiter (`KeepsWindowIff`): any new bucket starts full,
  so a limiter that is paused and resumed exceeds its window (`ResumingBreaksTheWindow`).
- Cleanup's comment (`internal/redisbase/impl.go:346`) says it finds what has expired. Whole-second truncation makes
  it select values with up to two seconds left (`CleanupBound`), and nothing early exactly when neither the save nor
  the TTL has a fraction of a second (`CleanupSelectsOnlyExpiredIff`); in every other case a run drops the id of a
  value that can still be read (`CleanupDropsReadable`).
- The normalization comment (`internal/checkerctrl/proto_helpers.go:56-57`) says a zero sum changes nothing. It
  multiplies by zero, which is nothing exactly when all points are zero (`ZeroSumLeavesAloneIff`), so a paused checker
  alone in its service loses its points in the cached message (`PausedCheckerLosesPoints`).
- `pkg/raterunner/p.go:63` means to collect all observations; the loop stops before the newest. `NewestIsIgnoredIff`
  says on which windows that changes the answer, and `NewestIsIgnored` gives one; a window of one observation has no
  answer at all (`GetStat`).
- `pkg/raterunner/raterunner.go:49` says that setting the limiter first avoids races with the run options. It does if and
  only if the concurrent calls ask for one rate (`AlwaysAgreeIff`). The controller's calls come one after the other,
  which is always safe (`SequentialAgrees`).

Four more findings have no comment against them. The id `exp` shares its key with the index, and saving it destroys
the index (`SaveExpDestroysIndex`). A save between cleanup's read and its removal leaves a live value unindexed
(`OverlappingSaveIsLost`). A save between a random getter's read of a stale id and its delete is lost altogether
(`DiscardLosesReadableIff`, `FreshSaveIsDiscarded`). A failed stop, which any shrinking can meet, leaves the scaler's
count wrong for as long as the load asks for that count (`TickSurelyAgreesIff`, `StaleCountStarves`).

## Model

The third column is what the contract states. Definitions without a contract of their own are covered by the lemmas
and methods about them.

| member | source | states |
|---|---|---|
| RateLimit.WindowBound | pkg/ratelimit/ratelimit.go:18-131 | From any reachable state and over any interleaving whose SetSpecs repeat the spec, any half-open window of length Per holds at most Times scheduled grants of the calls not committed to an older bucket: those begun since, those entering, parked or woken, and those on the current bucket. |
| RateLimit.WindowBoundFromNew | pkg/ratelimit/ratelimit.go:33-55 | The same for a limiter built at a positive rate, where it covers every call ever made. |
| RateLimit.WindowBoundFromZero | pkg/raterunner/raterunner.go:286-289 | The same for a limiter built at the zero rate, paused any number of times and then set to a positive rate: every call is covered, the parked and woken ones included. |
| RateLimit.PausingRun | pkg/ratelimit/ratelimit.go:57-88 | A run whose SetSpecs all pause builds no bucket and changes no interval. |
| RateLimit.BucketWindowBound | pkg/ratelimit/ratelimit.go:57-69 | In any state satisfying the invariant, a half-open window n intervals long holds at most n scheduled grants of one bucket, whatever was cancelled before. |
| RateLimit.Pigeonhole | pkg/ratelimit/ratelimit.go:57-69 | Points pairwise one interval apart: at most n of them fit in a half-open window of n intervals. |
| RateLimit.UnchangedRun | pkg/ratelimit/ratelimit.go:71-88 | A run whose SetSpecs repeat the spec keeps the same bucket, and every call but those committed before stays on it. |
| RateLimit.OneCall | pkg/ratelimit/ratelimit.go:90-131 | A new call takes the next slot of the current bucket in four steps, starts no watcher and disturbs no other call. |
| RateLimit.ManyCalls | pkg/ratelimit/ratelimit.go:90-131 | There is a legal run of n new calls at one instant in which the k-th is granted the k-th slot. |
| RateLimit.WindowBoundIsTight | pkg/ratelimit/ratelimit.go:57-131 | From any reachable state with an idle bucket there is a legal run of new calls whose first Times are granted within Per and whose next is granted exactly at its end: the bound is reached, and no slower. |
| RateLimit.SetSpecKeepsBucketIff | pkg/ratelimit/ratelimit.go:71-88 | SetSpec keeps the pointer if and only if the spec is equal or both specs have no bucket. |
| RateLimit.KeepsWindowIff | pkg/ratelimit/ratelimit.go:18-88 | For every positive rate and every set of specs SetSpec may use: all runs keep every window within the first Times and Per, if and only if the specs all repeat the first or all pause it. |
| RateLimit.WindowBoundWhilePausing | pkg/ratelimit/ratelimit.go:71-88 | A limiter that is only ever paused keeps its window. |
| RateLimit.BreaksTheWindow | pkg/ratelimit/ratelimit.go:71-88 | Any other bucketed spec, or any pause followed by the first spec, admits a run with Times + 1 grants in one window. |
| RateLimit.ResumingBreaksTheWindow | pkg/ratelimit/ratelimit.go:71-88 | One input: one per ten, paused and resumed. |
| RateLimit.CancelledWaitGivesSlotBack | pkg/ratelimit/ratelimit.go:129-130 | Over the machine: after a wait on the current bucket is given up, the next call is granted the very slot it waited for when that was the last one taken and still lies ahead, and otherwise the slot behind the last one taken; no other call changes. |
| RateLimit.LaterGrantIsBehind | pkg/ratelimit/ratelimit.go:129-130 | A slot with a later grant of its bucket behind it is not the last one taken. |
| RateLimit.CancelUndoesReserve | pkg/ratelimit/ratelimit.go:129-130 | On one bucket: a reservation given back before anyone else reserved leaves later calls the grant time they would have had. |
| RateLimit.StepInv | pkg/ratelimit/ratelimit.go:57-131 | Every enabled step of every call, watcher, SetSpec, context or clock preserves the inductive invariant. |
| RateLimit.RunInv | pkg/ratelimit/ratelimit.go:57-131 | The invariant holds after every legal run. |
| RateLimit.ProtocolSafety | pkg/ratelimit/ratelimit.go:90-131 | In every reachable state: the bucket is nil exactly when Times is 0 and Per is not; nobody is parked while there is a bucket; a parked call whose context ended has a broadcast still to come; Wait is never called on nil; nil is returned only with a grant whose time has come, and an error only after the context ended. |
| RateLimit.NextStepProgress | pkg/ratelimit/ratelimit.go:98-130 | While its context has ended a call that has not returned has an enabled step that brings it closer to returning an error. |
| RateLimit.EndedContextReturns | pkg/ratelimit/ratelimit.go:90-131 | From any state satisfying the invariant a call whose context has ended can return its error within seven steps of its own and its watcher's, and takes no slot it did not have. |
| RateLimit.EndingReturns | pkg/ratelimit/ratelimit.go:90-131 | Ending the context of any call that has not returned makes it return the error within eight steps. |
| RateLimit.SlotComes | pkg/ratelimit/ratelimit.go:129-130 | A waiting call whose context lives is let through once the clock reaches its slot. |
| RateLimit.ParkedGetsSlot | pkg/ratelimit/ratelimit.go:82-130 | A parked call whose context lives is woken by any spec with a bucket and takes that bucket's first slot at once. |
| RateLimit.FlagBeatsBucket | pkg/ratelimit/ratelimit.go:112-123 | A parked call whose flag is set returns the error even when a bucket comes first, and takes no slot of it. |
| RateLimit.WatcherEnds | pkg/ratelimit/ratelimit.go:99-126 | Once a call is past its watcher, the watcher can end by at most two steps of its own, whatever becomes of the context: no goroutine is left behind. |
| RateLimit.Limiter.constructor | pkg/ratelimit/ratelimit.go:33-55 | A new limiter is the machine's initial state. |
| RateLimit.Limiter.Broadcast | pkg/ratelimit/ratelimit.go:83-85 | Wakes every parked call and no other. |
| RateLimit.Limiter.SetSpec | pkg/ratelimit/ratelimit.go:71-88 | The whole new state is the machine's SetSpec step of the old one, and the spec is the given one. |
| Redis.RangeByScore | internal/redisbase/impl.go:354-356 | Returns distinct ids no later than the cutoff, as many as the batch allows, and none that scores above one left out. |
| RedisStore.KeyForInjective | internal/redisbase/impl.go:341-343 | Keys of different ids differ, and a key is the index key exactly for the id "exp". |
| RedisStore.SaveSound | internal/redisbase/impl.go:158-184 | A save in the second it read the clock keeps every index entry sound. |
| RedisStore.DeleteSound | internal/redisbase/impl.go:311-326 | A delete of any id, "exp" included, keeps the index sound. |
| RedisStore.CleanupSound | internal/redisbase/impl.go:371-382 | Removing any set of ids keeps the index sound and removes exactly those ids. |
| RedisStore.CleanupBound | internal/redisbase/impl.go:347-388 | Every indexed id whose value has expired is selected; every id selected has a value with less than two seconds left, less than one for a TTL of whole seconds. |
| RedisStore.CleanupSelectsOnlyExpiredIff | internal/redisbase/impl.go:345-353 | At every instant from the save on only expired values are selected, if and only if neither the save time nor the TTL has a fraction of a second. |
| RedisStore.SelectedTooEarly | internal/redisbase/impl.go:351-353 | The first instant from the save on at which cleanup selects the id comes before the value expires, if and only if the save time or the TTL has a fraction of a second. |
| StoreRuns.CleanupDropsReadable | internal/redisbase/impl.go:351-377 | For each such save time or TTL, every id and data: an undisturbed run of instantaneous save, clock and cleanup ends with the value still readable and its id out of the index. |
| RedisStore.SaveThenRead | internal/redisbase/impl.go:158-212 | A saved entity is read back until its time to live is over and is not found from then on. |
| RedisStore.Storage.constructor | internal/redisbase/impl.go:142-152 | A new store is empty, and sound for a positive TTL. |
| RedisStore.NewStorage | internal/redisbase/impl.go:102-155 | Fails exactly for a missing client, service or entity name, in this order; else the prefix is built from both names, a zero TTL or batch size takes its default, and any other is kept. |
| RedisStore.Storage.Save | internal/redisbase/impl.go:158-184 | The whole new key space and the result, in every case: empty id, encoding failure, the id "exp" or an index key taken by a live string, success. |
| RedisStore.Storage.GetByID | internal/redisbase/impl.go:187-212 | The result in every case, with the store unchanged. |
| RedisStore.DeleteFailsIff | internal/redisbase/impl.go:316-323 | A delete is reported as failed if and only if its id is not "exp" and the index key is taken by a live string. |
| RedisStore.Storage.Delete | internal/redisbase/impl.go:311-326 | The whole new key space and the result, in every case. |
| RedisStore.Storage.GetMostRecent | internal/redisbase/impl.go:282-308 | On a non-empty index it is the read of an id with the highest score; not found means every indexed value has expired or has less than one second left. |
| RedisStore.NewestGoneBound | internal/redisbase/impl.go:302-307 | If the value of a newest id is gone, every indexed value has less than one second left. |
| RedisStore.Storage.Discard | internal/redisbase/impl.go:249-273 | Drops an unreadable id if the delete is delivered and keeps all that could be read. |
| RedisStore.Storage.Draw | internal/redisbase/impl.go:242-276 | One draw yields the entity of an indexed id, or discards an indexed id that could not be read. |
| RedisStore.Storage.GetRandom | internal/redisbase/impl.go:215-279 | Returns only a live decodable value of an indexed id; deletes only unreadable ids; keeps every readable entity and its index entry; reports not found only when the index has become empty or all draws are spent, each delivered delete having removed one unreadable id (so exactly five when all are delivered); succeeds when everything indexed is readable; never meets an empty id. |
| RedisStore.PrunedMore | internal/redisbase/impl.go:253 | Deleting one more unreadable indexed id leaves exactly the store without it. |
| RedisStore.PrunedKeeps | internal/redisbase/impl.go:227-276 | After pruning every readable entity reads the same and stays indexed, and nothing is added. |
| RedisStore.Storage.CleanupExpired | internal/redisbase/impl.go:347-388 | One uninterrupted cycle removes from the index an answer to the range query and touches no value. |
| StoreRuns.AgreesStep | internal/redisbase/impl.go:158-388 | Every step of client, clock, eviction, cleanup and random getter keeps a stored value in agreement with a plain map with expiry. |
| StoreRuns.LookupIsPlainGet | internal/redisbase/impl.go:187-212 | For every id but "exp" and in every interleaving a lookup returns the last save not deleted and not expired, whatever happened to the index. |
| StoreRuns.ExpLookupIsPlainGetIff | internal/redisbase/impl.go:146-212 | For the id "exp" it does so if and only if the index is empty. |
| StoreRuns.SaveExpDestroysIndex | internal/redisbase/impl.go:146-180 | Saving the id "exp" reports failure, yet the value is readable and the index is gone. |
| StoreRuns.SaveIndexesIff | internal/redisbase/impl.go:158-184 | A save succeeds and indexes its id if and only if the id is not "exp" and the index key holds no string. |
| StoreRuns.EvictSound | internal/redisbase/impl.go:176 | Redis dropping an expired key changes neither soundness nor the index. |
| StoreRuns.EvictIsUnseen | internal/redisbase/impl.go:176 | Redis may drop a key if and only if it holds an expired string, and no lookup can tell afterwards. |
| StoreRuns.NobodyWaits | internal/redisbase/impl.go:158-388 | Clients, clock, removal and getters always have their step. |
| StoreRuns.RunSound | internal/redisbase/impl.go:158-388 | The index is sound after every interleaving of instantaneous saves with everything else, random getters included. |
| StoreRuns.CleanupBoundOnRuns | internal/redisbase/impl.go:347-388 | Both sides of the cleanup bound, in every state any such interleaving reaches. |
| StoreRuns.SaveComplete | internal/redisbase/impl.go:158-184 | A save of an id no cleanup is about to remove keeps every live value indexed. |
| StoreRuns.CleanReadComplete | internal/redisbase/impl.go:351-356 | What a cleanup reads is about to expire, so its removal will be harmless. |
| StoreRuns.CleanRemoveCompleteIff | internal/redisbase/impl.go:371-377 | The removal keeps every live value indexed if and only if none of what was read has been given a new life. |
| StoreRuns.RunComplete | internal/redisbase/impl.go:158-388 | Completeness of the index over every run in which no id is saved between the read and the removal of a cleanup that read it. |
| StoreRuns.LiveValuesAreIndexed | internal/redisbase/impl.go:158-388 | In those runs every id a plain map would still hold for at least the slack is in the index. |
| StoreRuns.OverlapOrphans | internal/redisbase/impl.go:356-377 | A save between the two steps leaves a value with its whole life ahead and no index entry. |
| StoreRuns.OverlappingSaveIsLost | internal/redisbase/impl.go:356-377 | Such a run exists from the empty store, for every TTL and id. |
| StoreRuns.AgreesSinceStep | internal/redisbase/impl.go:248-273 | Every step after a getter's read keeps the id's value either what a map filled since then holds, or what it was, or absent. |
| StoreRuns.DrawnIsIndexed | internal/redisbase/impl.go:229-248 | Over every instantaneous run, a getter draws only indexed ids, neither empty nor "exp", and reads what a plain map holds. |
| StoreRuns.DiscardLosesReadableIff | internal/redisbase/impl.go:248-273 | Over any steps between a getter's unreadable read and its delete of the id: the delete removes a readable value if and only if those steps by themselves leave one saved; and one read is followed by one delete. |
| StoreRuns.FreshSaveIsDiscarded | internal/redisbase/impl.go:248-253 | Such a run from the empty store, for every TTL, id and data: the save between the two steps is lost, value and entry. |
| StoreRuns.CycleRemoves | internal/redisbase/impl.go:351-377 | One cycle removes min(batch, eligible) ids, all eligible. |
| StoreRuns.BacklogDrains | internal/redisbase/impl.go:351-377 | At a fixed cutoff k cycles leave exactly the backlog minus k batches, so ceil(E/B) cycles drain it, and no id scored after the cutoff is touched. |
| Handshake.StepInv | internal/taskrunner/task.go:30-52 | Every step of the worker and of any number of stop calls preserves the handshake invariant. |
| Handshake.RunInv | internal/taskrunner/task.go:30-52 | The invariant holds after every legal run. |
| Handshake.LateRuns | internal/taskrunner/task.go:203-224 | Every schedule after the flag begins at most one Run, and none unless the worker was about to begin it. |
| Handshake.HandshakeSafety | internal/taskrunner/task.go:203-224 | From every reachable point on, in every schedule: at most one Run begins after the flag, none after a Run that the cancel met, at most one send is made, a pending send finds the channel empty, and the flag precedes the cancel. |
| Handshake.RestartsUntilStopped | internal/taskrunner/task.go:203-213 | A worker nobody has stopped goes on to its next Run within three steps. |
| Handshake.NoTimeoutByItself | internal/taskrunner/task.go:44-51 | In no schedule is a stop given up whose context never ends. |
| Handshake.StopResult | internal/taskrunner/task.go:30-52 | Stop returns nil only when the worker has left its last Run, an error only when its own context ended. |
| Handshake.OneStopSucceeds | internal/taskrunner/task.go:36-51 | Of two stops of one instance at most one returns nil. |
| Handshake.NextStepProgress | internal/taskrunner/task.go:30-52 | A lone unfinished stop always has an enabled step of itself or the worker that brings it closer to its end. |
| Handshake.LoneStopCanSucceed | internal/taskrunner/task.go:30-52 | Wherever the worker is, a lone stop can return nil within eight steps, with no timeout. |
| Handshake.StopCanTimeOut | internal/taskrunner/task.go:44-51 | With nothing on the channel a stop can also end in a timeout. |
| Handshake.StopScheduleExists | internal/taskrunner/task.go:30-52 | Some complete schedule of one stop always exists. |
| Handshake.StoppedOutcome | internal/taskrunner/task.go:30-52 | After one complete stop, in any schedule, the worker is gone or the timeout is on record. |
| Handshake.WorkerRunsOn | internal/taskrunner/task.go:203-224 | A worker left alone keeps its record of stops, and one that is gone stays gone. |
| Handshake.OwnStep | internal/taskrunner/task.go:203-224 | Every enabled step of a worker is one it takes by itself. |
| Handshake.RanOnThenStopped | internal/taskrunner/task.go:30-52 | Steps of a worker before its stop belong to the stop's schedule. |
| Handshake.StoppedThenRanOn | internal/taskrunner/task.go:30-52 | So do its steps after the stop has returned. |
| TaskPool.GrowConserved | internal/taskrunner/task.go:189-232 | Growing keeps every worker accounted for. |
| TaskPool.ShrinkConserved | internal/taskrunner/task.go:234-251 | Shrinking keeps every worker accounted for, whichever stops time out and however the other workers run on meanwhile. |
| TaskPool.StepConserved | internal/taskrunner/task.go:147-265 | Any resize or any progress of a worker does. |
| TaskPool.PoolSteps | internal/taskrunner/task.go:147-265 | Every resize and every enabled step of any worker is among the steps considered. |
| TaskPool.RunConserved | internal/taskrunner/task.go:147-265 | After any run from the empty pool, every worker ever started is in the pool and never stopped, or out of it, stopped once, and gone or behind a stop that timed out. |
| TaskPool.ResizeLength | internal/taskrunner/task.go:184-251 | A resize leaves exactly the requested length and the common prefix in order, even when stops fail. |
| TaskPool.ResizeStopsOnce | internal/taskrunner/task.go:239-251 | A resize adds exactly one stop to each instance it removes and none to any other. |
| TaskPool.TaskState.StopInstance | internal/taskrunner/task.go:240-244 | One instance moves by a complete stop schedule while every other worker runs on by itself; the result says whether it timed out. |
| TaskPool.TaskState.Grow | internal/taskrunner/task.go:189-227 | Appends the missing fresh instances behind the old ones. |
| TaskPool.TaskState.StopLast | internal/taskrunner/task.go:240-250 | Stops the last instance and drops it, stopped or not. |
| TaskPool.TaskState.Shrink | internal/taskrunner/task.go:234-251 | Stops and drops exactly the tail; the result counts the timeouts. |
| TaskPool.TaskState.Update | internal/taskrunner/task.go:181-264 | The pool is resized to the target whatever the result; the error carries the number of timeouts and of stops; a negative target stops the whole pool and then panics. |
| TaskPool.TaskRunner.constructor | internal/taskrunner/task.go:69-77 | A new runner has no tasks. |
| TaskPool.TaskRunner.RegisterTask | internal/taskrunner/task.go:128-145 | Fails exactly for a taken name, else adds an empty pool and changes no other task. |
| TaskPool.TaskRunner.UpdateTaskInstances | internal/taskrunner/task.go:147-265 | Fails for an unknown name, else resizes that pool alone, with the error of its timeouts, for every count, negative ones included. |
| Statistics.TrimIsFilter | pkg/raterunner/p.go:83-93 | On a queue sorted by time, removing an outdated prefix is filtering by the window. |
| Statistics.FilterTwice | pkg/raterunner/p.go:83-93 | Filtering what was filtered earlier is filtering the whole history now. |
| Statistics.FilterSorted | pkg/raterunner/p.go:83-93 | The filtered queue stays sorted and holds only in-window members of the history. |
| Statistics.WindowIsSuffix | pkg/raterunner/p.go:83-93 | In plain times: what is kept of a sorted history is everything from some position on, with every later timestamp at least now - window and every earlier one below it. |
| Statistics.KeptFromUnique | pkg/raterunner/p.go:83-93 | There is only one such position. |
| Statistics.AppendIsFilter | pkg/raterunner/p.go:46-47 | Pushing to what was filtered earlier and trimming now filters the whole history now. |
| Statistics.SortCorrect | pkg/raterunner/p.go:74 | The sorted snapshot ascends, is a permutation, and covers what the snapshot covers. |
| Statistics.SortedPositionIsQuantile | pkg/raterunner/p.go:74-80 | The first position whose running count reaches the need holds the least value that covers the need. |
| Statistics.QuantileIsUnique | pkg/raterunner/p.go:80 | There is at most one such value, so the specification fixes the result. |
| Statistics.EmpiricalQuantile | pkg/raterunner/p.go:80 | The scan stops at the first position whose count reaches p times the length. |
| Statistics.SortedQuantile | pkg/raterunner/p.go:74-80 | Sorting and scanning yields the least covering value. |
| Statistics.Quantile | pkg/raterunner/p.go:74-80 | The result is the smallest value covering a fraction p of the values. |
| Statistics.QuantileCovers | pkg/raterunner/p.go:80 | In plain numbers: the value is one of them, at least p times their number are at most the value, and fewer are at most any smaller one. |
| Statistics.Percentile.constructor | pkg/raterunner/p.go:27-37 | A new percentile has an empty history. |
| Statistics.Percentile.CleanOutdated | pkg/raterunner/p.go:83-93 | Removes exactly the outdated prefix. |
| Statistics.Percentile.Append | pkg/raterunner/p.go:39-49 | With a clock that never goes back, the queue is the append history from the position on where timestamps reach now - window. |
| Statistics.Percentile.Collect | pkg/raterunner/p.go:63-66 | Collects every value of the queue but the newest. |
| Statistics.Percentile.GetStat | pkg/raterunner/p.go:53-81 | With the position where timestamps reach now - window: fails exactly when at most one observation lies from there on, else returns the smallest value covering a fraction p of all of them but the newest. |
| Statistics.QuantileWithOneMore | pkg/raterunner/p.go:63-80 | The quantile after one more observation, read off the sorted values without it. |
| Statistics.NewestIsIgnoredIff | pkg/raterunner/p.go:63-80 | For every window and fraction, the collected quantile is that of the whole window if and only if the newest value equals it, or is greater and the position need not move or meets an equal neighbour, or is smaller and the position moves or meets an equal neighbour. |
| Statistics.NewestIsIgnored | pkg/raterunner/p.go:63-66 | One window on which it is not. |
| Scaling.NeededIsEnough | pkg/raterunner/raterunner.go:98-106 | N * Per > Times * duration. |
| Scaling.NeededIsNotTooMany | pkg/raterunner/raterunner.go:98-106 | N <= 1.2 * Times * duration / Per + 1. |
| Scaling.NeededIsMonotone | pkg/raterunner/raterunner.go:98-106 | N is monotone in Times and duration and antitone in Per. |
| Scaling.NeededExactly | pkg/raterunner/raterunner.go:98-106 | N - 1 is the whole part of Times * duration / Per, times 1.2, rounded down. |
| Scaling.TargetInRange | pkg/raterunner/raterunner.go:175-184 | The resize target is at least 1, exactly a positive cap that is exceeded, and the uncapped count otherwise. |
| Scaling.TickAgreesIff | pkg/raterunner/raterunner.go:192-207 | A tick ends with the count equal to the pool's length if and only if it resized without error or had nothing to do and agreed before. |
| Scaling.TickSurelyAgreesIff | pkg/raterunner/raterunner.go:192-207 | Known before the tick, for every conserved pool: all outcomes of the tick agree, if and only if it asks for no fewer workers than there are, or does nothing and agreed before. |
| Scaling.TailCanTimeOut | internal/taskrunner/task.go:239-251 | Every shrinking of a conserved pool can fail, with no worker of the tail stopping in time. |
| Scaling.AgreementWithoutErrors | pkg/raterunner/raterunner.go:192-207 | Over all ticks without a reported error the count is the pool's length and the workers are conserved. |
| Scaling.AgreementRestored | pkg/raterunner/raterunner.go:192-207 | After a failure the next tick with a different target and no error restores the agreement. |
| Scaling.FailureIsPossible | pkg/raterunner/raterunner.go:201-204 | Two agreed workers, one of which does not stop in time: the tick reports an error and the agreement is lost. |
| Scaling.StaleCountStarves | pkg/raterunner/raterunner.go:196-199 | Once lost, it stays lost and the pool unchanged for as long as the target equals the stale count. |
| RateRunner.TaskSpec.constructor | pkg/raterunner/raterunner.go:280-290 | A new task runs at 0 per second, limiter and options alike, on a nil bucket, with an empty statistic of the 95th percentile over a minute. |
| RateRunner.TaskSpec.SetOptions | pkg/raterunner/raterunner.go:44-62 | Fails exactly for a zero Per and then changes nothing; else the limiter's Times and Per are the given ones, after one SetSpec, and the options are stored. |
| RateRunner.TaskSpec.OptionsBoundTheGrants | pkg/raterunner/raterunner.go:44-62 | While only these options are set, no window of their Per holds more than their Times grants of calls not committed before. |
| OptionRaces.AlwaysAgreeIff | pkg/raterunner/raterunner.go:44-62 | For every set of options that concurrent calls may ask for: limiter and options agree whenever all calls have returned, in every schedule, if and only if the options have one rate. |
| OptionRaces.OneRateRun | pkg/raterunner/raterunner.go:49-60 | With one rate every schedule keeps an invariant that gives agreement at rest. |
| OptionRaces.Overtaken | pkg/raterunner/raterunner.go:49-60 | Two calls of different rates, of which the last to set the limiter stores first, end in disagreement. |
| OptionRaces.SequentialAgrees | pkg/raterunner/raterunner.go:44-62 | Calls one after the other, of whatever rates, end in agreement, even after an earlier disagreement. |
| RateRunner.TaskSpec.NeededInstances | pkg/raterunner/raterunner.go:77-107 | The needed count at the configured rate and the measured duration, or one second without a measurement. |
| RateRunner.TaskSpec.Work | pkg/raterunner/raterunner.go:316-331 | The task function is called once per successful Acquire up to the first failed one, and the timings of these calls are appended to the statistic. |
| RateRunner.TimingsAt | pkg/raterunner/raterunner.go:321-329 | By position: each call without error is recorded with its duration and end, behind the earlier ones, and no other call is. |
| RateRunner.RateRunner.constructor | pkg/raterunner/raterunner.go:120-128 | A new runner has no tasks. |
| RateRunner.DecimalValue | pkg/raterunner/raterunner.go:271 | A printed counter stands for its value. |
| RateRunner.GeneratedIDsDiffer | pkg/raterunner/raterunner.go:267-272 | No two generated task ids are equal. |
| RateRunner.RateRunner.RegisterTask | pkg/raterunner/raterunner.go:253-305 | Fails exactly for a taken id, given or generated; else the task starts at the zero rate with a nil bucket, no workers and a count of zero. |
| RateRunner.RateRunner.Resize | pkg/raterunner/raterunner.go:192-207 | The count and the pool take one tick to the given target. |
| RateRunner.RateRunner.Adjust | pkg/raterunner/raterunner.go:155-208 | One turn for one task is a tick to the capped count at its measured duration. |
| RateRunner.RateRunner.Pass | pkg/raterunner/raterunner.go:142-209 | A pass over all tasks, in any order, gives every task exactly one such tick. |
| RateRunner.RateRunner.Walk | pkg/raterunner/raterunner.go:155-208 | The loop over the tasks keeps the done ones ticked and the rest untouched. |
| RateRunner.RateRunner.PassOne | pkg/raterunner/raterunner.go:155-208 | One turn of that loop moves one task and disturbs no other. |
| RateRunner.RateRunner.SharesNothing | pkg/raterunner/raterunner.go:280-295 | Tasks of different ids share neither statistic nor pool. |
| Settings.CheckerExtends | internal/settingsprovider/settings_provider.go:36-64 | One more checker entry keeps the list well formed if and only if the loop body finds no fault with it. |
| Settings.ServiceExtends | internal/settingsprovider/settings_provider.go:19-65 | The same for a service and its checkers. |
| Settings.DefectIsReal | internal/settingsprovider/settings_provider.go:16-69 | A reported defect rules out well-formedness. |
| Settings.ValidateCheckers | internal/settingsprovider/settings_provider.go:35-65 | Accepts exactly the well-formed checker lists, and names the first defect. |
| Settings.Validate | internal/settingsprovider/settings_provider.go:16-69 | Accepts exactly a nil message and the well-formed ones, and names the first defect in reading order. |
| Settings.ServiceMap | internal/checkerctrl/proto_helpers.go:11-23 | The table holds the last entry of each name; a nil message gives an empty one. |
| Settings.CheckersMap | internal/checkerctrl/proto_helpers.go:26-38 | The same for checkers. |
| Settings.ByNameFinds | internal/checkerctrl/proto_helpers.go:16-21 | For any list, a name is in the table exactly when an entry bears it, and the last such entry is found. |
| Settings.ByNameIsInverse | internal/checkerctrl/proto_helpers.go:11-38 | On properly named entries the table loses none and is the inverse of the list. |
| Normalize.DotScales | internal/checkerctrl/proto_helpers.go:63-109 | Scaling all points scales the rated sum. |
| Normalize.SumBecomesTarget | internal/checkerctrl/proto_helpers.go:63-109 | A nonzero rated sum becomes the target; a zero one stays zero. |
| Normalize.RatiosKept | internal/checkerctrl/proto_helpers.go:101-108 | The ratio between any two checkers' points is kept. |
| Normalize.NormalizeTwice | internal/checkerctrl/proto_helpers.go:58-109 | Normalizing again changes nothing, for every sum and target. |
| Normalize.ManySyncsAreOne | internal/checkerctrl/proto_helpers.go:58-109 | Any positive number of normalizations equals the first. |
| Normalize.ZeroSumLeavesAloneIff | internal/checkerctrl/proto_helpers.go:86-99 | With a zero sum the points are left alone if and only if all are zero. |
| Normalize.PausedCheckerLosesPoints | internal/checkerctrl/proto_helpers.go:86-108 | One input: a checker with points and a zero rate, alone in its service, is left with none. |
| Normalize.SumEntries | internal/checkerctrl/proto_helpers.go:66-84 | The loop over the entries accumulates both products with the rates per second, skipped entries weighing nothing. |
| Normalize.Sums | internal/checkerctrl/proto_helpers.go:63-84 | The accumulated sums are the products of the points and penalties held with the rates per second. |
| Normalize.Multiply | internal/checkerctrl/proto_helpers.go:101-108 | Every present entry, rated or not, whatever its period, is multiplied once in place. |
| Normalize.NormalizePointsInService | internal/checkerctrl/proto_helpers.go:58-109 | In place, points and penalties become their normalization to the target; a nil service changes nothing. |
| Normalize.PerSecondIsDot | internal/checkerctrl/proto_helpers.go:81-83 | The rated sum is the sum over the entries' own fields of points times Times per period in seconds, and so for penalties. |
| Normalize.NormalizedIsAtTarget | internal/checkerctrl/proto_helpers.go:58-109 | Over the entries' own fields: a service worth anything per second is worth exactly 1000 afterwards, in points and in penalties. |
| Normalize.WellFormedIsDivisible | internal/settingsprovider/settings_provider.go:46-63 | Validation rules out the division by zero and the repeated entry. |
| Normalize.NormalIsIdempotent | internal/checkerctrl/controller.go:297-310 | A second sync of one message leaves points and penalties as the first. |
| Normalize.TableIsSeparate | internal/checkerctrl/proto_helpers.go:49-52 | The table of a validated message reaches every service once and shares no checker between two. |
| Normalize.NormalizePoints | internal/checkerctrl/proto_helpers.go:44-53 | Every service of a validated message is normalized exactly once and, over its entries' own fields, worth 1000 points and 1000 penalties per second unless it was worth none. |
| Normalize.NormalizeTable | internal/checkerctrl/proto_helpers.go:49-52 | The same for the table, whatever the order of iteration. |
| Normalize.WalkTable | internal/checkerctrl/proto_helpers.go:50-52 | The loop over the table keeps the done services normalized and the rest untouched. |
| Normalize.WalkOne | internal/checkerctrl/proto_helpers.go:51 | One turn normalizes one service and changes no other. |
| Normalize.NormalizeOne | internal/checkerctrl/proto_helpers.go:51 | One service holds the normal form of what it held, every other one what it held. |
| Controller.ConfiguredIsSettable | internal/checkerctrl/controller.go:341-361 | On a validated message the rate configured for any checker, listed or not, has a positive period. |
| Controller.ConfiguredIsListed | internal/checkerctrl/controller.go:341-361 | A listed checker's configured options are the rate and the cap of its entry. |
| Controller.UnlistedRunsAtZero | internal/checkerctrl/controller.go:322-346 | A checker no entry names is configured to 0 per second without a cap. |
| Controller.IncompleteEntry | internal/checkerctrl/controller.go:346-360 | An entry without run options or a rate is configured to 0 per second, one without a period to a rate that cannot be set. |
| Controller.Controller.SettledIsListed | internal/checkerctrl/controller.go:312-384 | After the loop, tasks and limiters alike have the Times, Per and cap of their entries, and 0 per second without one. |
| Controller.Controller.constructor | internal/checkerctrl/controller.go:60-69 | A new controller has no checkers and no settings. |
| Controller.Controller.AddChecker | internal/checkerctrl/controller.go:71-85 | Adds one checker with its own task and limiter and keeps the rest. |
| Controller.Controller.SyncChecker | internal/checkerctrl/controller.go:314-382 | One turn gives a checker its configured options, limiter first, or reports exactly the missing handle or the zero period. |
| Controller.Controller.PushOptions | internal/checkerctrl/controller.go:312-384 | After the loop every task and limiter runs at the configured rate by one SetSpec, no SetOptions failed, and exactly the missing handles are reported. |
| Controller.Controller.PushOne | internal/checkerctrl/controller.go:314-382 | One turn of that loop settles one checker and disturbs no other. |
| Controller.Controller.Push | internal/checkerctrl/controller.go:310-384 | Stores the settings and gives every checker its configured options, reporting exactly the missing handles. |
| Controller.Controller.Sync | internal/checkerctrl/controller.go:306-384 | On a validated message: all services at 1000 per second, the settings stored, every listed checker's task and limiter at the Times, Per and cap of its entry, every other one at 0 per second. |
| Controller.Controller.SyncState | internal/checkerctrl/controller.go:297-385 | The same for a provider's answer, a nil message included; a provider's error leaves settings, tasks and limiters as they were. |
| Scoring.IsInternalIff | internal/checkerctrl/controller.go:248-260 | An error counts as internal if and only if some path of unwrapping steps from it ends at an internal error. |
| Scoring.OneOutcome | internal/checkerctrl/controller.go:219-294 | Every invocation has exactly one of the five outcomes. |
| Scoring.OutcomesAddUp | internal/checkerctrl/controller.go:219-294 | Over any run, the five outcomes add up to the invocations. |
| Scoring.ScoreConservation | internal/checkerctrl/controller.go:219-294 | Counters that score a run, with the missing-settings and cancelled invocations, add up to its length. |
| Scoring.Appended | internal/checkerctrl/controller.go:219-294 | Moving the one counter of an invocation's outcome turns the score of a run into the score of the longer run. |
| Scoring.CheckerTask.constructor | internal/checkerctrl/controller.go:162-171 | A new task has no settings and no score. |
| Scoring.CheckerTask.UpdateSettings | internal/checkerctrl/controller.go:176-203 | Target and entry of the checker in the current settings, or what it had before when it has none; the score stays. |
| Scoring.CheckerTask.Score | internal/checkerctrl/controller.go:237-280 | The deferred block moves the counter of the one outcome its variables stand for, by the points the settings hold at that moment, and no counter for a cancelled check. |
| Scoring.CheckerTask.Check | internal/checkerctrl/controller.go:219-294 | Counter by counter, in every case: a panic or an error that unwraps to an internal one moves only the internal errors, any other error only failures and penalty, success only successes and points, and missing settings or a cancelled check nothing; points are those held when it ends. |
| Scoring.CheckerTask.Run | internal/checkerctrl/controller.go:219-294 | After every invocation, whatever settings it loaded when it began, the counters are the score of the whole history: counts per outcome, and points and penalties summed over the settings each counted check ended with. |

## Left out

- The file-backed state stores, the running average, metrics other than the outcome counters, logging, tracing, fx wiring, commands, gRPC, YAML and JSON: they carry no state these properties depend on.
- Floating-point rounding and conversion to 64-bit integers: points, rates, sizing and grant times are exact, and 1.2 is 6/5.
- The internals of the token bucket and of the quantile library: both are modelled from their documented meaning.
- Negative durations: a limiter's and a rate's Per is not negative, and a TTL is positive. Validation itself is modelled on all values and only rejects zero. What a negative rate does to the token bucket library is not documented.
- Redis failures other than a command meeting the wrong type, and deletes of GetRandom that are not delivered; a transaction is one step.
- The tie order of ZREVRANGE and ZRANGEBYSCORE: any id with the highest score, any choice among equal scores.
- Redis rounding a TTL below its own resolution, the cleanup interval and its default, and starting and stopping the cleanup goroutine.
- StoreRuns.Action: a save carries any score; that saves reach Redis in the second they read the clock is a premise of the lemmas that need it, and lookups do not.
- RateLimit.WindowBound: speaks of the times the bucket schedules, not of the instants at which delayed goroutines go on.
- The condition-variable protocol, the stop handshake and the store under interleaving are step relations over values, not classes; only their sequential faces are objects.
- TaskPool.TaskState.Grow: takes no time; workers that run on meanwhile do so in steps of their own.
- TaskRunner.Stop: stops every instance without resizing, with the handshake already covered.
- The random sleep at the start of a worker, and the timers of the control and sync loops: each pass takes its instant as a parameter.
- RateRunner.TaskSpec.Work: one worker at a time; the appends of several workers to one statistic interleave in the order of the clock.
- RateRunner.RateRunner.Adjust: reads the options once, where the code reads the cap a second time without the lock.
- Controller.Controller.AddChecker: the task id formatted from service and checker name can collide for names containing the separator; handles are taken as distinct.
- Normalize.Sums: a stored period of zero has no sum in exact arithmetic; validation rules it out.
- Normalize.NormalizePoints: takes the checker objects of one message to be distinct, as in any decoded message.
- Fields of the settings messages other than the two point fields are constants, because nothing assigns them.
