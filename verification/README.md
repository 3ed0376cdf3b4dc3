# Verified model of the desk API's stateful cores

A Dafny model of the parts of the desk API whose correctness depends on more than one function at a time: the
zero-downtime supervisor, the rate limiter and its admission hook, the inference of published answer shapes, the undo
history of the administrator tables, and three jobs that several processes can run at once. `dafny verify dfyconfig.toml`
checks everything.

Code that changes state is modelled twice. A specification on values (`Next`, `Step`, `Apply`, `Rotate`, `CutRun`) says
what one event or one run does, and the theorems are about all sequences of events. Beside it a class or a method with
loops has the program's own form, and is proved to do exactly what the specification says. Time is a number of
milliseconds that never goes back; what the environment decides (when a process exits, what a server replies, what other
writers write) is a parameter of the run, so that "every run" means every interleaving.

| area | modules |
|---|---|
| supervisor | `SupervisorModel` (step system), `SupervisorInvariants`, `SupervisorRecovery`, `SupervisorReload`, `SupervisorBackoff`, `SupervisorWorkers` (what happens to each worker, and when), `SupervisorProcess` (the program), `WorkerHandover` (the worker's half) |
| rate limiter | `MemoryLimiter` (specification and program), `MemoryBounds`, `MemoryEviction`, `MemoryTight` (the bound is reached), `MemoryMonth`, `MemoryMonthRuns` and `MemoryFullDays` (when eviction shows), `SlidingWindow` (Redis, pipelines one at a time), `SlidingHistory` (whom it refuses, from the earlier requests), `SlidingWindowRace` (commands interleaved), `Admission` and `AdmissionRedis` (the hook before either limiter) |
| answer shapes | `JsonSchema` (inference, merge, checker), `SchemaSoundness`, `SchemaArrays` (exactly when arrays of scalars and of records fit their own schema) and `SchemaRuns` (exactly when any value does), `SchemaProblems` (what is reported), `SchemaAlgebra` |
| table edits | `TableEdits` (server), `EditHistory` (both stacks, one step), `EditHistoryEffects` (what an edit and a toggle write), `EditHistoryLaws` (runs), `EditHistoryRows` (which row each change belongs to), `EditHistoryExamples`, `EditHistoryPage` (the page's objects) |
| jobs | `CronLock`, `SecretRotation`, `RotationSafety` and `RotationCounts`, `Migrations` |

## Where the code does less than it says

The model follows the code. Each of these is a lemma below, with the exact condition under which the promise does hold.

- **Recovery.** `startAgain` returns without scheduling anything when a reload is in progress. If that was the last
  restart timer, nothing is left to bring service back, although the file promises that a worker that dies is started
  again (`RecoveryExactly`, `FreshCrashDuringDrain`, `DownStaysDown`).
- **Reload.** `retire` on a worker that is already dead waits for an exit that has happened. The reload then never
  ends: later reloads are refused, crashed workers are not replaced, and `stop` never exits (`StuckStep`,
  `JammedForever`, `DeathDuringReload`).
- **A lost worker.** A replacement that is not ready in time is given up without being killed (`TrackedStep`).
- **A killed worker that serves.** A failed reload kills every worker that is only starting, a restart's too. If that one
  reports ready before it is gone, it is taken into service; otherwise whatever serves is up (`ServingIsUpExactly`).
- **Ending a worker.** The supervisor's bounds take a kill to end the process within a fixed time. A ready worker
  handles its first SIGTERM by shutting down, so on a system that delivers signals it ends exactly when it was also
  disconnected and has answered every request, closed the application and ended the pool; never, if it was not
  disconnected (`EndsExactly`, `LeavesAfterItsWork`). And not every answer after "drain" carries `Connection: close`, only
  those whose request arrived after it (`MarkedExactly`).
- **Eviction.** The comment beside the idle limit says evicting a bucket loses no rate-limit state. That is so for the
  minute, hour and day tiers (`EvictionUnobservable`), and altogether when the month limit is at least thirty-one times
  the day limit (`RoomyIsUnobservable`); where the minute and the hour hold two days' worth, it is so exactly when the
  month limit is at least that less one (`UnobservableExactly`). Below thirty times the day limit it shows wherever a
  day can be used up within half a day (`FullMonthTells`). With the default minute, hour and day limits it shows at
  every month limit below 600 000 and at none from 620 000 on (`MonthsAtTheDefaults`); at the default month of 200 000
  a caller of one request every 4.321 seconds uses its month up in ten days and has it back after one idle day
  (`DefaultsForget`).
- **Inference.** `{}` means both "nothing known" and "anything goes", so an array need not fit the schema inferred from
  it. Of scalars it does exactly when all are null, or the kind changed an odd number of times at the end, or the first
  element is of the last kind: `[1.5, 2, 3]` and `[1.5, 2, 3, null]` do not fit (`ScalarsFitExactly`,
  `FlatFitsExactly`, `RecordsFitExactly`). Of elements of any type only the last run of one type counts, and the same
  rule goes for what is within them, so that for every value the values alone tell (`RunByChanges`, `FitsExactly`).
  Merging is not associative (`MergeDoesNotAssociate`); `AssociatesExactly` says when the grouping does not matter.
- **Redo.** A change takes over a row's new key only while its table is open. Undone with another table open, an edit of
  a key column can never be redone (`UndoStep`, `LostForGood`, `RedoLosesItsRow`). Setting a key column to NULL cannot
  be undone (`NullKeyCannotBeUndone`), a text of blanks comes back as NULL (`BlanksAreNotPutBack`), a text in a JSON
  column cannot be written back, since it is read without its quotes (`CoerceIsIdempotent`).
- **Deleting a row.** The history is filtered by the key the row has now. After a key edit an older change survives the
  deletion of its row and blocks what is below it (`DeleteLeavesFormerKey`); and where another row had that key before,
  a change of that row, which is still there, is dropped (`DeleteDropsALivingRowsChange`). The filter is right exactly
  when the deleted row's changes, followed from the top by the key it had at each, are those that carry its last key
  (`FilterIsRightExactly`).
- **Edits not sent.** The page compares what is shown. An edit to a different value is dropped exactly when a missing
  value meets the empty text, an object meets an object or the text all objects are shown as, or a list meets what is
  shown as its elements joined: `["a","b"]` to `["a,b"]`, or `[]` to null (`EditsDroppedExactly`).
- **Sweep at start-up.** It takes the same lock as the five-minute sweep, so a tick within four minutes runs nowhere
  (`StartUpTakesTheTick`).
- **Rotation.** A run without unreadable values does not by itself make the old secret superfluous: a value that carries
  the current secret's fingerprint under another key is skipped (`OldSecretCanGoExactly`, `FingerprintCollision`).

## Model

| member | source | states |
|---|---|---|
| `SupervisorInvariants.InitInv` | src/supervisor.ts:228-237 | the state in which the first worker has been started satisfies the invariant |
| `SupervisorInvariants.AccountedStep` | src/supervisor.ts:79-142 | in every step `serving`, `retiring` and the unsettled starts stay disjoint, and what serves or starts is a live process |
| `SupervisorInvariants.PhasedStep` | src/supervisor.ts:144-168 | a reload waits either for its one start or for workers that are retiring, and `stop` for retiring workers, with nothing left behind when they settle |
| `SupervisorInvariants.TimelyStep` | src/supervisor.ts:115-142 | while a reload drains, each live worker it waits for is under a force timer set when the fresh one was ready, or already killed |
| `SupervisorInvariants.PoolDueStep` | src/supervisor.ts:115-130 | no start deadline is ever overdue, and, taking a kill to end a process within the kill time, no killed process outlives it |
| `SupervisorInvariants.ClockDueStep` | src/supervisor.ts:123-194 | no timer is ever overdue, and no force timer lies further ahead than DRAIN_MS |
| `SupervisorInvariants.InvRun` | src/supervisor.ts:79-237 | every reachable state satisfies the whole invariant |
| `SupervisorRecovery.RecoveryStep` | src/supervisor.ts:171-194 | a step loses the prospect of a restart exactly when it fires the last restart timer during a reload with nothing serving and no replacement starting |
| `SupervisorRecovery.RecoveryExactly` | src/supervisor.ts:144-194 | over any run, with nothing serving a restart is always scheduled or under way, if and only if no step drops the last timer |
| `SupervisorRecovery.RecoveryFromBoot` | src/supervisor.ts:144-194 | from boot, service is always on its way back in every run in which no restart timer fires during a reload |
| `SupervisorRecovery.DropWhileDrainingIsDown` | src/supervisor.ts:181-182 | dropping the last timer while the old worker drains leaves nothing serving, starting or scheduled |
| `SupervisorRecovery.DownStaysDown` | src/supervisor.ts:144-203 | such a supervisor stays down through every continuation in which nobody asks for a reload |
| `SupervisorRecovery.FreshCrashDuringDrain` | src/supervisor.ts:157-182 | the run that shows the hypothesis is needed: the fresh worker crashes during the drain, the first wait is 0 ms, and the service ends down with the reload over |
| `SupervisorRecovery.NoGapStep` | src/supervisor.ts:87-203 | no step other than a serving worker's own death empties `serving` between boot and stop |
| `SupervisorRecovery.NoGapRun` | src/supervisor.ts:87-168 | across any mix of successful and failed reloads without self-crashes, something serves from boot to stop |
| `SupervisorRecovery.NeverReturns` | src/supervisor.ts:123-179 | a worker that left `serving` never serves again, in any continuation |
| `SupervisorRecovery.TrackedStep` | src/supervisor.ts:115-194 | a step makes a live worker untracked (neither serving, retiring, starting nor killed) exactly when a `startAgain` start times out |
| `SupervisorRecovery.TrackedRun` | src/supervisor.ts:144-194 | in every run without such a timeout every live worker is accounted for |
| `SupervisorReload.StuckStep` | src/supervisor.ts:122-168 | a reload comes to wait for a dead process in exactly one way, a worker of `before` being dead when the fresh one is ready, and no step frees it |
| `SupervisorReload.JammedStep` | src/supervisor.ts:144-203 | a stuck supervisor stays stuck, refuses every reload and starts nothing when a restart timer fires |
| `SupervisorReload.JammedForever` | src/supervisor.ts:144-203 | in every continuation it stays reloading and never exits, even when stopped |
| `SupervisorReload.ReloadBound` | src/supervisor.ts:115-168 | in every reachable state a reload that is not stuck began at most READY_TIMEOUT_MS + DRAIN_MS + the kill time ago, taking a kill to end a process within that time |
| `SupervisorReload.NeverStuck` | src/supervisor.ts:122-168 | no reload is ever stuck if every worker to be replaced is alive when its replacement is ready |
| `SupervisorReload.DeathDuringReload` | src/supervisor.ts:136-162 | the run that gets stuck: the only worker dies while its replacement starts |
| `SupervisorReload.Progress` | src/supervisor.ts:79-203 | the bounds are not met by time standing still: either a millisecond can pass or something due can happen |
| `SupervisorWorkers.ServingExactly` | src/supervisor.ts:123-179 | in every step a worker serves from being ready until it is retired or dies, and retires from then until it dies |
| `SupervisorWorkers.StartsExactly` | src/supervisor.ts:88-120 | a start is pending, with its purpose and deadline, from its fork until its worker is ready, dies or is out of time; only an accepted reload and a restart timer that finds nothing serving fork |
| `SupervisorWorkers.KilledExactly` | src/supervisor.ts:127-157 | a worker is killed in a step if and only if its force timer fires, or a reload's own start fails and it is neither of the old generation nor serving nor retiring |
| `SupervisorWorkers.StatusExactly` | src/supervisor.ts:106-142 | only its exit, becoming ready, being retired (which asks it to close its connections) and its disconnect timer change a worker otherwise |
| `SupervisorWorkers.ForceTimersExactly` | src/supervisor.ts:127-135 | which force timers are pending after a step, and when they are due |
| `SupervisorWorkers.DisconnectTimersExactly` | src/supervisor.ts:136-140 | which disconnect timers are, only live workers having one |
| `SupervisorWorkers.SteadyTimersExactly` | src/supervisor.ts:187-187 | the 60 s timers: set when a replacement is ready, gone once fired |
| `SupervisorWorkers.RestartTimersExactly` | src/supervisor.ts:171-194 | the restart timers: one more when a serving worker dies by itself or a replacement fails, one less when one fires |
| `SupervisorWorkers.BootsAndExitsExactly` | src/supervisor.ts:196-237 | the supervisor exits if and only if its first worker cannot be started or a stop has nothing left to wait for |
| `SupervisorWorkers.ServingIsUpExactly` | src/supervisor.ts:144-168 | over every run each serving worker is a live process that nobody has asked to go, if and only if no killed one reports ready |
| `SupervisorWorkers.ServiceIsUp` | src/supervisor.ts:144-168 | so without self-crashes some worker is up and serving from boot to stop, across failed and successful reloads |
| `SupervisorWorkers.DrainTimes` | src/supervisor.ts:123-142 | in every run a serving worker that is retired closes its clients' connections first, is disconnected no sooner than DRAIN_GRACE_MS and killed no sooner than DRAIN_MS later, and neither waits longer |
| `SupervisorWorkers.StopEndsExactly` | src/supervisor.ts:196-203 | over every run after a stop request, the supervisor has exited if and only if each worker that served or was retiring was alive then and is gone |
| `SupervisorWorkers.ReloadReplacesExactly` | src/supervisor.ts:144-168 | whatever happens in between, a reload whose fresh worker became ready is over if and only if each worker that served when it was asked for was alive at that moment and is gone |
| `SupervisorBackoff.GrowIsNextWait` | src/supervisor.ts:176-191 | doubling from 1 s up to 30 s walks along 0, 1, 2, 4, 8, 16, 30, 30, … seconds |
| `SupervisorBackoff.WaitsFollowTheChain` | src/supervisor.ts:171-194 | without a reset, the i-th wait scheduled in any run is the i-th of that chain |
| `SupervisorBackoff.OneChainStep` | src/supervisor.ts:171-194 | without reloads at most one thing carries a worker's life on: a serving worker, a start or a timer |
| `SupervisorBackoff.AttemptsTakeTime` | src/supervisor.ts:171-194 | n restarts of one chain take at least the sum of its first n waits |
| `SupervisorBackoff.RestartRate` | src/supervisor.ts:171-194 | from a steady worker on, more than six restarts take at least 31 s and 30 s for each one beyond six |
| `SupervisorProcess.Supervisor.constructor` | src/supervisor.ts:79-83 | the variables as loaded, with the first worker starting |
| `SupervisorProcess.Supervisor.StartWorker` | src/supervisor.ts:88-120 | forks a worker with a ready deadline and changes nothing else |
| `SupervisorProcess.Supervisor.RetireWorker` | src/supervisor.ts:123-142 | one worker leaves `serving` for `retiring` with its force timer, and its disconnect timer only when alive |
| `SupervisorProcess.Supervisor.RetireEach` | src/supervisor.ts:162-162 | retiring workers one after the other is retiring them all at once |
| `SupervisorProcess.Supervisor.ScheduleRestartTimer` | src/supervisor.ts:175-177 | the timer gets the wait from before the doubling |
| `SupervisorProcess.Supervisor.RequestReload` | src/supervisor.ts:144-152 | the step of a reload request, refusals included |
| `SupervisorProcess.Supervisor.OnReady` | src/supervisor.ts:106-113 | the step of a worker becoming ready, for boot, reload and restart |
| `SupervisorProcess.Supervisor.StartRejected` | src/supervisor.ts:153-158 | a failed start: exit at boot, half-started workers killed in a reload, the next wait in a restart |
| `SupervisorProcess.Supervisor.OnExit` | src/supervisor.ts:131-179 | the step of a worker's exit, with all its listeners |
| `SupervisorProcess.Supervisor.OnRestartTimer` | src/supervisor.ts:181-184 | the step of a restart timer |
| `SupervisorProcess.Supervisor.OnForceTimer` | src/supervisor.ts:115-187 | the remaining timers, each one step of the specification: force (this one), disconnect, ready timeout and the 60 s check |
| `SupervisorProcess.Supervisor.RequestStop` | src/supervisor.ts:196-203 | the step of a stop request |
| `SupervisorBackoff.ResetNeedsASteadyWorker` | src/supervisor.ts:181-187 | in every run from boot the delay only falls when a worker that `startAgain` started, and that became ready exactly 60 s ago, still serves |
| `SupervisorBackoff.SteadyWorkerResets` | src/supervisor.ts:181-187 | and in every run in which such a worker serves for more than 60 s the delay is put back to zero 60 s after it became ready |
| `WorkerHandover.Server.OnTrigger` | src/server.ts:35-68 | the handlers, each one step of the specification; this one: a first signal or the disconnect begins one more shutdown, a signal without a handler ends the process |
| `WorkerHandover.InvStep` | src/server.ts:48-69 | in every step new requests are taken exactly until the first shutdown begins, and, closing the application being taken to wait for those in flight, none is in flight once the pool is ended |
| `WorkerHandover.LeavesNothingBehind` | src/server.ts:50-68 | under the same assumption, in every run a request in flight has its database, and a worker that leaves has answered every request it ever accepted and closed its database |
| `WorkerHandover.EndsExactly` | src/server.ts:56-68 | without an unhandled signal a ready worker ends if and only if it was disconnected and the shutdown that followed is over, with nothing in flight |
| `WorkerHandover.WorkStep` | src/server.ts:48-69 | nothing that happens to a disconnected worker gives it more to do |
| `WorkerHandover.WorkIsNeverBlocked` | src/server.ts:48-69 | until it has ended, some piece of its work can be done |
| `WorkerHandover.LeavesAfterItsWork` | src/server.ts:48-69 | whatever else happens, a disconnected worker ends exactly when it has answered each request in flight, closed the application and ended the pool |
| `WorkerHandover.SignalEndsExactly` | src/server.ts:56-57 | after any run from the start, a signal ends the process at once if and only if it never became ready or has already had that signal |
| `WorkerHandover.MarkedExactly` | src/server.ts:62-66 | an answer carries `Connection: close` if and only if its request arrived after the drain message |
| `MemoryLimiter.Scaled` | src/middleware/api-protection.ts:58-59 | the least whole number that is at least 1 and at least limit × factor |
| `MemoryLimiter.EachTierScaled` | src/middleware/api-protection.ts:66-69 | every tier is scaled so |
| `MemoryLimiter.Limiter.GetOrCreate` | src/middleware/api-protection.ts:61-81 | a full bucket of this factor's size, or the stored one with a new access time |
| `MemoryLimiter.Limiter.Check` | src/middleware/api-protection.ts:83-112 | the verdict and the whole new map of the specification |
| `MemoryLimiter.Limiter.SweepIdle` | src/middleware/api-protection.ts:49-55 | exactly the buckets idle for more than 24 hours are gone, whatever the order of the walk |
| `MemoryBounds.RequestChangesExactly` | src/middleware/api-protection.ts:61-112 | what one request does to each of the four tiers: a due refill, and one token less exactly when it is let through; no other bucket changes |
| `MemoryBounds.VerdictExactly` | src/middleware/api-protection.ts:83-111 | a request is let through if and only if it finds a token in every tier, and otherwise the reason is the shortest tier without one; `remaining` is what is left of the minute, and after `resetAt` the minute is full again |
| `MemoryBounds.SaneStep` | src/middleware/api-protection.ts:83-112 | every operation keeps each tier between 0 and its size and no reset after the last access |
| `MemoryBounds.WithinStep` | src/middleware/api-protection.ts:86-111 | requests let through since a moment, plus the tokens left, fit in one bucket before the first refill and in two after it |
| `MemoryBounds.BurstBound` | src/middleware/api-protection.ts:49-112 | over any run of requests and sweeps, any interval of one window's length lets at most twice the limit through (the month: while its bucket is not evicted) |
| `MemoryTight.BurstIsTight` | src/middleware/api-protection.ts:86-111 | for every minute limit a run that lets exactly twice as many through in one minute |
| `MemoryEviction.RequestAlike` | src/middleware/api-protection.ts:83-112 | one request gets the same verdict with and without earlier evictions, unless the month tier refuses it |
| `MemoryEviction.SweepAlike` | src/middleware/api-protection.ts:49-55 | a sweep only removes buckets whose three short tiers the next request refills anyway |
| `MemoryEviction.EvictionUnobservable` | src/middleware/api-protection.ts:42-111 | over any run in which neither limiter's month tier refuses, the limiter with the sweep and the one without give the same verdicts and the same short tiers |
| `MemoryEviction.EvictionUnobservableFromStart` | src/middleware/api-protection.ts:42-111 | the same from an empty map |
| `MemoryEviction.MonthIsForgotten` | src/middleware/api-protection.ts:42-57 | a run of three days in which a monthly limit of one lets three requests through |
| `MemoryMonth.TopfulDecides` | src/middleware/api-protection.ts:83-112 | with a month limit of thirty-one times the day limit (less one, if minute and hour are ample), a request that finds the month used up finds the day used up, and is refused for an earlier tier |
| `MemoryMonth.RoomyNeverBinds` | src/middleware/api-protection.ts:42-112 | so, with such sizes per key, the month tier refuses nothing in any run, with or without the sweep |
| `MemoryMonth.RoomyIsUnobservable` | src/middleware/api-protection.ts:42-112 | and the verdicts with and without the sweep are the same over every run from an empty map |
| `MemoryMonthRuns.OneADayForEver` | src/middleware/api-protection.ts:42-57 | one request a day is let through for any number of days, whatever the month limit; without the sweep not within thirty days |
| `MemoryMonthRuns.LongMonthTells` | src/middleware/api-protection.ts:42-112 | for every month limit below thirty-one times the day limit less one, a run that tells the two limiters apart |
| `MemoryMonthRuns.UnobservableExactly` | src/middleware/api-protection.ts:42-112 | where minute and hour hold two days' worth, the sweep cannot be observed in any run if and only if the month limit is at least thirty-one times the day limit, less one |
| `MemoryMonthRuns.SteadyCallerTells` | src/middleware/api-protection.ts:42-112 | for all limits: a steady caller whom no short tier refuses observes the sweep if its pace uses the month up a day before the month ends |
| `MemoryFullDays.FullMonthTells` | src/middleware/api-protection.ts:42-112 | where a day can be used up within half a day without meeting the minute or the hour, the sweep can be observed at every month limit below thirty times the day limit |
| `MemoryFullDays.MonthsAtTheDefaults` | src/middleware/api-protection.ts:42-112 | with the default minute, hour and day limits: observable at every month limit below 600 000, unobservable at every one from 620 000 on |
| `MemoryMonthRuns.DefaultsForget` | src/middleware/api-protection.ts:42-57 | with the default limits such a caller exists |
| `SlidingWindow.RedisLimiter.Check` | src/middleware/api-protection.ts:125-170 | the loop stops at the first full window; allowed exactly when none is full, with the remaining count and reset time of the minute |
| `SlidingWindow.ExpiryIsTrim` | src/middleware/api-protection.ts:146-149 | finding an expired key or trimming its entries leaves the same entries |
| `SlidingWindow.TtlUnobservable` | src/middleware/api-protection.ts:146-149 | over any run the key's expiry changes no answer |
| `SlidingWindow.WalkHeld` | src/middleware/api-protection.ts:143-163 | a request that passes was counted in every window, and found fewer than the limit there |
| `SlidingWindow.SlidingBound` | src/middleware/api-protection.ts:125-170 | in each of the four windows every half-open interval of the window's length lets at most the limit through |
| `SlidingHistory.PassesExactly` | src/middleware/api-protection.ts:143-166 | a request passes if and only if in every window fewer stored requests than the limit are less than the window's length old; the shortest full window refuses it |
| `SlidingHistory.LogsExactly` | src/middleware/api-protection.ts:144-156 | one request adds one entry to each window it gets to, the one that refuses it included, and changes no other |
| `SlidingHistory.PassesByHistory` | src/middleware/api-protection.ts:125-170 | after any run a request passes if and only if, in each window, fewer earlier requests of its bucket than the limit got to that window within its length |
| `SlidingHistory.KeysLiveOneWindow` | src/middleware/api-protection.ts:149-149 | after any run every key expires exactly one window after its last entry |
| `SlidingWindowRace.CountedOrInFlight` | src/middleware/api-protection.ts:144-156 | requests let through earlier are in the set a later request counts, or still in flight |
| `SlidingWindowRace.BurstStep` | src/middleware/api-protection.ts:144-156 | every command keeps limit + n - 1 as the bound on one interval |
| `SlidingWindowRace.RaceBound` | src/middleware/api-protection.ts:132-163 | with commands interleaved, at most n requests in flight and each done within D ms of its clock read, an interval of length windowMs - D lets at most limit + n - 1 through |
| `SlidingWindowRace.AloneIsAtomic` | src/middleware/api-protection.ts:144-156 | a request that nothing interrupts is let through if and only if fewer entries than the limit are inside the window, and leaves these and its own |
| `SlidingWindowRace.ExpiresInTime` | src/middleware/api-protection.ts:149-149 | over every interleaving a key is kept for one window at most |
| `SlidingWindowRace.RaceBoundIsReached` | src/middleware/api-protection.ts:144-156 | for every limit and every n, an interleaving that lets exactly that many through |
| `Admission.ApiProtection.PreHandler` | src/middleware/api-protection.ts:240-284 | the hook's answer and the buckets it changes |
| `Admission.SameName` | src/middleware/api-protection.ts:257-276 | two keys, or two addresses, share a bucket only if they are the same |
| `Admission.KeyAllowance` | src/middleware/api-protection.ts:255-256 | in every tier an address gets the configured limit, a key half of it, rounded up, and a key with a factor of its own that part |
| `Admission.AnswerExactly` | src/middleware/api-protection.ts:240-279 | who answers and how, told from the buckets before the request: the key refuses exactly when it lacks a token, and the address is asked exactly when the key passes unknown or there is none |
| `Admission.OnlyItsOwnKey` | src/middleware/api-protection.ts:241-258 | an exempt request changes nothing, and one without a key or with another key leaves a key's bucket exactly as it was |
| `Admission.KeyIsAlone` | src/middleware/api-protection.ts:246-262 | over every run the requests of a key pass its bucket exactly as often as they would without all other requests |
| `Admission.OpsForNext` | src/middleware/api-protection.ts:246-278 | a request does to the buckets what the limiter does for its key and then for its address, refused or not |
| `Admission.KeyCostsNoAddress` | src/middleware/api-protection.ts:246-273 | a known key, and a key its own bucket refuses, leave every address bucket untouched |
| `Admission.OnlyItsOwnAddress` | src/middleware/api-protection.ts:253-278 | only requests answered by an address bucket are charged to one, and to their own |
| `Admission.AddressBound` | src/middleware/api-protection.ts:239-284 | over any run of requests with any keys and of sweeps, what an address is admitted on its own allowance obeys the bound of a single bucket, the month tier's while its bucket is not forgotten |
| `Admission.KeyBound` | src/middleware/api-protection.ts:239-284 | whatever other keys and addresses do, what a key's bucket lets through obeys the bound of a single bucket of the key's own size, the month tier's while it is not forgotten |
| `AdmissionRedis.ApiProtection.PreHandler` | src/middleware/api-protection.ts:240-284 | the hook before the Redis limiter: who is asked in which order, the answer, and the store afterwards |
| `AdmissionRedis.PassedForOne` | src/middleware/api-protection.ts:246-278 | of one request's hits the limiter passes one on an address's bucket exactly when that address admits it |
| `AdmissionRedis.KeyPassedForOne` | src/middleware/api-protection.ts:257-259 | and one on a key's bucket exactly when that key passes |
| `AdmissionRedis.AnswerExactly` | src/middleware/api-protection.ts:240-279 | who is asked and who passes, told from the store before the request |
| `AdmissionRedis.OnlyItsOwnKey` | src/middleware/api-protection.ts:241-258 | an exempt request changes nothing, and one without a key or with another key leaves every window of a key as it was |
| `AdmissionRedis.AddressBound` | src/middleware/api-protection.ts:125-284 | with Redis, whatever keys are tried, every interval of a window's length admits at most the limit on one address's allowance, in all four windows |
| `AdmissionRedis.KeyBound` | src/middleware/api-protection.ts:125-284 | and lets at most the key's own limit pass its bucket, whatever other keys and addresses do |
| `JsonSchema.ShapeProblems` | src/openapi-schema.ts:64-82 | the collecting loop reports exactly the problems of the recursive specification, in order |
| `JsonSchema.AcceptedHasNoProblems` | src/openapi-schema.ts:64-82 | what the stricter checker accepts, which visits every array element, has no problems |
| `SchemaProblems.ProblemsAreFaults` | src/openapi-schema.ts:64-82 | every problem names a place where the value departs from the schema and says how, and every such place is named; none twice where members are required once |
| `SchemaProblems.InferredFaults` | src/openapi-schema.ts:31-82 | so it is for every schema inferred from a value: each departure is reported exactly once |
| `SchemaProblems.KindsByName` | src/openapi-schema.ts:68-69 | a value is of a kind exactly when its JavaScript type has the kind's name, but for integers, which are numbers |
| `SchemaSoundness.MergeDescribes` | src/openapi-schema.ts:31-45 | merging the schemas of two agreeing sets of values describes their union |
| `SchemaSoundness.MergedRequired` | src/openapi-schema.ts:31-38 | a member is required after merging exactly when every value has it |
| `SchemaSoundness.InferDescribes` | src/openapi-schema.ts:47-61 | the inferred schema describes exactly the value it came from |
| `SchemaSoundness.InferItemsDescribes` | src/openapi-schema.ts:48-50 | the folded item schema describes the set of all elements |
| `SchemaSoundness.DescribedIsAccepted` | src/openapi-schema.ts:63-82 | a schema accepts, element by element and member by member, every value it describes |
| `SchemaSoundness.SelfConsistent` | src/openapi-schema.ts:31-82 | every coherent value fits the schema inferred from it, for the published checker and for the stricter one |
| `SchemaSoundness.FoldOfAgreeing` | src/openapi-schema.ts:31-50 | for agreeing objects the item schema's properties are the union of the member names and its required members the intersection |
| `SchemaSoundness.DroppedMember` | src/openapi-schema.ts:70-78 | taking one member away from a coherent object is reported as that member missing, and nothing else |
| `SchemaArrays.RelearnedFromSuffix` | src/openapi-schema.ts:42-50 | wherever the fold has come to `{}`, the elements after that point alone make the item schema, and an array fits if and only if its first element fits theirs |
| `SchemaArrays.FoldOfScalars` | src/openapi-schema.ts:31-52 | of scalars the fold comes to `{}` exactly when all are null or the kind changed an odd number of times at the end, and otherwise to the last kind |
| `SchemaArrays.ScalarsFitExactly` | src/openapi-schema.ts:31-82 | an array of scalars fits its own schema if and only if that is so or its first element is of the last kind |
| `SchemaArrays.ObjectFitsExactly` | src/openapi-schema.ts:55-78 | any object fits its own schema if and only if each of its members fits its own |
| `SchemaArrays.FlatFitsExactly` | src/openapi-schema.ts:31-82 | a value whose arrays hold scalars, at any depth, fits its own schema if and only if each of its arrays does as its elements show |
| `SchemaArrays.FoldOfObjects` | src/openapi-schema.ts:33-38 | of objects the fold requires exactly the members that all have, and folds each of them by itself |
| `SchemaArrays.ObjectsFitExactly` | src/openapi-schema.ts:31-82 | an array of objects fits its own schema if and only if the first value of every common member fits what that member's values come to |
| `SchemaArrays.RecordsFitExactly` | src/openapi-schema.ts:31-82 | a list of records fits its own schema if and only if every member that all have is describable by its values in order, null counting as text in a nullable member |
| `SchemaRuns.RunByChanges` | src/openapi-schema.ts:31-50 | of samples of any type nothing is known in the end exactly when nothing ever was or the type changed an odd number of times at the end; otherwise the last run of one type is of the last type |
| `SchemaRuns.FoldOfRun` | src/openapi-schema.ts:31-50 | that run alone makes the schema |
| `SchemaRuns.SchemaTag` | src/openapi-schema.ts:31-61 | the schema has the type of the run, and allows null exactly when nothing is known, or in a nullable member of which no arrays or objects were merged |
| `SchemaRuns.ItemsSchema` | src/openapi-schema.ts:41-50 | its items are what all items of the run's arrays come to, by the same rule |
| `SchemaRuns.MembersSchema` | src/openapi-schema.ts:33-58 | it requires exactly the members that all the run's objects have, each being what the values of that member come to |
| `SchemaRuns.SuitsExactly` | src/openapi-schema.ts:31-82 | a value has no problems with what any samples come to if and only if it suits them, as their values show |
| `SchemaRuns.FitsExactly` | src/openapi-schema.ts:31-82 | every JSON value fits its own schema if and only if in each of its arrays (those within arrays counting as samples) the first element suits the elements |
| `SchemaArrays.FractionThenIntegers` | src/openapi-schema.ts:31-82 | `[1.5, 2, 3]` does not fit the schema inferred from it, and the one problem reported |
| `SchemaAlgebra.SameAccepts` | src/openapi-schema.ts:31-82 | schemas that differ in the order of names only accept the same values |
| `SchemaAlgebra.MergeCommutes` | src/openapi-schema.ts:31-45 | merging is commutative up to that order, conflicts included |
| `SchemaAlgebra.MergedObject` | src/openapi-schema.ts:33-38 | of merged objects the properties are the union and the required members those required in both |
| `SchemaAlgebra.AssociatesExactly` | src/openapi-schema.ts:31-45 | the grouping of three schemas does not matter if and only if one is `{}`, or all have one type and it does not matter for the items or for any property all three have, or the middle one conflicts with both others and these are the same |
| `SchemaAlgebra.MergeAssociates` | src/openapi-schema.ts:31-45 | in particular when the middle one conflicts with neither |
| `SchemaAlgebra.MergeDoesNotAssociate` | src/openapi-schema.ts:42-44 | with a conflict it is not |
| `SchemaAlgebra.MergeIsUpperBound` | src/openapi-schema.ts:31-45 | merging accepts, element by element, what either side accepts that agrees with the other |
| `SchemaAlgebra.MergeAddsNoProblems` | src/openapi-schema.ts:31-82 | the same for the published checker: a value without problems on such a side has none after merging |
| `SchemaAlgebra.NothingKnownIsNoLowerBound` | src/openapi-schema.ts:42-42 | merging `{}` with text no longer accepts the numbers `{}` accepted |
| `TableEdits.CoerceIsIdempotent` | src/domain/adminTableEdits.ts:71-112 | a stored value is stored unchanged when written again, unless it is a text in a JSON column, which never is |
| `TableEdits.StoredAsIs` | src/domain/adminTableEdits.ts:71-112 | for each kind of column, JSON and lists included, exactly the values that are written as they are |
| `TableEdits.CoerceExactly` | src/domain/adminTableEdits.ts:71-112 | a column stores exactly what the value says to it, and refuses a value that says nothing |
| `TableEdits.SafeIntegersExactly` | src/domain/adminTableEdits.ts:77-80 | the whole numbers taken are those between -(2^53 - 1) and 2^53 - 1 |
| `TableEdits.JsonTextTells` | src/domain/adminTableEdits.ts:91-93 | the JSON text tells lists from objects and one from another |
| `TableEdits.KeyFindsItsRow` | src/domain/adminTableEdits.ts:15-38 | the key sent for a row finds that row, unless one of its columns is NULL |
| `TableEdits.KeyOfMissing` | src/domain/adminTableEdits.ts:15-17 | a key has a NULL exactly when the row lacks a value in a key column |
| `TableEdits.PatchExactly` | src/routes/admin.ts:1690-1828 | an edit is accepted exactly when the column may be edited, the value says something to it, a required value is there and no other row has the new key; it changes that cell and answers with the new key |
| `TableEdits.PatchBack` | src/routes/admin.ts:1712-1828 | writing the old value under the row's new key gives the old database and the old key back |
| `TableEdits.PatchSettles` | src/routes/admin.ts:1700-1702 | an edit keeps every editable cell one that the server would store as it is, exactly unless it stores a text in a JSON column |
| `EditHistory.StaleKeyFindsNothing` | src/routes/admin.ts:1803-1814 | after a change of key the former key finds no row |
| `EditHistory.ReverseReplays` | library-ui/pages/admin.js:224-246 | a replayed change can be reversed exactly when it knows the row's new key, and the reversal restores database and key |
| `EditHistory.UndoStep` | library-ui/pages/admin.js:277-284 | an undo goes one step down its chain; the redo stack stays replayable, and redo restores the whole state, exactly when the change kept track of its row |
| `EditHistory.RedoStep` | library-ui/pages/admin.js:285-292 | the same for a redo |
| `EditHistory.EditStep` | library-ui/pages/admin.js:248-275 | an edit pushes one change and clears the redo stack; undoing it restores database and undo stack exactly when the old value is stored as it is and the new key has no NULL |
| `EditHistory.FailureChangesNothing` | library-ui/pages/admin.js:277-292 | an undo or redo changes something exactly when its call gets through and is accepted; otherwise database and stacks stay |
| `EditHistory.EditsDroppedExactly` | library-ui/pages/admin.js:248-261 | an edit of an editable cell to a different value is not sent if and only if the two values are ones the page shows alike |
| `EditHistory.DroppedEdits` | library-ui/pages/admin.js:248-261 | in particular no edit of an object to another, and none of an empty cell to the empty text |
| `EditHistoryEffects.TogglesExactly` | library-ui/pages/admin.js:267-270 | a toggle of an editable cell always makes a change, to a boolean the cell does not hold: true exactly for what JavaScript takes for false |
| `EditHistoryEffects.ToggleSwitches` | library-ui/pages/admin.js:267-275 | in a boolean column it writes the other boolean and nothing else, and a second toggle puts a boolean back |
| `EditHistoryEffects.MeantExactly` | library-ui/pages/admin.js:52-68 | a typed text is taken for exactly what it means for the cell, in capital or small letters, and refused when it means nothing |
| `EditHistoryEffects.ShownIsMeant` | library-ui/pages/admin.js:52-68 | what a value of the cell's sort is shown as means that value, but for the word null |
| `EditHistoryEffects.EditSets` | library-ui/pages/admin.js:224-266 | typing a value the column stores sets the cell to it and nothing else, and adds one change from the old value to the new under the row's new key |
| `EditHistoryEffects.NullEmpties` | library-ui/pages/admin.js:53-53 | typing null empties the cell, unless the column must have a value |
| `EditHistoryEffects.ShownIsStored` | src/domain/adminTableEdits.ts:71-112 | the server stores a stored value's shown text as the value, but for the empty text in a textual column |
| `EditHistoryLaws.StepKeepsInv` | library-ui/pages/admin.js:224-320 | every careful operation keeps both stacks replayable from the current database |
| `EditHistoryLaws.RunKeepsInv` | library-ui/pages/admin.js:224-320 | so does every careful run: the key of the next change finds a row, its call is accepted and can be reversed, all the way down both stacks |
| `EditHistoryRows.StepStaysOnRows` | library-ui/pages/admin.js:224-320 | every careful operation keeps every change, on both stacks, on the row it was made on |
| `EditHistoryRows.FilterOnItsRows` | library-ui/pages/admin.js:316-318 | where the history tells the deleted row from the others, filtering removes exactly its changes and keeps the others on their rows |
| `EditHistoryRows.MarkedByRows` | library-ui/pages/admin.js:316-318 | and it does so exactly when the changes made on that row are those that carry its key |
| `EditHistoryRows.FilterIsRightExactly` | library-ui/pages/admin.js:316-318 | deleting a row removes exactly its changes and leaves every other replayable on its row if and only if the history tells it from the others |
| `EditHistoryRows.RefusedWithout` | src/routes/admin.ts:1803-1814 | a change made on the deleted row is refused without it |
| `EditHistoryRows.SurvivorsBlockExactly` | library-ui/pages/admin.js:316-318 | where no other row's change is dropped, the rest of a stack replays if and only if every change made on the deleted row carries its key |
| `EditHistoryRows.KeysNameTheirRows` | library-ui/pages/admin.js:224-320 | from an empty history, after every careful run, the key of the next change of either stack names the row it was made on, and so for each below it when its turn comes |
| `EditHistoryLaws.SettledUndoable` | library-ui/pages/admin.js:248-275 | in a settled database an edit can be undone exactly when it leaves the row a key without NULL |
| `EditHistoryLaws.StepSettles` | src/domain/adminTableEdits.ts:71-112 | an operation makes a settled database unsettled exactly when it stores a text in a JSON column |
| `EditHistoryLaws.UndoThenRedo` | library-ui/pages/admin.js:277-292 | k undos and then k redos restore tables, stacks and row keys exactly |
| `EditHistoryLaws.RedoThenUndo` | library-ui/pages/admin.js:277-292 | k redos and then k undos do too |
| `EditHistoryLaws.EditsAreUndone` | library-ui/pages/admin.js:224-292 | after any run of edits and toggles, as many undos as took effect restore the tables and the undo stack from before the run |
| `EditHistoryLaws.DeleteCommutes` | library-ui/pages/admin.js:308-319 | a change on another row does the same before and after a row is deleted |
| `EditHistoryLaws.TrailFollows` | library-ui/pages/admin.js:231-246 | the key of a row after a replayed change, told from the change alone, and which row the change reaches |
| `EditHistoryLaws.TracksExactly` | library-ui/pages/admin.js:231-246 | a change keeps track of its row exactly when its table is open or it leaves the key alone |
| `EditHistoryLaws.FilterKeepsChain` | library-ui/pages/admin.js:316-318 | where the history tells the deleted row from the others, filtering by table and key leaves the rest of a stack replayable on the remaining rows |
| `EditHistoryLaws.NoKeyEditsMark` | library-ui/pages/admin.js:316-318 | it does so in particular when no change with the deleted row's key sets a key column |
| `EditHistoryLaws.LostForGood` | library-ui/pages/admin.js:231-239 | a change undone without following its row's key is refused by every later redo, with any table open |
| `EditHistoryExamples.RedoLosesItsRow` | library-ui/pages/admin.js:231-239 | the run: edit a key, open another table, undo; the redo is refused and stays on the stack |
| `EditHistoryExamples.NullKeyCannotBeUndone` | src/domain/adminTableEdits.ts:34-37 | the run: set a key column to NULL; the undo is refused |
| `EditHistoryExamples.BlanksAreNotPutBack` | src/domain/adminTableEdits.ts:74-75 | the run: edit a text of blanks; the undo writes NULL |
| `EditHistoryExamples.DeleteLeavesFormerKey` | library-ui/pages/admin.js:316-318 | the run: edit a row, edit its key, delete it; the older change stays and cannot be undone |
| `EditHistoryExamples.DeleteDropsALivingRowsChange` | library-ui/pages/admin.js:316-318 | the run: edit a row, edit its key, give its former key to another row, delete that one; the first row's older change is gone |
| `EditHistoryPage.TablesPage.ApplyChange` | library-ui/pages/admin.js:224-247 | the change object gets the stored key exactly when the call succeeded and its table is open |
| `EditHistoryPage.TablesPage.EditCell` | library-ui/pages/admin.js:248-266 | which change is sent, if any, and the stacks afterwards |
| `EditHistoryPage.TablesPage.ToggleBool` | library-ui/pages/admin.js:267-275 | the same for a toggle |
| `EditHistoryPage.TablesPage.Undo` | library-ui/pages/admin.js:277-284 | popping, rewriting and pushing the shared change object does what the specification says, with no object in the history twice |
| `EditHistoryPage.TablesPage.Redo` | library-ui/pages/admin.js:285-292 | the same for redo |
| `EditHistoryPage.TablesPage.Others` | library-ui/pages/admin.js:317-318 | the filter keeps exactly the other rows' changes, in order |
| `EditHistoryPage.TablesPage.ConfirmDeleteRow` | library-ui/pages/admin.js:308-325 | both stacks are filtered once the server has deleted the row, and untouched when it has not |
| `CronLock.JobLock.Acquire` | src/jobs/cron.ts:169-178 | one try against the key; without an answer from Redis the job runs and the key is not taken |
| `CronLock.RunsAreApart` | src/jobs/cron.ts:169-174 | however the tries of any number of instances fall, two runs start at least the TTL apart |
| `CronLock.FirstOfEachTickRuns` | src/jobs/cron.ts:156-178 | while the skew leaves room on both sides of the TTL, the first try of each tick runs and no other |
| `CronLock.LateTryRunsAgain` | src/jobs/cron.ts:166-174 | with a skew of the TTL or more a tick can run twice |
| `CronLock.NextTickIsSkipped` | src/jobs/cron.ts:166-174 | with skew and TTL beyond the period a tick can run nowhere |
| `CronLock.OneRunPerTick` | src/jobs/cron.ts:156-178 | every schedule has exactly one run at each tick if and only if the skew is below the TTL (or there is one instance) and skew + TTL is at most the period |
| `CronLock.JobSkews` | src/jobs/cron.ts:44-55 | for the three locked jobs: exactly a skew under 5 minutes, of at most 1 minute, and under 30 minutes |
| `CronLock.StartUpTakesTheTick` | src/jobs/cron.ts:95-95 | a tick runs nowhere exactly when it falls wholly within the TTL after the start-up sweep |
| `SecretRotation.DecryptEncrypt` | src/domain/gateway/crypto.ts:36-77 | what is encrypted under the current secret opens with it alone and with all known secrets |
| `SecretRotation.OpensExactly` | src/domain/gateway/crypto.ts:57-77 | with which keys a value opens: its own being the first of the fingerprint it names, or, in the older format, being among them |
| `SecretRotation.PreviousOpen` | src/domain/gateway/crypto.ts:57-77 | what any previous secret sealed opens, unless another secret of its fingerprint is tried first |
| `SecretRotation.Database.CompareAndSwap` | scripts/rotate-gateway-secret.ts:47-50 | the value is replaced exactly when it is still the expected one |
| `SecretRotation.RotateAll` | scripts/rotate-gateway-secret.ts:24-69 | the loop with its counters and exit code does what the specification says, with other writes falling between any two calls |
| `RotationSafety.RotationIsInvisible` | scripts/rotate-gateway-secret.ts:32-52 | in every interleaving the table ends with the rows and plaintexts the other writers alone would have left, and unreadable values untouched |
| `RotationSafety.CountsAddUp` | scripts/rotate-gateway-secret.ts:27-63 | every value is counted once, at most the counted ones are replaced, and none is unreadable exactly when every value opens |
| `RotationCounts.CountsExactly` | scripts/rotate-gateway-secret.ts:27-58 | beside any writers each count is the number of the snapshot's values of its sort, those to rotate by their fingerprint |
| `RotationCounts.UntouchedAreRotated` | scripts/rotate-gateway-secret.ts:32-51 | a row that has to be rotated and that nobody else writes is afterwards sealed with the current secret, with the plaintext it had |
| `RotationCounts.RotatedExactly` | scripts/rotate-gateway-secret.ts:46-51 | `rotated` is at least the number of rows to rotate that others leave alone and at most the number to rotate; without other writers it is that number |
| `RotationCounts.LastWriteStands` | scripts/rotate-gateway-secret.ts:46-51 | no write of another is lost: the last one on a row stands, at most re-encrypted, and a removed row stays away |
| `RotationSafety.DryRunForetells` | scripts/rotate-gateway-secret.ts:46-63 | a dry run changes nothing and reports every count of a real run on the same snapshot except the replacements |
| `RotationSafety.OldSecretCanGo` | scripts/rotate-gateway-secret.ts:24-67 | with 0 unreadable and writers on the current secret, every row is under the current fingerprint and opens with the current secret alone, provided no value carried that fingerprint under another key |
| `RotationSafety.SecondRunRotatesNothing` | scripts/rotate-gateway-secret.ts:32-36 | a run on such a table rotates nothing, beside any writers |
| `RotationSafety.OldSecretCanGoExactly` | scripts/rotate-gateway-secret.ts:24-67 | without other writers the current secret alone opens every row if and only if none was unreadable and none carried its fingerprint under another key |
| `RotationSafety.FingerprintCollision` | scripts/rotate-gateway-secret.ts:33-36 | two secrets with one fingerprint: the run reports success and the value is lost with the old secret |
| `Migrations.Client.Transact` | scripts/apply-migrations.ts:110-119 | a file's effect and its record together, or neither |
| `Migrations.Client.Migrate` | scripts/apply-migrations.ts:74-121 | one run, cut off after any number of steps: the database it leaves, what a dry run lists, and that a complete run fails exactly when a file stays unrecorded |
| `Migrations.RecordedExactlyWhenCommitted` | scripts/apply-migrations.ts:102-121 | wherever a run is cut off, the data has the effects of the first so many pending files, each once, and exactly those are newly recorded |
| `Migrations.AppliedWalks` | scripts/apply-migrations.ts:79-88 | looking the recorded files up once, before the first transaction, is as good as before each |
| `Migrations.CutRunsResume` | scripts/apply-migrations.ts:74-121 | any number of runs cut off anywhere and then a complete one leave what one uninterrupted run leaves, from any database and whether or not a file fails |
| `Migrations.TwoRunnersApplyTwice` | scripts/apply-migrations.ts:79-115 | two runners that looked before either committed apply a file twice |

## Left out

Supervisor:
- A timer fires when it is due, a killed process exits within a fixed kill time, and the LEGACY_SETTLE_MS start (listening, then 6 s) is one way of becoming ready. The kill time is a parameter.
- To the supervisor a worker is a status (asked to drain, disconnected, killed) and the events ready and exit; `WorkerHandover` is not composed with it.
- SupervisorInvariants.PoolDueStep: that a killed process is gone within the kill time is assumed; `WorkerHandover.LeavesAfterItsWork` says exactly when a ready worker meets it.
- SupervisorReload.ReloadBound: rests on the same assumption.
- WorkerHandover.InvStep: closing the application is taken to wait for every request in flight, and a request that meets a closing application not to be accepted; both are the web framework's.
- WorkerHandover.LeavesNothingBehind: rests on the same assumption.
- WorkerHandover.EndsExactly: takes a shutdown that fails not to end the process. The second of two shutdowns ends a pool that is ending, which the database client rejects; a signal's shutdown has no handler for that, so unless the process listens for unhandled rejections it can end after two signals without a disconnect.
- WorkerHandover.LeavesAfterItsWork: rests on the same assumption.
- `stop` calls `retire` also on workers that are retiring already and may be disconnected; the source's `worker.send` can then raise an error event that nothing handles, which the model does not have.
- Log files, the control server's HTTP and the fingerprint of the running file.

Rate limiter:
- MemoryMonthRuns.UnobservableExactly: exact where the minute and the hour hold two days' worth each; for smaller minute or hour limits `FullMonthTells` and `RoomyIsUnobservable` leave the month limits from thirty to thirty-one days' worth open, at the defaults 600 000 to 619 999.
- MemoryBounds.BurstBound: for the month tier only while its bucket is not evicted, because `MonthIsForgotten` refutes it otherwise; the interval has both ends included.
- Admission.AddressBound: the month tier only while its bucket is not forgotten, for the same reason. `AdmissionRedis.AddressBound` has no such exception, and takes the pipelines one at a time.
- Admission.KeyBound: the month tier as for addresses, and the key's factor is the same throughout the run.
- The two clock reads of one request are one, the factor of a bucket is constant in the bounds, and the clock does not go back.
- Redis outages: the fall-back to memory and the per-window fail-open. A key set for n ms is gone n ms later.
- SlidingWindowRace.RaceBound: one window of one bucket, with ZADD and the PEXPIRE after it as one command.
- Address detection, path normalisation and the list of static files are the parameter `exempt` and the address; response headers and refusal texts.

Answer shapes:
- Request bodies from the validators (`bodySchemaFrom`, `stripUnsupported`): a plain filter.
- `undefined` and other non-JSON values, member names that an object inherits, and the order JavaScript gives to integer-like names. Numbers are reals.
- SchemaAlgebra.MergeIsUpperBound: only for schemas where `{}` meets `{}` and no array or object to be merged is nullable, because merging forgets `nullable` there and `{}` is re-taught otherwise.

Table edits:
- Columns assembled from a JSON text, and the tables' own rules (choices, addresses, number ranges) before the type check. A JSON null inside a JSON column counts as no value.
- TableEdits.PatchBack: restores the edited cell, not what the server changes besides it: `updated_at`, version counters, the invoice subtotal, the e-mail confirmation, webhook and incident stamps.
- Values that the database hands back in another form than it was given (timestamps, and numbers it returns as text), and masked secrets.
- JavaScript's conversions are parameters; where a number is typed back, showing and reading it are taken to be inverse.
- Row keys as text: a key is the list of its column values, so the JSON and base64url form is taken to be an exact inverse pair.
- Cascading deletes, rows added or changed by others while a history exists, and a grid that shows older values than the database holds.
- Overlapping changes and their shared error flag; one change is applied at a time, as undo and redo require.
- Rendering, selection, scrolling and messages.

Jobs:
- Redis outages for the cron lock beyond the single try (`Acquire`), the jobs' bodies, the jobs that take no lock, and the `deliveriesRunning` flag.
- Encryption itself: a sealed value opens under its own key only, and fingerprints are any function of the key. Malformed secrets and the missing current secret.
- Other writers of the secret rotation are blind writes and removals; a writer whose own write depends on the ciphertext it read is not covered.
- Choosing and guarding the target database of the migrations, their texts, and statements PostgreSQL cannot run in a transaction.

Elsewhere in the repository: routes, accounts, billing, e-mail, webhooks, tracing, configuration and the generated API description are data or single statements that would add only easy members.
