# Verified model of the HertzBeat collector core

A Dafny model of the parts of the Go collector whose behaviour is hardest to see from the code: the scheduler
that decides when jobs run, the replacement of placeholders in job definitions, the framing of messages, and
the shaping of collected data. `dafny verify dfyconfig.toml` checks all of it.

## How it is built

**Scheduler.** `Wheel` is the hashed timing wheel as a transition system: loading the tick, inserting,
advancing, scanning a bucket, cancelling, stopping. A step that is not enabled changes nothing, so a run is any
list of steps. `WheelFiring` proves when timeouts fire over all runs. `Scheduler` puts the dispatcher on top:
task maps, counters, the stages of an execution, and chains of timeouts, one chain per AddJob call.
`SchedulerRuns`, `SchedulerSafety`, `Removal` and `Registry` prove what holds over all runs. `WheelTimer`,
`Dispatch` and `JobServer` are the classes of the code with their mutable fields. An object carries the state of
the transition system it is in as a ghost field; its invariant says that this state is reachable and agrees with
the real fields, and every method takes steps of the system. `DispatcherConsistent` draws the theorems over for a
dispatcher. `Timing` holds the interval arithmetic, once unbounded and once in 64 bits.

**Placeholders.** `Substitution` compares the loop of ReplaceAll calls, in arbitrary map order, with one
simultaneous substitution. `Misreading` gives the exact condition for every step to be one, and `Rewriting` shows
that the same condition is exact for the final text. `Nesting` takes values that hold placeholders themselves and
shows what one and two passes make of them. `Resolution` lifts this to maps: headers whose keys are replaced as
well, and a map that is rewritten by itself. `JobParams` proves that executions of a cyclic job repeat, and
`SharedText` exactly when the text of a shared struct does. `MetricsReplacer` is the code on the heap, with the
clone that shares some structs and the parameter map that is rewritten while it is read.

**Framing.** `Framing` has the sender, the byte-at-a-time receiver and the round trips.

**Data shaping.** `PriorityPlan` is the grouping of due metrics, `RowCalculation` the calculation of fields,
`JsonPath` the navigation in a JSON tree.

`Collections` and `Arithmetic` hold general facts.

## What the code turns out to do

- AddJob reads the interval as milliseconds and RescheduleJob as seconds; the model keeps both scales.
- A delay under one tick waits a whole turn of the wheel.
- Adding a job again does not cancel its first timeout, so one removal does not end it, and a job removed while
  it runs is stored again by its own reschedule. `RemovalFinalIff` gives the exact condition for a removal to
  be final, and `ReaddedJobStartsAgain` a run in which a removed job starts again.
- The text `^_^a^_^b^_^` has two readings, decided by map order. `FinalTextIff` gives the exact condition under
  which every map order ends in the simultaneous substitution. Header entries whose keys become equal survive in
  map order; for headers that one pass resolves `HeadersOrderIndependentIff` gives the exact condition.
- An execution resolves two levels of names in values, in every map order, and a third level only in some. So a
  shared text is the same after every execution, whatever the orders, exactly when no chain of names is longer than
  two (`EveryExecutionSameIff`); `ThirdLevelDependsOnOrder` has a chain of three whose first execution comes out in
  two ways. A value that is just its own placeholder counts as none.
- With a single parameter of any value, the text behind its placeholder is the same after every execution exactly
  when the value is the placeholder or does not contain it; otherwise each execution lengthens it
  (`OneParameterSettlesIff`).
- A header whose key names a parameter that only the metric's own map knows is dropped: the first pass does not see
  that map, and drops keys that it leaves unresolved (`ExecutionOfOneHeader`).
- A payload of 2^32 bytes or more is framed with a truncated length. The receiver accepts padded prefixes and
  lengths up to 2^35 that no sender writes.
- JSON paths compose for every tree exactly when "first half is `$`" and "second half starts with `$.`" agree.
- Without alias fields CalculateFields drops every row.
- The comment on Job.Clone promises a deep copy; the JDBC, SSH and Redis structs are shared, and the model
  follows the code.

## Model

| member | source | states |
|---|---|---|
| `Timing.SafeIntervalIsExact` | internal/job/dispatcher/common_dispatcher.go:245-259 | for every positive interval, the 64-bit product behind the 80% timeout is exact if and only if the interval is at most 115,292,150 seconds |
| `Timing.TimingPathIsExact` | internal/job/dispatcher/time_wheel.go:123-131 | up to that interval and for ticks below 2^62, the first delay, the reschedule delay, the collection timeout and both target ticks in 64 bits equal their unbounded values, and no target lies before the current tick |
| `Timing.BucketIndexValidIff` | internal/job/dispatcher/hashed_wheel_timer.go:89-97 | with a remainder that takes the sign of the dividend, the bucket index is within the wheel if and only if the target is not negative or is a multiple of the wheel size |
| `Timing.TimeoutBelowGap` | internal/job/dispatcher/common_dispatcher.go:245-259 | the collection timeout is strictly below the reschedule delay if and only if the interval exceeds 30 seconds |
| `Timing.TruncDivIs` | internal/job/dispatcher/hashed_wheel_timer.go:89-89 | the quotient of a delay and a tick lies between zero and the delay, less than one tick from it, for delays of either sign |
| `Timing.CollectionTimeoutIs` | internal/job/dispatcher/common_dispatcher.go:245-259 | the timeout is 0.8 seconds for each second of the interval from 38 seconds on, and 30 seconds below |
| `Timing.WrapIs` | internal/job/dispatcher/hashed_wheel_timer.go:89-91 | 64-bit arithmetic gives the value in range that differs by a multiple of 2^64 |
| `Wheel.DueTickIsFirst` | internal/job/dispatcher/hashed_wheel_timer.go:167-226 | the due tick is the least scan after the insertion that has reached the target and visits its bucket, it lies a whole number of turns after the target, and it is the target itself when the insertion came in time |
| `Wheel.DueNow` | internal/job/dispatcher/hashed_wheel_timer.go:177-212 | a waiting timeout is due at the tick being scanned exactly when it lies in that bucket and its target is reached |
| `Wheel.ScanKeepsInv` | internal/job/dispatcher/hashed_wheel_timer.go:167-226 | one bucket scan keeps the wheel invariant: every waiting timeout is in its bucket with its due tick ahead, every firing happened on the due tick, every dropped one was cancelled, and nothing is lost or doubled |
| `Wheel.InsertKeepsInv` | internal/job/dispatcher/hashed_wheel_timer.go:88-101 | an insertion keeps that invariant even when the tick moved between loading it and inserting |
| `Wheel.RunKeepsInv` | internal/job/dispatcher/hashed_wheel_timer.go:80-226 | that invariant holds after every interleaving of load, insert, advance, scan, cancel, stop and halt |
| `WheelFiring.FiresExactlyWhenDue` | internal/job/dispatcher/hashed_wheel_timer.go:80-226 | in every reachable state a placed timeout has fired at most once and only on its due tick; a timeout that was never cancelled has fired exactly when its due tick has been scanned |
| `WheelFiring.PlacedSomewhere` | internal/job/dispatcher/hashed_wheel_timer.go:167-226 | where a placed timeout can be: in the bucket of its target before its due tick, among the fired ones after it, or dropped when cancelled |
| `WheelFiring.PlacedOnce` | internal/job/dispatcher/hashed_wheel_timer.go:167-225 | every placed timeout is exactly once among the waiting, the fired and the dropped |
| `WheelFiring.BucketScanIsFullScan` | internal/job/dispatcher/hashed_wheel_timer.go:167-225 | a tick fires, in the same order, exactly what a search of all buckets for uncancelled timeouts due at that tick finds |
| `WheelFiring.AtomicDelay` | internal/job/dispatcher/hashed_wheel_timer.go:88-101 | when ticks and creations do not interleave, an uncancelled timeout has fired exactly when the tick has come that its delay asks for, or, for a delay of less than one tick, one whole turn after its creation; it fires at no other tick |
| `WheelFiring.TickFiresTargets` | internal/job/dispatcher/hashed_wheel_timer.go:167-225 | in such runs with delays of at least one tick, each tick fires exactly the uncancelled timeouts of the whole wheel whose target is that tick |
| `WheelFiring.WaitingCount` | internal/job/dispatcher/hashed_wheel_timer.go:229-246 | the lengths of the buckets add up to the placed timeouts minus the fired and the dropped ones |
| `WheelFiring.OneVisitPerTurn` | internal/job/dispatcher/hashed_wheel_timer.go:167-178 | among any wheelSize consecutive ticks exactly one visits a given bucket |
| `WheelFiring.CancelledLeavesWithinOneTurn` | internal/job/dispatcher/hashed_wheel_timer.go:184-187 | whatever else happens, a cancelled timeout is in no bucket once wheelSize more ticks were scanned |
| `WheelFiring.NothingFiresAfterHalt` | internal/job/dispatcher/hashed_wheel_timer.go:135-165 | after the loop has exited no run fires anything more |
| `WheelTimer.Timeout.Cancel` | internal/types/job/timeout_types.go:62-69 | sets the cancelled flag and answers whether it was clear before |
| `WheelTimer.SplitBucket` | internal/job/dispatcher/hashed_wheel_timer.go:180-223 | splits a bucket into the timeouts to keep and those to launch: those not cancelled whose target lies after the tick, and those whose target does not, each list in its old order |
| `WheelTimer.HashedWheelTimer.constructor` | internal/job/dispatcher/hashed_wheel_timer.go:54-77 | non-positive arguments select 512 buckets and ticks of 100 ms; the wheel starts empty at tick 0 |
| `WheelTimer.HashedWheelTimer.NewTimeout` | internal/job/dispatcher/hashed_wheel_timer.go:80-110 | the target lies as many whole ticks after the current tick as fit into the delay, mirrored for a negative delay; the timeout is appended to the bucket of that target and to no other; nothing is created and null returned once stopped; it refines creation on the abstract wheel |
| `WheelTimer.HashedWheelTimer.ProcessTick` | internal/job/dispatcher/hashed_wheel_timer.go:167-226 | the counter goes up by one; of the bucket it then points to, exactly the uncancelled timeouts whose target is reached are launched and exactly those with a later target stay, and no other bucket changes; it refines one tick of the abstract wheel, also between the setting of the stop flag and the exit of the loop |
| `WheelTimer.HashedWheelTimer.CancelAll` | internal/job/dispatcher/time_wheel.go:235-247 | cancelling all timeouts of a map, in any order, cancels them and no others |
| `WheelTimer.HashedWheelTimer.Stop` | internal/job/dispatcher/hashed_wheel_timer.go:135-150 | the first call refines the stop step followed by the exit of the loop; a later one changes nothing |
| `WheelTimer.HashedWheelTimer.MarkStopped` | internal/job/dispatcher/hashed_wheel_timer.go:136-138 | sets the flag and answers whether it was clear; the loop is still running |
| `WheelTimer.HashedWheelTimer.AwaitExit` | internal/job/dispatcher/hashed_wheel_timer.go:140-146 | after the wait no tick can follow |
| `WheelTimer.HashedWheelTimer.GetStats` | internal/job/dispatcher/hashed_wheel_timer.go:229-246 | the total is the number of timeouts in the buckets, which is that of the timeouts placed and neither launched nor discarded |
| `Scheduler.LoadedInOrder` | internal/job/dispatcher/time_wheel.go:342-373 | the timeout that a reschedule loads aims at least the whole interval past the due tick of the execution that loads it, and every earlier timeout of the chain is finished |
| `Scheduler.StepKeepsInv` | internal/job/dispatcher/time_wheel.go:104-373 | every step of the scheduler keeps the invariant of wheel, chains, task maps and counters |
| `Scheduler.RunKeepsInv` | internal/job/dispatcher/time_wheel.go:104-373 | the invariant holds after every interleaving of add, remove, tick, execution, reschedule and stop steps |
| `SchedulerRuns.ChainConservation` | internal/job/dispatcher/wheel_timer_task.go:61-116 | in every reachable state the live timeouts and unfinished executions of a job are at most as many as its AddJob calls; a job added once has at most one |
| `SchedulerRuns.LaunchesAreSpaced` | internal/job/dispatcher/wheel_timer_task.go:85-113 | any two launches of one chain are at least floor(interval seconds / tick duration) ticks apart |
| `SchedulerRuns.GapIs` | internal/job/dispatcher/time_wheel.go:347-352 | that number of ticks times the tick duration is at most the interval in nanoseconds, and one tick more exceeds it |
| `SchedulerRuns.LaunchesLast` | internal/job/dispatcher/wheel_timer_task.go:85-113 | in nanoseconds: the ticks between two launches of one chain, and one tick more, last longer than interval * 1,000,000,000 |
| `SchedulerRuns.FirstTarget` | internal/job/dispatcher/time_wheel.go:123-134 | a new job aims as many whole ticks ahead as fit into interval * 1,000,000 nanoseconds, or into 10,000,000,000 without a positive interval |
| `SchedulerRuns.NextTarget` | internal/job/dispatcher/time_wheel.go:347-352 | a completed execution aims its successor as many whole ticks ahead as fit into interval * 1,000,000,000 nanoseconds |
| `SchedulerRuns.LaunchRate` | internal/job/dispatcher/wheel_timer_task.go:85-113 | in any window of T ticks a chain is launched at most 1 + T / gap times |
| `SchedulerSafety.FailedChainEnds` | internal/job/dispatcher/wheel_timer_task.go:85-113 | in every continuation, a chain whose dispatch failed or panicked gets no further timeout |
| `Removal.RemovalFinalIff` | internal/job/dispatcher/time_wheel.go:165-194 | for every state of the invariant with the loop running: no continuation that does not add the job launches it again if and only if whatever of it is live is either the timeout that the removal finds, still waiting, or an execution already launched that will not reschedule |
| `Removal.EndingRun` | internal/job/dispatcher/time_wheel.go:165-194 | a job of which only such executions are left gets no new timeout and no new launch in any run that does not add it, and stays so |
| `Removal.TicksLaunch` | internal/job/dispatcher/hashed_wheel_timer.go:167-226 | from every state with the loop running there are ticks after which a given uncancelled timeout of the wheel has been launched |
| `Removal.ExecutionRelaunches` | internal/job/dispatcher/wheel_timer_task.go:61-134 | from every execution under way of a repeating job there is a run without additions that launches the job once more |
| `Removal.RemovalIsFinal` | internal/job/dispatcher/time_wheel.go:165-194 | after a job added once is removed while no execution of it is in flight, nothing of it is live and nothing of it is launched in any continuation that does not add it again |
| `Removal.ReaddedJobStartsAgain` | internal/job/dispatcher/time_wheel.go:147-155 | after a live job is added again and removed once there is a run without additions in which it is launched: the earlier timeout was not cancelled |
| `SchedulerSafety.RescheduleStoresAgain` | internal/job/dispatcher/time_wheel.go:342-373 | a completed cyclic execution stores its job again, also when the job was removed while it ran |
| `SchedulerSafety.ReachableHomes` | internal/job/dispatcher/time_wheel.go:104-194 | in every reachable state the waiting timeout of a job that was added once is the one its own task map holds |
| `Registry.CountersConserved` | internal/job/dispatcher/time_wheel.go:304-339 | in every reachable state executed = completed + failed + recovered from panic + in flight, and the per-job execution counts of current entries add up to at most executed |
| `Registry.StoredBound` | internal/job/dispatcher/time_wheel.go:104-162 | cyclic and one-time tasks stored together are at most as many as the jobs added |
| `Registry.RegistryConsistent` | internal/job/server/job_server.go:60-107 | in every run the registry equals the last add or remove said of each ID; before Stop its keys, and always the keys of the execution counts, lie within the two task maps; the stored tasks never exceed the jobs added |
| `Dispatch.TimeDispatch.constructor` | internal/job/dispatcher/time_wheel.go:85-100 | a new dispatcher is in the initial state of the scheduler, with 512 buckets and 100 ms ticks |
| `Dispatch.TimeDispatch.AddJob` | internal/job/dispatcher/time_wheel.go:104-162 | an absent job is refused without effect; otherwise the new timeout aims interval * 1,000,000 ns (or 10,000,000,000 ns) divided by the tick ahead, is stored under the ID in the map of the job kind, the job count starts at zero and one addition is counted; the object takes the two steps of an addition |
| `Dispatch.TimeDispatch.RemoveJob` | internal/job/dispatcher/time_wheel.go:165-194 | the cyclic entry is cancelled and forgotten if there is one, and then the one-time entry is left alone; else the one-time entry; else it fails; a removal is counted in every case; the object takes the removal step |
| `Dispatch.TimeDispatch.RescheduleJob` | internal/job/dispatcher/time_wheel.go:342-373 | refuses a job that is not cyclic or has no positive interval, without effect; otherwise the new timeout aims interval * 1,000,000,000 ns divided by the tick ahead and becomes the cyclic entry; the object takes the two steps of a reschedule after a completed execution |
| `Dispatch.TimeDispatch.UpdateJobExecution` | internal/job/dispatcher/time_wheel.go:326-339 | adds one to the count of a known job and leaves every other count alone |
| `Dispatch.TimeDispatch.RunTask` | internal/job/dispatcher/wheel_timer_task.go:61-116 | for a launched timeout whose execution has not begun: one execution recorded and counted; on success one completion, and for a repeating job one new timeout its interval in seconds ahead; on error one failure; on panic neither; the object takes the steps of the whole execution |
| `Dispatch.TimeDispatch.Stop` | internal/job/dispatcher/time_wheel.go:221-262 | every stored timeout is cancelled, the three maps are emptied, no counter changes and the loop has exited; a second call changes nothing |
| `Dispatch.TimeDispatch.Tick` | internal/job/dispatcher/hashed_wheel_timer.go:167-226 | takes the advance and the scan step of the scheduler |
| `Dispatch.DispatcherConsistent` | internal/job/dispatcher/time_wheel.go:104-373 | of every dispatcher, whatever calls it has seen: the counters balance, the two maps hold at most what was added, execution counts belong to stored tasks, and no job has more live timeouts and executions than additions |
| `JobServer.Runner.AddAsyncCollectJob` | internal/job/server/job_server.go:60-87 | registers the job and adds it to the dispatcher; an absent job is refused without effect; the registry stays what the calls say, within the stored tasks |
| `JobServer.Runner.RemoveAsyncCollectJob` | internal/job/server/job_server.go:90-107 | unregisters the ID in every case and succeeds exactly when the dispatcher held it; the registry stays consistent |
| `JobServer.BatchDeleteErrors` | internal/transport/processors.go:296-323 | for every list, an ID is reported as often as it is listed beyond the number of task maps that hold it, and afterwards is held by as many fewer maps |
| `JobServer.BatchDeleteSucceeds` | internal/transport/processors.go:296-323 | no error is reported if and only if no ID is listed more often than task maps hold it |
| `JobServer.ProcessDelete` | internal/transport/processors.go:264-323 | each ID is reported as often as it is listed beyond the number of task maps that hold it, in the order of the failures, and full success is claimed exactly when there are none; every listed ID leaves the registry, failed or not; without a scheduler or with an unreadable body nothing changes |
| `Substitution.ReplaceParamPlaceholders` | internal/util/param/param_replacer.go:283-299 | the result is an outcome of visiting all parameters once in some order, with the early exit for text without a marker; with caret-free parameters a text with one placeholder `^_^name^_^` gets the value of that name in its place, or stays; whenever the text can be read as a template that no order misreads, it is the simultaneous substitution |
| `Substitution.ReplaceLeftmost` | internal/util/param/param_replacer.go:295-296 | the leftmost occurrence gives way to the value, and the scan goes on behind it |
| `Substitution.OnePlaceholder` | internal/util/param/param_replacer.go:283-299 | a text with one placeholder becomes, in every order, the text with the value of its name, or stays if the name is unknown |
| `Substitution.ReplaceIsSubstitute` | internal/util/param/param_replacer.go:291-297 | one ReplaceAll replaces exactly the placeholders of its key and touches nothing else, markers shared with neighbours included |
| `Substitution.OrderDoesNotMatter` | internal/util/param/param_replacer.go:283-299 | if no text that can come to stand between two placeholders is a key, every map order gives the simultaneous substitution that leaves unknown names alone |
| `Substitution.GuardedOrderDoesNotMatter` | internal/util/param/param_replacer.go:283-299 | the same from a condition on the template and the keys alone: every literal between two placeholders holds a character that no key contains |
| `Substitution.OrderMatters` | internal/util/param/param_replacer.go:283-299 | for any two different caret-free names, the template marker-a-marker-b-marker, whose last marker has no partner, comes out differently in the two orders |
| `Misreading.ReplaceIsSubstituteIff` | internal/util/param/param_replacer.go:291-297 | for a caret-free template with named placeholders, the last marker paired or not, one ReplaceAll does exactly the substitution of its key if and only if the key does not stand between another placeholder and the next marker |
| `Misreading.EveryStepProperIff` | internal/util/param/param_replacer.go:283-299 | every step of every map order substitutes its own parameter and nothing else if and only if no set of parameters replaced first ever leaves one still to come between a placeholder and the next marker |
| `Misreading.NeverMisreadOrderDoesNotMatter` | internal/util/param/param_replacer.go:283-299 | under that condition every order ends in the simultaneous substitution |
| `Rewriting.RewriteIsReplaceAll` | internal/util/param/param_replacer.go:295-296 | ReplaceAll on the text of any caret-free template, misread or not, is a rewriting that joins neighbouring placeholders around each misread key |
| `Rewriting.RenderInjective` | internal/util/param/param_replacer.go:283-299 | a caret-free template is determined by its text |
| `Rewriting.SafeOrder` | internal/util/param/param_replacer.go:291-297 | from every template there is an order that never raises the length of the literal text still to come |
| `Rewriting.LosingOrder` | internal/util/param/param_replacer.go:291-297 | where some parameter can be misread there is an order that ends with less literal text than the simultaneous substitution |
| `Rewriting.FinalTextIff` | internal/util/param/param_replacer.go:283-299 | for a caret-free template with named placeholders, the last marker paired or not, and caret-free parameters, every map order ends in the simultaneous substitution if and only if no set of parameters replaced first ever leaves one still to come between a placeholder and the next marker |
| `Nesting.ReplaceIsFill` | internal/util/param/param_replacer.go:295-296 | for a guarded template and a value that is itself a template, ReplaceAll on the text fills the value in for every placeholder of its key and leaves what it inserts alone |
| `Nesting.PassIsGraft` | internal/util/param/param_replacer.go:283-299 | a pass over the text, early exit included, fills in the values one after another in the visiting order; parameters that are not named may have any value |
| `Nesting.FlatPass` | internal/util/param/param_replacer.go:283-299 | where the values of the named parameters name nothing that has a value, every order gives the simultaneous filling and leaves nothing to fill |
| `Nesting.TwoPasses` | internal/job/collect/dispatch/metrics_collector.go:538-541 | where no chain of names is longer than two, two passes with two sets of values, each in any order, are the first filling followed by the second, and nothing is left that either set would fill |
| `Nesting.DeepMayChange` | internal/job/collect/dispatch/metrics_collector.go:538-541 | where a chain of three names exists there are orders for two executions in a row after which the text differs |
| `Resolution.DirectIsResolved` | internal/util/param/param_replacer.go:283-299 | a text that reads as a guarded template, with values that name nothing further, has one outcome over all orders |
| `Resolution.PlainIsDirect` | internal/util/param/param_replacer.go:283-299 | with caret-free values every text that reads as a guarded template is of that kind |
| `Resolution.PlainSettles` | internal/job/collect/dispatch/metrics_collector.go:538-541 | and its chains of names are no longer than two, also with two different parameter maps |
| `Resolution.SettlesAtEnd` | internal/job/collect/dispatch/metrics_collector.go:538-541 | where no chain of names is longer than two, both passes together have one outcome, whatever the order of each |
| `Resolution.EndStays` | internal/job/collect/dispatch/metrics_collector.go:538-541 | two more passes do not change that outcome, and it meets the condition again |
| `Resolution.EntriesAtEnd` | internal/util/param/param_replacer.go:173-195 | for headers whose keys one pass and whose values two passes resolve, and whose coinciding keys come to carry equal values, two passes have one outcome over all orders of entries and parameters |
| `Resolution.SelfResolved` | internal/util/param/param_replacer.go:274-278 | a map rewritten by itself, entry by entry and in any order, ends as if each entry had been resolved by the map at the start, provided one pass resolves each entry |
| `Resolution.HeadersOrderIndependentIff` | internal/util/param/param_replacer.go:173-195 | for headers that one pass resolves, all outcomes of the code, over the orders of the entries and of the parameters for each key and value, are equal if and only if entries whose keys become equal carry equal values |
| `Resolution.DisagreeingOutcomes` | internal/util/param/param_replacer.go:173-195 | entries whose keys become equal but whose values differ have two different outcomes, misreadable or not |
| `Resolution.HeadersKept` | internal/util/param/param_replacer.go:173-195 | whatever the texts and orders, no empty key and no key with a marker is kept |
| `Resolution.PlainHeadersStay` | internal/util/param/param_replacer.go:173-195 | headers without carets are kept as they are, but for an empty key |
| `JobParams.ViewAtEnd` | internal/util/param/param_replacer.go:132-159 | where every text is settled by two passes, both passes over a metric together have a single outcome whatever the map orders |
| `JobParams.OwnMapUnique` | internal/job/collect/dispatch/metrics_collector.go:520-536 | when each entry of the metric map is resolved by the first pass or overwritten by the configuration, the merged map is the same in every order |
| `JobParams.PlainOwnMap` | internal/util/param/param_replacer.go:274-278 | a merged map without carets resolves itself and is left as it is |
| `JobParams.ExecutionUnique` | internal/job/collect/dispatch/metrics_collector.go:520-545 | both passes of an execution together have a single outcome, also for the map, if each of its entries is resolved by one pass of the map over itself; the side conditions are on the configuration and the metric before the first pass, allow values that name other parameters, and ask nothing of parameters that are not named |
| `JobParams.NextExecutionSame` | internal/types/job/metrics_types.go:379-426 | the shared structs as an execution leaves them satisfy the side conditions again and lead to the same outcome |
| `JobParams.EveryExecutionSame` | internal/types/job/metrics_types.go:379-426 | every execution in every history yields what the first one yields, the map too where it can resolve itself, and the texts, map and HTTP settings of the original never change; all conditions are on the configuration and the metric before the first execution |
| `JobParams.ExecutionOfOneName` | internal/job/collect/dispatch/metrics_collector.go:520-545 | an execution puts, in every place that holds texts, the first text of the last configuration entry of a name in place of its placeholder, or else the entry of the metric map, or leaves it; the map that the metric comes to carry holds the second texts |
| `JobParams.ExecutionOfOneHeader` | internal/util/param/param_replacer.go:173-195 | a header key with a name that the configuration does not set is dropped, although the metric map may know it; otherwise the header comes to stand under the resolved key, for headers and query parameters alike |
| `SharedText.OneParameterSettlesIff` | internal/util/param/param_replacer.go:283-299 | for one parameter with any value, a JDBC text that holds its placeholder between caret-free texts, and any two executions of any history: they leave the same text if and only if the value is the placeholder or does not contain it |
| `SharedText.KeepsGrowing` | internal/util/param/param_replacer.go:283-299 | otherwise the text of each execution is longer than that of every earlier one |
| `SharedText.EveryExecutionSameIff` | internal/types/job/metrics_types.go:379-426 | for any number of parameters whose values are templates, and any metric without a map of its own: every execution in every history leaves the same text in a JDBC field, whatever the map orders, if and only if no chain of names from it is longer than two |
| `SharedText.ThirdLevelDependsOnOrder` | internal/job/collect/dispatch/metrics_collector.go:538-541 | x names y, y names z, no value names itself: the first execution leaves the third level in the text or resolves it, depending on the order, and the second resolves it |
| `MetricsReplacer.ReplaceEntries` | internal/util/param/param_replacer.go:173-195 | the new header map is the fold over some visiting order, each key and value replaced, unresolved or empty keys dropped, later entries overwriting |
| `MetricsReplacer.ReplaceHttp` | internal/util/param/param_replacer.go:162-207 | texts, headers, query and authorization each become one of their possible outcomes; the authorization object stays the same object |
| `MetricsReplacer.ReplaceMap` | internal/util/param/param_replacer.go:274-278 | every value is replaced in place; when the map is its own parameter map each entry is replaced by the map as the entries visited before have left it |
| `MetricsReplacer.ReplaceShared` | internal/util/param/param_replacer.go:210-265 | the JDBC, SSH and Redis structs are overwritten in place with outcomes of their texts |
| `MetricsReplacer.ReplaceMetricsParams` | internal/util/param/param_replacer.go:132-159 | one pass over a metric, also when the parameters are the metric's own map |
| `MetricsReplacer.CloneMetrics` | internal/types/job/metrics_types.go:379-426 | the copy has equal contents, a fresh map, fresh HTTP settings and authorization, and the same JDBC, SSH and Redis structs |
| `MetricsReplacer.CreateParamMap` | internal/util/param/param_replacer.go:100-128 | the map holds exactly the configured keys, each with the first text of its last configuration entry |
| `MetricsReplacer.MergeConfig` | internal/job/collect/dispatch/metrics_collector.go:520-536 | the metric has a map afterwards: the second text of the last entry of each configured key, and its own entries under all other keys |
| `MetricsReplacer.Execute` | internal/job/collect/dispatch/metrics_collector.go:520-545 | one execution: the clone holds an outcome of both passes, and of the original only the shared structs change, to what the clone holds |
| `MetricsReplacer.ExecuteTimes` | internal/job/collect/dispatch/metrics_collector.go:520-545 | any number of executions of one metric on the heap form a history and yield the same contents each time, the map included where it can resolve itself |
| `MetricsReplacer.ExecuteJob` | internal/util/param/param_replacer.go:74-96 | one execution of every metric of a job whose metrics point to different structs: each metric has an outcome of its own contents, undisturbed by the others |
| `MetricsReplacer.ExecuteJobTimes` | internal/util/param/param_replacer.go:74-96 | every execution of such a job gives each metric the contents that the first execution gave it |
| `Framing.EncodeIsCanonical` | internal/transport/netty_client.go:256-263 | the prefix is a well-formed base-128 number without superfluous digits and decodes to the length (Base 128 Varints, Protocol Buffers encoding) |
| `Framing.CanonicalIsEncode` | internal/transport/netty_client.go:256-263 | every canonical digit sequence is the encoding of its value, so the encoding is the only one |
| `Framing.PrefixFits` | internal/transport/netty_client.go:257-259 | a 32-bit length never needs more than the five bytes of the buffer |
| `Framing.PutUvarint` | internal/transport/netty_client.go:258-259 | writes the encoding to the front of the buffer and returns its length |
| `Framing.Uvarint` | internal/transport/netty_client.go:358-358 | a positive count means a complete number with that value at the front, zero means that every byte asks for more, negative means more than 64 bits |
| `Framing.WriteFrame` | internal/transport/netty_client.go:252-268 | the frame is the encoded low 32 bits of the length followed by the payload; the one-byte and two-byte prefixes are spelled out |
| `Framing.ReadPrefix` | internal/transport/netty_client.go:345-380 | on arbitrary bytes the loop reads at most five, never indexes past the buffer, and says whether it found a complete number, the end of the stream or five continuing bytes |
| `Framing.ReadMessage` | internal/transport/netty_client.go:345-380 | the result is the first frame of the unread bytes, and exactly that frame is consumed |
| `Framing.ReadIsReading` | internal/transport/netty_client.go:345-380 | spelled out on bytes: no byte, a prefix of one byte, one of two bytes as b0 - 128 + 128 * b1, and five continuing bytes, with the payload or its lack |
| `Framing.RoundTripIff` | internal/transport/netty_client.go:252-268 | for every payload and tail, reading the frame gives the payload and leaves the tail if and only if the payload is shorter than 2^32 bytes |
| `Framing.ReadSplits` | internal/transport/netty_client.go:345-380 | a message that was read stands in the stream behind a prefix of at most five bytes whose value is its length, followed by exactly the unread rest |
| `Framing.ReadIsFrameIff` | internal/transport/netty_client.go:345-380 | the bytes consumed are the frame a sender writes for that message if and only if the prefix is canonical and the length fits 32 bits |
| `Framing.ConversationRoundTripIff` | internal/transport/netty_client.go:252-268 | for every list of payloads, reading as many messages from the concatenated frames gives the list and leaves the tail if and only if every payload is shorter than 2^32 bytes |
| `Framing.ReceiveMany` | internal/transport/netty_client.go:345-380 | receiving from a stream gives the messages that stand at its front, and the unread rest follows them |
| `PriorityPlan.StableSortOrdered` | internal/types/job/job_types.go:140-153 | the reference sort yields strictly increasing pairs of priority and position |
| `PriorityPlan.OrderedUnique` | internal/types/job/job_types.go:140-153 | a list ordered by priority and position is determined by its members |
| `PriorityPlan.PlanIsStableSort` | internal/types/job/job_types.go:129-153 | groups of one priority each, in ascending priority and holding exactly the chosen metrics, concatenate to the stable sort by priority of the chosen metrics |
| `PriorityPlan.SortGroups` | internal/types/job/job_types.go:140-153 | the groups come out in strictly ascending priority, and no group is lost or added |
| `PriorityPlan.PlanOf` | internal/types/job/job_types.go:129-153 | whatever the map order, the groups are ascending and hold exactly the grouped metrics |
| `PriorityPlan.Job.GroupDue` | internal/types/job/job_types.go:84-110 | exactly the metrics with now >= collectTime + interval * 1000 are grouped, each under its priority in list order; they get the new time and, without alias fields, their fields as such; all others stay as they are |
| `PriorityPlan.Job.FallBack` | internal/types/job/job_types.go:112-127 | the plan is exactly the first metric of priority 0, which gets the new time but no alias fields, or nothing when there is none |
| `PriorityPlan.Job.ConstructPriorMetrics` | internal/types/job/job_types.go:80-159 | for every list, clock and map order: if now >= collectTime + interval * 1000 for any metric, exactly those metrics are planned, otherwise exactly the first of priority 0; exactly the planned metrics carry the new time; groups hold one priority each in list order and ascend strictly; their concatenation is the stable sort by priority |
| `PriorityPlan.FirstSelection` | internal/types/job/job_types.go:92-95 | a metric not chosen before is chosen by the first call with now >= collectTime + interval * 1000, and by the due test no earlier |
| `PriorityPlan.NextSelection` | internal/types/job/job_types.go:92-95 | after a selection at time t a metric not chosen since is chosen by the first call with now >= t + interval * 1000, and by the due test no earlier |
| `PriorityPlan.SelectionsSpaced` | internal/types/job/job_types.go:92-95 | over any calls with a non-decreasing clock, a metric chosen by the due test comes at least interval * 1000 ms after every earlier selection of it |
| `PriorityPlan.SelectionsSpread` | internal/types/job/job_types.go:92-95 | n + 1 such selections span at least n intervals |
| `JsonPath.CompositionIff` | internal/protocol/basic/http/http_collector.go:470-516 | navigating p1.p2 equals navigating p2 from the result of p1 for every tree if and only if p1 is "$" exactly when p2 starts with "$." |
| `JsonPath.JoinedMoves` | internal/protocol/basic/http/http_collector.go:471-475 | the steps of a joined path are those of the first half followed by the untrimmed second half, or the latter alone when the first half is "$" |
| `JsonPath.BuildNeedsEveryMove` | internal/protocol/basic/http/http_collector.go:477-515 | a tree built for one list of steps cannot be walked to its leaf by a list of another length |
| `JsonPath.ParsePart` | internal/protocol/basic/http/http_collector.go:481-491 | the key and index found in a part are its steps; an index that is negative, out of the 64-bit range or not a number is ignored, and the slices are within bounds |
| `JsonPath.NavigateJson` | internal/protocol/basic/http/http_collector.go:470-516 | the loop with its early returns computes the walk along the steps of the path; a key without dot and bracket gives the member of that name, "[" digits "]" the item at that number, both null where there is none, and the empty path the tree itself |
| `JsonPath.FindsBranch` | internal/protocol/basic/http/http_collector.go:470-516 | for a path of any number of parts, each a key, an index in decimal digits or both, with or without "$." in front: navigation ends at the node to which the parts lead from member to member and item to item |
| `JsonPath.FindsNothing` | internal/protocol/basic/http/http_collector.go:470-516 | where one of the parts leads nowhere, navigation gives null, whatever follows |
| `JsonPath.BadIndexIgnored` | internal/protocol/basic/http/http_collector.go:483-488 | an index text that is no number, or a negative one, is ignored |
| `JsonPath.AtoiReads` | internal/protocol/basic/http/http_collector.go:486-488 | the decimal digits of a number read as that number within 64 bits, with or without a sign, and not beyond |
| `JsonPath.AtoiRefuses` | internal/protocol/basic/http/http_collector.go:486-488 | a text with any other character, a sign alone and the empty text are no numbers |
| `RowCalculation.RowShape` | internal/job/collect/dispatch/metrics_collector.go:104-193 | for any evaluator, one non-empty column per field, and a number column is the null marker or a formatted number |
| `RowCalculation.RowIsCausal` | internal/job/collect/dispatch/metrics_collector.go:109-209 | appending fields leaves all earlier columns as they are, and the later ones start from the scope those leave |
| `RowCalculation.ScopeIsDetermined` | internal/job/collect/dispatch/metrics_collector.go:195-208 | an expression sees, under each name, the last calculated column of that name or else the collected value; collected texts never change |
| `RowCalculation.MappedColumn` | internal/job/collect/dispatch/metrics_collector.go:135-143 | a field without an expression has the column its collected text gives, wherever it stands |
| `RowCalculation.ChangedFieldReaches` | internal/job/collect/dispatch/metrics_collector.go:109-209 | exchanging one field for any other changes only later columns that have an expression |
| `RowCalculation.FailingExpressionIsNone` | internal/job/collect/dispatch/metrics_collector.go:120-131 | an expression that never succeeds leaves the whole row, later columns included, as it is without the expression |
| `RowCalculation.FailingConversionIsNone` | internal/job/collect/dispatch/metrics_collector.go:153-177 | a conversion that never succeeds leaves the whole row as it is without the conversion |
| `RowCalculation.LoadRow` | internal/job/collect/dispatch/metrics_collector.go:74-102 | the alias fields are bound as far as the row reaches, later ones over earlier ones |
| `RowCalculation.MapField` | internal/job/collect/dispatch/metrics_collector.go:126-142 | the text collected under the alias if the field has a non-empty one, otherwise under its name |
| `RowCalculation.EvaluateField` | internal/job/collect/dispatch/metrics_collector.go:113-143 | the output of the expression on the bindings of the field kind, nothing for a null output, the mapped text without an expression or when it fails |
| `RowCalculation.FinishField` | internal/job/collect/dispatch/metrics_collector.go:145-193 | numbers converted and formatted, the null marker for an empty text or an unreadable number |
| `RowCalculation.RowIsRow` | internal/job/collect/dispatch/metrics_collector.go:104-209 | every calculated row is the row of what was collected: each column shows the text of its field, which is the last text collected under its alias or name that is not the null marker, or what its expression gives on the bindings that stand there (last earlier column of a name, else last collected value; texts for string fields, numbers for others); a number column is printed in the unit asked for, the unit in the text coming before the configured one |
| `RowCalculation.RowUnique` | internal/job/collect/dispatch/metrics_collector.go:104-209 | that determines the row |
| `RowCalculation.CalculateRow` | internal/job/collect/dispatch/metrics_collector.go:104-209 | the in-place loop over the maps computes the row |
| `RowCalculation.CalculateFields` | internal/job/collect/dispatch/metrics_collector.go:54-215 | rows correspond one to one, and each new row is the row of what was collected, as `RowIsRow` states it; an absent metric or response changes nothing; without alias fields every row is lost |

## Left out

- Clocks, tickers, contexts, goroutine scheduling and logging: a tick counter and arbitrary interleavings of steps stand for them; the deadline in a timeout is only logged.
- Start, the started flags and the statistics logger: they decide whether ticks come at all, and a run may contain none.
- Use of the dispatcher after Stop, where null timeouts are stored as tasks: only that nothing fires any more is proved; AddJob, and a reschedule, require a timer that is not stopped.
- AddJob and RescheduleJob of one ID are one caller at a time: their load of the tick and their insertion are separate steps, but insertion and storing in the map are one.
- A scan reads the cancelled flag of each timeout in turn, and cancellations may fall between the reads; the model's scan is one step, so a cancellation falls before or after the whole scan of a bucket.
- Dispatch.TimeDispatch.RunTask: an execution is run from start to end without other steps between; the transition system has each of its steps apart. A timer task without a job is refused by the code, and AddJob creates none.
- Stop of the dispatcher is one step. In the code it cancels the stored timeouts, empties the maps, stops the timer and clears its flag one after the other, and an AddJob or a reschedule that falls between them stores a timeout that nobody cancels and that may fire until the timer stops.
- Two updates of one execution count that overwrite each other: the count is one step, so lost updates are not modelled.
- The rollback in AddAsyncCollectJob: AddJob fails only for an absent job, which is refused before.
- WheelTimer.HashedWheelTimer.NewTimeout: requires a target with a bucket, since the code indexes out of range otherwise; `BucketIndexValidIff` says which targets those are.
- Rewriting.FinalTextIff: a placeholder with an empty name and text with stray carets are outside the statement; neither is a named placeholder.
- JobParams.EveryExecutionSame: the side conditions are sufficient for all texts of a metric; that they are necessary is proved for a text of a shared struct, by `EveryExecutionSameIff` and `OneParameterSettlesIff`.
- SharedText.EveryExecutionSameIff: literals between placeholders hold a character that no key contains, and each configuration value has the same text in both formattings.
- MetricsReplacer.ExecuteJob: the metrics of a job are executed one after the other; metrics that point to the same struct, and collections of one job that overlap in time, are not modelled.
- MetricsReplacer.CreateParamMap: each configuration entry carries the two texts that the two formatting routines give its value; number formatting itself is not modelled.
- The structs' fields are a map from field name to text; an SSH tunnel's fields count as fields of the struct that owns it, and fields that are never replaced are left out.
- Lookup of the processed metric by name in the dispatcher, result channels and error lists.
- Password decryption, base64 and the screening of JDBC addresses.
- gzip, protobuf, TCP, deadlines, heartbeats and reconnection: the stream of decompressed bytes is given, and a read that returns no byte without an error does not occur.
- The gRPC client, the response table and message dispatch.
- PriorityPlan.Job.ConstructPriorMetrics: the due test is in unbounded integers, and the library sort is an insertion sort; with distinct priorities every correct sort gives the same list.
- RowCalculation.CalculateFields: parsed calculations and units are given, since parsing adds only easy members; numbers are values that arbitrary functions produce and consume, so rounding does not matter.
- JsonPath.NavigateJson: scalars carry no type, since navigation never looks into them; building rows from the tree is left out as easy.
- Collectors for JDBC, Redis, SSH, Milvus and HTTP requests, Arrow output, configuration loading and metrics export.
