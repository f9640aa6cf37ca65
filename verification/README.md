# Verification of realtime_utilities

A Dafny model of the parts of `realtime_utilities` that are hardest to get right by reading, with proofs of what
they guarantee over whole runs. `dafny verify dfyconfig.toml` checks everything.

- **Thread pool** (`ThreadPool`, `ThreadPoolSafety`, `ThreadPoolLiveness`, `Tasks`). The pool `tasks` is a
  transition system whose steps are its critical sections, the delivery of each notification, spurious wake-ups and
  task bodies. A schedule is any sequence of such steps by any number of workers and callers. The class in `Tasks`
  has the source's fields and methods; each method is proved to perform a run of that system.
- **Shared-memory mailbox** (`Mailbox`, `MailboxSchedules`, `Watchdog`, `RealTimeIPC`). Every operation of
  `RealTimeIPC` copies the packet out under the mutex, edits the copy and copies it back under the mutex again;
  only a refused `bond` returns after the first copy. `Mailbox` interleaves any number of processes at that grain;
  `MailboxSchedules` says what such schedules keep, when they are as good as their operations one after the other,
  and when a bond holds until it is broken. `Watchdog` is `flush` as a function of its three fields, and its meaning in
  terms of the whole history of flushes. `RealTimeIPC` is the class itself, with byte arrays, local packets and the
  mapped region, each method tied to those functions.
- **Deadlines** (`Timespec`, `Rounding`, `SyncController`). The deadline loops over mutable timespecs, C's truncating
  `/` and `%`, the synchronisation controller with its static integral, and comparison and conversion of timespecs
  through doubles with a 53-bit significand.
- **Time span tracker** (`TimeSpanTracker`). The tracker and its bounded buffer as functions of every call ever made.

Where the code and its comments differ, the model follows the code:

- The comment on `finish` says that it waits for the workers; the line that would do so is commented out. One can
  rely on all workers having exited when it returns only if they all had before (`FinishDoesNotWait`), though they may
  have by luck (`WorkersMayBeatTheNotification`). What waits is the destruction of the futures after the body of
  `~tasks`, and `ShutdownTerminates` shows that this returns.
- The comment on `abort` says the same of `abort`, with the same correction.

Properties one might expect that are false of the code, with an input and the exact condition under which they hold:

| expected | an input for which it fails | holds exactly when |
|---|---|---|
| An operation on the mailbox acts as if it were atomic | `StaleUpdateRestoresBond`: an `update` caught between its copies by a `breakBond` puts the bond back | `SerialExactly`; `UninterruptedIsSerial` for a condition on the schedule alone |
| Between two successful bonds there is a `breakBond` | `RacingBondsBothSucceed` | `AlternatesExactly`: no `bond` writes back what it read without a bond while a successful `bond` is unbroken |
| A successful `bond` shows in the flag until a `breakBond`, and there is one before the next that succeeds | `RacingBondsBothSucceed` | `BondHoldsExactly`: no operation but `breakBond` writes back what it read without a bond while a successful `bond` is unbroken |
| The bond flag and all results are those of the completed operations, one after the other | `StaleUpdateRestoresBond` | `BondingSerialExactly`: no stale bond flag is written back, except by a `breakBond` |
| A `flush` that returns WATCHDOG hands out zeros, also for a client | `ClientAlarmsAtOnce` | `ClientAlarmsWithLiveBytes` |
| `timer_add` returns a canonical timespec for a canonical one | `AddLeavesRange` | `AddCanonicalExactly` |
| `timer_inc_period` with one argument returns | `PeriodZeroNeverReturns` | `NeverCatchesUpOtherwise` |
| `timer_inc_period` with an offset returns the number of periods skipped | `SkippedPeriodsAreNotCounted` | `CountIsPeriodsExactly`; `CountMeansMovingBack` for when it is positive |
| `timer_greater_than` compares instants, also after `timer_add` | `UnborrowedComparesGreater` | `GreaterThanAfterAddExactly` |
| A `finish` runs what was queued before it | `FinishWithoutWorkers`, `FinishAfterTheWorkersLeft` | `FinishRunsEverything`; `QueuedTaskFate` for one task |
| The error of the sync controller is the representative nearest to zero | `DeltaIsNotNearest` | `DeltaIsPhase` |
| `max` and `min` return an extreme element | `MaxOfNegatives` | `ExtremesExactly` |
| `timer_to_ns` returns the instant, and orders instants | `ToNsConfusesNeighbours` | `ToNsExactly`; `ConversionsDecideExactly` |

Assumptions that hold throughout: seconds in doubles are reals (integers in doubles are rounded, in `Rounding`);
integers are unbounded except where a bound is stated; clock readings are arguments.

## Model

| member | source | states |
|---|---|---|
| ThreadPoolSafety.ReachableInv | include/realtime_utilities/parallel_computing.h:30-113 | In every reachable state: with a worker asleep and no notify_all on its way, the queue is no longer than undelivered notify_ones plus live non-sleeping workers; starts followed by the queue are in submission order; every submission is accounted for |
| ThreadPoolSafety.NoLostWakeupStep | include/realtime_utilities/parallel_computing.h:36-41 | Each step, including spurious wake-ups and a sleeper re-checking its predicate, keeps the wake-up bound |
| ThreadPool.SpuriousWakeupIsHarmless | include/realtime_utilities/parallel_computing.h:98-104 | Any sleeper may wake for no reason; it finds the queue empty, sleeps again, and the pool is as before |
| ThreadPoolLiveness.QueuedWorkIsServed | include/realtime_utilities/parallel_computing.h:92-113 | In every reachable state with something queued and a live worker, some step the scheduler owes (not a spurious wake-up) is enabled: no wake-up is lost |
| ThreadPoolSafety.ExactlyOnePlace | include/realtime_utilities/parallel_computing.h:30-113 | In every reachable state each submitted task is in exactly one of queued, running, done, cancelled, once; nothing else is in any of them |
| ThreadPoolSafety.FirstInFirstOut | include/realtime_utilities/parallel_computing.h:92-113 | Tasks start in submission order, and everything submitted before a started task was itself started or cancelled |
| ThreadPoolSafety.CancelledNeverStarts | include/realtime_utilities/parallel_computing.h:68-72 | A task in the queue at cancel_pending never starts in any continuation |
| ThreadPoolSafety.DrainedWhenAllExited | include/realtime_utilities/parallel_computing.h:74-111 | From any state with no stop item and no exited worker, under any later calls: when all workers (at least one) have exited, every earlier submission is done or cancelled |
| ThreadPoolSafety.DrainBeforeExit | include/realtime_utilities/parallel_computing.h:74-85 | The same for everything queued before the first finish; with no cancel, everything is done |
| ThreadPoolSafety.LateTaskNeverStarts | include/realtime_utilities/parallel_computing.h:74-113 | With stop items covering the live workers, a later task never starts unless a worker is started or the queue cancelled |
| ThreadPoolSafety.StopsCoverAfterFinish | include/realtime_utilities/parallel_computing.h:74-85 | finish leaves at least one stop item per live worker, from any state, also after a cancel that wiped earlier ones |
| ThreadPoolLiveness.SettledExactly | include/realtime_utilities/parallel_computing.h:92-113 | The states in which the scheduler owes no step are those with nothing undelivered and every worker asleep or exited |
| ThreadPoolLiveness.UnattendedRunIsBounded | include/realtime_utilities/parallel_computing.h:92-113 | Left alone, the pool takes at most a fixed number of steps plus two for each spurious wake-up |
| ThreadPoolLiveness.QueuedTaskFate | include/realtime_utilities/parallel_computing.h:92-113 | For every reachable state and every task in its queue: the pool left alone until it settles, the task has run to completion exactly if fewer stop items than live workers were ahead of it |
| ThreadPoolLiveness.TaskFate | include/realtime_utilities/parallel_computing.h:30-44 | In particular a task just being queued runs exactly if fewer stop items than live workers are queued |
| ThreadPoolLiveness.ShutdownIsBounded | include/realtime_utilities/parallel_computing.h:86-89 | After the destructor's finish, from any state: every unattended run, with any spurious wake-ups, is no longer than a bound fixed at the finish, and no worker falls asleep in it |
| ThreadPoolLiveness.ShutdownTerminates | include/realtime_utilities/parallel_computing.h:86-89 | From any history, where such a run leaves the scheduler owing no step, every worker has exited |
| ThreadPoolLiveness.ShutdownCompletes | include/realtime_utilities/parallel_computing.h:86-89 | From every reachable state such a run to the exit of all workers exists |
| ThreadPoolLiveness.FinishRunsEverything | include/realtime_utilities/parallel_computing.h:74-89 | finish from any history, also a second one as in the destructor, left alone until the pool settles: everything submitted has run or been cancelled exactly if every queued task had fewer stop items ahead of it than there were live workers |
| ThreadPoolLiveness.FreshPoolIsServed | include/realtime_utilities/parallel_computing.h:74-89 | On a pool not told to stop before, that is exactly if some worker was started or nothing waits |
| ThreadPoolLiveness.FinishWithoutWorkers | include/realtime_utilities/parallel_computing.h:74-85 | A reachable pool without workers whose finish leaves a task queued for good |
| ThreadPoolLiveness.FinishAfterTheWorkersLeft | include/realtime_utilities/parallel_computing.h:74-85 | Another one, whose worker had been stopped before the task was queued |
| ThreadPoolLiveness.FinishDoesNotWait | include/realtime_utilities/parallel_computing.h:73-85 | Over everything the workers may do between its critical section and its notification: all workers are sure to have exited when finish returns exactly if they all had before it was called |
| ThreadPoolLiveness.WorkersMayBeatTheNotification | include/realtime_utilities/parallel_computing.h:76-83 | A reachable pool with a live worker whose finish returns with all workers exited |
| Tasks.TaskPool.Queue | include/realtime_utilities/parallel_computing.h:30-44 | Appends the task at the back and wakes a single sleeper if there is one: the steps Push and the delivery of one notification |
| Tasks.TaskPool.Start | include/realtime_utilities/parallel_computing.h:47-59 | Adds n workers, each about to look at the queue: n steps Spawn |
| Tasks.TaskPool.CancelPending | include/realtime_utilities/parallel_computing.h:68-72 | Empties the queue and touches no worker: the step Cancel |
| Tasks.TaskPool.Finish | include/realtime_utilities/parallel_computing.h:74-85 | Queues one stop item a future in one critical section and wakes every sleeper |
| Tasks.TaskPool.Abort | include/realtime_utilities/parallel_computing.h:62-66 | The steps of cancel_pending, then those of finish |
| Tasks.TaskPool.PopOrSleep | include/realtime_utilities/parallel_computing.h:98-107 | The worker's critical section is the step Acquire |
| Tasks.TaskPool.ThreadTask | include/realtime_utilities/parallel_computing.h:92-113 | Undisturbed, a worker runs exactly the tasks ahead of the first stop item, in order, then consumes it and exits, or sleeps on an empty queue; what it did is a run of the pool |
| Tasks.SplitAtStop | include/realtime_utilities/parallel_computing.h:105-109 | What such a worker runs and what it leaves are together the queued tasks, in order |
| Tasks.SplitExactly | include/realtime_utilities/parallel_computing.h:105-109 | The cut is at the first stop item of the queue, or behind its last task |
| Tasks.StopTaken | include/realtime_utilities/parallel_computing.h:105-109 | It leaves one stop item less, or there was none and it leaves nothing |
| MailboxSchedules.NoMixing | include/realtime_utilities/internal/realtime_ipc_impl.h:303-531 | Under every interleaving of copies by any number of processes: flags stay 0 or 1, and the shared stamp and bytes are the initial zeros or were written back together by one earlier update that had read a bonded packet; the same for every copy that a process holds |
| MailboxSchedules.SerialExactly | include/realtime_utilities/internal/realtime_ipc_impl.h:404-531 | Over every schedule: region and results of all operations are at every point those of the completed operations, one after the other in the order in which they wrote back or were refused, exactly if every write-back meets a region that agrees with the packet read on what the operation does not overwrite and, for a bond, on what decides it; a refused bond writes nothing and acts at its only copy |
| MailboxSchedules.BondingSerialExactly | include/realtime_utilities/internal/realtime_ipc_impl.h:404-531 | The same for the bond flag and the results, exactly if no stale bond flag is written back (breakBond excepted) |
| MailboxSchedules.BondHoldsExactly | include/realtime_utilities/internal/realtime_ipc_impl.h:404-531 | Over every schedule: at every point an unbroken successful bond shows in the flag and any two successful bonds have a breakBond between them, exactly if no operation but breakBond ever writes back a packet read without a bond while a successful bond is unbroken |
| MailboxSchedules.AlternatesExactly | include/realtime_utilities/internal/realtime_ipc_impl.h:465-503 | Any two successful bonds have a breakBond between them exactly if no bond does so |
| MailboxSchedules.FlagTimelyClearsNoBond | include/realtime_utilities/internal/realtime_ipc_impl.h:404-531 | A schedule that writes back no stale bond flag meets both conditions |
| MailboxSchedules.UninterruptedIsSerial | include/realtime_utilities/internal/realtime_ipc_impl.h:404-531 | A schedule in which nobody writes back between the two copies of another's operation meets the conditions of `SerialExactly` and `BondingSerialExactly` |
| MailboxSchedules.BondingAlternates | include/realtime_utilities/internal/realtime_ipc_impl.h:404-503 | In every interleaved schedule that writes back no stale bond flag, a completed bond succeeded exactly if a breakBond was completed between it and every bond completed before, whatever else is mixed in |
| MailboxSchedules.UninterruptedBondingAlternates | include/realtime_utilities/internal/realtime_ipc_impl.h:404-503 | So it is in every schedule in which nobody writes back between the two copies of another's operation |
| MailboxSchedules.StaleUpdateRestoresBond | include/realtime_utilities/internal/realtime_ipc_impl.h:505-531 | A schedule in which a completed breakBond is undone by an update; it writes back a stale flag |
| MailboxSchedules.RacingBondsBothSucceed | include/realtime_utilities/internal/realtime_ipc_impl.h:465-487 | A schedule in which two bonds succeed with no breakBond between them; its last write-back is of a stale flag and over an unbroken bond |
| Mailbox.FlagIsOpenBond | include/realtime_utilities/internal/realtime_ipc_impl.h:465-503 | Without interleaving the bond flag is set exactly if some bond has not been broken since |
| Mailbox.AtomicBondingAlternates | include/realtime_utilities/internal/realtime_ipc_impl.h:404-503 | In a list of uninterrupted operations a bond succeeds exactly if a breakBond lies between it and every earlier bond |
| Mailbox.FlagIsLastingHardRT | include/realtime_utilities/internal/realtime_ipc_impl.h:404-503 | Without interleaving the RT flag is set exactly if some setHardRT has been followed by neither a setSoftRT nor a breakBond |
| Mailbox.ContentIsLastPublished | include/realtime_utilities/internal/realtime_ipc_impl.h:505-531 | Without interleaving stamp and bytes are those of the last update made while bonded, or the initial zeros |
| Watchdog.StartStep | include/realtime_utilities/internal/realtime_ipc_impl.h:577-599 | Only healthy flushes clear start_watchdog_time_ and only stale ones set it; refused, unbonded, jumping and boundary flushes leave it |
| Watchdog.StartSummarisesHistory | include/realtime_utilities/internal/realtime_ipc_impl.h:566-628 | For every history it is -1 exactly if no flush since the last healthy one was stale, and otherwise the clock of the first that was |
| Watchdog.DataPrevIsPreviousStamp | include/realtime_utilities/internal/realtime_ipc_impl.h:552-575 | data_time_prev_ is the stamp handed out by the last flush that passed the client gate |
| Watchdog.DeliveredExactly | include/realtime_utilities/internal/realtime_ipc_impl.h:549-562 | Every flush of every history, server or client: a bonded one hands out the stamp of the packet, and its bytes unless it is a server flush that returns WATCHDOG, which hands out zeros; an unbonded one hands out stamp 0 and zeros |
| Watchdog.RefusedExactly | include/realtime_utilities/internal/realtime_ipc_impl.h:571-575 | The gate refuses exactly the client flushes whose clock is more than two watchdogs from the stamp they hand out; they return WATCHDOG and change no field |
| Watchdog.FieldsAreLastAccepted | include/realtime_utilities/internal/realtime_ipc_impl.h:571-630 | data_time_prev_ and flush_time_prev_ are the stamp handed out by, and the clock of, the last flush not refused, and 0 before there is one |
| Watchdog.LatencyExactly | include/realtime_utilities/internal/realtime_ipc_impl.h:566-566 | The latency handed out is the stamp handed out less that of the last flush not refused |
| Watchdog.KindExactly | include/realtime_utilities/internal/realtime_ipc_impl.h:577-599 | Healthy, jumping and stale are intervals of the latency handed out, with limits 1e-5 and the watchdog |
| Watchdog.AlarmExactly | include/realtime_utilities/internal/realtime_ipc_impl.h:566-630 | The return value of every flush of every history: WATCHDOG exactly if the client gate refused it, or in hard RT the stamp jumped, or it is stale and was first found so more than a watchdog ago |
| Watchdog.FreezeIsDetected | include/realtime_utilities/internal/realtime_ipc_impl.h:589-599 | While a bonded hard-RT stamp stays frozen, every server flush more than a watchdog after the second one that read it alarms and hands out zeros |
| Watchdog.SilenceIsDetected | include/realtime_utilities/internal/realtime_ipc_impl.h:534-631 | From mailbox schedule to alarm: while nothing is written back into a bonded hard-RT region, a server that flushes it at any points of the schedule alarms with zeros at every flush more than a watchdog after its second one |
| Watchdog.RTFlagOnlyMasks | include/realtime_utilities/internal/realtime_ipc_impl.h:603-630 | Histories that differ in the RT flag keep the same watchdog state; codes differ exactly where the watchdog has expired and the flags differ, and nothing else of an output differs elsewhere |
| Watchdog.ServerOutputIsSafe | include/realtime_utilities/internal/realtime_ipc_impl.h:549-631 | Over every schedule, history and clock a server's output is zeros on WATCHDOG, zeros with stamp 0 when unbonded, and otherwise the initial zeros or stamp and bytes written back together by one earlier update that had read a bonded packet |
| Watchdog.ClientAlarmsWithLiveBytes | include/realtime_utilities/internal/realtime_ipc_impl.h:571-613 | Exactly when a client returns WATCHDOG without clearing its output |
| Watchdog.ClientAlarmsAtOnce | include/realtime_utilities/internal/realtime_ipc_impl.h:571-575 | A client's flush that does |
| Watchdog.BondingAgainIsAJump | include/realtime_utilities/internal/realtime_ipc_impl.h:557-599 | The first bonded hard-RT flush after an unbonded one, or after construction, is a jump exactly if its stamp exceeds the watchdog; it alarms exactly then, or if it is stale and a flush before the interruption was first found so more than a watchdog ago |
| RealTimeIPC.RealTimeIPC.GetDataPacket | include/realtime_utilities/internal/realtime_ipc_impl.h:303-341 | The local packet holds the region's header and bytes, and zeros behind them |
| RealTimeIPC.RealTimeIPC.SetDataPacket | include/realtime_utilities/internal/realtime_ipc_impl.h:344-379 | The region holds the packet's header and leading bytes |
| RealTimeIPC.RealTimeIPC.IsBonded | include/realtime_utilities/internal/realtime_ipc_impl.h:445-463 | Tells whether the region is bonded and remembers it; false for an empty region |
| RealTimeIPC.RealTimeIPC.IsHardRT | include/realtime_utilities/internal/realtime_ipc_impl.h:383-401 | Tells whether the region is in hard RT and remembers it; false for an empty region |
| RealTimeIPC.RealTimeIPC.SetHardRT | include/realtime_utilities/internal/realtime_ipc_impl.h:404-424 | The atomic operation on the region, refused for an empty one |
| RealTimeIPC.RealTimeIPC.SetSoftRT | include/realtime_utilities/internal/realtime_ipc_impl.h:427-442 | The atomic operation on the region, refused for an empty one |
| RealTimeIPC.RealTimeIPC.Bond | include/realtime_utilities/internal/realtime_ipc_impl.h:466-487 | Succeeds exactly if the region is not empty and not bonded, and then sets the flag and nothing else |
| RealTimeIPC.RealTimeIPC.BreakBond | include/realtime_utilities/internal/realtime_ipc_impl.h:490-503 | Clears both flags and nothing else |
| RealTimeIPC.RealTimeIPC.Update | include/realtime_utilities/internal/realtime_ipc_impl.h:506-531 | Publishes stamp and bytes together if bonded and changes nothing otherwise; a request of another size is refused without effect |
| RealTimeIPC.RealTimeIPC.CopyOut | include/realtime_utilities/internal/realtime_ipc_impl.h:549-562 | Stamp and bytes of a bonded packet, zeros of an unbonded one; bytes beyond the request are left alone |
| RealTimeIPC.RealTimeIPC.FlushPacket | include/realtime_utilities/internal/realtime_ipc_impl.h:549-630 | On buffers and fields, the state machine of Watchdog; stamp, bytes and latency in terms of the region and the field |
| RealTimeIPC.RealTimeIPC.Flush | include/realtime_utilities/internal/realtime_ipc_impl.h:534-631 | The fields stay the summary of all flushes so far and the output is that of the newest one, to which the results of Watchdog apply: the stamp and the bytes of the region if it is bonded, with zeros for the bytes of a server that returns WATCHDOG, and zeros if not; a request of another size, or on an empty region, changes neither state nor output |
| RealTimeIPC.DataPacket.Clear | include/realtime_utilities/realtime_ipc.h:63-67 | Header and the whole buffer become zero |
| Timespec.TimerIncPeriod | src/realtime_utilities/realtime_utilities.cpp:193-219 | Both loops end; the deadline moves by the least number of periods, at least one, that takes it to now or later; the result is that number less one; the seconds stay as long as the nanoseconds do not add up to 0 or more, and the new deadline is canonical otherwise |
| Timespec.NeverCatchesUpOtherwise | src/realtime_utilities/realtime_utilities.cpp:202-216 | The loop's exit is reachable exactly if the period is positive or one addition is enough |
| Timespec.PeriodZeroNeverReturns | src/realtime_utilities/realtime_utilities.cpp:202-216 | An input for which it is not |
| Timespec.IncPeriodIsNextDeadline | src/realtime_utilities/realtime_utilities.cpp:193-219 | That result in closed form, and the deadline it leaves |
| Timespec.NextDeadlineIsLeast | src/realtime_utilities/realtime_utilities.cpp:202-216 | The new deadline is later, not before now, and the earliest such instant in phase with the old one |
| Timespec.DeadlinesNeverDrift | src/realtime_utilities/realtime_utilities.cpp:193-219 | After any calls at any times, the deadline is the first one plus one period a call and one a reported miss |
| Timespec.TimerAdd | src/realtime_utilities/realtime_utilities.cpp:264-278 | The instant in the cell moves by exactly addtime; its nanoseconds grow by the remainder of addtime, or are canonical where that exceeds one second |
| Timespec.AddConserves | src/realtime_utilities/realtime_utilities.cpp:264-278 | The instant moves by exactly addtime, for every timespec and both signs |
| Timespec.AddFields | src/realtime_utilities/realtime_utilities.cpp:264-278 | Both fields, from every timespec and addtime: the nanoseconds grow by the remainder, the one number below a second congruent to addtime and of its sign, if that takes them to at most one second, and otherwise end up canonical; the rest is in the seconds |
| Timespec.AddCarriesLate | src/realtime_utilities/realtime_utilities.cpp:272-277 | Half a second added three times to nothing: the second carried by the third addition, not the second |
| Timespec.AddCanonicalExactly | src/realtime_utilities/realtime_utilities.cpp:272-277 | The range of the result from a canonical timespec, and that it is canonical exactly if the nanosecond sum is neither negative nor exactly one second |
| Timespec.AddLeavesRange | src/realtime_utilities/realtime_utilities.cpp:272-277 | An input for each of the two failures |
| Timespec.TimerIncPeriodOffset | src/realtime_utilities/realtime_utilities.cpp:221-230 | The deadline moves by period plus offset; the count comes from the operands as written, with C's unsigned conversions |
| Timespec.CountMeansMovingBack | src/realtime_utilities/realtime_utilities.cpp:228-229 | The count is positive exactly if the offset takes the deadline back by a period or more, and by a number of periods that is not a multiple of 2^32 |
| Timespec.CountIsPeriodsBack | src/realtime_utilities/realtime_utilities.cpp:228-229 | For a positive period the count is the number of whole periods the deadline moved back, modulo 2^32 |
| Timespec.CountForOtherPeriods | src/realtime_utilities/realtime_utilities.cpp:228-229 | For other periods it is 0, but for the most negative one without an offset, where the unsigned conversion makes it 1 |
| Timespec.CountIsPeriodsExactly | src/realtime_utilities/realtime_utilities.cpp:221-230 | The count is the periods moved forward less one, as in the other overload, exactly if that is one period; it is that number itself exactly if no whole period was moved, in either direction |
| Timespec.SkippedPeriodsAreNotCounted | src/realtime_utilities/realtime_utilities.cpp:221-230 | An offset that skips five periods counts 0, and one that goes back six counts 6 |
| Timespec.OffsetRunConserves | src/realtime_utilities/realtime_utilities.cpp:221-230 | n calls move the deadline by exactly n periods plus the sum of the offsets |
| Timespec.CDivMod | src/realtime_utilities/realtime_utilities.cpp:268-269 | The two C operators are quotient and remainder with the sign of the dividend |
| Rounding.GreaterThanExactly | src/realtime_utilities/realtime_utilities.cpp:318-326 | On canonical timespecs the comparison is that of the instants |
| Rounding.GreaterThanAfterAddExactly | src/realtime_utilities/realtime_utilities.cpp:318-326 | On the timespecs that timer_add leaves, the comparison is that of the instants exactly unless the seconds differ by one and the nanoseconds make up for it |
| Rounding.UnborrowedComparesGreater | src/realtime_utilities/realtime_utilities.cpp:318-326 | Such a timespec compares greater than an equal and than a later instant |
| Rounding.GreaterThanIsStrictTotalOrder | src/realtime_utilities/realtime_utilities.cpp:318-326 | On all timespecs it is the lexicographic order of the fields, a strict total one |
| Rounding.RoundIsOne | src/realtime_utilities/realtime_utilities.cpp:302-336 | Rounding to nearest even with 53 bits is monotone and exact on every multiple of 2^e below 2^(53+e) |
| Rounding.UlpBounds | src/realtime_utilities/realtime_utilities.cpp:302-336 | The spacing of doubles at n leaves n below 2^53 spacings and, unless it is 1, at 2^52 or more |
| Rounding.UlpIsPower | src/realtime_utilities/realtime_utilities.cpp:302-336 | The spacing is a power of two |
| Rounding.RoundIsNearestEven | src/realtime_utilities/realtime_utilities.cpp:302-336 | A rounded number is a multiple of the spacing at most half of it away, and an even one at a tie |
| Rounding.NoDoubleIsNearer | src/realtime_utilities/realtime_utilities.cpp:302-336 | It is a double itself, and no double whatever is nearer to the exact number |
| Rounding.DifferenceIsCorrectlyRounded | src/realtime_utilities/realtime_utilities.cpp:302-307 | The three roundings of the difference amount to one, and to none up to 2^53 |
| Rounding.ToNsIsCorrectlyRounded | src/realtime_utilities/realtime_utilities.cpp:333-336 | The same for the conversion |
| Rounding.ToNsIsNearestEven | src/realtime_utilities/realtime_utilities.cpp:333-336 | The conversion returns the nearest double to the instant, of two the even one |
| Rounding.DifferenceIsNearestEven | src/realtime_utilities/realtime_utilities.cpp:302-307 | The difference returns the nearest double to the difference of the instants, of two the even one |
| Rounding.ComparisonsAgree | src/realtime_utilities/realtime_utilities.cpp:302-336 | The sign of the difference is that of the comparison at any distance; conversions never come out in the wrong order and decide it up to 2^53 |
| Rounding.ToNsExactly | src/realtime_utilities/realtime_utilities.cpp:333-336 | The conversion returns the instant exactly if that is a multiple of the spacing of doubles at it |
| Rounding.ConversionsDecideExactly | src/realtime_utilities/realtime_utilities.cpp:318-336 | Comparing conversions is comparing instants, for all instants within a bound of the epoch, exactly if the bound is at most 2^53 ns |
| Rounding.ToNsConfusesNeighbours | src/realtime_utilities/realtime_utilities.cpp:333-336 | Two neighbours just beyond that are converted to the same number |
| SyncController.Controller.CalcSyncOffset | src/realtime_utilities/realtime_utilities.cpp:280-300 | The integral stays that of all calls so far; the correction is minus a hundredth of the error and minus a twentieth of the surplus of late calls over early ones, each rounded toward zero |
| SyncController.DeltaIsPhase | src/realtime_utilities/realtime_utilities.cpp:286-290 | The error is congruent to the reference past the sync point, lies in (-cycle, cycle/2], and is the representative nearest to zero exactly from the sync point on or if the remainder already was |
| SyncController.NegativeCycle | src/realtime_utilities/realtime_utilities.cpp:286-290 | With a negative cycle time the error is still the phase, but in another range, a whole cycle too large from the sync point on |
| SyncController.DeltaIsNotNearest | src/realtime_utilities/realtime_utilities.cpp:286-290 | A reference before the sync point whose error is not the nearest representative |
| SyncController.IntegralCounts | src/realtime_utilities/realtime_utilities.cpp:291-298 | After n calls the integral is the number of positive errors minus that of negative ones, at most n |
| SyncController.OffsetExactly | src/realtime_utilities/realtime_utilities.cpp:291-299 | The correction after every history, with errors of both signs, from the last error and the numbers of positive and negative errors |
| SyncController.OffsetIsBounded | src/realtime_utilities/realtime_utilities.cpp:299-299 | The correction is at most a hundredth of the error plus a twentieth of n |
| SyncController.OffsetOpposesError | src/realtime_utilities/realtime_utilities.cpp:291-299 | While no error has had the other sign, the correction has the opposite sign and is exactly a hundredth of the last error plus a twentieth of the number of non-zero ones, rounded down in size |
| TimeSpanTracker.Tracker.MeasureTimeSpan | include/realtime_utilities/time_span_tracker.h:26-43 | Keeps every field the specified function of the whole call history; rejected without effect exactly in the other mode |
| TimeSpanTracker.Tracker.Tick | include/realtime_utilities/time_span_tracker.h:45-55 | The same; measures nothing |
| TimeSpanTracker.Tracker.Tock | include/realtime_utilities/time_span_tracker.h:57-76 | The same; measures since the last accepted call |
| TimeSpanTracker.Measured | include/realtime_utilities/time_span_tracker.h:26-76 | An accepted measurement keeps buffer, counters, mode and last tick equal to the history's last spans, number of spans, spans over 1.2 times nominal, first mode and last accepted clock |
| TimeSpanTracker.CountersFromCalls | include/realtime_utilities/time_span_tracker.h:26-76 | The mode is that of the first call, cycles_ the number of calls that measure, missed_cycles_ that of the spans of more than 6/5 of the nominal one |
| TimeSpanTracker.WindowFromCalls | include/realtime_utilities/time_span_tracker.h:26-76 | The buffer holds the newest spans, as many as fit, by index |
| TimeSpanTracker.SpanOfCall | include/realtime_utilities/time_span_tracker.h:57-76 | A call that measures adds the time since the accepted call before it |
| TimeSpanTracker.FirstSpan | include/realtime_utilities/time_span_tracker.h:26-43 | A first call that measures does so from the epoch of the clock |
| TimeSpanTracker.LastTickIsLastAccepted | include/realtime_utilities/time_span_tracker.h:45-55 | last_tick_ is the clock of the last call of the latched mode |
| TimeSpanTracker.ModeIsLatched | include/realtime_utilities/time_span_tracker.h:26-76 | The first call's mode stays for ever, and calls of the other mode add no span and move no tick |
| TimeSpanTracker.MissedAtMostAll | include/realtime_utilities/time_span_tracker.h:36-40 | No more missed cycles than cycles |
| TimeSpanTracker.CircBuffer.PushBack | include/realtime_utilities/circular_buffer.h:24-29 | The new element is the last, before it come the newest old ones, and the oldest is dropped exactly if the buffer was full |
| TimeSpanTracker.WindowAt | include/realtime_utilities/circular_buffer.h:24-29 | The last n elements of a sequence, by index |
| TimeSpanTracker.Mean | include/realtime_utilities/circular_buffer.h:153-165 | The sum of the elements over their number, 0 for an empty buffer |
| TimeSpanTracker.SumInParts | include/realtime_utilities/circular_buffer.h:153-165 | One element is its own sum, and sums of parts add up |
| TimeSpanTracker.Max | include/realtime_utilities/circular_buffer.h:167-176 | The greatest of 0 and the elements |
| TimeSpanTracker.Min | include/realtime_utilities/circular_buffer.h:177-186 | The least of 0 and the elements |
| TimeSpanTracker.ExtremesExactly | include/realtime_utilities/circular_buffer.h:167-186 | These are the true extremes exactly if some element is not beyond 0, and 0 otherwise |
| TimeSpanTracker.MaxOfNegatives | include/realtime_utilities/circular_buffer.h:167-176 | A buffer whose reported maximum is not an element |
| TimeSpanTracker.MeanIsBetween | include/realtime_utilities/circular_buffer.h:153-165 | The mean lies within any bounds on the window |
| TimeSpanTracker.MaxIsTrueMaximum | include/realtime_utilities/time_span_tracker.h:83-87 | With a clock that does not run back, the maximum of a non-empty window is its true maximum |

## Left out

- Timespec.TimerIncPeriod: compares instants in exact reals where the source compares doubles of about 100 ns resolution, and counts misses in an unbounded integer where the source uses an int returned as uint32_t.
- Timespec.TimerIncPeriodOffset: takes the difference in seconds as a real, so that the source's rounding of it before the conversion to nanoseconds is not modelled.
- Rounding.DifferenceIsCorrectlyRounded: for seconds within 2^62 ns of each other, so that the final conversion to int64_t is in range; overflow beyond is undefined in the source.
- TimeSpanTracker.Mean: sums reals; the rounding of the running sum is not modelled.
- Watchdog.Flush: stamps, latencies and the watchdog are reals.
- `start` racing with `finish`, or with another `start`, on `finished_`, which the source does not guard: an iteration of `start` is one step.
- Return values and exceptions of tasks: a task is its submission number with a start and an end.
- Copying the packet byte by byte: the two copies under the mutex are steps; the layout of the header in memory is not modelled.
- Creation, opening and removal of the shared memory and the mutex, and the destructor of RealTimeIPC, which breaks whatever bond it finds.
- RealTimeIPC.RealTimeIPC.BreakBond: not on an empty region, where the source, which does not test for it, would lock a mutex that was never created.
- Pipe and message-queue modes, which are not implemented; messages printed, and the throttling counter of flush, which only affects them.
- The other members of circ_buffer (waiting, front insertion, iterators and references that escape the lock), and the locks of the tracker, whose methods are each one critical section.
- Process set-up (priorities, memory locking, page-fault counts), network interfaces, sleeping, diagnostics, shared_mutex, vector_mt and circular_buffer_stamped: system calls, formatting and thin wrappers.
