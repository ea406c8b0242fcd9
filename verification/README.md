# Print job manager (MapFish Print `ThreadPoolJobManager`), modelled in Dafny

This project models the bookkeeping of MapFish Print's thread-pool job manager,
with the threads taken out. The manager is an immutable state:

- the registry, a store of numbers (counters and poll times) and status records;
- the tracked submitted-job handles, each with a reference id, a start time and
  the abstract outcome of its future;
- the number of runnables waiting in the executor's queue;
- a shutdown flag and the configured waiting-queue bound.

Each public operation is a pure function of that state:

- `submit` does the admission check, raises the request counter, tracks a
  handle and writes a Pending record.
- `isDone` and `getCompletedPrintJob` answer status queries.
- `getAverageTimeSpentPrinting`, `getNumberOfRequestsMade`, `getLastPrintCount`
  and `timeSinceLastStatusCheck` answer metric queries.
- One run of the periodic result-posting task is a `Tick`: it harvests finished
  handles and updates the counters.

The waiting queue's ordering rule is a pure comparison over tagged items
(`Job | Other`), parameterised by the job comparator.

Files and modules:

- `results.dfy` (`Results`): `Option` and `Result`, standing for Guava's
  `Optional` and for thrown exceptions.
- `status.dfy` (`Status`): the print job and its `Pending | Successful | Failed`
  status record.
- `registry.dfy` (`Registry`): the registry operations the manager uses (`opt`,
  `put`, `incrementInt`/`incrementLong`, status store and load) and the key
  constants.
- `queue.dfy` (`JobQueue`): the queue comparator, the Java comparator contract,
  and the choice of the item a priority queue hands out next.
- `manager.dfy` (`JobManager`): the state, `Submit` and the queries.
- `reconcile.dfy` (`Reconcile`): the result-posting task, as a recursive
  function and as the source's iterator loop, with its accounting lemmas.
- `lifecycle.dfy` (`Lifecycle`): all steps as one state machine. It adds the
  environment's moves: a worker taking a waiting job, a future resolving, and
  shutdown. It proves the invariants that hold along every run and two
  backpressure scenarios.

Wall-clock time is a parameter (`now`) of every operation that reads the clock.
Whether serialising a status record succeeds is an input: a flag of `Submit`,
and the `StoreFailed` outcome of a handle.

Where the code behaves otherwise than its names and comments suggest, the model follows the code:

- `init` fails for a waiting-queue bound below 1. The bound is also the priority queue's initial capacity, which the JDK requires to be at least 1.

- A future that fails with an `ExecutionException` adds one to `lastPrintCount`
  and writes no Error record. The job's record stays Pending, so `isDone` keeps
  answering false. `Reconcile.TickKeepsUnpublished` states this.
- The executor's queue is a priority queue, which hands out its least element
  first. The comparator makes a print job greater than any other runnable, so
  other runnables are served before print jobs, not after.
  `JobQueue.SelectNext` states this.
- A future that yields a `Failed` status record counts as a job done. Its
  running time is added to `totalPrintTime`.
- `lastPrintCount` counts failed futures and failed status stores. Nothing ever
  resets it.
- `getAverageTimeSpentPrinting` divides by the stored done-count, read as 1 when
  absent. A stored total with no done-count is therefore returned as is.
- `submit` raises `newPrintCount` before it hands the job to the executor. So a
  submission refused by a shut-down executor still counts. So does one whose
  Pending record fails to serialise, and that one also leaves its handle
  tracked and its job queued.

## Model

| member | source | states |
|---|---|---|
| `JobQueue.CompareByKind` | core/src/main/java/org/mapfish/print/servlet/job/ThreadPoolJobManager.java:137-150 | a job against a non-job compares 1, a non-job against a job compares -1, whatever the job comparator |
| `JobQueue.DefaultCompareIsRankOrder` | core/src/main/java/org/mapfish/print/servlet/job/ThreadPoolJobManager.java:101-106 | with the default job comparator, two jobs and two non-jobs compare 0, and mixed pairs are ordered by kind |
| `JobQueue.DefaultJobPriorityIsComparator` | core/src/main/java/org/mapfish/print/servlet/job/ThreadPoolJobManager.java:101-106 | the default job comparator satisfies the comparator contract |
| `JobQueue.CompareAntisymmetric` | core/src/main/java/org/mapfish/print/servlet/job/ThreadPoolJobManager.java:137-150 | the queue comparator is sign-antisymmetric whenever the job comparator is |
| `JobQueue.CompareIsComparator` | core/src/main/java/org/mapfish/print/servlet/job/ThreadPoolJobManager.java:137-150 | the queue comparator is antisymmetric, transitive and consistent on equal items whenever the job comparator is |
| `JobQueue.SelectNext` | core/src/main/java/org/mapfish/print/servlet/job/ThreadPoolJobManager.java:137-152 | the queue hands out an item no waiting item is less than, and a non-job before any job; an empty queue yields nothing |
| `JobManager.Init` | core/src/main/java/org/mapfish/print/servlet/job/ThreadPoolJobManager.java:131-158 | a bound below 1 is refused, as the priority queue's initial capacity must be at least 1; otherwise the manager starts over the given registry with no handles, an empty queue, a live executor and the given bound |
| `JobManager.Submit` | core/src/main/java/org/mapfish/print/servlet/job/ThreadPoolJobManager.java:170-185 | a queue at or above the bound is refused with the queue size and nothing changes; an accepted submission raises `newPrintCount` by one, appends one handle with the job's id and start time, writes Pending with the job's appId, and queues one more runnable, nothing else; a shut-down executor's refusal changes only `newPrintCount`; a Pending record that cannot be stored leaves the count raised, the handle appended and the job queued, with no record written |
| `JobManager.GetCompletedPrintJob` | core/src/main/java/org/mapfish/print/servlet/job/ThreadPoolJobManager.java:216-230 | an unknown id is an error; a Pending record gives absent; a final record is returned as stored |
| `JobManager.IsDone` | core/src/main/java/org/mapfish/print/servlet/job/ThreadPoolJobManager.java:192-199 | done exactly when the completed-job query finds a record; a done answer leaves the registry identical; a not-done answer writes only the poll time; unknown ids fail as the query does |
| `JobManager.AverageTimeSpentPrinting` | core/src/main/java/org/mapfish/print/servlet/job/ThreadPoolJobManager.java:206-209 | fails exactly on a stored done-count of zero; with neither key it is 0; with no done-count it is the stored total; for a non-negative total and a positive count it is the floor of total over count; whenever it succeeds it is `JobManager.JavaDiv` of total by count |
| `JobManager.JavaDiv` | core/src/main/java/org/mapfish/print/servlet/job/ThreadPoolJobManager.java:208 | Java's `long` division: the quotient truncates toward zero, so the remainder is smaller than the divisor in magnitude and takes the dividend's sign (-7 / 2 is -3) |
| `JobManager.NumberOfRequestsMade` | core/src/main/java/org/mapfish/print/servlet/job/ThreadPoolJobManager.java:187-190 | the stored submission counter, 0 when absent; `JobManager.Submit`, `Lifecycle.SubmitAllBackpressure` and `Reconcile.TickAccounting` state how it moves |
| `JobManager.LastPrintCount` | core/src/main/java/org/mapfish/print/servlet/job/ThreadPoolJobManager.java:211-214 | the stored failure counter, 0 when absent; `Reconcile.TickAccounting` states how it moves |
| `JobManager.TimeSinceLastStatusCheckAsWritten` | core/src/main/java/org/mapfish/print/servlet/job/ThreadPoolJobManager.java:201-204 | as written: the stored poll time for the id, or `now` when the id was never polled |
| `JobManager.TimeSinceLastStatusCheckAsWrittenIsPollTime` | core/src/main/java/org/mapfish/print/servlet/job/ThreadPoolJobManager.java:192-204 | as written: after a not-done poll at t, the query answers t at every later time, not the time elapsed |
| `JobManager.TimeSinceLastStatusCheckAsWrittenIsNotElapsed` | core/src/main/java/org/mapfish/print/servlet/job/ThreadPoolJobManager.java:201-204 | as written, a never-polled job at time 1000 reports 1000, where the elapsed time is 0 |
| `JobManager.TimeSinceLastStatusCheck` | core/src/main/java/org/mapfish/print/servlet/job/ThreadPoolJobManager.java:201-204 | corrected: a never-polled job reports zero elapsed time |
| `JobManager.TimeSinceLastStatusCheckIsElapsed` | core/src/main/java/org/mapfish/print/servlet/job/ThreadPoolJobManager.java:192-204 | corrected: after a not-done poll at t, the query at t' returns t' − t |
| `JobManager.SubmittedJobIsPending` | core/src/main/java/org/mapfish/print/servlet/job/ThreadPoolJobManager.java:177-199 | right after an accepted submission the job is known, not completed, and a poll answers not done and records the poll |
| `JobManager.PollKeepsCounters` | core/src/main/java/org/mapfish/print/servlet/job/ThreadPoolJobManager.java:192-199 | a poll never changes any of the four counters |
| `Registry.LastPollKeyIsNoCounter` | core/src/main/java/org/mapfish/print/servlet/job/ThreadPoolJobManager.java:57-74 | no poll-time key equals a counter key |
| `Reconcile.HarvestSplitsFinished` | core/src/main/java/org/mapfish/print/servlet/job/ThreadPoolJobManager.java:241-245 | the kept handles are exactly the unfinished ones as an order-preserving sub-sequence; every finished handle is removed exactly once |
| `Reconcile.Tick` | core/src/main/java/org/mapfish/print/servlet/job/ThreadPoolJobManager.java:237-245 | a shut-down manager is returned identical; otherwise only unfinished handles remain, in order, each with its multiplicity; queue, flag and bound are unchanged |
| `Reconcile.RunTask` | core/src/main/java/org/mapfish/print/servlet/job/ThreadPoolJobManager.java:236-260 | the task run as the source runs it, shutdown check and loop, computes the same state as `Tick` |
| `Reconcile.Pass` | core/src/main/java/org/mapfish/print/servlet/job/ThreadPoolJobManager.java:241-259 | the iterate-and-remove loop yields the same registry and kept handles as the recursive pass |
| `Reconcile.SettleAccounting` | core/src/main/java/org/mapfish/print/servlet/job/ThreadPoolJobManager.java:247-257 | one finished handle: a stored status adds 1 done and now − start to the total; a failed job or failed store adds 1 to `lastPrintCount`; an interruption changes no counter; no other number changes |
| `Reconcile.HarvestAccounting` | core/src/main/java/org/mapfish/print/servlet/job/ThreadPoolJobManager.java:241-257 | over a pass, the done-count rises by the number of stored statuses, the total by their running times, `lastPrintCount` by the number of failures, and nothing else moves |
| `Reconcile.HarvestRecords` | core/src/main/java/org/mapfish/print/servlet/job/ThreadPoolJobManager.java:247-257 | a pass writes exactly the statuses the finished futures produced, later ones replacing earlier ones for the same id |
| `Reconcile.AccountedAtMostFinished` | core/src/main/java/org/mapfish/print/servlet/job/ThreadPoolJobManager.java:247-257 | stored statuses plus failures never outnumber the finished handles |
| `Reconcile.FinishedAreSettled` | core/src/main/java/org/mapfish/print/servlet/job/ThreadPoolJobManager.java:241-245 | the removed handles are as many as the finished ones |
| `Reconcile.TickAccounting` | core/src/main/java/org/mapfish/print/servlet/job/ThreadPoolJobManager.java:236-260 | a run keeps `newPrintCount`; done-count plus `lastPrintCount` rise by at most the number of removed handles |
| `Reconcile.TickPublishesStatus` | core/src/main/java/org/mapfish/print/servlet/job/ThreadPoolJobManager.java:243-249 | after a run, a job whose future produced a final status (not overridden later) is done and the query returns that status |
| `Reconcile.TickKeepsUnpublished` | core/src/main/java/org/mapfish/print/servlet/job/ThreadPoolJobManager.java:251-257 | a run leaves a job's record unchanged unless a finished future produced a status for it; a failed job stays Pending |
| `Lifecycle.NextPreservesWf` | core/src/main/java/org/mapfish/print/servlet/job/ThreadPoolJobManager.java:249 | every step keeps a stored done-count at least 1, because it is only ever incremented |
| `Lifecycle.RunPreservesWf` | core/src/main/java/org/mapfish/print/servlet/job/ThreadPoolJobManager.java:249 | the same along any sequence of steps |
| `Lifecycle.AverageNeverDividesByZero` | core/src/main/java/org/mapfish/print/servlet/job/ThreadPoolJobManager.java:207-209 | for a manager initialised over a registry with no done-count below 1, the average query never divides by zero after any run, and starts at 0 on an empty registry |
| `Lifecycle.DoneStaysDone` | core/src/main/java/org/mapfish/print/servlet/job/ThreadPoolJobManager.java:192-199 | a done job stays done under every step except resubmitting its id or a future producing a Pending record |
| `Lifecycle.SubmitAllBackpressure` | core/src/main/java/org/mapfish/print/servlet/job/ThreadPoolJobManager.java:170-185 | in a burst with no worker taking jobs, the i-th submission is accepted exactly when waiting + i is below the bound; the queue, the request count and the handles grow by the number accepted |
| `Lifecycle.DefaultBoundRefuses5001st` | core/src/main/java/org/mapfish/print/servlet/job/ThreadPoolJobManager.java:75-89 | with the default bound of 5000, the first 5000 of 5001 submissions are accepted and the 5001st is refused |
| `Registry.StoreLoadRoundTrip` | core/src/main/java/org/mapfish/print/servlet/job/ThreadPoolJobManager.java:217-225 | a stored status record loads back unchanged under its reference id |

## Findings

| source | as written | input that shows it | evidently intended | confidence | as-written member | corrected member |
|---|---|---|---|---|---|---|
| core/src/main/java/org/mapfish/print/servlet/job/ThreadPoolJobManager.java:201-204 | `timeSinceLastStatusCheck` returns the stored poll timestamp, or the current time when the job was never polled | job never polled, clock at 1000: returns 1000 | the time elapsed since the last poll, zero when never polled | medium, not executed | `JobManager.TimeSinceLastStatusCheckAsWrittenIsNotElapsed` | `JobManager.TimeSinceLastStatusCheck` |

## Left out

- The `ThreadPoolExecutor`, its thread factory, pool size (`maxNumberOfRunningPrintJobs`) and idle time, and the `Timer` schedule are not modelled. These are concurrency and library plumbing. A run of the task is a `Tick` step, and workers only appear as the `WorkerTakes` step.
- Shutdown is a flag set by `ShutdownStep`. The draining and interruption done by `shutdownNow` and the cancelling of the timer are not modelled.
- The window between queueing a job and writing its Pending record is not modelled: a poll in that window would find no record. `submit` is one atomic step.
- Thread-safety of the tracked-handle list, a plain `ArrayList` shared by `submit` and the timer thread, is not modelled. Every operation is one atomic step.
- Whether queued runnables really are `PrintJob` instances is not modelled: the executor may wrap submitted jobs, and that code is not part of this model. The comparator is proved over tagged `Job | Other` items.
- The queue's contents are not part of the manager state, only their number. Which item goes next is modelled separately by `JobQueue.SelectNext`.
- The JSON serialisation behind `PrintJobStatus.load`/`store` and `PendingPrintJob.store` is not part of this model. Storing is a map write whose failure is an input. Records are typed values, so a record that fails to deserialise on load cannot occur.
- `PrintJobStatus` key derivation is not part of this model. Status records live in their own map keyed by reference id.
- The `Registry` implementation is not part of this model. `incrementInt` and `incrementLong` are one `Increment` that starts an absent counter at 0.
- The registry's numbers are unbounded integers. Java `int`/`long` wrap-around of the counters and of the total print time is not modelled.
- `SubmittedPrintJob` is not part of this model. Its `getTimeSinceStart()` is taken as now minus the submission time.
- `Lifecycle.DoneStaysDone` excludes a resubmission of the same reference id. Such a resubmission overwrites the final record with Pending, and reference ids are unique by the caller's contract.
- `Lifecycle.DoneStaysDone` also excludes futures that produce a Pending record, which a finished job does not report.
- The test `CreateMapProcessorFixedScaleBBoxGeoJsonTest` renders maps and compares images. It is I/O and graphics, with nothing to model.
