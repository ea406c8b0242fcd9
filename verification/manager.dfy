/** The job manager's state and its facade operations: admission-controlled
    submission and the status and metrics queries. The executor, timer and
    threads are abstracted away: the waiting queue is its size, a job's future
    is an abstract outcome, and wall-clock time is a parameter. */
module JobManager {
  import opened Results
  import opened Status
  import opened Registry

  /** The waiting-queue bound used when none is configured. */
  const DEFAULT_MAX_WAITING_JOBS := 5000

  /** What a submitted job's future yields when the reconciliation task asks:
      not finished yet; a status (whose store may still fail); the job threw;
      the wait was interrupted. */
  datatype Outcome =
    | NotDone
    | Success(status: StatusRecord)
    | ExecutionFailed
    | Interrupted
    | StoreFailed
  {
    predicate IsDone() {
      !NotDone?
    }
  }

  /** A tracked submission: the job's reference id, when it was submitted, and
      the state of its future. */
  datatype Handle = Handle(referenceId: string, start: int, outcome: Outcome)

  /** The manager: the registry, the tracked handles in submission order, the
      number of runnables waiting in the executor's queue, whether the executor
      has been shut down, and the configured waiting-queue bound. */
  datatype Manager = Manager(
    registry: Store,
    handles: seq<Handle>,
    waiting: nat,
    shutdown: bool,
    maxWaiting: int)

  /** Why initialisation failed: the waiting-queue bound doubles as the
      priority queue's initial capacity, which must be at least 1. */
  datatype InitError = IllegalCapacity(capacity: int)

  /** `init()` over an existing registry: a live executor with an empty queue
      and no tracked handles, or the error for an unusable bound. */
  function Init(registry: Store, maxWaiting: int): (r: Result<Manager, InitError>)
    ensures r.Err? <==> maxWaiting < 1
    ensures r.Err? ==> r.error == IllegalCapacity(maxWaiting)
    ensures r.Ok? ==>
      && r.value.handles == [] && r.value.waiting == 0 && !r.value.shutdown
      && r.value.registry == registry && r.value.maxWaiting == maxWaiting
  {
    if maxWaiting < 1 then Err(IllegalCapacity(maxWaiting))
    else Ok(Manager(registry, [], 0, false, maxWaiting))
  }

  /** Why a submission failed. `CapacityExceeded` is the backpressure refusal;
      `ExecutorShutDown` is the executor refusing work after shutdown;
      `PendingNotStored` is the Pending record failing to serialise. */
  datatype SubmitError = CapacityExceeded(waiting: nat) | ExecutorShutDown | PendingNotStored

  /** The manager after a submission, and the error it raised, if any. */
  datatype Submission = Submission(manager: Manager, error: Option<SubmitError>)

  /** `submit(job)` at time `now`. `pendingStored` says whether serialising the
      Pending record succeeds. The steps happen in the source's order, so a
      late failure leaves the earlier effects in place. */
  function Submit(m: Manager, job: PrintJob, now: int, pendingStored: bool): (r: Submission)
    // Backpressure: the queue being at or above the bound is exactly the refusal, which changes nothing.
    ensures r.error == Some(CapacityExceeded(m.waiting)) <==> m.waiting >= m.maxWaiting
    ensures m.waiting >= m.maxWaiting ==> r.manager == m
    // An accepted submission counts one request, tracks one handle, and records the job as Pending.
    ensures r.error.None? ==>
      && Opt(r.manager.registry, NEW_PRINT_COUNT, 0) == Opt(m.registry, NEW_PRINT_COUNT, 0) + 1
      && r.manager.registry.values - {NEW_PRINT_COUNT} == m.registry.values - {NEW_PRINT_COUNT}
      && r.manager.handles == m.handles + [Handle(job.referenceId, now, NotDone)]
      && r.manager.registry.records == m.registry.records[job.referenceId := Pending(job.referenceId, job.appId)]
      && r.manager.waiting == m.waiting + 1
      && r.manager.shutdown == m.shutdown && r.manager.maxWaiting == m.maxWaiting
    ensures r.error.None? <==> m.waiting < m.maxWaiting && !m.shutdown && pendingStored
    // A shut-down executor refuses the job after it was counted: nothing else changes.
    ensures r.error == Some(ExecutorShutDown) <==> m.waiting < m.maxWaiting && m.shutdown
    ensures r.error == Some(ExecutorShutDown) ==>
      && r.manager.handles == m.handles && r.manager.waiting == m.waiting
      && r.manager.registry.records == m.registry.records
      && r.manager.registry.values - {NEW_PRINT_COUNT} == m.registry.values - {NEW_PRINT_COUNT}
      && r.manager.shutdown == m.shutdown && r.manager.maxWaiting == m.maxWaiting
    // A Pending record that cannot be stored leaves the job counted, tracked and queued, but unrecorded.
    ensures r.error == Some(PendingNotStored) <==> m.waiting < m.maxWaiting && !m.shutdown && !pendingStored
    ensures r.error == Some(PendingNotStored) ==>
      && r.manager.handles == m.handles + [Handle(job.referenceId, now, NotDone)]
      && r.manager.waiting == m.waiting + 1
      && r.manager.registry.records == m.registry.records
      && r.manager.registry.values - {NEW_PRINT_COUNT} == m.registry.values - {NEW_PRINT_COUNT}
      && r.manager.shutdown == m.shutdown && r.manager.maxWaiting == m.maxWaiting
    // The registry counts every submission that gets past admission, even one that fails later.
    ensures m.waiting < m.maxWaiting ==>
      Opt(r.manager.registry, NEW_PRINT_COUNT, 0) == Opt(m.registry, NEW_PRINT_COUNT, 0) + 1
    ensures r.manager.registry.values.Keys <= m.registry.values.Keys + {NEW_PRINT_COUNT}
  {
    if m.waiting >= m.maxWaiting then
      Submission(m, Some(CapacityExceeded(m.waiting)))
    else
      var counted := m.(registry := Increment(m.registry, NEW_PRINT_COUNT, 1));
      if m.shutdown then
        Submission(counted, Some(ExecutorShutDown))
      else
        var queued := counted.(
          waiting := counted.waiting + 1,
          handles := counted.handles + [Handle(job.referenceId, now, NotDone)]);
        if !pendingStored then
          Submission(queued, Some(PendingNotStored))
        else
          Submission(queued.(registry := StoreRecord(queued.registry, Pending(job.referenceId, job.appId))), None)
  }

  /** Why a status query failed: nothing is recorded for the reference id. */
  datatype QueryError = NoSuchReference(referenceId: string)

  /** `getCompletedPrintJob(referenceId)`: absent while the job is Pending, the
      stored record once it is final, an error for an unknown id. */
  function GetCompletedPrintJob(s: Store, referenceId: string): (r: Result<Option<StatusRecord>, QueryError>)
    ensures r.Err? <==> LoadRecord(s, referenceId).None?
    ensures r.Err? ==> r.error == NoSuchReference(referenceId)
    ensures r == Ok(None) <==> LoadRecord(s, referenceId).Some? && !LoadRecord(s, referenceId).value.IsFinal()
    ensures r.Ok? && r.value.Some? ==> LoadRecord(s, referenceId) == r.value && r.value.value.IsFinal()
  {
    match LoadRecord(s, referenceId)
    case None => Err(NoSuchReference(referenceId))
    case Some(status) => if status.Pending? then Ok(None) else Ok(Some(status))
  }

  /** The answer to a poll, and the registry after it. */
  datatype Polled = Polled(done: bool, registry: Store)

  /** `isDone(referenceId)` at time `now`: done exactly when a completed job
      is present; an unanswered poll is remembered under the poll-time key. */
  function IsDone(s: Store, referenceId: string, now: int): (r: Result<Polled, QueryError>)
    ensures r.Err? <==> GetCompletedPrintJob(s, referenceId).Err?
    ensures r.Err? ==> r.error == NoSuchReference(referenceId)
    ensures r.Ok? ==> (r.value.done <==> GetCompletedPrintJob(s, referenceId).value.Some?)
    // A done answer leaves the registry untouched.
    ensures r.Ok? && r.value.done ==> r.value.registry == s
    // A not-done answer writes the poll time and nothing else.
    ensures r.Ok? && !r.value.done ==>
      && Opt(r.value.registry, LastPollKey(referenceId), 0) == now
      && r.value.registry.values - {LastPollKey(referenceId)} == s.values - {LastPollKey(referenceId)}
      && r.value.registry.records == s.records
  {
    match GetCompletedPrintJob(s, referenceId)
    case Err(e) => Err(e)
    case Ok(found) =>
      if found.Some? then Ok(Polled(true, s))
      else Ok(Polled(false, Put(s, LastPollKey(referenceId), now)))
  }

  /** `getNumberOfRequestsMade()`: the submission counter, zero before any
      submission got past admission. */
  function NumberOfRequestsMade(s: Store): (r: int)
    ensures NEW_PRINT_COUNT !in s.values ==> r == 0
    ensures NEW_PRINT_COUNT in s.values ==> r == s.values[NEW_PRINT_COUNT]
  {
    Opt(s, NEW_PRINT_COUNT, 0)
  }

  /** `getLastPrintCount()`: the failure counter, zero before any failure. */
  function LastPrintCount(s: Store): (r: int)
    ensures LAST_PRINT_COUNT !in s.values ==> r == 0
    ensures LAST_PRINT_COUNT in s.values ==> r == s.values[LAST_PRINT_COUNT]
  {
    Opt(s, LAST_PRINT_COUNT, 0)
  }

  /** Java's `/` on integers: the quotient truncated toward zero. */
  function JavaDiv(a: int, b: int): (q: int)
    requires b != 0
    ensures a >= 0 && b > 0 ==> q * b <= a < q * b + b
    ensures a == 0 ==> q == 0
    // The remainder is smaller than the divisor in magnitude and takes the dividend's sign.
    ensures var rem := a - q * b;
      && (if rem < 0 then -rem else rem) < (if b < 0 then -b else b)
      && (rem == 0 || (rem < 0 <==> a < 0))
  {
    var q := (if a < 0 then -a else a) / (if b < 0 then -b else b);
    if (a < 0) != (b < 0) then -q else q
  }

  /** An arithmetic exception. */
  datatype ArithError = DivisionByZero

  /** `getAverageTimeSpentPrinting()`: total print time over the number of jobs
      done, reading an absent total as 0 and an absent count as 1. */
  function AverageTimeSpentPrinting(s: Store): (r: Result<int, ArithError>)
    ensures r.Err? <==> Opt(s, NB_PRINT_DONE, 1) == 0
    ensures r.Ok? ==> r.value == JavaDiv(Opt(s, TOTAL_PRINT_TIME, 0), Opt(s, NB_PRINT_DONE, 1))
    ensures NB_PRINT_DONE !in s.values ==> r == Ok(Opt(s, TOTAL_PRINT_TIME, 0))
    ensures s.values.Keys !! {NB_PRINT_DONE, TOTAL_PRINT_TIME} ==> r == Ok(0)
    ensures r.Ok? && Opt(s, TOTAL_PRINT_TIME, 0) >= 0 && Opt(s, NB_PRINT_DONE, 1) > 0 ==>
      var total, done := Opt(s, TOTAL_PRINT_TIME, 0), Opt(s, NB_PRINT_DONE, 1);
      r.value * done <= total < r.value * done + done
  {
    var done := Opt(s, NB_PRINT_DONE, 1);
    if done == 0 then Err(DivisionByZero)
    else Ok(JavaDiv(Opt(s, TOTAL_PRINT_TIME, 0), done))
  }

  /** `timeSinceLastStatusCheck(referenceId)` as the source computes it: the
      stored poll time itself, or `now` when there is none. */
  function TimeSinceLastStatusCheckAsWritten(s: Store, referenceId: string, now: int): (r: int)
    ensures LastPollKey(referenceId) !in s.values ==> r == now
    ensures LastPollKey(referenceId) in s.values ==> r == s.values[LastPollKey(referenceId)]
  {
    Opt(s, LastPollKey(referenceId), now)
  }

  /** The returned value is a timestamp, not a duration: a job never polled
      reports `now` instead of zero elapsed time. */
  lemma TimeSinceLastStatusCheckAsWrittenIsNotElapsed()
    ensures TimeSinceLastStatusCheckAsWritten(EMPTY, "job-1", 1000) == 1000
    ensures TimeSinceLastStatusCheck(EMPTY, "job-1", 1000) == 0
  {
  }

  /** As written, after a not-done poll at `polledAt` the query answers
      `polledAt` itself at every later time `now`. */
  lemma TimeSinceLastStatusCheckAsWrittenIsPollTime(s: Store, referenceId: string, polledAt: int, now: int)
    requires IsDone(s, referenceId, polledAt).Ok? && !IsDone(s, referenceId, polledAt).value.done
    ensures TimeSinceLastStatusCheckAsWritten(IsDone(s, referenceId, polledAt).value.registry, referenceId, now) == polledAt
  {
  }

  /** `timeSinceLastStatusCheck(referenceId)` as evidently intended: the time
      elapsed since the last unanswered poll, zero if there was none. */
  function TimeSinceLastStatusCheck(s: Store, referenceId: string, now: int): (r: int)
    ensures LastPollKey(referenceId) !in s.values ==> r == 0
  {
    now - Opt(s, LastPollKey(referenceId), now)
  }

  /** After a not-done poll at `polledAt`, the elapsed time at `now` is the
      distance between the two. */
  lemma TimeSinceLastStatusCheckIsElapsed(s: Store, referenceId: string, polledAt: int, now: int)
    requires IsDone(s, referenceId, polledAt).Ok? && !IsDone(s, referenceId, polledAt).value.done
    ensures TimeSinceLastStatusCheck(IsDone(s, referenceId, polledAt).value.registry, referenceId, now) == now - polledAt
  {
  }

  /** Right after an accepted submission the job is known and not done, and
      polling it records the poll. */
  lemma SubmittedJobIsPending(m: Manager, job: PrintJob, now: int, pollAt: int)
    requires Submit(m, job, now, true).error.None?
    ensures var s := Submit(m, job, now, true).manager.registry;
      && GetCompletedPrintJob(s, job.referenceId) == Ok(None)
      && IsDone(s, job.referenceId, pollAt) == Ok(Polled(false, Put(s, LastPollKey(job.referenceId), pollAt)))
  {
  }

  /** The submission counter is only ever raised by submissions: polls leave it alone. */
  lemma PollKeepsCounters(s: Store, referenceId: string, now: int)
    requires IsDone(s, referenceId, now).Ok?
    ensures var s' := IsDone(s, referenceId, now).value.registry;
      forall k :: k in COUNTERS ==> Opt(s', k, 0) == Opt(s, k, 0)
  {
    LastPollKeyIsNoCounter(referenceId);
    var s' := IsDone(s, referenceId, now).value.registry;
    forall k | k in COUNTERS
      ensures Opt(s', k, 0) == Opt(s, k, 0)
    {
      assert k != LastPollKey(referenceId);
      assert k in s'.values - {LastPollKey(referenceId)} <==> k in s.values - {LastPollKey(referenceId)};
    }
  }
}
