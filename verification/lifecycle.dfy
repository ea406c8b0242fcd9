/** The manager as a state machine: the facade operations, runs of the
    reconciliation task, and the environment's moves (a worker taking a
    waiting job, a job's future resolving, shutdown), with the invariants
    that hold along every run. */
module Lifecycle {
  import opened Results
  import opened Status
  import opened Registry
  import opened JobManager
  import opened Reconcile

  /** One atomic step. */
  datatype Step =
    | SubmitStep(job: PrintJob, now: int, pendingStored: bool)
    | PollStep(referenceId: string, now: int)
    | TickStep(now: int)
    | WorkerTakes
    | JobFinishes(index: nat, outcome: Outcome)
    | ShutdownStep

  /** The state after one step. A poll of an unknown id and a finish report
      for a handle that is not an unfinished one leave the state unchanged. */
  function Next(m: Manager, step: Step): Manager {
    match step
    case SubmitStep(job, now, pendingStored) => Submit(m, job, now, pendingStored).manager
    case PollStep(referenceId, now) =>
      var polled := IsDone(m.registry, referenceId, now);
      if polled.Ok? then m.(registry := polled.value.registry) else m
    case TickStep(now) => Tick(m, now)
    case WorkerTakes => if m.waiting > 0 then m.(waiting := m.waiting - 1) else m
    case JobFinishes(index, outcome) =>
      if index < |m.handles| && !m.handles[index].outcome.IsDone() && outcome.IsDone() then
        m.(handles := m.handles[index := m.handles[index].(outcome := outcome)])
      else m
    case ShutdownStep => m.(shutdown := true)
  }

  /** The state after a sequence of steps. */
  function Run(m: Manager, steps: seq<Step>): Manager
    decreases |steps|
  {
    if steps == [] then m else Run(Next(m, steps[0]), steps[1..])
  }

  /** The registry invariant the average query relies on: a stored count of
      jobs done is at least one. */
  ghost predicate Wf(m: Manager) {
    NB_PRINT_DONE in m.registry.values ==> m.registry.values[NB_PRINT_DONE] >= 1
  }

  /** Every step keeps the count of jobs done positive once it exists. */
  lemma NextPreservesWf(m: Manager, step: Step)
    requires Wf(m)
    ensures Wf(Next(m, step))
  {
    var m' := Next(m, step);
    match step
    case SubmitStep(job, now, pendingStored) =>
      var s, s' := m.registry, m'.registry;
      if NB_PRINT_DONE in s'.values {
        assert NB_PRINT_DONE in s'.values - {NEW_PRINT_COUNT};
        assert NB_PRINT_DONE in s.values;
      }
    case PollStep(referenceId, now) =>
      if IsDone(m.registry, referenceId, now).Ok? {
        PollKeepsCounters(m.registry, referenceId, now);
        LastPollKeyIsNoCounter(referenceId);
        assert Opt(m'.registry, NB_PRINT_DONE, 0) == Opt(m.registry, NB_PRINT_DONE, 0);
        if NB_PRINT_DONE in m'.registry.values {
          assert NB_PRINT_DONE in m'.registry.values - {LastPollKey(referenceId)};
        }
      }
    case TickStep(now) =>
      if !m.shutdown {
        HarvestAccounting(m.registry, m.handles, now);
      }
    case WorkerTakes =>
    case JobFinishes(index, outcome) =>
    case ShutdownStep =>
  }

  /** The invariant holds after any run from a state where it holds. */
  lemma {:induction false} RunPreservesWf(m: Manager, steps: seq<Step>)
    requires Wf(m)
    ensures Wf(Run(m, steps))
    decreases |steps|
  {
    if steps != [] {
      NextPreservesWf(m, steps[0]);
      RunPreservesWf(Next(m, steps[0]), steps[1..]);
    }
  }

  /** The average print time never divides by zero on a manager started over a
      registry with no done-count below 1, whatever happens afterwards; on an
      empty registry it starts at zero. */
  lemma AverageNeverDividesByZero(registry: Store, maxWaiting: int, steps: seq<Step>)
    requires Init(registry, maxWaiting).Ok?
    requires NB_PRINT_DONE in registry.values ==> registry.values[NB_PRINT_DONE] >= 1
    ensures AverageTimeSpentPrinting(Run(Init(registry, maxWaiting).value, steps).registry).Ok?
    ensures AverageTimeSpentPrinting(Init(EMPTY, maxWaiting).value.registry) == Ok(0)
  {
    RunPreservesWf(Init(registry, maxWaiting).value, steps);
  }

  /** A job that is done stays done under every step except a resubmission of
      its own reference id or a run that stores a Pending record over it. */
  lemma DoneStaysDone(m: Manager, step: Step, id: string)
    requires GetCompletedPrintJob(m.registry, id).Ok? && GetCompletedPrintJob(m.registry, id).value.Some?
    requires step.SubmitStep? ==> step.job.referenceId != id
    requires forall j :: 0 <= j < |m.handles| && m.handles[j].outcome.Success? ==> m.handles[j].outcome.status.IsFinal()
    ensures var r := GetCompletedPrintJob(Next(m, step).registry, id); r.Ok? && r.value.Some?
  {
    var m' := Next(m, step);
    match step
    case SubmitStep(job, now, pendingStored) =>
      assert LoadRecord(m'.registry, id) == LoadRecord(m.registry, id);
    case PollStep(referenceId, now) =>
    case TickStep(now) =>
      if !m.shutdown {
        HarvestRecords(m.registry, m.handles, now);
        if id in Published(m.handles) {
          PublishedIsFinal(m.handles, id);
        }
      }
    case WorkerTakes =>
    case JobFinishes(index, outcome) =>
    case ShutdownStep =>
  }

  /** Statuses published by handles that all produce final statuses are final. */
  lemma {:induction false} PublishedIsFinal(hs: seq<Handle>, id: string)
    requires forall j :: 0 <= j < |hs| && hs[j].outcome.Success? ==> hs[j].outcome.status.IsFinal()
    requires id in Published(hs)
    ensures Published(hs)[id].IsFinal()
    decreases |hs|
  {
    if id in Published(hs[1..]) {
      PublishedIsFinal(hs[1..], id);
    }
  }

  /** Submits the jobs one after another at the same time, every Pending record
      stored; the flags say which submissions were accepted. */
  function SubmitAll(m: Manager, jobs: seq<PrintJob>, now: int): (Manager, seq<bool>)
    decreases |jobs|
  {
    if jobs == [] then (m, [])
    else
      var first := Submit(m, jobs[0], now, true);
      var (last, accepted) := SubmitAll(first.manager, jobs[1..], now);
      (last, [first.error.None?] + accepted)
  }

  function Min(a: int, b: int): int {
    if a <= b then a else b
  }

  /** Backpressure over a burst of submissions with no worker taking jobs: the
      i-th is accepted exactly when the queue then holds fewer than the bound,
      so the queue fills up to the bound and every later one is refused
      without being counted. */
  lemma {:induction false} SubmitAllBackpressure(m: Manager, jobs: seq<PrintJob>, now: int)
    requires !m.shutdown && m.waiting <= m.maxWaiting
    ensures var (last, accepted) := SubmitAll(m, jobs, now);
      && |accepted| == |jobs|
      && (forall i :: 0 <= i < |jobs| ==> (accepted[i] <==> m.waiting + i < m.maxWaiting))
      && last.waiting == m.waiting + Min(|jobs|, m.maxWaiting - m.waiting)
      && NumberOfRequestsMade(last.registry) == NumberOfRequestsMade(m.registry) + Min(|jobs|, m.maxWaiting - m.waiting)
      && |last.handles| == |m.handles| + Min(|jobs|, m.maxWaiting - m.waiting)
      && !last.shutdown && last.maxWaiting == m.maxWaiting
    decreases |jobs|
  {
    if jobs != [] {
      var first := Submit(m, jobs[0], now, true);
      SubmitAllBackpressure(first.manager, jobs[1..], now);
      var (last, accepted) := SubmitAll(first.manager, jobs[1..], now);
      var all := [first.error.None?] + accepted;
      forall i | 0 <= i < |jobs|
        ensures all[i] <==> m.waiting + i < m.maxWaiting
      {
        if i > 0 {
          assert all[i] == accepted[i - 1];
        }
      }
    }
  }

  /** With the default bound, the 5001st of 5001 submissions made while no
      worker takes a job is refused, and all earlier ones are accepted. */
  lemma DefaultBoundRefuses5001st(registry: Store, jobs: seq<PrintJob>, now: int)
    requires |jobs| == 5001
    ensures var (last, accepted) := SubmitAll(Init(registry, DEFAULT_MAX_WAITING_JOBS).value, jobs, now);
      && |accepted| == 5001
      && !accepted[5000]
      && (forall i :: 0 <= i < 5000 ==> accepted[i])
      && NumberOfRequestsMade(last.registry) == NumberOfRequestsMade(registry) + 5000
  {
    SubmitAllBackpressure(Init(registry, DEFAULT_MAX_WAITING_JOBS).value, jobs, now);
  }
}
