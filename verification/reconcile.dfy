/** One run of the periodic task that posts finished jobs' results to the
    registry: every handle whose future is done is removed from the tracked
    list and its outcome accounted for; unfinished handles stay, in order. */
module Reconcile {
  import opened Results
  import opened Status
  import opened Registry
  import opened JobManager

  /** The registry after accounting for one finished handle at time `now`. A
      stored status counts one more job done and adds its running time; a
      failed job or a failed store counts one more in `lastPrintCount`; an
      interrupted wait changes nothing. */
  function Settle(s: Store, h: Handle, now: int): Store {
    match h.outcome
    case Success(status) =>
      var stored := StoreRecord(s, status);
      var counted := Increment(stored, NB_PRINT_DONE, 1);
      Increment(counted, TOTAL_PRINT_TIME, now - h.start)
    case ExecutionFailed => Increment(s, LAST_PRINT_COUNT, 1)
    case StoreFailed => Increment(s, LAST_PRINT_COUNT, 1)
    case Interrupted => s
    case NotDone => s
  }

  /** `a` is `b` with some elements left out, the rest in their original order. */
  ghost predicate IsSubsequence<T>(a: seq<T>, b: seq<T>)
    decreases |b|
  {
    if a == [] then true
    else if b == [] then false
    else if a[0] == b[0] then IsSubsequence(a[1..], b[1..])
    else IsSubsequence(a, b[1..])
  }

  /** The registry after a pass over some handles, the handles kept, and the
      handles removed. */
  datatype Harvested = Harvested(registry: Store, kept: seq<Handle>, settled: seq<Handle>)

  /** The iterator pass over the tracked handles, front to back. */
  function Harvest(s: Store, hs: seq<Handle>, now: int): Harvested
    decreases |hs|
  {
    if hs == [] then Harvested(s, [], [])
    else
      var h := hs[0];
      if !h.outcome.IsDone() then
        var rest := Harvest(s, hs[1..], now);
        Harvested(rest.registry, [h] + rest.kept, rest.settled)
      else
        var rest := Harvest(Settle(s, h, now), hs[1..], now);
        Harvested(rest.registry, rest.kept, [h] + rest.settled)
  }

  /** A pass keeps exactly the unfinished handles, in their original order,
      and removes every finished handle exactly once. */
  lemma {:induction false} HarvestSplitsFinished(s: Store, hs: seq<Handle>, now: int)
    ensures var r := Harvest(s, hs, now);
      && (forall h :: h in r.kept ==> !h.outcome.IsDone())
      && (forall h :: h in r.settled ==> h.outcome.IsDone())
      && IsSubsequence(r.kept, hs)
      && multiset(r.kept) + multiset(r.settled) == multiset(hs)
    decreases |hs|
  {
    if hs != [] {
      var h := hs[0];
      assert hs == [h] + hs[1..];
      if !h.outcome.IsDone() {
        HarvestSplitsFinished(s, hs[1..], now);
        var rest := Harvest(s, hs[1..], now);
        assert ([h] + rest.kept)[1..] == rest.kept;
      } else {
        HarvestSplitsFinished(Settle(s, h, now), hs[1..], now);
      }
    }
  }

  /** One run of the task: nothing at all once the executor is shut down. */
  function Tick(m: Manager, now: int): (r: Manager)
    ensures m.shutdown ==> r == m
    ensures r.waiting == m.waiting && r.shutdown == m.shutdown && r.maxWaiting == m.maxWaiting
    ensures !m.shutdown ==> forall h :: h in r.handles ==> !h.outcome.IsDone()
    ensures IsSubsequence(r.handles, m.handles)
    ensures forall h: Handle :: !h.outcome.IsDone() ==> multiset(r.handles)[h] == multiset(m.handles)[h]
  {
    if m.shutdown then
      assert IsSubsequence(m.handles, m.handles) by { SubsequenceOfItself(m.handles); }
      m
    else
      var r := Harvest(m.registry, m.handles, now);
      HarvestSplitsFinished(m.registry, m.handles, now);
      assert forall h: Handle :: !h.outcome.IsDone() ==> multiset(r.settled)[h] == 0;
      m.(registry := r.registry, handles := r.kept)
  }

  lemma {:induction false} SubsequenceOfItself<T>(a: seq<T>)
    ensures IsSubsequence(a, a)
    decreases |a|
  {
    if a != [] {
      SubsequenceOfItself(a[1..]);
    }
  }

  /** The task as the source runs it: one iterator pass that removes each done
      handle as it goes and accounts for it at once. */
  method RunTask(m: Manager, now: int) returns (r: Manager)
    ensures r == Tick(m, now)
  {
    if m.shutdown {
      return m;
    }
    var registry, kept := Pass(m.registry, m.handles, now);
    r := m.(registry := registry, handles := kept);
  }

  /** The iterator loop over the tracked handles. */
  method Pass(s: Store, hs: seq<Handle>, now: int) returns (registry: Store, kept: seq<Handle>)
    ensures registry == Harvest(s, hs, now).registry
    ensures kept == Harvest(s, hs, now).kept
  {
    ghost var whole := Harvest(s, hs, now);
    registry := s;
    kept := [];
    var i := 0;
    while i < |hs|
      invariant 0 <= i <= |hs|
      invariant Harvest(registry, hs[i..], now).registry == whole.registry
      invariant kept + Harvest(registry, hs[i..], now).kept == whole.kept
    {
      var next := hs[i];
      HarvestUnfold(registry, hs[i..], now);
      assert hs[i..][0] == next && hs[i..][1..] == hs[i + 1..];
      if next.outcome.IsDone() {
        registry := Settle(registry, next, now);
      } else {
        kept := kept + [next];
      }
      i := i + 1;
    }
    assert hs[i..] == [];
  }

  /** One step of a pass: the first handle is kept or settled, then the rest follow. */
  lemma HarvestUnfold(s: Store, hs: seq<Handle>, now: int)
    requires hs != []
    ensures var h := hs[0];
      var t := if h.outcome.IsDone() then Settle(s, h, now) else s;
      && Harvest(s, hs, now).registry == Harvest(t, hs[1..], now).registry
      && Harvest(s, hs, now).kept == (if h.outcome.IsDone() then [] else [h]) + Harvest(t, hs[1..], now).kept
  {
  }

  /** Number of handles whose status was produced. */
  function Successes(hs: seq<Handle>): nat {
    if hs == [] then 0 else (if hs[0].outcome.Success? then 1 else 0) + Successes(hs[1..])
  }

  /** Number of handles whose job failed or whose status could not be stored. */
  function Failures(hs: seq<Handle>): nat {
    if hs == [] then 0
    else (if hs[0].outcome.ExecutionFailed? || hs[0].outcome.StoreFailed? then 1 else 0) + Failures(hs[1..])
  }

  /** Total running time, measured at `now`, of the handles whose status was produced. */
  function Elapsed(hs: seq<Handle>, now: int): int {
    if hs == [] then 0 else (if hs[0].outcome.Success? then now - hs[0].start else 0) + Elapsed(hs[1..], now)
  }

  /** Number of finished handles. */
  function Finished(hs: seq<Handle>): nat {
    if hs == [] then 0 else (if hs[0].outcome.IsDone() then 1 else 0) + Finished(hs[1..])
  }

  /** The status records the handles publish, a later one for the same
      reference id replacing an earlier one. */
  function Published(hs: seq<Handle>): map<string, StatusRecord> {
    if hs == [] then map[]
    else
      Publishes(hs[0]) + Published(hs[1..])
  }

  /** The three completion counters, unchanged by anything else a pass does. */
  const COMPLETION_COUNTERS: set<string> := {NB_PRINT_DONE, TOTAL_PRINT_TIME, LAST_PRINT_COUNT}

  /** Per-outcome accounting of a pass: each produced status adds one job done
      and its running time, each failure adds one to `lastPrintCount`, and no
      other number in the registry changes. */
  lemma {:induction false} HarvestAccounting(s: Store, hs: seq<Handle>, now: int)
    ensures var s' := Harvest(s, hs, now).registry;
      && Opt(s', NB_PRINT_DONE, 0) == Opt(s, NB_PRINT_DONE, 0) + Successes(hs)
      && Opt(s', TOTAL_PRINT_TIME, 0) == Opt(s, TOTAL_PRINT_TIME, 0) + Elapsed(hs, now)
      && Opt(s', LAST_PRINT_COUNT, 0) == Opt(s, LAST_PRINT_COUNT, 0) + Failures(hs)
      && s'.values - COMPLETION_COUNTERS == s.values - COMPLETION_COUNTERS
      && (NB_PRINT_DONE in s'.values <==> NB_PRINT_DONE in s.values || Successes(hs) > 0)
    decreases |hs|
  {
    if hs != [] {
      var h := hs[0];
      var t := if h.outcome.IsDone() then Settle(s, h, now) else s;
      HarvestAccounting(t, hs[1..], now);
      SettleAccounting(s, h, now);
    }
  }

  /** Accounting for a single finished handle. */
  lemma SettleAccounting(s: Store, h: Handle, now: int)
    ensures var t := Settle(s, h, now);
      && Opt(t, NB_PRINT_DONE, 0) == Opt(s, NB_PRINT_DONE, 0) + (if h.outcome.Success? then 1 else 0)
      && Opt(t, TOTAL_PRINT_TIME, 0) == Opt(s, TOTAL_PRINT_TIME, 0) + (if h.outcome.Success? then now - h.start else 0)
      && Opt(t, LAST_PRINT_COUNT, 0) == Opt(s, LAST_PRINT_COUNT, 0)
           + (if h.outcome.ExecutionFailed? || h.outcome.StoreFailed? then 1 else 0)
      && t.values - COMPLETION_COUNTERS == s.values - COMPLETION_COUNTERS
      && (NB_PRINT_DONE in t.values <==> NB_PRINT_DONE in s.values || h.outcome.Success?)
  {
  }

  /** A pass stores exactly the statuses its finished handles produced, over
      the records already there; failures and interruptions store nothing. */
  lemma {:induction false} HarvestRecords(s: Store, hs: seq<Handle>, now: int)
    ensures Harvest(s, hs, now).registry.records == s.records + Published(hs)
    decreases |hs|
  {
    if hs != [] {
      var h := hs[0];
      var t := if h.outcome.IsDone() then Settle(s, h, now) else s;
      assert Harvest(s, hs, now).registry == Harvest(t, hs[1..], now).registry;
      HarvestRecords(t, hs[1..], now);
      var here := Publishes(h);
      assert Published(hs) == here + Published(hs[1..]);
      SettleRecords(s, h, now);
      UnionAssociative(s.records, here, Published(hs[1..]));
    }
  }

  /** The status record one handle publishes, if any. */
  function Publishes(h: Handle): map<string, StatusRecord> {
    if h.outcome.Success? then map[h.outcome.status.referenceId := h.outcome.status] else map[]
  }

  lemma SettleRecords(s: Store, h: Handle, now: int)
    ensures (if h.outcome.IsDone() then Settle(s, h, now) else s).records == s.records + Publishes(h)
  {
  }

  lemma UnionAssociative<K, V>(a: map<K, V>, b: map<K, V>, c: map<K, V>)
    ensures (a + b) + c == a + (b + c)
  {
  }

  /** The counters of completed work rise, together, by no more than the
      number of handles removed. */
  lemma {:induction false} AccountedAtMostFinished(hs: seq<Handle>)
    ensures Successes(hs) + Failures(hs) <= Finished(hs)
    decreases |hs|
  {
    if hs != [] {
      AccountedAtMostFinished(hs[1..]);
    }
  }

  /** Counting the finished handles counts the removed ones. */
  lemma {:induction false} FinishedAreSettled(s: Store, hs: seq<Handle>, now: int)
    ensures |Harvest(s, hs, now).settled| == Finished(hs)
    decreases |hs|
  {
    if hs != [] {
      var h := hs[0];
      var t := if h.outcome.IsDone() then Settle(s, h, now) else s;
      FinishedAreSettled(t, hs[1..], now);
    }
  }

  /** A produced status that no later handle overrides is what the pass leaves
      published under its reference id. */
  lemma {:induction false} PublishedLast(hs: seq<Handle>, i: nat)
    requires i < |hs| && hs[i].outcome.Success?
    requires forall j :: i < j < |hs| && hs[j].outcome.Success? ==>
      hs[j].outcome.status.referenceId != hs[i].outcome.status.referenceId
    ensures var st := hs[i].outcome.status;
      st.referenceId in Published(hs) && Published(hs)[st.referenceId] == st
    decreases |hs|
  {
    var st := hs[i].outcome.status;
    if i == 0 {
      PublishedMisses(hs[1..], st.referenceId);
    } else {
      PublishedLast(hs[1..], i - 1);
    }
  }

  /** No handle producing a status for `id` means nothing published for `id`. */
  lemma {:induction false} PublishedMisses(hs: seq<Handle>, id: string)
    requires forall j :: 0 <= j < |hs| && hs[j].outcome.Success? ==> hs[j].outcome.status.referenceId != id
    ensures id !in Published(hs)
    decreases |hs|
  {
    if hs != [] {
      PublishedMisses(hs[1..], id);
    }
  }

  /** After a run, a job whose final status was produced (and not overridden
      by a later handle) is done, and the query returns that status. */
  lemma TickPublishesStatus(m: Manager, now: int, i: nat)
    requires !m.shutdown
    requires i < |m.handles| && m.handles[i].outcome.Success? && m.handles[i].outcome.status.IsFinal()
    requires forall j :: i < j < |m.handles| && m.handles[j].outcome.Success? ==>
      m.handles[j].outcome.status.referenceId != m.handles[i].outcome.status.referenceId
    ensures var st := m.handles[i].outcome.status;
      && GetCompletedPrintJob(Tick(m, now).registry, st.referenceId) == Ok(Some(st))
      && IsDone(Tick(m, now).registry, st.referenceId, now) == Ok(Polled(true, Tick(m, now).registry))
  {
    HarvestRecords(m.registry, m.handles, now);
    PublishedLast(m.handles, i);
  }

  /** A run leaves the record of a job alone unless some finished handle
      produced a status for it: in particular a job whose execution failed
      keeps its Pending record. */
  lemma TickKeepsUnpublished(m: Manager, now: int, id: string)
    requires forall j :: 0 <= j < |m.handles| && m.handles[j].outcome.Success? ==>
      m.handles[j].outcome.status.referenceId != id
    ensures LoadRecord(Tick(m, now).registry, id) == LoadRecord(m.registry, id)
  {
    HarvestRecords(m.registry, m.handles, now);
    PublishedMisses(m.handles, id);
  }

  /** Counter accounting of a full run; the submission counter never moves. */
  lemma TickAccounting(m: Manager, now: int)
    requires !m.shutdown
    ensures var s, s' := m.registry, Tick(m, now).registry;
      && Opt(s', NB_PRINT_DONE, 0) == Opt(s, NB_PRINT_DONE, 0) + Successes(m.handles)
      && Opt(s', TOTAL_PRINT_TIME, 0) == Opt(s, TOTAL_PRINT_TIME, 0) + Elapsed(m.handles, now)
      && LastPrintCount(s') == LastPrintCount(s) + Failures(m.handles)
      && NumberOfRequestsMade(s') == NumberOfRequestsMade(s)
      && Opt(s', NB_PRINT_DONE, 0) + LastPrintCount(s')
           <= Opt(s, NB_PRINT_DONE, 0) + LastPrintCount(s) + (|m.handles| - |Tick(m, now).handles|)
  {
    var s := m.registry;
    var r := Harvest(s, m.handles, now);
    HarvestSplitsFinished(s, m.handles, now);
    HarvestAccounting(s, m.handles, now);
    AccountedAtMostFinished(m.handles);
    FinishedAreSettled(s, m.handles, now);
    assert |r.kept| + |r.settled| == |m.handles| by {
      assert |multiset(r.kept) + multiset(r.settled)| == |multiset(m.handles)|;
    }
    assert NEW_PRINT_COUNT in r.registry.values - COMPLETION_COUNTERS <==> NEW_PRINT_COUNT in s.values - COMPLETION_COUNTERS;
  }
}
