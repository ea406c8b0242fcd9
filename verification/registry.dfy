/** The key/value registry the job manager talks to, reduced to the operations
    it uses: `opt`, `put`, `incrementInt`/`incrementLong`, and the store/load
    of status records. */
module Registry {
  import opened Status
  import opened Results

  /** Counter of submissions that got past the admission check. */
  const NEW_PRINT_COUNT := "newPrintCount"
  /** Counter of jobs whose future failed or whose status could not be stored. */
  const LAST_PRINT_COUNT := "lastPrintCount"
  /** Sum of the running times of the jobs counted in NB_PRINT_DONE. */
  const TOTAL_PRINT_TIME := "totalPrintTime"
  /** Counter of jobs whose status was stored after they finished. */
  const NB_PRINT_DONE := "nbPrintDone"
  /** Prefix of the key under which the time of the last unanswered poll is kept. */
  const LAST_POLL := "lastPoll_"

  /** The four counter keys. */
  const COUNTERS: set<string> := {NEW_PRINT_COUNT, LAST_PRINT_COUNT, TOTAL_PRINT_TIME, NB_PRINT_DONE}

  /** The key recording when `referenceId` was last polled without being done. */
  function LastPollKey(referenceId: string): string {
    LAST_POLL + referenceId
  }

  /** Registry contents: plain numeric values (counters and poll times) and
      status records, the latter keyed by reference id. */
  datatype Store = Store(values: map<string, int>, records: map<string, StatusRecord>)

  /** The registry with nothing in it. */
  const EMPTY := Store(map[], map[])

  /** `registry.opt(key, default)`: the stored number, or `default` when absent. */
  function Opt(s: Store, key: string, default: int): int {
    if key in s.values then s.values[key] else default
  }

  /** `registry.put(key, value)`. */
  function Put(s: Store, key: string, value: int): (s': Store)
    ensures Opt(s', key, 0) == value
    ensures s'.values - {key} == s.values - {key}
    ensures s'.records == s.records
  {
    s.(values := s.values[key := value])
  }

  /** `registry.incrementInt(key, delta)` and `registry.incrementLong(key, delta)`:
      an absent counter counts as 0. */
  function Increment(s: Store, key: string, delta: int): (s': Store)
    ensures key in s'.values
    ensures Opt(s', key, 0) == Opt(s, key, 0) + delta
    ensures s'.values - {key} == s.values - {key}
    ensures s'.records == s.records
  {
    Put(s, key, Opt(s, key, 0) + delta)
  }

  /** `status.store(registry)`: the record replaces whatever its reference id held. */
  function StoreRecord(s: Store, r: StatusRecord): (s': Store)
    ensures s'.values == s.values
    ensures r.referenceId in s'.records && s'.records[r.referenceId] == r
    ensures s'.records - {r.referenceId} == s.records - {r.referenceId}
  {
    s.(records := s.records[r.referenceId := r])
  }

  /** `PrintJobStatus.load(referenceId, registry)`: absent for an unknown id. */
  function LoadRecord(s: Store, referenceId: string): Option<StatusRecord> {
    if referenceId in s.records then Some(s.records[referenceId]) else None
  }

  /** A stored record loads back unchanged under its own reference id. */
  lemma StoreLoadRoundTrip(s: Store, r: StatusRecord)
    ensures LoadRecord(StoreRecord(s, r), r.referenceId) == Some(r)
  {
  }

  /** A poll-time key never coincides with a counter key, so recording a poll
      cannot disturb any counter. */
  lemma LastPollKeyIsNoCounter(referenceId: string)
    ensures LastPollKey(referenceId) !in COUNTERS
  {
    var k := LastPollKey(referenceId);
    assert k[0] == 'l' && k[5] == 'o';
    assert NEW_PRINT_COUNT[0] == 'n' && NB_PRINT_DONE[0] == 'n' && TOTAL_PRINT_TIME[0] == 't';
    assert LAST_PRINT_COUNT[5] == 'r';
  }
}
