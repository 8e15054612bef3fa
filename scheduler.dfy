/** `schedulerLoop` of src/scripts/fetch-market.ts: every run picks the next API key index
    after the one recorded in the single lastUpdate row, scans the market and, when the scan
    completes, records the run's time. */
module Scheduling {
  import opened Wrappers
  import opened MarketScan

  /** Key indices go round 0, 1, ..., 11. */
  const KeyCount: int := 12
  const LastKey: int := 11

  /** The lastUpdate row (id 1): when the last completed scan ended and the key index stored. */
  datatype LastUpdate = LastUpdate(timestamp: int, key: int)

  /** The key index of the next run: 0 without a row, otherwise the one after the stored
      key, wrapping from 11 back to 0. */
  function KeyIndex(last: Option<LastUpdate>): (ki: int)
    ensures last.None? ==> ki == 0
    ensures last.Some? && 0 <= last.value.key <= LastKey ==> ki == (last.value.key + 1) % KeyCount
    ensures last.None? || 0 <= last.value.key <= LastKey ==> 0 <= ki < KeyCount
  {
    if last.None? then 0
    else if last.value.key == LastKey then 0
    else last.value.key + 1
  }

  /** The lastUpdate upsert as written: the create branch stores the key index used, the
      update branch only the new timestamp, so the stored key never changes after the row
      is created. */
  function RecordRunAsWritten(last: Option<LastUpdate>, ki: int, now: int): (r: LastUpdate)
    ensures r.timestamp == now
    ensures last.None? ==> r.key == ki
    ensures last.Some? ==> r.key == last.value.key && KeyIndex(Some(r)) == KeyIndex(last)
  {
    if last.None? then LastUpdate(now, ki) else LastUpdate(now, last.value.key)
  }

  /** The lastUpdate upsert with the update branch also storing the key index used. */
  function RecordRun(last: Option<LastUpdate>, ki: int, now: int): (r: LastUpdate)
    ensures r.timestamp == now && r.key == ki
    ensures 0 <= ki <= LastKey ==> KeyIndex(Some(r)) == (ki + 1) % KeyCount
  {
    LastUpdate(now, ki)
  }

  /** The key indices used by successive completed runs ending at the given times, when
      the row is updated as written. */
  function KeysUsedAsWritten(last: Option<LastUpdate>, times: seq<int>): (keys: seq<int>)
    ensures |keys| == |times|
    decreases |times|
  {
    if times == [] then []
    else
      var ki := KeyIndex(last);
      [ki] + KeysUsedAsWritten(Some(RecordRunAsWritten(last, ki, times[0])), times[1..])
  }

  /** The key indices used by successive completed runs when the update stores the key. */
  function KeysUsed(last: Option<LastUpdate>, times: seq<int>): (keys: seq<int>)
    ensures |keys| == |times|
    decreases |times|
  {
    if times == [] then []
    else
      var ki := KeyIndex(last);
      [ki] + KeysUsed(Some(RecordRun(last, ki, times[0])), times[1..])
  }

  lemma {:induction false} FrozenAfterCreate(t: int, times: seq<int>)
    ensures forall i :: 0 <= i < |times| ==> KeysUsedAsWritten(Some(LastUpdate(t, 0)), times)[i] == 1
    decreases |times|
  {
    if times != [] {
      FrozenAfterCreate(times[0], times[1..]);
    }
  }

  /** As written, the first run uses key 0 and every later run uses key 1: the rotation
      over the key pool never gets past the second key. */
  lemma AsWrittenKeyFrozen(times: seq<int>)
    requires |times| >= 1
    ensures KeysUsedAsWritten(None, times)[0] == 0
    ensures forall i :: 1 <= i < |times| ==> KeysUsedAsWritten(None, times)[i] == 1
  {
    FrozenAfterCreate(times[0], times[1..]);
  }

  /** Three completed runs from an empty table use keys 0, 1, 1. */
  lemma AsWrittenThreeRuns()
    ensures KeysUsedAsWritten(None, [1000, 2000, 3000]) == [0, 1, 1]
  {
    AsWrittenKeyFrozen([1000, 2000, 3000]);
  }

  /** Taking the next key and then i more steps is taking i + 1 steps. */
  lemma NextKeySteps(k: int, i: nat)
    requires 0 <= k < KeyCount
    ensures ((k + 1) % KeyCount + 1 + i) % KeyCount == (k + 2 + i) % KeyCount
  {
    if k == LastKey {
      var q := (1 + i) / KeyCount;
      assert 1 + i == KeyCount * q + (1 + i) % KeyCount;
      assert k + 2 + i == KeyCount * (q + 1) + (1 + i) % KeyCount;
    }
  }

  lemma {:induction false} RotationAt(t: int, k: int, times: seq<int>, i: nat)
    requires 0 <= k < KeyCount && i < |times|
    ensures KeysUsed(Some(LastUpdate(t, k)), times)[i] == (k + 1 + i) % KeyCount
    decreases i
  {
    if i > 0 {
      var ki := (k + 1) % KeyCount;
      RotationAt(times[0], ki, times[1..], i - 1);
      NextKeySteps(k, i - 1);
    }
  }

  /** With the key stored on every run, the n-th completed run uses key n mod 12: every key
      of the pool is used in turn. */
  lemma RotationCycles(times: seq<int>)
    ensures forall i :: 0 <= i < |times| ==> KeysUsed(None, times)[i] == i % KeyCount
  {
    forall i | 1 <= i < |times|
      ensures KeysUsed(None, times)[i] == i % KeyCount
    {
      RotationAt(times[0], 0, times[1..], i - 1);
    }
  }

  /** The process-wide scheduler state: the lastUpdate row. */
  class Scheduler {
    var last: Option<LastUpdate>

    constructor (last: Option<LastUpdate>)
      ensures this.last == last
    {
      this.last := last;
    }

    /** One schedulerLoop call: pick the key index, run the 20-page scan, and record the
        run only when the scan completes (a rejected scan is caught and logged). The run's
        time is `now`. */
    method Tick(store: TokenStore, feeds: seq<PageFeed>, now: int) returns (ki: int, outcome: RunOutcome)
      requires |feeds| == Pages
      modifies this, store
      ensures ki == KeyIndex(old(last))
      ensures (store.rows, outcome) == ScanPages(old(store.rows), feeds, 1)
      ensures last == if outcome == Completed then Some(RecordRun(old(last), ki, now)) else old(last)
    {
      ki := KeyIndex(last);
      outcome := Run(store, feeds);
      if outcome == Completed {
        last := Some(RecordRun(last, ki, now));
      }
    }
  }
}
