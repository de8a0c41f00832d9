/** Fetching entries in batches: `fetchBatch` (ljsnarf.js:417-437),
    `fetchSyncItems` (ljsnarf.js:439-453) and the `continuer` of
    `backupJournalEntries` (ljsnarf.js:455-490). */
module Batched {
  import opened JsStrings
  import opened Flat
  import opened Events
  import opened Singly

  /** `if ((lastsync < entry.time) || (lastsync === '')) lastsync = entry.time`
      over the entries in order. The checkpoint may be undefined: an entry
      without a time that is met while the checkpoint is '' makes it so. */
  function AdvanceBatch(lastsync: Option<string>, entries: seq<Entry>): Option<string>
    decreases |entries|
  {
    if entries == [] then lastsync
    else
      var t := entries[0].time;
      AdvanceBatch(if JsLess(lastsync, t) || lastsync == Some("") then t else lastsync, entries[1..])
  }

  predicate TimesDefined(entries: seq<Entry>)
  {
    forall i :: 0 <= i < |entries| ==> entries[i].time.Some?
  }

  /** The latest of a checkpoint and some times, as a reference. */
  function Latest(start: string, entries: seq<Entry>): (r: string)
    requires TimesDefined(entries)
    ensures !Less(r, start)
    ensures forall i :: 0 <= i < |entries| ==> !Less(r, entries[i].time.value)
    ensures r == start || exists i :: 0 <= i < |entries| && r == entries[i].time.value
    decreases |entries|
  {
    if entries == [] then LessIrreflexive(start); start
    else
      var next := Later(start, entries[0].time.value);
      var r := Latest(next, entries[1..]);
      assert forall i :: 1 <= i < |entries| ==> entries[1..][i - 1] == entries[i];
      NotLessTransitive(r, next, start);
      NotLessTransitive(r, next, entries[0].time.value);
      r
  }

  /** With every time defined, the batch checkpoint is the latest of the old
      checkpoint and the entry times: no earlier than any of them, and one of them. */
  lemma {:induction false} AdvanceBatchIsLatest(lastsync: string, entries: seq<Entry>)
    requires TimesDefined(entries)
    ensures AdvanceBatch(Some(lastsync), entries) == Some(Latest(lastsync, entries))
    decreases |entries|
  {
    if entries != [] {
      var t := entries[0].time.value;
      assert TimesDefined(entries[1..]) by {
        assert forall i :: 1 <= i < |entries| ==> entries[1..][i - 1] == entries[i];
      }
      if lastsync == "" && !Less("", t) {
        EmptyLeast(t);
      }
      AdvanceBatchIsLatest(Later(lastsync, t), entries[1..]);
    }
  }

  lemma EmptyLeast(t: string)
    requires !Less("", t)
    ensures t == ""
  {
  }

  /** An undefined checkpoint stays undefined. */
  lemma {:induction false} AdvanceBatchUndefined(entries: seq<Entry>)
    ensures AdvanceBatch(None, entries) == None
    decreases |entries|
  {
    if entries != [] {
      AdvanceBatchUndefined(entries[1..]);
    }
  }

  /** How a batched pass ends. */
  datatype BatchOutcome =
    | BatchReported(latest: Option<string>, count: int, entries: seq<Entry>)
    | BatchSilent
    | BatchCrashed

  /** A pass over the `getevents` reply `data` when `archived` of the entry
      writes have completed. `getEventsSince` may throw; `archiveEntry` throws
      on an entry without a url (`url.parse(undefined)`); an empty batch
      never calls back. The `syncitems` reply is only awaited: its test
      `sync_total === 0` compares a string with a number and never holds. */
  function BatchPass(lastsync: Option<string>, count: int, data: FlatData, archived: nat): BatchOutcome
  {
    ArchiveOutcome(lastsync, count, EventsSinceOf(data), archived)
  }

  /** The pass once the reply is decoded (None is the decoder's TypeError). */
  function ArchiveOutcome(lastsync: Option<string>, count: int, decoded: Option<seq<Entry>>, archived: nat): BatchOutcome
  {
    match decoded
    case None => BatchCrashed
    case Some(es) =>
      if exists i :: 0 <= i < |es| && es[i].url.None? then BatchCrashed
      else if |es| == 0 || archived < |es| then BatchSilent
      else BatchReported(AdvanceBatch(lastsync, es), count + |es|, es)
  }

  /** The checkpoint after the first k entries, as the loop of `fetchBatch` keeps it. */
  lemma AdvanceBatchStep(lastsync: Option<string>, entries: seq<Entry>, k: nat)
    requires k < |entries|
    ensures var ls := AdvanceBatchPrefix(lastsync, entries, k); var t := entries[k].time;
      AdvanceBatchPrefix(lastsync, entries, k + 1) == (if JsLess(ls, t) || ls == Some("") then t else ls)
  {
    AdvanceBatchSnoc(lastsync, entries[..k], entries[k]);
    assert entries[..k + 1] == entries[..k] + [entries[k]];
  }

  function AdvanceBatchPrefix(lastsync: Option<string>, entries: seq<Entry>, k: nat): Option<string>
    requires k <= |entries|
  {
    AdvanceBatch(lastsync, entries[..k])
  }

  lemma {:induction false} AdvanceBatchSnoc(lastsync: Option<string>, entries: seq<Entry>, e: Entry)
    ensures var ls := AdvanceBatch(lastsync, entries);
      AdvanceBatch(lastsync, entries + [e]) == (if JsLess(ls, e.time) || ls == Some("") then e.time else ls)
    decreases |entries|
  {
    if entries == [] {
      assert [e][1..] == [];
    } else {
      var t := entries[0].time;
      var next := if JsLess(lastsync, t) || lastsync == Some("") then t else lastsync;
      assert (entries + [e])[1..] == entries[1..] + [e];
      AdvanceBatchSnoc(next, entries[1..], e);
    }
  }

  /** `fetchSyncItems` then `fetchBatch`: decode the entries, archive each one
      while moving the checkpoint, then count the archive completions on the
      `pending` barrier, whose last one calls back with the checkpoint and
      the new count. */
  method FetchSyncItems(lastsync: Option<string>, count: int, data: FlatData, completions: seq<nat>)
      returns (outcome: BatchOutcome, callbacks: nat)
    requires forall a, b :: 0 <= a < b < |completions| ==> completions[a] != completions[b]
    requires forall a :: 0 <= a < |completions| ==>
      completions[a] < (if EventsSinceOf(data).Some? then |EventsSinceOf(data).value| else 0)
    ensures outcome == BatchPass(lastsync, count, data, |completions|)
    ensures callbacks == if outcome.BatchReported? then 1 else 0
  {
    var decoded := GetEventsSince(data);
    outcome, callbacks := FetchBatch(lastsync, count, decoded, completions);
  }

  /** The reply handler of `fetchBatch`. */
  method FetchBatch(lastsync: Option<string>, count: int, decoded: Option<seq<Entry>>, completions: seq<nat>)
      returns (outcome: BatchOutcome, callbacks: nat)
    requires forall a, b :: 0 <= a < b < |completions| ==> completions[a] != completions[b]
    requires forall a :: 0 <= a < |completions| ==>
      completions[a] < (if decoded.Some? then |decoded.value| else 0)
    ensures outcome == ArchiveOutcome(lastsync, count, decoded, |completions|)
    ensures callbacks == if outcome.BatchReported? then 1 else 0
  {
    if decoded.None? {
      return BatchCrashed, 0;
    }
    var entries := decoded.value;
    var pending := |entries|;
    var latest := lastsync;
    var i := 0;
    while i < |entries|
      invariant 0 <= i <= |entries|
      invariant latest == AdvanceBatchPrefix(lastsync, entries, i)
      invariant forall k :: 0 <= k < i ==> entries[k].url.Some?
    {
      var entry := entries[i];
      AdvanceBatchStep(lastsync, entries, i);
      if JsLess(latest, entry.time) || latest == Some("") {
        latest := entry.time;
      }
      if entry.url.None? {
        return BatchCrashed, 0;
      }
      i := i + 1;
    }
    assert entries[..i] == entries;
    CompletionsBound(completions, |entries|);
    outcome := BatchSilent;
    callbacks := 0;
    var j := 0;
    while j < |completions|
      invariant 0 <= j <= |completions| <= |entries|
      invariant pending == |entries| - j
      invariant j < |entries| || |entries| == 0
    {
      pending := pending - 1;
      if pending == 0 {
        outcome := BatchReported(latest, count + |entries|, entries);
        callbacks := 1;
        return;
      }
      j := j + 1;
    }
  }

  /** A reply that decodes to no entries never calls back. */
  lemma EmptyBatchSilent(lastsync: Option<string>, count: int, data: FlatData, archived: nat)
    requires EventsSinceOf(data) == Some([])
    ensures BatchPass(lastsync, count, data, archived) == BatchSilent
  {
  }

  // ---------------------------------------------------------------------------
  // The continuer

  /** The server's side of one batched pass. */
  datatype BatchReply = BatchReply(data: FlatData, archived: nat)

  datatype BatchRunOutcome =
    | BatchPersisted(syncdata: Option<string>, count: int)
    | BatchStalled
    | BatchCrashedRun
    | BatchRepliesExhausted(syncdata: Option<string>, count: int)

  /** `continuer(mostRecentItem, count)`: record the results when the pass
      returns the checkpoint it was started from, else start another pass
      from the new one. */
  function BatchRun(lastsync: Option<string>, count: int, replies: seq<BatchReply>): BatchRunOutcome
    decreases |replies|
  {
    if replies == [] then BatchRepliesExhausted(lastsync, count)
    else match BatchPass(lastsync, count, replies[0].data, replies[0].archived)
      case BatchCrashed => BatchCrashedRun
      case BatchSilent => BatchStalled
      case BatchReported(latest, c, _) =>
        if latest == lastsync then BatchPersisted(latest, c)
        else BatchRun(latest, c, replies[1..])
  }

  /** `backupJournalEntries`: the first pass starts from the stored checkpoint. */
  function BackupBatched(lastsync: string, replies: seq<BatchReply>): BatchRunOutcome
  {
    BatchRun(Some(lastsync), 0, replies)
  }

  /** What `backupJournalEntries` records is never earlier than the
      checkpoint it read. */
  lemma BackupBatchedMonotone(lastsync: string, replies: seq<BatchReply>)
    requires RepliesTimed(replies)
    ensures BackupBatched(lastsync, replies).BatchPersisted? ==>
      && BackupBatched(lastsync, replies).syncdata.Some?
      && !Less(BackupBatched(lastsync, replies).syncdata.value, lastsync)
  {
    BatchRunMonotone(lastsync, 0, replies);
  }

  /** A pass that returns its own starting checkpoint ends the run with it. */
  lemma BatchRunStops(lastsync: Option<string>, count: int, reply: BatchReply, rest: seq<BatchReply>)
    requires BatchPass(lastsync, count, reply.data, reply.archived).BatchReported?
    requires BatchPass(lastsync, count, reply.data, reply.archived).latest == lastsync
    ensures BatchRun(lastsync, count, [reply] + rest) ==
      BatchPersisted(lastsync, BatchPass(lastsync, count, reply.data, reply.archived).count)
  {
  }

  /** Every decoded entry of every reply has a time. */
  predicate RepliesTimed(replies: seq<BatchReply>)
  {
    forall i :: 0 <= i < |replies| ==>
      EventsSinceOf(replies[i].data).Some? ==> TimesDefined(EventsSinceOf(replies[i].data).value)
  }

  /** A pass over timed entries that calls back reports the latest time. */
  lemma BatchPassLatest(lastsync: string, count: int, reply: BatchReply)
    requires EventsSinceOf(reply.data).Some? ==> TimesDefined(EventsSinceOf(reply.data).value)
    requires BatchPass(Some(lastsync), count, reply.data, reply.archived).BatchReported?
    ensures BatchPass(Some(lastsync), count, reply.data, reply.archived).latest
      == Some(Latest(lastsync, EventsSinceOf(reply.data).value))
  {
    AdvanceBatchIsLatest(lastsync, EventsSinceOf(reply.data).value);
  }

  /** When every entry has a time, the checkpoint a run persists is defined
      and no earlier than the one it started from. */
  lemma {:induction false} BatchRunMonotone(lastsync: string, count: int, replies: seq<BatchReply>)
    requires RepliesTimed(replies)
    ensures BatchRun(Some(lastsync), count, replies).BatchPersisted? ==>
      && BatchRun(Some(lastsync), count, replies).syncdata.Some?
      && !Less(BatchRun(Some(lastsync), count, replies).syncdata.value, lastsync)
    decreases |replies|
  {
    if replies != [] {
      var out := BatchPass(Some(lastsync), count, replies[0].data, replies[0].archived);
      if out.BatchReported? {
        assert RepliesTimed(replies[1..]) by {
          assert forall i :: 1 <= i < |replies| ==> replies[1..][i - 1] == replies[i];
        }
        BatchPassLatest(lastsync, count, replies[0]);
        var next := out.latest.value;
        if out.latest != Some(lastsync) {
          BatchRunMonotone(next, out.count, replies[1..]);
          var r := BatchRun(Some(lastsync), count, replies);
          assert r == BatchRun(Some(next), out.count, replies[1..]);
          if r.BatchPersisted? {
            NotLessTransitive(r.syncdata.value, next, lastsync);
          }
        } else {
          LessIrreflexive(lastsync);
        }
      }
    }
  }

  /** Each pass that calls back adds the number of entries it listed. */
  lemma BatchPassCount(lastsync: Option<string>, count: int, data: FlatData, archived: nat)
    requires BatchPass(lastsync, count, data, archived).BatchReported?
    ensures var out := BatchPass(lastsync, count, data, archived);
      Some(out.entries) == EventsSinceOf(data) && out.count == count + |out.entries| && |out.entries| > 0
  {
  }
}
