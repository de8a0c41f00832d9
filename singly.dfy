/** Fetching entries one at a time: one pass of `fetchSyncItemsSingly`
    (ljsnarf.js:292-325) and the `continuer` of `backupJournalEntriesSingly`
    (ljsnarf.js:327-358) that repeats passes until nothing remains.

    The fetches of a pass finish in whatever order the server answers; a
    pass is given the completions that arrive, as distinct indices of the
    fetches it dispatched (a fetch that never answers is absent). */
module Singly {
  import opened JsStrings
  import opened JsNumbers
  import opened SyncLog

  /** `item.id[0] === 'L'`: the sync-log item is a journal entry. */
  predicate IsEntryId(id: Option<string>)
  {
    id.Some? && id.value != [] && id.value[0] == 'L'
  }

  /** The items the pass requests, in page order. */
  function EntryItems(items: seq<SyncItem>): (r: seq<SyncItem>)
    ensures |r| <= |items|
    ensures forall x :: x in r <==> x in items && IsEntryId(x.id)
  {
    if items == [] then []
    else
      var last := items[|items| - 1];
      assert forall x :: x in items <==> x in items[..|items| - 1] || x == last;
      EntryItems(items[..|items| - 1]) + (if IsEntryId(last.id) then [last] else [])
  }

  /** The requests keep page order and page repeats: a page is taken piece by piece. */
  lemma {:induction false} EntryItemsConcat(a: seq<SyncItem>, b: seq<SyncItem>)
    ensures EntryItems(a + b) == EntryItems(a) + EntryItems(b)
    decreases |b|
  {
    if b == [] {
      assert a + b == a;
    } else {
      var init := b[..|b| - 1];
      assert (a + b)[..|a + b| - 1] == a + init;
      EntryItemsConcat(a, init);
    }
  }

  /** One item is requested iff its id starts with 'L'. */
  lemma EntryItemsOne(x: SyncItem)
    ensures EntryItems([x]) == if IsEntryId(x.id) then [x] else []
  {
    assert [x][..0] == [];
  }

  /** `item.id[0]` throws a TypeError when some id is undefined. */
  predicate HasUndefinedId(items: seq<SyncItem>)
  {
    exists i :: 0 <= i < |items| && items[i].id.None?
  }

  /** `if (mostRecentItem < item.time) mostRecentItem = item.time`. */
  function AdvanceTo(lastsync: string, time: Option<string>): (r: string)
    ensures time.None? ==> r == lastsync
    ensures time.Some? ==> r == Later(lastsync, time.value)
  {
    if JsLess(Some(lastsync), time) then time.value else lastsync
  }

  /** A number minus a length, where NaN (None) stays NaN. */
  function Minus(v: Option<int>, n: int): Option<int>
  {
    match v
    case None => None
    case Some(x) => Some(x - n)
  }

  /** How a pass ends: its callback with (syncdata, count, remaining), no
      callback at all, or an uncaught TypeError. */
  datatype PassOutcome =
    | Reported(syncdata: string, count: int, remaining: Option<int>)
    | NoCallback
    | CrashedPass

  /** The outcome of a pass over a page when `arrived` of its fetches have
      completed. Every completion reads the function-scoped `item`, which
      after the loop is the page's last item (ljsnarf.js:312, 320), so the
      checkpoint moves to that item's time whichever fetches complete. */
  function SinglyPass(lastsync: string, count: int, page: SyncPage, arrived: nat): PassOutcome
  {
    var items := page.items;
    if |items| == 0 then Reported(lastsync, count, Some(0))
    else if HasUndefinedId(items) then CrashedPass
    else
      var n := |EntryItems(items)|;
      if n == 0 || arrived < n then NoCallback
      else Reported(AdvanceTo(lastsync, items[|items| - 1].time), count + n, Minus(ToNumber(page.total), |items|))
  }

  /** One pass: request every entry of the page, then count the completions
      as they arrive on the `pending` barrier. `requested` are the items handed
      to `fetchItem`; `callbacks` is how often the pass's callback runs. */
  method FetchSyncItemsSingly(lastsync: string, count: int, page: SyncPage, completions: seq<nat>)
      returns (outcome: PassOutcome, callbacks: nat, requested: seq<SyncItem>)
    requires forall a, b :: 0 <= a < b < |completions| ==> completions[a] != completions[b]
    requires forall a :: 0 <= a < |completions| ==> completions[a] < |EntryItems(page.items)|
    ensures outcome == SinglyPass(lastsync, count, page, |completions|)
    ensures callbacks == if outcome.Reported? then 1 else 0
    ensures outcome != CrashedPass ==> requested == EntryItems(page.items)
  {
    var syncitems := page.items;
    requested := [];
    if |syncitems| == 0 {
      return Reported(lastsync, count, Some(0)), 1, [];
    }
    var crashed;
    requested, crashed := RequestEntries(syncitems);
    if crashed {
      return CrashedPass, 0, requested;
    }
    var item := syncitems[|syncitems| - 1];
    var totalToFetch := ToNumber(page.total);
    CompletionsBound(completions, |requested|);
    outcome, callbacks := AwaitCompletions(lastsync, count, item, |requested|, |completions|, Minus(totalToFetch, |syncitems|));
  }

  /** The dispatch loop of a pass: the entries handed to `fetchItem`, in page
      order, unless an undefined id throws first. */
  method RequestEntries(syncitems: seq<SyncItem>) returns (requested: seq<SyncItem>, crashed: bool)
    ensures crashed == HasUndefinedId(syncitems)
    ensures !crashed ==> requested == EntryItems(syncitems)
  {
    requested := [];
    var i := 0;
    while i < |syncitems|
      invariant 0 <= i <= |syncitems|
      invariant !HasUndefinedId(syncitems[..i])
      invariant requested == EntryItems(syncitems[..i])
    {
      var item := syncitems[i];
      assert syncitems[..i + 1][..i] == syncitems[..i];
      if item.id.None? {
        assert HasUndefinedId(syncitems);
        return requested, true;
      }
      if IsEntryId(item.id) {
        requested := requested + [item];
      }
      i := i + 1;
    }
    assert syncitems[..i] == syncitems;
    crashed := false;
  }

  /** The completions of a pass that dispatched n fetches, `arrived` of which
      complete: each moves the checkpoint to the time of `item` and counts
      one entry; the one that brings `pending` to 0 reports. */
  method AwaitCompletions(lastsync: string, count: int, item: SyncItem, n: nat, arrived: nat, remaining: Option<int>)
      returns (outcome: PassOutcome, callbacks: nat)
    requires arrived <= n
    ensures outcome == if n > 0 && arrived == n then Reported(AdvanceTo(lastsync, item.time), count + n, remaining) else NoCallback
    ensures callbacks == if outcome.Reported? then 1 else 0
  {
    var pending := n;
    var mostRecentItem := lastsync;
    var c := count;
    outcome := NoCallback;
    callbacks := 0;
    var j := 0;
    while j < arrived
      invariant 0 <= j <= arrived <= n
      invariant pending == n - j && c == count + j
      invariant j < n || n == 0
      invariant mostRecentItem == if j == 0 then lastsync else AdvanceTo(lastsync, item.time)
      invariant outcome == NoCallback && callbacks == 0
    {
      c := c + 1;
      if JsLess(Some(mostRecentItem), item.time) {
        mostRecentItem := item.time.value;
      }
      AdvanceTwice(lastsync, item.time);
      pending := pending - 1;
      if pending == 0 {
        outcome := Reported(mostRecentItem, c, remaining);
        callbacks := 1;
        return;
      }
      j := j + 1;
    }
  }

  /** Distinct indices below n number at most n. */
  lemma CompletionsBound(completions: seq<nat>, n: nat)
    requires forall a, b :: 0 <= a < b < |completions| ==> completions[a] != completions[b]
    requires forall a :: 0 <= a < |completions| ==> completions[a] < n
    ensures |completions| <= n
  {
    DistinctSize(completions);
    BoundedSetSize(set a | 0 <= a < |completions| :: completions[a], n);
  }

  lemma {:induction false} BoundedSetSize(s: set<nat>, n: nat)
    requires forall x :: x in s ==> x < n
    ensures |s| <= n
  {
    if n == 0 {
      assert s == {};
    } else {
      BoundedSetSize(s - {n - 1}, n - 1);
    }
  }

  lemma {:induction false} DistinctSize(q: seq<nat>)
    requires forall a, b :: 0 <= a < b < |q| ==> q[a] != q[b]
    ensures |set a | 0 <= a < |q| :: q[a]| == |q|
  {
    if q != [] {
      var init := q[..|q| - 1];
      DistinctSize(init);
      var s := set a | 0 <= a < |init| :: init[a];
      assert (set a | 0 <= a < |q| :: q[a]) == s + {q[|q| - 1]};
      assert q[|q| - 1] !in s;
    }
  }

  /** Advancing to the same time once more changes nothing. */
  lemma AdvanceTwice(lastsync: string, time: Option<string>)
    ensures AdvanceTo(AdvanceTo(lastsync, time), time) == AdvanceTo(lastsync, time)
  {
    if time.Some? {
      LessIrreflexive(time.value);
    }
  }

  /** A pass that calls back has counted one per requested entry, and
      its checkpoint is no earlier than the one it was given. */
  lemma SinglyPassReport(lastsync: string, count: int, page: SyncPage, arrived: nat)
    requires SinglyPass(lastsync, count, page, arrived).Reported?
    ensures var out := SinglyPass(lastsync, count, page, arrived);
      && out.count == count + |EntryItems(page.items)|
      && !Less(out.syncdata, lastsync)
      && (page.items != [] ==> out.syncdata == AdvanceTo(lastsync, page.items[|page.items| - 1].time))
  {
    LessIrreflexive(lastsync);
  }

  /** A page with entries calls back iff no id is undefined and every
      requested entry has completed; a page without entries never calls back. */
  lemma SinglyPassCallsBack(lastsync: string, count: int, page: SyncPage, arrived: nat)
    requires page.items != []
    ensures SinglyPass(lastsync, count, page, arrived).Reported? <==>
      !HasUndefinedId(page.items) && 0 < |EntryItems(page.items)| <= arrived
  {
  }

  // ---------------------------------------------------------------------------
  // The continuer

  /** The server's side of one pass: the sync page and the fetches that complete. */
  datatype PassReply = PassReply(page: SyncPage, arrived: nat)

  /** How a run ends: the checkpoint persisted by `recordResults`, a pass
      that never calls back, a crash, or no more replies to go on with. */
  datatype RunOutcome =
    | Persisted(syncdata: string, count: int)
    | Stalled
    | Crashed
    | RepliesExhausted(syncdata: string, count: int)

  /** `continuer(syncdata, count, remaining)`: record the results once
      `remaining <= 0` (never for NaN), else start another pass. */
  function SinglyRun(lastsync: string, count: int, replies: seq<PassReply>): RunOutcome
    decreases |replies|
  {
    if replies == [] then RepliesExhausted(lastsync, count)
    else match SinglyPass(lastsync, count, replies[0].page, replies[0].arrived)
      case CrashedPass => Crashed
      case NoCallback => Stalled
      case Reported(syncdata, c, remaining) =>
        if remaining.Some? && remaining.value <= 0 then Persisted(syncdata, c)
        else SinglyRun(syncdata, c, replies[1..])
  }

  /** `backupJournalEntriesSingly`: the first pass starts from the stored
      checkpoint with nothing counted. */
  function BackupSingly(lastsync: string, replies: seq<PassReply>): RunOutcome
  {
    SinglyRun(lastsync, 0, replies)
  }

  /** What `backupJournalEntriesSingly` records is a checkpoint no earlier
      than the one it read, and a count of entries that is not negative. */
  lemma BackupSinglyRecords(lastsync: string, replies: seq<PassReply>)
    ensures BackupSingly(lastsync, replies).Persisted? ==>
      !Less(BackupSingly(lastsync, replies).syncdata, lastsync) && BackupSingly(lastsync, replies).count >= 0
  {
    SinglyRunMonotone(lastsync, 0, replies);
    SinglyRunCounts(lastsync, 0, replies);
  }

  lemma NotLessTransitive(a: string, b: string, c: string)
    requires !Less(a, b) && !Less(b, c)
    ensures !Less(a, c)
  {
    if Less(a, c) {
      LessTotal(b, c);
      if Less(c, b) {
        LessTransitive(a, c, b);
      }
    }
  }

  /** The checkpoint a run persists is never earlier than the one it started from. */
  lemma {:induction false} SinglyRunMonotone(lastsync: string, count: int, replies: seq<PassReply>)
    ensures SinglyRun(lastsync, count, replies).Persisted? ==> !Less(SinglyRun(lastsync, count, replies).syncdata, lastsync)
    ensures SinglyRun(lastsync, count, replies).RepliesExhausted? ==>
      !Less(SinglyRun(lastsync, count, replies).syncdata, lastsync)
    decreases |replies|
  {
    if replies == [] {
      LessIrreflexive(lastsync);
    } else {
      var out := SinglyPass(lastsync, count, replies[0].page, replies[0].arrived);
      if out.Reported? {
        SinglyPassReport(lastsync, count, replies[0].page, replies[0].arrived);
        SinglyRunMonotone(out.syncdata, out.count, replies[1..]);
        var r := SinglyRun(lastsync, count, replies);
        if r.Persisted? || r.RepliesExhausted? {
          if !(out.remaining.Some? && out.remaining.value <= 0) {
            NotLessTransitive(r.syncdata, out.syncdata, lastsync);
          }
        }
      }
    }
  }

  /** The count a run persists is at least the count it started from. */
  lemma {:induction false} SinglyRunCounts(lastsync: string, count: int, replies: seq<PassReply>)
    ensures SinglyRun(lastsync, count, replies).Persisted? ==> SinglyRun(lastsync, count, replies).count >= count
    decreases |replies|
  {
    if replies != [] {
      var out := SinglyPass(lastsync, count, replies[0].page, replies[0].arrived);
      if out.Reported? {
        SinglyPassReport(lastsync, count, replies[0].page, replies[0].arrived);
        SinglyRunCounts(out.syncdata, out.count, replies[1..]);
      }
    }
  }

  /** An empty page ends the run and persists the checkpoint unchanged. */
  lemma EmptyPagePersists(lastsync: string, count: int, page: SyncPage, arrived: nat, rest: seq<PassReply>)
    requires page.items == []
    ensures SinglyRun(lastsync, count, [PassReply(page, arrived)] + rest) == Persisted(lastsync, count)
  {
  }

  /** A `total` that is no number makes `remaining` NaN, and the run goes on. */
  lemma NaNRemainingContinues(lastsync: string, count: int, reply: PassReply, rest: seq<PassReply>)
    requires reply.page.items != [] && ToNumber(reply.page.total).None?
    requires SinglyPass(lastsync, count, reply.page, reply.arrived).Reported?
    ensures var out := SinglyPass(lastsync, count, reply.page, reply.arrived);
      SinglyRun(lastsync, count, [reply] + rest) == SinglyRun(out.syncdata, out.count, rest)
  {
    assert ([reply] + rest)[1..] == rest;
  }

  /** The page "L-1, then C-2" (an entry, then a comment) with a total that
      reads as 2, starting from no checkpoint: the checkpoint persisted is the
      time of the comment C-2, the page's last item, not that of the entry L-1. */
  lemma LastItemDecides(entry: string, comment: string, t1: string, t2: string, a1: Option<string>, a2: Option<string>,
                        total: Option<string>, arrived: nat)
    requires t2 != [] && arrived >= 1 && ToNumber(total) == Some(2)
    ensures var page := SyncPage(Some("2"), total,
        [SyncItem(Some("L-" + entry), a1, Some(t1)), SyncItem(Some("C-" + comment), a2, Some(t2))]);
      BackupSingly("", [PassReply(page, arrived)]) == Persisted(t2, 1)
  {
    var i1 := SyncItem(Some("L-" + entry), a1, Some(t1));
    var i2 := SyncItem(Some("C-" + comment), a2, Some(t2));
    var page := SyncPage(Some("2"), total, [i1, i2]);
    EntryThenComment(i1, i2, entry, comment);
    assert AdvanceTo("", Some(t2)) == t2 by {
      assert Less("", t2);
    }
    assert Minus(ToNumber(total), 2) == Some(0);
    assert SinglyPass("", 0, page, arrived) == Reported(t2, 1, Some(0));
  }

  lemma EntryThenComment(i1: SyncItem, i2: SyncItem, entry: string, comment: string)
    requires i1.id == Some("L-" + entry) && i2.id == Some("C-" + comment)
    ensures EntryItems([i1, i2]) == [i1] && !HasUndefinedId([i1, i2])
  {
    var items := [i1, i2];
    assert items == [i1] + [i2];
    EntryItemsConcat([i1], [i2]);
    EntryItemsOne(i1);
    assert ("C-" + comment)[0] == 'C';
    EntryItemsOne(i2);
  }
}
