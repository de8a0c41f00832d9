# ljsnarf — a Dafny model of the backup's bookkeeping

ljsnarf backs up a LiveJournal account: its journal entries and its
userpics. The program talks to the journal's "flat" protocol over HTTP,
writes JSON files and remembers a checkpoint (the time of the latest change
it has archived). This project models the deterministic part of that work,
which sits between the network and the filesystem:

- the flat-reply parser `handleFlatResponse` (module `Flat`);
- the record decoders:
  - `getSyncItems` (module `SyncLog`);
  - `getOneEvent` and `getEventsSince` (module `Events`);
  - `fetchUserpicMetadata` (module `Userpics`);
- the file-name rules of `archiveEntry`, `canonicalizeFilename` and the
  userpic image name (module `FileNames`);
- the two ways of syncing entries, each with its checkpoint and its loop:
  - one entry at a time: `fetchSyncItemsSingly` and the `continuer` of
    `backupJournalEntriesSingly` (module `Singly`);
  - in batches: `fetchBatch`, `fetchSyncItems` and the `continuer` of
    `backupJournalEntries` (module `Batched`);
- the userpic manifest merge in `fetchUserPics`, on an `Account` object
  whose `userpics` field is updated in place (module `Userpics`);
- `__extend` (module `JsObjects`).

Three support modules model the JavaScript behaviour the code relies on:

- `JsStrings`:
  - string `<` is lexicographic (`Less`); a comparison with `undefined` is false;
  - `split`, a non-global `replace`, and white space;
  - a property key made from `undefined` is the text `"undefined"`.
- `JsNumbers`: `Number()` coercion in loop bounds (`ToNumber`), `parseInt`
  (`ParseInt`), decimal digits, and the indexed keys such as `sync_3_time`
  (`Field`).
- `JsObjects`:
  - a run of property writes, where the last write wins (`Assign`);
  - the `Object.keys` order: array-index keys ascending, then the other keys
    in order of creation (`PropertyOrder`).

## How replies and completions are modelled

- **Replies.** A server reply is the decoded flat map (`Flat.FlatData`). A
  field the reply lacks is `None`, which stands for `undefined`.
- **Completions.** A pass dispatches its fetches, then gets the completions
  that arrive. These are given as a sequence of distinct indices of the
  dispatched fetches, in any order. A fetch that never answers is absent.
  The `pending` counter is kept as the source keeps it:
  - the entry passes use pre-decrement (`--pending ||`);
  - `fetchUserPics` counts the dispatched fetches plus one. It decrements
    once after its loop, and the N-th reply makes the callback, or the loop
    itself does when nothing was fetched.
- **Crashes.** An uncaught `TypeError` is an outcome of the pass, not a
  precondition. The model covers:
  - an undefined sync-item id (`item.id[0]`);
  - a property naming an unknown itemid (`entry.properties` of `undefined`);
  - `url.parse(undefined)` for a userpic without a URL, and for an entry
    without one in the batched pass (the singly pass archives from a
    completion, see Left out);
  - `mimetype.replace` when an image reply has no content type.
- **Loops of passes.** Each continuer is a recursive function over the
  finite list of replies the server gives to successive passes. It says
  whether the loop persists a checkpoint, stalls on a pass that never calls
  back, crashes, or is still running when the replies run out.

The code is followed where it differs from what its design describes. In
`fetchSyncItemsSingly` the completion callbacks read the function-scoped
`item` after the loop has finished. This is the page's LAST item, so the
checkpoint becomes the later of the old checkpoint and the last item's time,
even when that item is a comment (`Singly.LastItemDecides`). It is not the
latest entry's time. In `fetchSyncItems`, `sync_total === 0` compares a
string with a number, so that early return never happens and the model
omits it.

## Model

| member | source | states |
|---|---|---|
| Flat.HandleFlatResponse | ljsnarf.js:85-98 | the `while` loop over line pairs returns exactly the map that the pair writes (line 2k as key, line 2k+1 as value, in order) produce |
| Flat.PairsKeys | ljsnarf.js:92-95 | a key is in the result iff some even line holding it has a following line |
| Flat.FlatKeys | ljsnarf.js:90-96 | the same for a whole body split on '\n' |
| Flat.PairsLastWins | ljsnarf.js:92-95 | a key maps to the line after its last occurrence at an even position, so a later duplicate overwrites an earlier one |
| Flat.FlatPairing | ljsnarf.js:90-96 | in a body, `lines[2k]` maps to `lines[2k+1]` when no later pair has the same key |
| Flat.TrailingLineIgnored | ljsnarf.js:92 | an unpaired last line adds nothing to the result |
| Flat.Flatten | ljsnarf.js:85-98 | the server's side: pairs laid out as alternating key and value lines |
| Flat.FlatRoundTrip | ljsnarf.js:85-98 | parsing the body written for pairs without newlines gives the map those pairs assign |
| SyncLog.GetSyncItems | ljsnarf.js:211-229 | the page keeps `sync_count` and `sync_total` as given; its items are items 1..n of the reply, where n is `sync_count` as a number |
| SyncLog.ReadItems | ljsnarf.js:219-226 | the `for` loop pushes items 1..n in index order |
| SyncLog.ItemsUpTo | ljsnarf.js:219-226 | exactly n items, and item i carries `sync_<i+1>_item`, `_action` and `_time` |
| SyncLog.EncodeHit | ljsnarf.js:221-225 | in a reply written from items, key `sync_<i>_<field>` holds item i's field |
| SyncLog.EncodeMiss | ljsnarf.js:221-225 | no key of an index beyond the items is written |
| SyncLog.EncodedCount | ljsnarf.js:215-219 | the written reply's `sync_count` is the decimal item count, and it bounds the loop at exactly that count |
| SyncLog.EncodedItems | ljsnarf.js:219-226 | decoding the written reply yields the items themselves, in order |
| SyncLog.SyncPageRoundTrip | ljsnarf.js:214-226 | decoding the reply written for a page gives back its count, its total and exactly its items |
| Events.StripKind | ljsnarf.js:251-252 | the itemid of a `getevents` request: the result is a suffix of the id; what was removed is "", "L-", "C-" or "L-C-"; an id with neither prefix is kept; "L-x" loses "L-", and also "C-" when x starts with it; "C-x" loses "C-" |
| Events.EventAllowMask | ljsnarf.js:270-272 | a decoded entry has an allowmask only when its security is set and non-empty, and then it is the reply's `_allowmask` field |
| Events.GetOneEvent | ljsnarf.js:261-279 | the decoded entry: every field, the itemid included, read unchanged from `events_1_*`; an allowmask only for a non-empty security; properties from the `prop_*` pairs |
| Events.ReadProperties | ljsnarf.js:274-277 | the loop over `prop_count` writes `prop_i_name` to `prop_i_value` in index order |
| Events.PropsUpTo | ljsnarf.js:276-277 | exactly n property writes, write i read from `prop_<i+1>_*` |
| Events.NamedProperties | ljsnarf.js:274-277 | a name is a property iff some write names it, and its value is that of the last write naming it |
| Events.GetEventsSince | ljsnarf.js:375-414 | the decoder's result is the list the batch reply describes, or a crash |
| Events.CollectEntries | ljsnarf.js:382-398 | the entries map is the sequence of writes keyed by itemid, and the created keys are listed in first-creation order |
| Events.EntryWrites | ljsnarf.js:383-397 | write i is entry i+1 decoded from `events_<i+1>_*`, keyed by its itemid as a property key |
| Events.EntryWritesKeyed | ljsnarf.js:385-397 | every written entry sits under its own itemid and starts with no properties |
| Events.AttachProps | ljsnarf.js:400-406 | the property loop's result is the fold of prop writes over the entries, or a crash |
| Events.ApplyProps | ljsnarf.js:401-406 | the fold succeeds iff every write names an existing entry; it never adds or removes entries |
| Events.ApplyPropsStuck | ljsnarf.js:404-405 | once a write names a missing entry, the rest of the loop cannot recover |
| Events.ApplyPropsLand | ljsnarf.js:401-406 | each entry ends with exactly the properties of the writes naming its itemid, with the last write winning |
| Events.WritesFor | ljsnarf.js:404 | a write is selected iff it is addressed to the itemid (order and repeats: WritesForConcat) |
| Events.WritesForConcat | ljsnarf.js:401-406 | selecting the writes for an itemid commutes with concatenation, so their order and multiplicity are those of the input |
| Events.FirstSeen | ljsnarf.js:397 | the keys without repeats, covering exactly the keys given |
| Events.FirstSeenSnoc | ljsnarf.js:397 | writing one more key appends it to the creation order iff it is new |
| Events.FirstSeenOrder | ljsnarf.js:397 | the keys are listed in order of their first write: a key listed earlier is written before any write of a key listed later |
| Events.ListEntries | ljsnarf.js:408-411 | the result lists the map's entries in the order of the keys |
| Events.ValuesAt | ljsnarf.js:410-411 | the list has one entry per key, namely the map's value at that key |
| Events.OrderMembers | ljsnarf.js:409 | `Object.keys` lists exactly the created keys |
| Events.KeysOfAssign | ljsnarf.js:397 | the keys written are exactly the keys of the map |
| Events.OrderDistinct | ljsnarf.js:409 | `Object.keys` lists each key once |
| Events.ListEventsOrder | ljsnarf.js:382-411 | one entry per distinct itemid, listed in `Object.keys` order, and entry t sits under the t-th key |
| Events.ListEventsEntry | ljsnarf.js:382-411 | each listed entry is the last entry written under its itemid, with the properties addressed to that itemid |
| Events.EventsSinceOf | ljsnarf.js:380-413 | the handler's result defined as entry writes, then property writes, then the `Object.keys` listing; its properties are stated by ListEventsOrder, ListEventsEntry and ListEventsCrash |
| Events.ListEvents | ljsnarf.js:397-411 | the listing of the assigned entries after the property fold, or the crash; stated by ListEventsOrder, ListEventsEntry and ListEventsCrash |
| Events.ListEventsCrash | ljsnarf.js:404-405 | the decoder crashes iff some property names an itemid no entry has |
| FileNames.EntryFileName | ljsnarf.js:237-239 | the name contains no '/' |
| FileNames.EntryFileNameSpec | ljsnarf.js:238-239 | the name is the text after the path's last '/' with its first ".html" made ".json"; it depends on the path alone, not on the itemid |
| FileNames.EntryFileNameOfPage | ljsnarf.js:237-239 | `<dir>/<name>.html` is stored as `<name>.json` |
| FileNames.HtmlToJson | ljsnarf.js:239 | a dot-free stem keeps its stem when ".html" becomes ".json" |
| FileNames.SlashesToPlus | ljsnarf.js:580 | same length, and each '/' becomes '+' while every other character stays |
| FileNames.CollapseSpaces | ljsnarf.js:582 | the result has no white space |
| FileNames.CollapseKeeps | ljsnarf.js:582 | a character that is neither white space nor '_' is in the result iff it is in the input |
| FileNames.CollapseCount | ljsnarf.js:582 | such a character occurs as often after the replacement as before |
| FileNames.CollapseNoSpace | ljsnarf.js:582 | text without white space is unchanged |
| FileNames.CollapseIdempotent | ljsnarf.js:582 | applying the replacement twice is the same as once |
| FileNames.CollapseAllSpace | ljsnarf.js:582 | a run of white space alone becomes "_" |
| FileNames.Canonicalize | ljsnarf.js:578-584 | a canonical name contains no '/' and no white space |
| FileNames.CanonicalizeAmpersands | ljsnarf.js:581 | only the first '&' is replaced: the name has one '&' fewer than the tag when the tag has any |
| FileNames.ReplaceAmpersand | ljsnarf.js:581 | a non-global replace removes exactly one '&' when there is one |
| FileNames.ImageFileName | ljsnarf.js:625-626 | the file name is the canonical keyword (free of '/' and of white space), then '.', then the MIME type's suffix |
| FileNames.ImageSuffix | ljsnarf.js:625 | a type starting with "image/" loses exactly that prefix; a type without "image/" anywhere is kept whole |
| FileNames.ImageFileNameOfType | ljsnarf.js:625-626 | for a MIME type "image/<subtype>", the name is the canonical keyword + "." + subtype |
| Singly.EntryItems | ljsnarf.js:310-316 | the requested items are exactly the page's items whose id starts with 'L' |
| Singly.EntryItemsConcat | ljsnarf.js:310-316 | selecting the entries commutes with concatenation, so they are requested in page order |
| Singly.SinglyPass | ljsnarf.js:298-321 | the pass's outcome defined from the page and the number of completions; stated by SinglyPassReport, SinglyPassCallsBack and EmptyPagePersists |
| Singly.AdvanceTo | ljsnarf.js:320 | the checkpoint becomes the later of itself and the time, and is unchanged by an undefined time |
| Singly.FetchSyncItemsSingly | ljsnarf.js:292-325 | the pass's outcome depends only on how many completions arrived, not on their order; it calls back at most once; without a crash it requests exactly the 'L' items |
| Singly.RequestEntries | ljsnarf.js:309-316 | the dispatch loop crashes iff some id is undefined, and otherwise requests exactly the entry items |
| Singly.AwaitCompletions | ljsnarf.js:317-321 | the callback fires exactly once, when the last dispatched fetch completes, with the count raised by the number fetched and the checkpoint advanced to the item the closures read |
| Singly.CompletionsBound | ljsnarf.js:316-321 | distinct completions of n dispatched fetches number at most n |
| Singly.SinglyPassReport | ljsnarf.js:298-321 | a reporting pass raises the count by exactly the number of 'L' items, never moves the checkpoint back, and sets it to the later of it and the last item's time |
| Singly.SinglyPassCallsBack | ljsnarf.js:310-321 | for a non-empty page the pass calls back iff no id is undefined, the page has an 'L' item, and all of them completed |
| Singly.AdvanceTwice | ljsnarf.js:320 | advancing twice to the same time is the same as once |
| Singly.SinglyRun | ljsnarf.js:349-356 | the continuer's loop over successive replies defined; stated by SinglyRunMonotone, SinglyRunCounts and NaNRemainingContinues |
| Singly.BackupSingly | ljsnarf.js:327-358 | the run from the stored checkpoint with a count of 0; stated by BackupSinglyRecords |
| Singly.BackupSinglyRecords | ljsnarf.js:349-356 | what the singly backup records is a checkpoint no earlier than the one it read, and a count that is not negative |
| Singly.SinglyRunMonotone | ljsnarf.js:349-356 | the checkpoint a run persists, or reaches when the replies run out, is never earlier than the one it started from |
| Singly.SinglyRunCounts | ljsnarf.js:349-356 | the persisted count is never below the starting count |
| Singly.EmptyPagePersists | ljsnarf.js:298-302 | an empty page persists the checkpoint and count unchanged |
| Singly.NaNRemainingContinues | ljsnarf.js:351-354 | a total that is not a number gives a NaN remainder, and the loop goes on to another pass |
| Singly.LastItemDecides | ljsnarf.js:310-321 | for an entry followed by a comment on one page, the checkpoint becomes the comment's time |
| Batched.Latest | ljsnarf.js:424-429 | the latest time is no earlier than the start or any entry's time, and is the start or one of those times |
| Batched.AdvanceBatch | ljsnarf.js:424-429 | the checkpoint loop over the entries defined; stated by AdvanceBatchIsLatest and AdvanceBatchUndefined |
| Batched.AdvanceBatchIsLatest | ljsnarf.js:424-429 | the checkpoint loop computes exactly the latest time |
| Batched.AdvanceBatchUndefined | ljsnarf.js:428-429 | an undefined checkpoint stays undefined |
| Batched.FetchBatch | ljsnarf.js:417-437 | the pass's outcome depends only on how many archive callbacks arrived; it calls back at most once |
| Batched.FetchSyncItems | ljsnarf.js:439-453 | the same for a whole pass, with the count raised by the number of entries |
| Batched.EmptyBatchSilent | ljsnarf.js:423-435 | an empty batch never calls back |
| Batched.BatchPassCount | ljsnarf.js:447-450 | a reporting pass returns the decoded entries, and the count grows by their number, which is positive |
| Batched.BatchPass | ljsnarf.js:421-436 | a pass over the decoded batch defined; stated by FetchBatch, BatchPassCount, BatchPassLatest and EmptyBatchSilent |
| Batched.ArchiveOutcome | ljsnarf.js:421-436 | the pass once decoded: a decoder crash or an entry without url crashes, an empty or incomplete batch is silent; stated by BatchPassCount and BatchPassLatest |
| Batched.BatchPassLatest | ljsnarf.js:428-433 | a reporting pass returns `Latest(lastsync, entries)`: the later of the starting checkpoint and every entry's time |
| Batched.BatchRunStops | ljsnarf.js:478-481 | a pass that returns the checkpoint it started from persists that checkpoint and the count at once |
| Batched.BatchRun | ljsnarf.js:478-488 | the continuer's loop over successive replies defined; stated by BatchRunStops and BatchRunMonotone |
| Batched.BackupBatched | ljsnarf.js:455-490 | the run from the stored checkpoint with a count of 0; stated by BackupBatchedMonotone |
| Batched.BackupBatchedMonotone | ljsnarf.js:478-488 | what the batched backup records is a defined checkpoint no earlier than the one it read |
| Batched.BatchRunMonotone | ljsnarf.js:478-488 | a persisted checkpoint is defined and never earlier than the starting one |
| Userpics.UserpicsOf | ljsnarf.js:542-554 | the list has `pickwurl_count` + 1 pics; pic i is `pickw_<i+1>` and `pickwurl_<i+1>`; the last is tag "default" with `defaultpicurl` |
| Userpics.PicsUpTo | ljsnarf.js:544-550 | exactly n pics, pic i read from index i+1 |
| Userpics.FetchUserpicMetadata | ljsnarf.js:541-556 | the loop builds exactly that list |
| Userpics.PicKeysDistinct | ljsnarf.js:547-553 | the keyword, url, count and default-url keys never coincide |
| Userpics.EncodePicsHit | ljsnarf.js:547-548 | in a login reply written from pics, the i-th keyword and url keys hold pic i's |
| Userpics.EncodePicsMiss | ljsnarf.js:547-548 | no key beyond the pics is written |
| Userpics.EncodedPicCount | ljsnarf.js:542-553 | the written count bounds the loop at the number of pics, and the default url is the one given |
| Userpics.LoginRoundTrip | ljsnarf.js:542-554 | decoding the reply written for pics gives back those pics, in order, followed by the default pic |
| Userpics.ToFetch | ljsnarf.js:611-619 | the pics whose images are requested, in list order; stated by ToFetchSpec and ToFetchConcat |
| Userpics.ToFetchSpec | ljsnarf.js:611-619 | a pic is fetched iff it is in the list and its tag has no cached record with both mimetype and filename |
| Userpics.ToFetchConcat | ljsnarf.js:611-619 | the skip rule is applied to each pic on its own |
| Userpics.Saved | ljsnarf.js:625-628 | a saved record keeps tag and url and gets the MIME type and the image file name |
| Userpics.Account.constructor | ljsnarf.js:560-576 | the account starts with the cached manifest |
| Userpics.Account.FetchUserPics | ljsnarf.js:598-647 | the manifest becomes the merge of the cache with the saved images, a crash is reported as such, and the callback fires once exactly when every fetch replied |
| Userpics.Account.Dispatch | ljsnarf.js:610-623 | the dispatch loop crashes iff a pic to fetch has no url, and otherwise fetches exactly the pics the skip rule lets through |
| Userpics.Account.AwaitReplies | ljsnarf.js:623-644 | the replies merge into the manifest in arrival order; the callback fires once iff every fetch replied without a crash |
| Userpics.Merge | ljsnarf.js:623-641 | the replies folded in arrival order; stated by MergeStuck, MergeKeepsKeys, MergeKeepsImages, MergeChangesFromWrites and MergeRecordsWrites |
| Userpics.MergeStep | ljsnarf.js:625-641 | one reply handler: a crash, a saved record under the keyword, or nothing for a failed write; stated by the same lemmas |
| Userpics.UserpicMerge | ljsnarf.js:603-644 | the dispatch crash or the merge; stated by UserpicMergeSpec |
| Userpics.MergeStuck | ljsnarf.js:625 | after a reply crashes, later replies change nothing |
| Userpics.MergeKeepsKeys | ljsnarf.js:637 | no cached tag is ever removed, including tags missing from the remote list |
| Userpics.MergeKeepsImages | ljsnarf.js:614-618 | a cached record with both mimetype and filename is left as it is |
| Userpics.MergeChangesFromWrites | ljsnarf.js:631-637 | a record is added or changed only by a reply whose file write succeeded, for that tag |
| Userpics.MergeRecordsWrites | ljsnarf.js:633-637 | without a crash, every successful write leaves its tag with a complete record |
| Userpics.UserpicMergeSpec | ljsnarf.js:603-644 | over the remote list: cached tags are kept, complete cached records are unchanged, and every successful write is recorded |
| Userpics.DispatchCrashAt | ljsnarf.js:588 | a pic to fetch without a url makes the dispatch crash |
| JsObjects.Extend | ljsnarf.js:28-34 | the keys are the union; the source's values win; the destination's others are kept |
| JsObjects.Assign | ljsnarf.js:94 | a key is present iff some write names it |
| JsObjects.AssignLastWins | ljsnarf.js:94 | a key's value is the value of the last write naming it |
| JsObjects.PropertyOrderSpec | ljsnarf.js:409 | `Object.keys` is a permutation of the keys: array indices first, ascending, then the other keys in creation order |
| JsObjects.SortSorted | ljsnarf.js:409 | the index keys come out ascending |
| JsStrings.Split | ljsnarf.js:90 | one more part than separators, and no part holds the separator |
| JsStrings.JoinSplit | ljsnarf.js:90 | joining the parts gives back the text |
| JsStrings.SplitJoin | ljsnarf.js:90 | splitting joined separator-free parts gives back the parts |
| JsStrings.LastSegmentSpec | ljsnarf.js:238-239 | the last piece is a separator-free suffix that follows a separator or is the whole text |
| JsStrings.ReplaceFirst | ljsnarf.js:581 | without a match the text is unchanged; otherwise only the first match is replaced |
| JsStrings.Less | ljsnarf.js:428 | string `<` defined lexicographically on characters; stated by LessTransitive, LessTotal and LessIrreflexive |
| JsStrings.JsLess | ljsnarf.js:428 | `<` with either side undefined is false; stated by AdvanceBatchUndefined |
| JsStrings.Later | ljsnarf.js:428 | the later of two strings is one of them and precedes neither |
| JsStrings.LessTransitive | ljsnarf.js:428 | string order is transitive |
| JsStrings.LessTotal | ljsnarf.js:428 | two strings are equal or one precedes the other |
| JsStrings.LessIrreflexive | ljsnarf.js:428 | no string precedes itself |
| JsNumbers.ToNumber | ljsnarf.js:219 | `undefined` is NaN, and a decimal string is coerced to its value |
| JsNumbers.ToNumberSpec | ljsnarf.js:219 | "-digits" and "+digits" give minus and plus the value, and an empty or all-white-space text gives 0 |
| JsNumbers.NumberIgnoresLeadingSpace | ljsnarf.js:219 | leading white space does not change the coerced number |
| JsNumbers.Iterations | ljsnarf.js:544 | a loop against a non-negative bound runs that many times; one that runs at all had a numeric bound |
| JsNumbers.ParseInt | ljsnarf.js:542 | a decimal string parses to its value |
| JsNumbers.DecimalRoundTrip | ljsnarf.js:219 | a number written in decimal reads back as itself |
| JsNumbers.FieldInjective | ljsnarf.js:222-224 | indexed keys with different indices or fields differ |

## Left out

- The HTTP transport is not modelled: the `Requester` chain, `doChallengeFlat`, `makeFlatAPICall` and the request parameters (`syncdate`, `usejournal`, …). Replies are inputs.
- `respondToChallenge` and `makeSession` are not modelled: they are MD5 authentication through `crypto`, a foreign call.
- Filesystem effects are not modelled: `readLastSync`, `writeLastSync`, reading `userpics.json` in `cachedUserpicData`, the entry and image writes, and the directory set-up. A write's outcome is an input to the userpic merge, and the cached manifest is an input to `Account`.
- `JSON.stringify`/`JSON.parse` are not modelled; in particular the `null` and `undefined` values a parsed manifest can hold collapse into "absent".
- `decodeURIComponent` is not modelled: an entry's body is kept as the raw field, so a malformed escape (URIError) and the text "undefined" for a missing body are not modelled.
- `url.parse` is not modelled: the entry's pathname is an input to `FileNames.EntryFileName`. Only the crash on an undefined URL is modelled.
- `path.join`, `journalPath`/`postspath`/`metapath`, the logger, the YAML configuration and `Date` are not modelled: they are plumbing, configuration and the clock.
- Real asynchrony is not modelled. Completions are one sequential order of distinct fetch indices; `fetchItem` and `archiveEntry` replies in the entry passes count as completions.
- A crash inside a completion of an entry pass is not modelled. In the singly pass the reply to each `getevents` request is not modelled, since a completion is only an index; so the `url.parse(undefined)` crash in `archiveEntry` (ljsnarf.js:237) reached from a singly completion is not modelled, and such a fetch counts as one whose completion never arrives. The decoder of a single event never fails, and a failed write is ignored by the source.
- `Userpics.Account.FetchUserPics`: the source stores the reply's own pic object, which is aliased with the fetched list. The model stores a copy with the same fields.
- `__proto__` and other special property names are not modelled.
- JavaScript compares strings by UTF-16 code units; `JsStrings.Less` compares characters.
- `JsNumbers.ToNumber` reads decimal integers with optional white space and sign; hexadecimal, exponent and fractional forms are treated as NaN, and so is "Infinity", which JavaScript reads as Infinity (a loop against it would not end).
- `JsNumbers.ParseInt` reads an optional sign and a decimal prefix; its contract states only the all-digits case.
- `JsObjects.Extend` returns the updated map instead of updating its argument in place and returning the same object.
- `backupUserPics`, `readLastSync`/`writeLastSync` and the command-line driver are outside the modelled core.
