/** The sync-log reader: the reply handler of `getSyncItems`
    (ljsnarf.js:211-229), which turns the flat `syncitems` reply into a page
    of change-log items. */
module SyncLog {
  import opened JsStrings
  import opened JsNumbers
  import opened JsObjects
  import opened Flat

  /** One change-log item `{id, action, time}`; a field the reply lacks is undefined. */
  datatype SyncItem = SyncItem(id: Option<string>, action: Option<string>, time: Option<string>)

  /** The `results` object: the page count and the total as the reply gives
      them (strings), and the items. */
  datatype SyncPage = SyncPage(count: Option<string>, total: Option<string>, items: seq<SyncItem>)

  /** The fields `sync_<i>_item`, `sync_<i>_action`, `sync_<i>_time`. */
  function ItemAt(data: FlatData, i: nat): SyncItem
  {
    SyncItem(Lookup(data, Field("sync_", i, "_item")),
             Lookup(data, Field("sync_", i, "_action")),
             Lookup(data, Field("sync_", i, "_time")))
  }

  /** Items 1..n, in index order. */
  function ItemsUpTo(data: FlatData, n: nat): (items: seq<SyncItem>)
    ensures |items| == n
    ensures forall i :: 0 <= i < n ==> items[i] == ItemAt(data, i + 1)
  {
    if n == 0 then [] else ItemsUpTo(data, n - 1) + [ItemAt(data, n)]
  }

  /** The number of items the loop reads: `sync_count` compared as a number. */
  function PageLength(data: FlatData): nat
  {
    Iterations(ToNumber(Lookup(data, "sync_count")))
  }

  function SyncPageOf(data: FlatData): SyncPage
  {
    SyncPage(Lookup(data, "sync_count"), Lookup(data, "sync_total"), ItemsUpTo(data, PageLength(data)))
  }

  /** The reply handler of `getSyncItems`: item i (counting from 1) carries
      the reply's `sync_<i>_*` fields, for every i up to `sync_count`. */
  method GetSyncItems(data: FlatData) returns (page: SyncPage)
    ensures page == SyncPageOf(data)
  {
    var count := Lookup(data, "sync_count");
    var items := ReadItems(data, Iterations(ToNumber(count)));
    page := SyncPage(count, Lookup(data, "sync_total"), items);
  }

  /** The loop `for (i = 1; i <= data.sync_count; i++)` with its bound as a number. */
  method ReadItems(data: FlatData, n: nat) returns (items: seq<SyncItem>)
    ensures items == ItemsUpTo(data, n)
  {
    items := [];
    var i := 1;
    while i <= n
      invariant 1 <= i <= n + 1
      invariant items == ItemsUpTo(data, i - 1)
    {
      items := items + [ItemAt(data, i)];
      i := i + 1;
    }
  }

  // ---------------------------------------------------------------------------
  // The server's side: a page of items written as a flat reply.

  function Put(m: FlatData, key: string, v: Option<string>): FlatData
  {
    if v.Some? then m[key := v.value] else m
  }

  function EncodeItems(items: seq<SyncItem>): FlatData
  {
    if items == [] then map[]
    else
      PutItem(EncodeItems(items[..|items| - 1]), |items|, items[|items| - 1])
  }

  /** The fields of item n written on top of m. */
  function PutItem(m: FlatData, n: nat, it: SyncItem): FlatData
  {
    Put(Put(Put(m, Field("sync_", n, "_item"), it.id), Field("sync_", n, "_action"), it.action),
        Field("sync_", n, "_time"), it.time)
  }

  /** The reply the server sends for a page: its count, its total and its items. */
  function EncodePage(items: seq<SyncItem>, total: string): FlatData
  {
    EncodeItems(items)["sync_count" := Decimal(|items|)]["sync_total" := total]
  }

  predicate ItemSuffix(s: string)
  {
    s == "_item" || s == "_action" || s == "_time"
  }

  function FieldOf(it: SyncItem, suffix: string): Option<string>
  {
    if suffix == "_item" then it.id else if suffix == "_action" then it.action else it.time
  }

  /** A key that is none of item n's keys keeps its value. */
  lemma PutItemOther(m: FlatData, n: nat, it: SyncItem, key: string)
    requires forall s :: ItemSuffix(s) ==> key != Field("sync_", n, s)
    ensures Lookup(PutItem(m, n, it), key) == Lookup(m, key)
  {
    assert ItemSuffix("_item") && ItemSuffix("_action") && ItemSuffix("_time");
  }

  /** A key of item n that m does not hold reads as that field of the item. */
  lemma PutItemOwn(m: FlatData, n: nat, it: SyncItem, suffix: string)
    requires ItemSuffix(suffix) && Field("sync_", n, suffix) !in m
    ensures Lookup(PutItem(m, n, it), Field("sync_", n, suffix)) == FieldOf(it, suffix)
  {
    forall s | ItemSuffix(s) && s != suffix ensures Field("sync_", n, suffix) != Field("sync_", n, s) {
      if Field("sync_", n, suffix) == Field("sync_", n, s) {
        FieldInjective("sync_", n, suffix, n, s);
      }
    }
    assert ItemSuffix("_item") && ItemSuffix("_action") && ItemSuffix("_time");
  }

  /** The keys of index n and index j differ when n and j do. */
  lemma OtherIndexKeys(n: nat, j: nat, suffix: string)
    requires ItemSuffix(suffix) && n != j
    ensures forall s :: ItemSuffix(s) ==> Field("sync_", j, suffix) != Field("sync_", n, s)
  {
    forall s | ItemSuffix(s) ensures Field("sync_", j, suffix) != Field("sync_", n, s) {
      if Field("sync_", j, suffix) == Field("sync_", n, s) {
        FieldInjective("sync_", j, suffix, n, s);
      }
    }
  }

  /** No key of a later index is written by the encoding of the first items. */
  lemma {:induction false} EncodeMiss(items: seq<SyncItem>, j: nat, suffix: string)
    requires ItemSuffix(suffix) && j > |items|
    ensures Field("sync_", j, suffix) !in EncodeItems(items)
  {
    if items != [] {
      var n := |items|;
      EncodeMiss(items[..n - 1], j, suffix);
      OtherIndexKeys(n, j, suffix);
      PutItemOther(EncodeItems(items[..n - 1]), n, items[n - 1], Field("sync_", j, suffix));
    }
  }

  lemma {:induction false} EncodeHit(items: seq<SyncItem>, i: nat, suffix: string)
    requires ItemSuffix(suffix) && 1 <= i <= |items|
    ensures Lookup(EncodeItems(items), Field("sync_", i, suffix)) == FieldOf(items[i - 1], suffix)
  {
    var n := |items|;
    var init := items[..n - 1];
    if i == n {
      EncodeMiss(init, n, suffix);
      PutItemOwn(EncodeItems(init), n, items[n - 1], suffix);
    } else {
      EncodeHit(init, i, suffix);
      OtherIndexKeys(n, i, suffix);
      PutItemOther(EncodeItems(init), n, items[n - 1], Field("sync_", i, suffix));
    }
  }

  lemma CountKeysDistinct(i: nat, suffix: string)
    ensures Field("sync_", i, suffix) != "sync_count" && Field("sync_", i, suffix) != "sync_total"
  {
    FieldNotPlain("sync_", i, suffix, "count");
    FieldNotPlain("sync_", i, suffix, "total");
    assert "sync_count" == "sync_" + "count" && "sync_total" == "sync_" + "total";
  }

  lemma EncodedField(items: seq<SyncItem>, total: string, i: nat, suffix: string)
    requires ItemSuffix(suffix) && 1 <= i <= |items|
    ensures Lookup(EncodePage(items, total), Field("sync_", i, suffix)) == FieldOf(items[i - 1], suffix)
  {
    CountKeysDistinct(i, suffix);
    EncodeHit(items, i, suffix);
  }

  lemma EncodedItem(items: seq<SyncItem>, total: string, i: nat)
    requires 1 <= i <= |items|
    ensures ItemAt(EncodePage(items, total), i) == items[i - 1]
  {
    EncodedField(items, total, i, "_item");
    EncodedField(items, total, i, "_action");
    EncodedField(items, total, i, "_time");
  }

  lemma EncodedCount(items: seq<SyncItem>, total: string)
    ensures Lookup(EncodePage(items, total), "sync_count") == Some(Decimal(|items|))
    ensures Lookup(EncodePage(items, total), "sync_total") == Some(total)
    ensures PageLength(EncodePage(items, total)) == |items|
  {
    DecimalRoundTrip(|items|);
  }

  /** Decoding the reply the server wrote for a page gives back the page:
      its count, its total and exactly its items, in order. */
  lemma SyncPageRoundTrip(items: seq<SyncItem>, total: string)
    ensures SyncPageOf(EncodePage(items, total)) == SyncPage(Some(Decimal(|items|)), Some(total), items)
  {
    EncodedCount(items, total);
    EncodedItems(items, total);
  }

  lemma EncodedItems(items: seq<SyncItem>, total: string)
    ensures ItemsUpTo(EncodePage(items, total), |items|) == items
  {
    var decoded := ItemsUpTo(EncodePage(items, total), |items|);
    forall i | 0 <= i < |items| ensures decoded[i] == items[i] {
      EncodedItem(items, total, i + 1);
    }
  }
}
