/** The userpic manifest: the list of userpics decoded from the `login`
    reply (`fetchUserpicMetadata`, ljsnarf.js:524-558) and its merge into the
    cached manifest `self.userpics` as the images are saved
    (`fetchUserPics`, ljsnarf.js:598-647). */
module Userpics {
  import opened JsStrings
  import opened JsNumbers
  import opened Flat
  import opened FileNames
  import Singly

  /** A userpic record: its keyword, its url, and once saved its MIME type
      and the name of its image file. */
  datatype Userpic = Userpic(tag: Option<string>, url: Option<string>, mimetype: Option<string>, filename: Option<string>)

  // ---------------------------------------------------------------------------
  // fetchUserpicMetadata

  function PicAt(data: FlatData, i: nat): Userpic
  {
    Userpic(Lookup(data, Field("pickw_", i, "")), Lookup(data, Field("pickwurl_", i, "")), None, None)
  }

  function PicsUpTo(data: FlatData, n: nat): (ps: seq<Userpic>)
    ensures |ps| == n
    ensures forall i :: 0 <= i < n ==> ps[i] == PicAt(data, i + 1)
  {
    if n == 0 then [] else PicsUpTo(data, n - 1) + [PicAt(data, n)]
  }

  /** `parseInt(response.pickwurl_count, 10)` as the bound of `i < piccount + 1`. */
  function PicCount(data: FlatData): nat
  {
    Iterations(ParseInt(Lookup(data, "pickwurl_count")))
  }

  function DefaultPic(data: FlatData): Userpic
  {
    Userpic(Some("default"), Lookup(data, "defaultpicurl"), None, None)
  }

  /** The list `fetchUserpicMetadata` hands on: one record per keyword, then the default picture. */
  function UserpicsOf(data: FlatData): (ps: seq<Userpic>)
    ensures |ps| == PicCount(data) + 1
    ensures ps[|ps| - 1] == DefaultPic(data)
    ensures forall i :: 0 <= i < PicCount(data) ==> ps[i] == PicAt(data, i + 1)
  {
    PicsUpTo(data, PicCount(data)) + [DefaultPic(data)]
  }

  method FetchUserpicMetadata(response: FlatData) returns (userpics: seq<Userpic>)
    ensures userpics == UserpicsOf(response)
  {
    var piccount := ParseInt(Lookup(response, "pickwurl_count"));
    ghost var n := Iterations(piccount);
    userpics := [];
    var i := 1;
    while piccount.Some? && i < piccount.value + 1
      invariant 1 <= i <= n + 1
      invariant userpics == PicsUpTo(response, i - 1)
    {
      userpics := userpics + [PicAt(response, i)];
      i := i + 1;
    }
    assert i - 1 == n == PicCount(response);
    userpics := userpics + [DefaultPic(response)];
  }

  // ---------------------------------------------------------------------------
  // The server's side of the `login` reply, as a partner of the decoder.

  function Puts(m: FlatData, key: string, v: Option<string>): FlatData
  {
    if v.Some? then m[key := v.value] else m
  }

  function EncodePics(pics: seq<(Option<string>, Option<string>)>): FlatData
  {
    if pics == [] then map[]
    else
      var n := |pics|;
      Puts(Puts(EncodePics(pics[..n - 1]), Field("pickw_", n, ""), pics[n - 1].0), Field("pickwurl_", n, ""), pics[n - 1].1)
  }

  /** The `login` reply for keywords with their urls and a default picture url. */
  function EncodeLogin(pics: seq<(Option<string>, Option<string>)>, defaultUrl: string): FlatData
  {
    EncodePics(pics)["pickwurl_count" := Decimal(|pics|)]["defaultpicurl" := defaultUrl]
  }

  lemma PrefixesDiffer(x: string, y: string)
    ensures "pickw_" + x != "pickwurl_" + y
  {
    assert ("pickw_" + x)[5] == '_' && ("pickwurl_" + y)[5] == 'u';
  }

  /** The two keys of index i are neither another index's keys nor the fixed keys. */
  lemma {:induction false} PicKeysDistinct(i: nat, j: nat)
    ensures i != j ==> Field("pickw_", i, "") != Field("pickw_", j, "")
    ensures i != j ==> Field("pickwurl_", i, "") != Field("pickwurl_", j, "")
    ensures Field("pickw_", i, "") != Field("pickwurl_", j, "")
    ensures Field("pickw_", i, "") != "pickwurl_count" && Field("pickwurl_", i, "") != "pickwurl_count"
    ensures Field("pickw_", i, "") != "defaultpicurl" && Field("pickwurl_", i, "") != "defaultpicurl"
  {
    if Field("pickw_", i, "") == Field("pickw_", j, "") {
      FieldInjective("pickw_", i, "", j, "");
    }
    if Field("pickwurl_", i, "") == Field("pickwurl_", j, "") {
      FieldInjective("pickwurl_", i, "", j, "");
    }
    PrefixesDiffer(Decimal(i), Decimal(j));
    assert Field("pickw_", i, "") == "pickw_" + Decimal(i) && Field("pickwurl_", j, "") == "pickwurl_" + Decimal(j);
    assert Field("pickw_", i, "") == "pickw_" + Decimal(i) + "";
    PrefixesDiffer(Decimal(i), "count");
    FieldNotPlain("pickwurl_", i, "", "count");
    assert "pickwurl_count" == "pickwurl_" + "count";
    assert Field("pickw_", i, "")[0] == 'p' && Field("pickwurl_", i, "")[0] == 'p';
  }

  lemma {:induction false} EncodePicsMiss(pics: seq<(Option<string>, Option<string>)>, j: nat)
    requires j > |pics|
    ensures Field("pickw_", j, "") !in EncodePics(pics) && Field("pickwurl_", j, "") !in EncodePics(pics)
  {
    if pics != [] {
      var n := |pics|;
      EncodePicsMiss(pics[..n - 1], j);
      PicKeysDistinct(j, n);
      PicKeysDistinct(n, j);
    }
  }

  lemma {:induction false} EncodePicsHit(pics: seq<(Option<string>, Option<string>)>, i: nat)
    requires 1 <= i <= |pics|
    ensures Lookup(EncodePics(pics), Field("pickw_", i, "")) == pics[i - 1].0
    ensures Lookup(EncodePics(pics), Field("pickwurl_", i, "")) == pics[i - 1].1
  {
    var n := |pics|;
    PicKeysDistinct(i, n);
    PicKeysDistinct(n, i);
    if i == n {
      EncodePicsMiss(pics[..n - 1], n);
    } else {
      EncodePicsHit(pics[..n - 1], i);
    }
  }

  lemma EncodedPicCount(pics: seq<(Option<string>, Option<string>)>, defaultUrl: string)
    ensures Lookup(EncodeLogin(pics, defaultUrl), "defaultpicurl") == Some(defaultUrl)
    ensures PicCount(EncodeLogin(pics, defaultUrl)) == |pics|
  {
    DecimalRoundTrip(|pics|);
    assert Lookup(EncodeLogin(pics, defaultUrl), "pickwurl_count") == Some(Decimal(|pics|));
  }

  /** Decoding the `login` reply gives back the keywords and urls in order,
      followed by the default picture. */
  lemma LoginRoundTrip(pics: seq<(Option<string>, Option<string>)>, defaultUrl: string)
    ensures var ps := UserpicsOf(EncodeLogin(pics, defaultUrl));
      && |ps| == |pics| + 1
      && (forall i :: 0 <= i < |pics| ==> ps[i] == Userpic(pics[i].0, pics[i].1, None, None))
      && ps[|pics|] == Userpic(Some("default"), Some(defaultUrl), None, None)
  {
    var data := EncodeLogin(pics, defaultUrl);
    EncodedPicCount(pics, defaultUrl);
    forall i | 1 <= i <= |pics|
      ensures PicAt(data, i) == Userpic(pics[i - 1].0, pics[i - 1].1, None, None)
    {
      PicKeysDistinct(i, i);
      EncodePicsHit(pics, i);
    }
  }

  // ---------------------------------------------------------------------------
  // fetchUserPics

  /** A cached record that already has its image: both fields are present. */
  predicate HasImage(rec: Userpic)
  {
    rec.mimetype.Some? && rec.filename.Some?
  }

  /** The cache holds a record with its image under the picture's keyword. */
  predicate AlreadyFetched(cache: map<string, Userpic>, pic: Userpic)
  {
    JsKey(pic.tag) in cache && HasImage(cache[JsKey(pic.tag)])
  }

  /** The pictures whose images are requested, in list order. */
  function ToFetch(cache: map<string, Userpic>, pics: seq<Userpic>): seq<Userpic>
  {
    if pics == [] then []
    else ToFetch(cache, pics[..|pics| - 1]) + (if AlreadyFetched(cache, pics[|pics| - 1]) then [] else [pics[|pics| - 1]])
  }

  /** A picture is requested iff it is on the list and the cache does not have its image. */
  lemma {:induction false} ToFetchSpec(cache: map<string, Userpic>, pics: seq<Userpic>)
    ensures |ToFetch(cache, pics)| <= |pics|
    ensures forall p :: p in ToFetch(cache, pics) <==> p in pics && !AlreadyFetched(cache, p)
  {
    if pics != [] {
      var init := pics[..|pics| - 1];
      ToFetchSpec(cache, init);
      assert forall p :: p in pics <==> p in init || p == pics[|pics| - 1];
    }
  }

  /** The answer to one image request: which request, the `content-type` of
      the reply, and whether writing the image file succeeded. */
  datatype ImageReply = ImageReply(fetch: nat, mimetype: Option<string>, written: bool)

  /** The record stored once the image of a picture is saved. */
  function Saved(pic: Userpic, tag: string, mimetype: string): (r: Userpic)
    ensures HasImage(r) && r.tag == pic.tag && r.url == pic.url
    ensures r.filename == Some(ImageFileName(tag, mimetype))
  {
    pic.(mimetype := Some(mimetype), filename := Some(ImageFileName(tag, mimetype)))
  }

  /** The manifest and whether a TypeError ended the process. */
  datatype MergeResult = MergeResult(pics: map<string, Userpic>, crashed: bool)

  predicate RepliesIn(fetched: seq<Userpic>, replies: seq<ImageReply>)
  {
    forall j :: 0 <= j < |replies| ==> replies[j].fetch < |fetched|
  }

  /** The image replies applied in the order they arrive: a reply without a
      `content-type`, or for a picture without a keyword, throws; a saved
      image stores its record under its keyword; a failed write stores nothing. */
  function Merge(cache: map<string, Userpic>, fetched: seq<Userpic>, replies: seq<ImageReply>): MergeResult
    requires RepliesIn(fetched, replies)
  {
    if replies == [] then MergeResult(cache, false)
    else
      var init := replies[..|replies| - 1];
      assert RepliesIn(fetched, init);
      MergeStep(Merge(cache, fetched, init), fetched, replies[|replies| - 1])
  }

  /** One reply handler applied to the manifest so far. */
  function MergeStep(r: MergeResult, fetched: seq<Userpic>, reply: ImageReply): MergeResult
    requires reply.fetch < |fetched|
  {
    var pic := fetched[reply.fetch];
    if r.crashed then r
    else if pic.tag.None? || reply.mimetype.None? then MergeResult(r.pics, true)
    else if reply.written then MergeResult(r.pics[pic.tag.value := Saved(pic, pic.tag.value, reply.mimetype.value)], false)
    else r
  }

  /** `fetchImage` parses the url of each requested picture, which throws for
      a picture without one. */
  predicate DispatchCrashes(fetched: seq<Userpic>)
  {
    exists i :: 0 <= i < |fetched| && fetched[i].url.None?
  }

  /** The effect of `fetchUserPics` on the manifest. */
  function UserpicMerge(cache: map<string, Userpic>, fetched: seq<Userpic>, replies: seq<ImageReply>): MergeResult
    requires RepliesIn(fetched, replies)
  {
    if DispatchCrashes(fetched) then MergeResult(cache, true) else Merge(cache, fetched, replies)
  }

  /** The account whose manifest `self.userpics` is updated in place. */
  class Account {
    var userpics: map<string, Userpic>

    /** The manifest as `cachedUserpicData` read it (empty when there is none). */
    constructor (cache: map<string, Userpic>)
      ensures userpics == cache
    {
      userpics := cache;
    }

    /** `fetchUserPics`: request the image of every picture the manifest does
        not already have, and store each record once its image is written.
        `callbacks` counts the calls of the final callback. */
    method FetchUserPics(response: FlatData, replies: seq<ImageReply>) returns (callbacks: nat, crashed: bool)
      modifies this
      requires forall a, b :: 0 <= a < b < |replies| ==> replies[a].fetch != replies[b].fetch
      requires RepliesIn(ToFetch(userpics, UserpicsOf(response)), replies)
      ensures var out := UserpicMerge(old(userpics), ToFetch(old(userpics), UserpicsOf(response)), replies);
        userpics == out.pics && crashed == out.crashed
      ensures callbacks == if !crashed && |replies| == |ToFetch(old(userpics), UserpicsOf(response))| then 1 else 0
    {
      var list := FetchUserpicMetadata(response);
      var fetched, thrown := Dispatch(list);
      if thrown {
        return 0, true;
      }
      Singly.CompletionsBound(FetchIds(replies), |fetched|);
      var pending := |fetched|;
      callbacks := 0;
      // `pending-- || callback()` once the requests are sent
      if pending == 0 {
        callbacks := 1;
      }
      pending := pending - 1;
      var more;
      more, crashed := AwaitReplies(fetched, replies, pending);
      callbacks := callbacks + more;
    }

    /** The request loop: the pictures requested, unless a picture to be
        requested has no url. The manifest is not changed. */
    method Dispatch(list: seq<Userpic>) returns (fetched: seq<Userpic>, crashed: bool)
      ensures crashed == DispatchCrashes(ToFetch(userpics, list))
      ensures !crashed ==> fetched == ToFetch(userpics, list)
    {
      fetched := [];
      var i := 0;
      while i < |list|
        invariant 0 <= i <= |list|
        invariant fetched == ToFetch(userpics, list[..i])
        invariant forall k :: 0 <= k < |fetched| ==> fetched[k].url.Some?
      {
        var pic := list[i];
        ToFetchNext(userpics, list, i);
        if !AlreadyFetched(userpics, pic) {
          if pic.url.None? {
            DispatchCrashAt(userpics, list, i);
            return fetched, true;
          }
          fetched := fetched + [pic];
        }
        i := i + 1;
      }
      assert list[..i] == list;
      crashed := false;
    }

    /** The reply handlers, with `pending` the counter after the requests
        were sent: only the reply that finds it at 0 calls back. */
    method AwaitReplies(fetched: seq<Userpic>, replies: seq<ImageReply>, pending0: int) returns (callbacks: nat, crashed: bool)
      modifies this
      requires RepliesIn(fetched, replies) && |replies| <= |fetched|
      requires pending0 == |fetched| - 1
      ensures Merge(old(userpics), fetched, replies) == MergeResult(userpics, crashed)
      ensures callbacks == if !crashed && |replies| == |fetched| && |fetched| > 0 then 1 else 0
    {
      ghost var cache := userpics;
      var pending := pending0;
      callbacks := 0;
      var j := 0;
      while j < |replies|
        invariant 0 <= j <= |replies|
        invariant Merge(cache, fetched, replies[..j]) == MergeResult(userpics, false)
        invariant pending == |fetched| - 1 - j && (j > 0 ==> j < |fetched|)
        invariant callbacks == 0
      {
        var reply := replies[j];
        var pic := fetched[reply.fetch];
        MergeNext(cache, fetched, replies, j);
        if reply.mimetype.None? || pic.tag.None? {
          MergeStuck(cache, fetched, replies, j + 1);
          return 0, true;
        }
        var hash := Saved(pic, pic.tag.value, reply.mimetype.value);
        if reply.written {
          userpics := userpics[pic.tag.value := hash];
        }
        if pending == 0 {
          assert replies[..j + 1] == replies;
          return 1, false;
        }
        pending := pending - 1;
        j := j + 1;
      }
      assert replies[..j] == replies;
      crashed := false;
    }
  }

  lemma MergeNext(cache: map<string, Userpic>, fetched: seq<Userpic>, replies: seq<ImageReply>, j: nat)
    requires RepliesIn(fetched, replies) && j < |replies|
    ensures Merge(cache, fetched, replies[..j + 1]) == MergeStep(Merge(cache, fetched, replies[..j]), fetched, replies[j])
  {
    assert replies[..j + 1][..j] == replies[..j];
  }

  lemma ToFetchNext(cache: map<string, Userpic>, list: seq<Userpic>, i: nat)
    requires i < |list|
    ensures ToFetch(cache, list[..i + 1]) == ToFetch(cache, list[..i]) + (if AlreadyFetched(cache, list[i]) then [] else [list[i]])
  {
    assert list[..i + 1][..i] == list[..i];
  }

  lemma DispatchCrashAt(cache: map<string, Userpic>, list: seq<Userpic>, i: nat)
    requires i < |list| && !AlreadyFetched(cache, list[i]) && list[i].url.None?
    ensures DispatchCrashes(ToFetch(cache, list))
  {
    var pic := list[i];
    assert list[..i + 1] + list[i + 1..] == list;
    assert list[..i + 1][..i] == list[..i];
    ToFetchConcat(cache, list[..i + 1], list[i + 1..]);
    var k := |ToFetch(cache, list[..i])|;
    assert ToFetch(cache, list)[k] == pic;
  }

  function FetchIds(replies: seq<ImageReply>): (ids: seq<nat>)
    ensures |ids| == |replies| && forall j :: 0 <= j < |replies| ==> ids[j] == replies[j].fetch
  {
    seq(|replies|, j requires 0 <= j < |replies| => replies[j].fetch)
  }

  lemma {:induction false} ToFetchConcat(cache: map<string, Userpic>, a: seq<Userpic>, b: seq<Userpic>)
    ensures ToFetch(cache, a + b) == ToFetch(cache, a) + ToFetch(cache, b)
    decreases |b|
  {
    if b == [] {
      assert a + b == a;
    } else {
      var b' := b[..|b| - 1];
      assert (a + b)[..|a + b| - 1] == a + b';
      ToFetchConcat(cache, a, b');
    }
  }

  /** Once a reply throws, the later replies change nothing. */
  lemma {:induction false} MergeStuck(cache: map<string, Userpic>, fetched: seq<Userpic>, replies: seq<ImageReply>, k: nat)
    requires RepliesIn(fetched, replies) && 1 <= k <= |replies|
    requires Merge(cache, fetched, replies[..k]).crashed
    ensures Merge(cache, fetched, replies) == Merge(cache, fetched, replies[..k])
    decreases |replies| - k
  {
    if k < |replies| {
      assert replies[..k + 1][..k] == replies[..k];
      MergeStuck(cache, fetched, replies, k + 1);
    } else {
      assert replies[..k] == replies;
    }
  }

  // ---------------------------------------------------------------------------
  // What the merge keeps

  /** Records are added or replaced, never removed. */
  lemma {:induction false} MergeKeepsKeys(cache: map<string, Userpic>, fetched: seq<Userpic>, replies: seq<ImageReply>)
    requires RepliesIn(fetched, replies)
    ensures cache.Keys <= Merge(cache, fetched, replies).pics.Keys
  {
    if replies != [] {
      MergeKeepsKeys(cache, fetched, replies[..|replies| - 1]);
    }
  }

  /** A cached record that has its image is left exactly as it was. */
  lemma {:induction false} MergeKeepsImages(cache: map<string, Userpic>, fetched: seq<Userpic>, replies: seq<ImageReply>, key: string)
    requires RepliesIn(fetched, replies)
    requires forall i :: 0 <= i < |fetched| ==> !AlreadyFetched(cache, fetched[i])
    requires key in cache && HasImage(cache[key])
    ensures key in Merge(cache, fetched, replies).pics && Merge(cache, fetched, replies).pics[key] == cache[key]
  {
    if replies != [] {
      MergeKeepsImages(cache, fetched, replies[..|replies| - 1], key);
      var pic := fetched[replies[|replies| - 1].fetch];
      assert !AlreadyFetched(cache, pic);
    }
  }

  /** Every record that is new or different comes from a reply whose image was written. */
  lemma {:induction false} MergeChangesFromWrites(cache: map<string, Userpic>, fetched: seq<Userpic>, replies: seq<ImageReply>, key: string)
    requires RepliesIn(fetched, replies)
    requires key in Merge(cache, fetched, replies).pics
    requires key !in cache || Merge(cache, fetched, replies).pics[key] != cache[key]
    ensures exists j :: 0 <= j < |replies| && replies[j].written && fetched[replies[j].fetch].tag == Some(key)
  {
    var init := replies[..|replies| - 1];
    var reply := replies[|replies| - 1];
    var r := Merge(cache, fetched, init);
    var pic := fetched[reply.fetch];
    if !r.crashed && pic.tag == Some(key) && reply.mimetype.Some? && reply.written {
      assert replies[|replies| - 1].written;
    } else {
      MergeChangesFromWrites(cache, fetched, init, key);
      var j :| 0 <= j < |init| && init[j].written && fetched[init[j].fetch].tag == Some(key);
      assert replies[j] == init[j];
    }
  }

  /** After a merge without a crash, every picture whose image was written
      has a record with its image, so the next run does not request it again. */
  lemma {:induction false} MergeRecordsWrites(cache: map<string, Userpic>, fetched: seq<Userpic>, replies: seq<ImageReply>, j: nat)
    requires RepliesIn(fetched, replies)
    requires !Merge(cache, fetched, replies).crashed
    requires j < |replies| && replies[j].written
    ensures AlreadyFetched(Merge(cache, fetched, replies).pics, fetched[replies[j].fetch])
  {
    var init := replies[..|replies| - 1];
    var r := Merge(cache, fetched, init);
    assert !r.crashed;
    if j < |init| {
      assert init[j] == replies[j];
      MergeRecordsWrites(cache, fetched, init, j);
    }
  }

  /** The manifest after `fetchUserPics` keeps every cached record and every
      cached image, and a run that does not crash records every written image. */
  lemma UserpicMergeSpec(cache: map<string, Userpic>, response: FlatData, replies: seq<ImageReply>)
    requires RepliesIn(ToFetch(cache, UserpicsOf(response)), replies)
    ensures var fetched := ToFetch(cache, UserpicsOf(response));
      var out := UserpicMerge(cache, fetched, replies);
      && cache.Keys <= out.pics.Keys
      && (forall k :: k in cache && HasImage(cache[k]) ==> out.pics[k] == cache[k])
      && (!out.crashed ==> forall j :: 0 <= j < |replies| && replies[j].written ==> AlreadyFetched(out.pics, fetched[replies[j].fetch]))
  {
    var fetched := ToFetch(cache, UserpicsOf(response));
    ToFetchSpec(cache, UserpicsOf(response));
    if !DispatchCrashes(fetched) {
      MergeKeepsKeys(cache, fetched, replies);
      forall i | 0 <= i < |fetched| ensures !AlreadyFetched(cache, fetched[i]) {
        assert fetched[i] in fetched;
      }
      forall k | k in cache && HasImage(cache[k]) ensures Merge(cache, fetched, replies).pics[k] == cache[k] {
        MergeKeepsImages(cache, fetched, replies, k);
      }
      forall j | 0 <= j < |replies| && replies[j].written && !Merge(cache, fetched, replies).crashed
        ensures AlreadyFetched(Merge(cache, fetched, replies).pics, fetched[replies[j].fetch])
      {
        MergeRecordsWrites(cache, fetched, replies, j);
      }
    }
  }
}
