/** The entry fetcher: the reply handlers of `getOneEvent`
    (ljsnarf.js:248-281) and `getEventsSince` (ljsnarf.js:363-415), which turn
    a flat `getevents` reply into journal entries. */
module Events {
  import opened JsStrings
  import opened JsNumbers
  import opened JsObjects
  import opened Flat

  /** A journal entry as the client builds it. `body` is the event text as
      the reply carries it (the client percent-decodes it; see README).
      `allowmask` is absent (None) unless `security` is non-empty. */
  datatype Entry = Entry(
    itemid: Option<string>,
    anum: Option<string>,
    url: Option<string>,
    time: Option<string>,
    subject: Option<string>,
    body: Option<string>,
    security: Option<string>,
    allowmask: Option<string>,
    properties: map<string, Option<string>>)

  /** `itemid.replace(/^L-/, '').replace(/^C-/, '')`: the kind tag of a
      sync-log id is dropped before the entry is requested. */
  function StripKind(id: string): (r: string)
    ensures |r| <= |id| && r == id[|id| - |r|..]
    ensures var removed := id[..|id| - |r|];
      removed == "" || removed == "L-" || removed == "C-" || removed == "L-C-"
    ensures !("L-" <= id) && !("C-" <= id) ==> r == id
    ensures "L-" <= id && !("C-" <= id[2..]) ==> r == id[2..]
    ensures !("L-" <= id) && "C-" <= id ==> r == id[2..]
    ensures "L-" <= id && "C-" <= id[2..] ==> r == id[4..]
  {
    var a := if "L-" <= id then id[2..] else id;
    var b := if "C-" <= a then a[2..] else a;
    assert "L-" <= id ==> id[..2] == "L-";
    assert "C-" <= a ==> a[..2] == "C-";
    assert "L-" <= id && "C-" <= a ==> id[..4] == "L-C-";
    b
  }

  /** `entry.allowmask` is set only when `entry.security` is truthy, that is,
      defined and not the empty string. */
  function AllowMask(security: Option<string>, mask: Option<string>): Option<string>
  {
    if security.Some? && security.value != "" then mask else None
  }

  function EventField(data: FlatData, i: nat, name: string): Option<string>
  {
    Lookup(data, Field("events_", i, name))
  }

  /** The entry built from the fields `events_<i>_*`, still without properties. */
  function EventAt(data: FlatData, i: nat): Entry
  {
    var security := EventField(data, i, "_security");
    Entry(EventField(data, i, "_itemid"), EventField(data, i, "_anum"), EventField(data, i, "_url"),
          EventField(data, i, "_eventtime"), EventField(data, i, "_subject"), EventField(data, i, "_event"),
          security, AllowMask(security, EventField(data, i, "_allowmask")), map[])
  }

  lemma EventAllowMask(data: FlatData, i: nat)
    ensures var e := EventAt(data, i);
      && (e.allowmask.Some? ==> e.security.Some? && e.security.value != "")
      && (e.security.Some? && e.security.value != "" ==> e.allowmask == EventField(data, i, "_allowmask"))
  {
  }

  /** The property write of `prop_<i>_*`: the entry it names, the key and the value. */
  datatype PropWrite = PropWrite(item: string, name: string, value: Option<string>)

  function PropAt(data: FlatData, i: nat): PropWrite
  {
    PropWrite(JsKey(Lookup(data, Field("prop_", i, "_itemid"))),
              JsKey(Lookup(data, Field("prop_", i, "_name"))),
              Lookup(data, Field("prop_", i, "_value")))
  }

  function PropsUpTo(data: FlatData, n: nat): (ts: seq<PropWrite>)
    ensures |ts| == n
    ensures forall i :: 0 <= i < n ==> ts[i] == PropAt(data, i + 1)
  {
    if n == 0 then [] else PropsUpTo(data, n - 1) + [PropAt(data, n)]
  }

  function PropCount(data: FlatData): nat
  {
    Iterations(ToNumber(Lookup(data, "prop_count")))
  }

  /** The (name, value) writes of a list of property writes. */
  function NameValues(ts: seq<PropWrite>): (ps: seq<(string, Option<string>)>)
    ensures |ps| == |ts|
    ensures forall i :: 0 <= i < |ts| ==> ps[i] == (ts[i].name, ts[i].value)
  {
    if ts == [] then [] else NameValues(ts[..|ts| - 1]) + [(ts[|ts| - 1].name, ts[|ts| - 1].value)]
  }

  // ---------------------------------------------------------------------------
  // getOneEvent

  /** The properties `getOneEvent` attaches to its entry. */
  function OneEventProps(data: FlatData): map<string, Option<string>>
  {
    Assign(NameValues(PropsUpTo(data, PropCount(data))))
  }

  function OneEventOf(data: FlatData): Entry
  {
    EventAt(data, 1).(properties := OneEventProps(data))
  }

  /** The reply handler of `getOneEvent`: the `events_1_*` fields, then every
      `prop_<i>_name` / `prop_<i>_value` written into the properties in index order. */
  method GetOneEvent(data: FlatData) returns (entry: Entry)
    ensures entry == OneEventOf(data)
  {
    var properties := ReadProperties(data, PropCount(data));
    entry := EventAt(data, 1).(properties := properties);
  }

  /** The loop over `prop_1` .. `prop_<n>`: each name is written with its value. */
  method ReadProperties(data: FlatData, propcount: nat) returns (properties: map<string, Option<string>>)
    ensures properties == Assign(NameValues(PropsUpTo(data, propcount)))
  {
    properties := map[];
    var i := 1;
    while i <= propcount
      invariant 1 <= i <= propcount + 1
      invariant properties == Assign(NameValues(PropsUpTo(data, i - 1)))
    {
      var t := PropAt(data, i);
      NameValuesSnoc(PropsUpTo(data, i - 1), t);
      AssignSnoc(NameValues(PropsUpTo(data, i - 1)), (t.name, t.value));
      properties := properties[t.name := t.value];
      i := i + 1;
    }
  }

  /** Writing the (name, value) pairs in order: a name is a property iff some
      write names it, and it holds the value of the last write naming it. */
  lemma NamedProperties(ts: seq<PropWrite>, name: string)
    ensures name in Assign(NameValues(ts)) <==> exists i :: 0 <= i < |ts| && ts[i].name == name
    ensures forall i :: 0 <= i < |ts| && ts[i].name == name && (forall j :: i < j < |ts| ==> ts[j].name != name) ==>
      name in Assign(NameValues(ts)) && Assign(NameValues(ts))[name] == ts[i].value
  {
    var ps := NameValues(ts);
    forall i | 0 <= i < |ts| && ts[i].name == name && (forall j :: i < j < |ts| ==> ts[j].name != name)
      ensures name in Assign(ps) && Assign(ps)[name] == ts[i].value
    {
      AssignLastWins(ps, i);
    }
    if name in Assign(ps) {
      var j :| 0 <= j < |ps| && ps[j].0 == name;
      assert ts[j].name == name;
    }
  }

  // ---------------------------------------------------------------------------
  // getEventsSince

  /** The writes `entries[entry.itemid] = entry` for the entries 1..n. */
  function EntryWrites(data: FlatData, n: nat): (ps: seq<(string, Entry)>)
    ensures |ps| == n
    ensures forall i :: 0 <= i < n ==> ps[i] == (JsKey(EventAt(data, i + 1).itemid), EventAt(data, i + 1))
  {
    if n == 0 then [] else EntryWrites(data, n - 1) + [(JsKey(EventAt(data, n).itemid), EventAt(data, n))]
  }

  function EventCount(data: FlatData): nat
  {
    Iterations(ToNumber(Lookup(data, "events_count")))
  }

  /** The keys of the writes. */
  function KeysOf<V>(ps: seq<(string, V)>): (ks: seq<string>)
    ensures |ks| == |ps|
    ensures forall i :: 0 <= i < |ps| ==> ks[i] == ps[i].0
  {
    if ps == [] then [] else KeysOf(ps[..|ps| - 1]) + [ps[|ps| - 1].0]
  }

  predicate Distinct(ks: seq<string>)
  {
    forall i, j :: 0 <= i < j < |ks| ==> ks[i] != ks[j]
  }

  /** The keys in the order they were created (a write to a key that exists
      keeps its place). */
  function FirstSeen(ks: seq<string>): (r: seq<string>)
    ensures Distinct(r)
    ensures forall k :: k in r <==> k in ks
  {
    if ks == [] then []
    else
      var f := FirstSeen(ks[..|ks| - 1]);
      assert forall k :: k in ks <==> k in ks[..|ks| - 1] || k == ks[|ks| - 1];
      if ks[|ks| - 1] in f then f else f + [ks[|ks| - 1]]
  }

  /** A new key is listed last; a key written again keeps its place. */
  lemma FirstSeenSnoc(ks: seq<string>, k: string)
    ensures FirstSeen(ks + [k]) == if k in FirstSeen(ks) then FirstSeen(ks) else FirstSeen(ks) + [k]
  {
    assert (ks + [k])[..|ks|] == ks;
  }

  /** Every occurrence in ks of a key listed later in r comes after some
      occurrence of each key listed before it. */
  predicate InFirstOrder(r: seq<string>, ks: seq<string>)
  {
    forall i, j, b :: 0 <= i < j < |r| && 0 <= b < |ks| && ks[b] == r[j] ==> r[i] in ks[..b]
  }

  /** Keys come in the order of their first write. */
  lemma {:induction false} FirstSeenOrder(ks: seq<string>)
    ensures InFirstOrder(FirstSeen(ks), ks)
  {
    if ks != [] {
      var init := ks[..|ks| - 1];
      var k := ks[|ks| - 1];
      var f := FirstSeen(init);
      FirstSeenOrder(init);
      var r := FirstSeen(ks);
      forall i, j, b | 0 <= i < j < |r| && 0 <= b < |ks| && ks[b] == r[j] ensures r[i] in ks[..b] {
        assert i < |f| && r[i] == f[i];
        assert f[i] in init;
        if b < |init| {
          assert init[b] == ks[b] && init[..b] == ks[..b];
          assert r[j] in f;
          var j' :| 0 <= j' < |f| && f[j'] == r[j];
          assert r[j'] == f[j'];
          assert j' == j;
          assert r[j] == f[j] && init[b] == f[j];
          assert InFirstOrder(f, init);
          assert f[i] in init[..b];
        } else {
          assert ks[..b] == init;
        }
      }
    }
  }

  /** The property loop: each write goes to the entry it names; naming no
      entry is a TypeError (None). */
  function ApplyProps(m: map<string, Entry>, ts: seq<PropWrite>): (r: Option<map<string, Entry>>)
    ensures r.Some? ==> r.value.Keys == m.Keys
    ensures r.Some? <==> forall j :: 0 <= j < |ts| ==> ts[j].item in m
  {
    if ts == [] then Some(m)
    else
      var t := ts[|ts| - 1];
      assert forall j :: 0 <= j < |ts| - 1 ==> ts[..|ts| - 1][j] == ts[j];
      match ApplyProps(m, ts[..|ts| - 1])
      case None => None
      case Some(m') =>
        if t.item in m' then Some(m'[t.item := m'[t.item].(properties := m'[t.item].properties[t.name := t.value])])
        else None
  }

  /** `values[i] = m[keys[i]]`. */
  function ValuesAt(m: map<string, Entry>, keys: seq<string>): (vs: seq<Entry>)
    requires forall k :: k in keys ==> k in m
    ensures |vs| == |keys|
    ensures forall i :: 0 <= i < |keys| ==> vs[i] == m[keys[i]]
  {
    if keys == [] then [] else ValuesAt(m, keys[..|keys| - 1]) + [m[keys[|keys| - 1]]]
  }

  lemma OrderCoversKeys(ps: seq<(string, Entry)>)
    ensures forall k :: k in PropertyOrder(FirstSeen(KeysOf(ps))) <==> k in Assign(ps)
  {
    OrderMembers(KeysOf(ps));
    KeysOfAssign(ps);
  }

  lemma OrderMembers(ks: seq<string>)
    ensures forall k :: k in PropertyOrder(FirstSeen(ks)) <==> k in ks
  {
    var order := PropertyOrder(FirstSeen(ks));
    PropertyOrderSpec(FirstSeen(ks));
    forall k ensures k in order <==> k in ks {
      assert k in order <==> k in multiset(order);
      assert k in FirstSeen(ks) <==> k in multiset(FirstSeen(ks));
    }
  }

  lemma KeysOfAssign<V>(ps: seq<(string, V)>)
    ensures forall k :: k in KeysOf(ps) <==> k in Assign(ps)
  {
    var ks := KeysOf(ps);
    forall k ensures k in ks <==> k in Assign(ps) {
      if k in ks {
        var j :| 0 <= j < |ks| && ks[j] == k;
        assert ps[j].0 == k;
      }
      if k in Assign(ps) {
        var j :| 0 <= j < |ps| && ps[j].0 == k;
        assert ks[j] == k;
      }
    }
  }

  /** The result of `getEventsSince`'s reply handler: the entries in the
      order `Object.keys(entries)` lists their keys, or None for the TypeError. */
  function EventsSinceOf(data: FlatData): Option<seq<Entry>>
  {
    ListEvents(EntryWrites(data, EventCount(data)), PropsUpTo(data, PropCount(data)))
  }

  /** The entry writes `ps`, then the property writes `ts`, then the listing. */
  function ListEvents(ps: seq<(string, Entry)>, ts: seq<PropWrite>): Option<seq<Entry>>
  {
    match ApplyProps(Assign(ps), ts)
    case None => None
    case Some(m) =>
      OrderCoversKeys(ps);
      Some(ValuesAt(m, PropertyOrder(FirstSeen(KeysOf(ps)))))
  }

  /** The reply handler of `getEventsSince`: build the entries keyed by item
      id (a later duplicate replaces an earlier one), attach each property to
      the entry its `prop_<i>_itemid` names, then list the entries. */
  method GetEventsSince(data: FlatData) returns (result: Option<seq<Entry>>)
    ensures result == EventsSinceOf(data)
  {
    var entries, created := CollectEntries(data);
    ghost var ps := EntryWrites(data, EventCount(data));
    var withProps := AttachProps(data, entries);
    match withProps
    case None =>
      result := None;
    case Some(m) =>
      OrderCoversKeys(ps);
      assert ApplyProps(Assign(ps), PropsUpTo(data, PropCount(data))) == Some(m);
      var list := ListEntries(m, PropertyOrder(created));
      result := Some(list);
  }

  /** The loop over `events_count`: `entries[entry.itemid] = entry`, and the
      order in which the keys of `entries` were created. */
  method CollectEntries(data: FlatData) returns (entries: map<string, Entry>, created: seq<string>)
    ensures var ps := EntryWrites(data, EventCount(data));
      entries == Assign(ps) && created == FirstSeen(KeysOf(ps))
  {
    var count := EventCount(data);
    ghost var ps := EntryWrites(data, count);
    entries := map[];
    created := [];
    var i := 1;
    while i <= count
      invariant 1 <= i <= count + 1
      invariant entries == Assign(ps[..i - 1])
      invariant created == FirstSeen(KeysOf(ps[..i - 1]))
    {
      var entry := EventAt(data, i);
      var key := JsKey(entry.itemid);
      assert ps[i - 1] == (key, entry);
      AssignStep(ps, i - 1);
      KeysStep(ps, i - 1);
      CreatedKeys(ps[..i - 1], key);
      if key !in entries {
        created := created + [key];
      }
      entries := entries[key := entry];
      i := i + 1;
    }
    assert ps[..count] == ps;
  }

  lemma KeysStep<V>(ps: seq<(string, V)>, k: nat)
    requires k < |ps|
    ensures KeysOf(ps[..k + 1]) == KeysOf(ps[..k]) + [ps[k].0]
  {
    assert ps[..k + 1][..k] == ps[..k];
  }

  lemma CreatedKeys<V>(ps: seq<(string, V)>, key: string)
    ensures key in FirstSeen(KeysOf(ps)) <==> key in Assign(ps)
  {
    var ks := KeysOf(ps);
    if key in ks {
      var j :| 0 <= j < |ks| && ks[j] == key;
      assert ps[j].0 == key;
    }
    if key in Assign(ps) {
      var j :| 0 <= j < |ps| && ps[j].0 == key;
      assert ks[j] == key;
    }
  }

  /** One more write: it lands in the entry it names, or crashes when there is none. */
  lemma ApplyPropsNext(m: map<string, Entry>, ts: seq<PropWrite>, k: nat)
    requires k < |ts|
    ensures var t := ts[k];
      ApplyProps(m, ts[..k + 1]) ==
        match ApplyProps(m, ts[..k])
        case None => None
        case Some(m') =>
          if t.item in m' then Some(m'[t.item := m'[t.item].(properties := m'[t.item].properties[t.name := t.value])])
          else None
  {
    assert ts[..k + 1][..k] == ts[..k];
  }

  /** The loop over `prop_count`; None is the TypeError of a property whose
      `prop_<i>_itemid` names no entry. */
  method AttachProps(data: FlatData, base: map<string, Entry>) returns (r: Option<map<string, Entry>>)
    ensures r == ApplyProps(base, PropsUpTo(data, PropCount(data)))
  {
    var propcount := PropCount(data);
    ghost var ts := PropsUpTo(data, propcount);
    var entries := base;
    var i := 1;
    while i <= propcount
      invariant 1 <= i <= propcount + 1
      invariant ApplyProps(base, ts[..i - 1]) == Some(entries)
    {
      var t := PropAt(data, i);
      ApplyPropsNext(base, ts, i - 1);
      if t.item !in entries {
        ApplyPropsStuck(base, ts, i);
        return None;
      }
      entries := entries[t.item := entries[t.item].(properties := entries[t.item].properties[t.name := t.value])];
      i := i + 1;
    }
    assert ts[..propcount] == ts;
    r := Some(entries);
  }

  /** The loop over `Object.keys(entries)` that pushes each entry onto the result. */
  method ListEntries(m: map<string, Entry>, keys: seq<string>) returns (list: seq<Entry>)
    requires forall k :: k in keys ==> k in m
    ensures list == ValuesAt(m, keys)
  {
    list := [];
    var k := 0;
    while k < |keys|
      invariant 0 <= k <= |keys|
      invariant list == ValuesAt(m, keys[..k])
    {
      assert keys[..k + 1][..k] == keys[..k];
      list := list + [m[keys[k]]];
      k := k + 1;
    }
    assert keys[..k] == keys;
  }

  /** Once a property write fails, the whole property loop fails. */
  lemma ApplyPropsStuck(m: map<string, Entry>, ts: seq<PropWrite>, i: nat)
    requires 1 <= i <= |ts|
    requires ApplyProps(m, ts[..i]) == None
    ensures ApplyProps(m, ts) == None
  {
    var j :| 0 <= j < i && ts[..i][j].item !in m;
    assert ts[j] == ts[..i][j];
  }

  // ---------------------------------------------------------------------------
  // What the listing holds

  /** Every write stores the entry under the key its item id coerces to. */
  predicate Keyed(ps: seq<(string, Entry)>)
  {
    forall i :: 0 <= i < |ps| ==> ps[i].0 == JsKey(ps[i].1.itemid)
  }

  /** Every written entry starts with no properties. */
  predicate Bare(ps: seq<(string, Entry)>)
  {
    forall i :: 0 <= i < |ps| ==> ps[i].1.properties == map[]
  }

  lemma EntryWritesKeyed(data: FlatData, n: nat)
    ensures Keyed(EntryWrites(data, n)) && Bare(EntryWrites(data, n))
  {
  }

  /** The property writes aimed at one entry. */
  function WritesFor(ts: seq<PropWrite>, key: string): (r: seq<PropWrite>)
    ensures forall t :: t in r <==> t in ts && t.item == key
  {
    if ts == [] then []
    else WritesFor(ts[..|ts| - 1], key) + (if ts[|ts| - 1].item == key then [ts[|ts| - 1]] else [])
  }

  /** The writes aimed at an entry keep the order and the repeats of the
      property loop: a run of writes is taken piece by piece. */
  lemma {:induction false} WritesForConcat(a: seq<PropWrite>, b: seq<PropWrite>, key: string)
    ensures WritesFor(a + b, key) == WritesFor(a, key) + WritesFor(b, key)
    decreases |b|
  {
    if b == [] {
      assert a + b == a;
    } else {
      var init := b[..|b| - 1];
      assert (a + b)[..|a + b| - 1] == a + init;
      WritesForConcat(a, init, key);
    }
  }

  /** A single write is aimed at the entry it names and at no other. */
  lemma WritesForOne(t: PropWrite, key: string)
    ensures WritesFor([t], key) == if t.item == key then [t] else []
  {
    assert [t][..0] == [];
  }

  lemma AssignSnoc<V>(ps: seq<(string, V)>, p: (string, V))
    ensures Assign(ps + [p]) == Assign(ps)[p.0 := p.1]
  {
    assert (ps + [p])[..|ps|] == ps;
  }

  lemma NameValuesSnoc(ts: seq<PropWrite>, t: PropWrite)
    ensures NameValues(ts + [t]) == NameValues(ts) + [(t.name, t.value)]
  {
    assert (ts + [t])[..|ts|] == ts;
  }

  /** On entries without properties, the property loop leaves each entry as
      it was except that its properties are the writes aimed at it. */
  lemma {:induction false} ApplyPropsLand(m: map<string, Entry>, ts: seq<PropWrite>, m': map<string, Entry>)
    requires forall k :: k in m ==> m[k].properties == map[]
    requires ApplyProps(m, ts) == Some(m')
    ensures forall k :: k in m ==> m'[k] == m[k].(properties := Assign(NameValues(WritesFor(ts, k))))
  {
    if ts != [] {
      var init := ts[..|ts| - 1];
      var t := ts[|ts| - 1];
      assert ts == init + [t];
      var mi := ApplyProps(m, init).value;
      ApplyPropsLand(m, init, mi);
      forall k | k in m ensures m'[k] == m[k].(properties := Assign(NameValues(WritesFor(ts, k)))) {
        if k == t.item {
          assert WritesFor(ts, k) == WritesFor(init, k) + [t];
          NameValuesSnoc(WritesFor(init, k), t);
          AssignSnoc(NameValues(WritesFor(init, k)), (t.name, t.value));
        } else {
          assert WritesFor(ts, k) == WritesFor(init, k);
        }
      }
    }
  }

  /** A key is listed iff some entry write used it. */
  lemma {:induction false} DistinctCounts(s: seq<string>)
    ensures Distinct(s) <==> forall x :: multiset(s)[x] <= 1
  {
    if s != [] {
      var init := s[..|s| - 1];
      var x := s[|s| - 1];
      assert s == init + [x];
      DistinctCounts(init);
      assert Distinct(s) <==> Distinct(init) && x !in init;
      assert x in init <==> multiset(init)[x] > 0;
      assert forall y :: multiset(s)[y] == multiset(init)[y] + (if y == x then 1 else 0);
      if !Distinct(s) && Distinct(init) {
        assert multiset(s)[x] > 1;
      }
    }
  }

  lemma OrderDistinct(ks: seq<string>)
    requires Distinct(ks)
    ensures Distinct(PropertyOrder(ks))
  {
    PropertyOrderSpec(ks);
    DistinctCounts(ks);
    DistinctCounts(PropertyOrder(ks));
  }

  /** The listing of `getEventsSince` has one entry per distinct item key,
      in `Object.keys` order. */
  lemma ListEventsOrder(ps: seq<(string, Entry)>, ts: seq<PropWrite>, es: seq<Entry>)
    requires Keyed(ps) && Bare(ps)
    requires ListEvents(ps, ts) == Some(es)
    ensures var order := PropertyOrder(FirstSeen(KeysOf(ps)));
      && |es| == |order|
      && Distinct(order)
      && (forall k :: k in order <==> exists i :: 0 <= i < |ps| && ps[i].0 == k)
      && (forall t :: 0 <= t < |es| ==> JsKey(es[t].itemid) == order[t])
  {
    var order := PropertyOrder(FirstSeen(KeysOf(ps)));
    var m := Assign(ps);
    var m' := ApplyProps(m, ts).value;
    OrderCoversKeys(ps);
    OrderDistinct(FirstSeen(KeysOf(ps)));
    assert es == ValuesAt(m', order);
    AssignKeyed(ps);
    ApplyPropsLand(m, ts, m');
  }

  /** Each listed entry has the fields of the last entry written under its
      key and, as properties, the property writes aimed at that key. */
  lemma ListEventsEntry(ps: seq<(string, Entry)>, ts: seq<PropWrite>, es: seq<Entry>, t: nat, i: nat)
    requires Keyed(ps) && Bare(ps)
    requires ListEvents(ps, ts) == Some(es)
    requires t < |es| && i < |ps|
    requires ps[i].0 == PropertyOrder(FirstSeen(KeysOf(ps)))[t]
    requires forall j :: i < j < |ps| ==> ps[j].0 != ps[i].0
    ensures es[t] == ps[i].1.(properties := Assign(NameValues(WritesFor(ts, ps[i].0))))
  {
    var order := PropertyOrder(FirstSeen(KeysOf(ps)));
    var m := Assign(ps);
    var m' := ApplyProps(m, ts).value;
    OrderCoversKeys(ps);
    assert es == ValuesAt(m', order);
    AssignKeyed(ps);
    ApplyPropsLand(m, ts, m');
    AssignLastWins(ps, i);
  }

  /** The dictionary of entries holds, under each key, an entry whose item id
      coerces to that key and which has no properties yet. */
  lemma {:induction false} AssignKeyed(ps: seq<(string, Entry)>)
    requires Keyed(ps) && Bare(ps)
    ensures forall k :: k in Assign(ps) ==> JsKey(Assign(ps)[k].itemid) == k && Assign(ps)[k].properties == map[]
  {
    if ps != [] {
      var init := ps[..|ps| - 1];
      assert Keyed(init) && Bare(init);
      AssignKeyed(init);
    }
  }

  /** The property loop throws iff some `prop_<i>_itemid` names no entry. */
  lemma ListEventsCrash(ps: seq<(string, Entry)>, ts: seq<PropWrite>)
    ensures ListEvents(ps, ts).None? <==>
      exists j :: 0 <= j < |ts| && forall i :: 0 <= i < |ps| ==> ps[i].0 != ts[j].item
  {
  }
}
