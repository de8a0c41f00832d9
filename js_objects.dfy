/** Plain JavaScript objects used as dictionaries: assignment `obj[k] = v`
    in sequence (a later write to the same key wins), the order in which
    `Object.keys` lists the keys, and the `__extend` helper (ljsnarf.js:28-34). */
module JsObjects {
  import opened JsNumbers

  /** The dictionary left by the writes `obj[ps[0].0] = ps[0].1; obj[ps[1].0] = ps[1].1; ...`
      on an empty object. */
  function Assign<V>(ps: seq<(string, V)>): (m: map<string, V>)
    ensures forall k :: k in m <==> exists j :: 0 <= j < |ps| && ps[j].0 == k
  {
    if ps == [] then map[]
    else
      var m' := Assign(ps[..|ps| - 1]);
      assert forall j :: 0 <= j < |ps| - 1 ==> ps[..|ps| - 1][j] == ps[j];
      m'[ps[|ps| - 1].0 := ps[|ps| - 1].1]
  }

  /** One more write on top of the first k. */
  lemma AssignStep<V>(ps: seq<(string, V)>, k: nat)
    requires k < |ps|
    ensures Assign(ps[..k + 1]) == Assign(ps[..k])[ps[k].0 := ps[k].1]
  {
    assert ps[..k + 1][..k] == ps[..k];
  }

  /** The value under a key is the one of the last write to that key. */
  lemma {:induction false} AssignLastWins<V>(ps: seq<(string, V)>, j: nat)
    requires j < |ps|
    requires forall i :: j < i < |ps| ==> ps[i].0 != ps[j].0
    ensures ps[j].0 in Assign(ps) && Assign(ps)[ps[j].0] == ps[j].1
  {
    if j < |ps| - 1 {
      var init := ps[..|ps| - 1];
      assert forall i :: j < i < |init| ==> init[i] == ps[i];
      AssignLastWins(init, j);
    }
  }

  // ---------------------------------------------------------------------------
  // Object.keys order: keys that are array indices (canonical decimal
  // numbers below 2^32 - 1) come first in ascending numeric order; the other
  // keys follow in the order in which they were first created.

  predicate IsArrayIndex(k: string)
  {
    k != [] && AllDigits(k) && (k[0] != '0' || |k| == 1) && DigitsValue(k) < 0xFFFF_FFFF
  }

  function IndexValue(k: string): nat
  {
    if AllDigits(k) then DigitsValue(k) else 0
  }

  function IndexKeys(ks: seq<string>): (r: seq<string>)
    ensures forall i :: 0 <= i < |r| ==> IsArrayIndex(r[i])
  {
    if ks == [] then []
    else (if IsArrayIndex(ks[0]) then [ks[0]] else []) + IndexKeys(ks[1..])
  }

  function OtherKeys(ks: seq<string>): (r: seq<string>)
    ensures forall i :: 0 <= i < |r| ==> !IsArrayIndex(r[i])
  {
    if ks == [] then []
    else (if IsArrayIndex(ks[0]) then [] else [ks[0]]) + OtherKeys(ks[1..])
  }

  predicate SortedByIndex(s: seq<string>)
  {
    forall i, j :: 0 <= i < j < |s| ==> IndexValue(s[i]) <= IndexValue(s[j])
  }

  function Insert(k: string, s: seq<string>): (r: seq<string>)
    ensures multiset(r) == multiset(s) + multiset{k}
    ensures r != [] && (r[0] == k || (s != [] && r[0] == s[0]))
  {
    if s == [] || IndexValue(k) <= IndexValue(s[0]) then [k] + s
    else
      assert s == [s[0]] + s[1..];
      [s[0]] + Insert(k, s[1..])
  }

  lemma {:induction false} InsertSorted(k: string, s: seq<string>)
    requires SortedByIndex(s)
    ensures SortedByIndex(Insert(k, s))
  {
    if s != [] && IndexValue(k) > IndexValue(s[0]) {
      var t := Insert(k, s[1..]);
      InsertSorted(k, s[1..]);
      assert IndexValue(s[0]) <= IndexValue(t[0]);
      var r := [s[0]] + t;
      forall i, j | 0 <= i < j < |r| ensures IndexValue(r[i]) <= IndexValue(r[j]) {
        if i == 0 {
          assert IndexValue(t[0]) <= IndexValue(t[j - 1]);
        } else {
          assert r[i] == t[i - 1] && r[j] == t[j - 1];
        }
      }
    }
  }

  /** Insertion sort by numeric value. */
  function Sort(s: seq<string>): (r: seq<string>)
    ensures multiset(r) == multiset(s)
  {
    if s == [] then []
    else
      assert s == [s[0]] + s[1..];
      Insert(s[0], Sort(s[1..]))
  }

  lemma {:induction false} SortSorted(s: seq<string>)
    ensures SortedByIndex(Sort(s))
  {
    if s != [] {
      SortSorted(s[1..]);
      InsertSorted(s[0], Sort(s[1..]));
    }
  }

  lemma {:induction false} SplitKeys(ks: seq<string>)
    ensures multiset(IndexKeys(ks)) + multiset(OtherKeys(ks)) == multiset(ks)
  {
    if ks != [] {
      SplitKeys(ks[1..]);
      assert ks == [ks[0]] + ks[1..];
    }
  }

  lemma {:induction false} OtherKeysConcat(a: seq<string>, b: seq<string>)
    ensures OtherKeys(a + b) == OtherKeys(a) + OtherKeys(b)
  {
    if a != [] {
      OtherKeysConcat(a[1..], b);
      assert (a + b)[1..] == a[1..] + b;
    } else {
      assert a + b == b;
    }
  }

  lemma {:induction false} OtherKeysOfIndices(s: seq<string>)
    requires forall x :: x in s ==> IsArrayIndex(x)
    ensures OtherKeys(s) == []
  {
    if s != [] {
      assert s[0] in s;
      assert forall x :: x in s[1..] ==> x in s;
      OtherKeysOfIndices(s[1..]);
    }
  }

  lemma {:induction false} OtherKeysOfOthers(s: seq<string>)
    requires forall i :: 0 <= i < |s| ==> !IsArrayIndex(s[i])
    ensures OtherKeys(s) == s
  {
    if s != [] {
      OtherKeysOfOthers(s[1..]);
    }
  }

  lemma OtherKeysIdempotent(s: seq<string>)
    ensures OtherKeys(OtherKeys(s)) == OtherKeys(s)
  {
    OtherKeysOfOthers(OtherKeys(s));
  }

  /** `Object.keys(obj)` for an object whose keys were created in the order `ks`. */
  function PropertyOrder(ks: seq<string>): seq<string>
  {
    Sort(IndexKeys(ks)) + OtherKeys(ks)
  }

  lemma AllIndices(ks: seq<string>)
    ensures forall x :: x in Sort(IndexKeys(ks)) ==> IsArrayIndex(x)
  {
    forall x | x in Sort(IndexKeys(ks)) ensures IsArrayIndex(x) {
      assert x in multiset(Sort(IndexKeys(ks)));
      assert x in multiset(IndexKeys(ks));
    }
  }

  /** Object.keys lists every key once, array indices first and ascending,
      the other keys in creation order. */
  lemma PropertyOrderSpec(ks: seq<string>)
    ensures var r := PropertyOrder(ks);
      && multiset(r) == multiset(ks)
      && (forall i, j :: 0 <= i < j < |r| && IsArrayIndex(r[j]) ==> IsArrayIndex(r[i]) && IndexValue(r[i]) <= IndexValue(r[j]))
      && OtherKeys(r) == OtherKeys(ks)
  {
    var sorted := Sort(IndexKeys(ks));
    var others := OtherKeys(ks);
    var r := sorted + others;
    SplitKeys(ks);
    AllIndices(ks);
    SortSorted(IndexKeys(ks));
    OtherKeysConcat(sorted, others);
    OtherKeysOfIndices(sorted);
    OtherKeysIdempotent(ks);
    forall i, j | 0 <= i < j < |r| && IsArrayIndex(r[j])
      ensures IsArrayIndex(r[i]) && IndexValue(r[i]) <= IndexValue(r[j])
    {
      if j >= |sorted| {
        assert false;
      }
      assert r[i] == sorted[i] && r[j] == sorted[j];
      assert sorted[i] in sorted;
    }
  }

  // ---------------------------------------------------------------------------

  /** `__extend(destination, source)`: every key of `source` is copied onto
      `destination`, overwriting what was there; the keys are visited in
      whatever order `Object.keys` gives, which cannot change the result. */
  method Extend<K, V>(destination: map<K, V>, source: map<K, V>) returns (r: map<K, V>)
    ensures r.Keys == destination.Keys + source.Keys
    ensures forall k :: k in source ==> r[k] == source[k]
    ensures forall k :: k in destination && k !in source ==> r[k] == destination[k]
  {
    r := destination;
    var keys := source.Keys;
    while keys != {}
      invariant keys <= source.Keys
      invariant r.Keys == destination.Keys + (source.Keys - keys)
      invariant forall k :: k in source && k !in keys ==> r[k] == source[k]
      invariant forall k :: k in destination && (k !in source || k in keys) ==> r[k] == destination[k]
      decreases keys
    {
      var k :| k in keys;
      r := r[k := source[k]];
      keys := keys - {k};
    }
  }
}
