/** The "flat" reply format of the journal service (ljsnarf.js:85-98): the
    body is a list of lines, read two at a time as a key and its value. */
module Flat {
  import opened JsStrings
  import opened JsObjects

  /** A decoded reply: every value is a string. */
  type FlatData = map<string, string>

  /** `data[key]`, which is undefined for a key the reply does not carry. */
  function Lookup(data: FlatData, key: string): Option<string>
  {
    if key in data then Some(data[key]) else None
  }

  /** The (key, value) pairs read from the lines: line 2k names a key and line
      2k+1 is its value; a trailing unpaired line is not read. */
  function Pairs(lines: seq<string>): (ps: seq<(string, string)>)
  {
    seq(|lines| / 2, k requires 0 <= k < |lines| / 2 => (lines[2 * k], lines[2 * k + 1]))
  }

  /** The dictionary `handleFlatResponse` returns for a body. */
  function FlatResponse(body: string): FlatData
  {
    Assign(Pairs(Split(body, '\n')))
  }

  /** `handleFlatResponse`: split the body on newlines, then walk it two
      lines at a time, writing each key's value into the result. */
  method HandleFlatResponse(input: string) returns (result: FlatData)
    ensures result == FlatResponse(input)
  {
    result := map[];
    var lines := Split(input, '\n');
    ghost var ps := Pairs(lines);
    var i := 0;
    ghost var k := 0;
    while i < |lines| - 1
      invariant 0 <= k <= |ps| && i == 2 * k && i <= |lines|
      invariant result == Assign(ps[..k])
    {
      assert ps[k] == (lines[i], lines[i + 1]);
      AssignStep(ps, k);
      result := result[lines[i] := lines[i + 1]];
      i := i + 2;
      k := k + 1;
    }
    assert ps[..k] == ps;
  }

  /** The keys of the reply are exactly the lines at even positions that have
      a following line. */
  lemma PairsKeys(lines: seq<string>, key: string)
    ensures key in Assign(Pairs(lines)) <==> exists k :: 0 <= k && 2 * k + 1 < |lines| && lines[2 * k] == key
  {
    var ps := Pairs(lines);
    assert |ps| == |lines| / 2;
    if key in Assign(ps) {
      var j :| 0 <= j < |ps| && ps[j].0 == key;
      assert lines[2 * j] == key;
    }
    if exists k :: 0 <= k && 2 * k + 1 < |lines| && lines[2 * k] == key {
      var k :| 0 <= k && 2 * k + 1 < |lines| && lines[2 * k] == key;
      assert k < |lines| / 2;
      assert ps[k].0 == key;
    }
  }

  lemma FlatKeys(body: string, key: string)
    ensures var lines := Split(body, '\n');
      key in FlatResponse(body) <==> exists k :: 0 <= k && 2 * k + 1 < |lines| && lines[2 * k] == key
  {
    PairsKeys(Split(body, '\n'), key);
  }

  /** A pair whose key no later pair repeats gives that key its value; a
      later duplicate key overwrites an earlier one. */
  lemma PairsLastWins(lines: seq<string>, k: nat)
    requires 2 * k + 1 < |lines|
    requires forall k' :: k < k' && 2 * k' + 1 < |lines| ==> lines[2 * k'] != lines[2 * k]
    ensures lines[2 * k] in Assign(Pairs(lines)) && Assign(Pairs(lines))[lines[2 * k]] == lines[2 * k + 1]
  {
    var ps := Pairs(lines);
    assert |ps| == |lines| / 2;
    assert k < |ps|;
    forall i | k < i < |ps| ensures ps[i].0 != ps[k].0 {
      assert 2 * i + 1 < |lines|;
    }
    AssignLastWins(ps, k);
  }

  lemma FlatPairing(body: string, k: nat)
    requires 2 * k + 1 < |Split(body, '\n')|
    requires var lines := Split(body, '\n');
      forall k' :: k < k' && 2 * k' + 1 < |lines| ==> lines[2 * k'] != lines[2 * k]
    ensures var lines := Split(body, '\n');
      lines[2 * k] in FlatResponse(body) && FlatResponse(body)[lines[2 * k]] == lines[2 * k + 1]
  {
    PairsLastWins(Split(body, '\n'), k);
  }

  /** Adding an unpaired last line to an even number of lines changes nothing. */
  lemma TrailingLineIgnored(lines: seq<string>, extra: string)
    requires |lines| % 2 == 0
    ensures Assign(Pairs(lines + [extra])) == Assign(Pairs(lines))
  {
    assert Pairs(lines + [extra]) == Pairs(lines);
  }

  // ---------------------------------------------------------------------------
  // The server side of the format, as a partner of the parser.

  function Flatten(ps: seq<(string, string)>): (lines: seq<string>)
    ensures |lines| == 2 * |ps|
    ensures forall k :: 0 <= k < |ps| ==> lines[2 * k] == ps[k].0 && lines[2 * k + 1] == ps[k].1
  {
    if ps == [] then [] else
      var rest := Flatten(ps[1..]);
      assert forall k :: 1 <= k < |ps| ==> ps[1..][k - 1] == ps[k];
      [ps[0].0, ps[0].1] + rest
  }

  /** A reply body: each key and each value on a line of its own, ending with a newline. */
  function Serialize(ps: seq<(string, string)>): string
  {
    Join(Flatten(ps) + [""], '\n')
  }

  predicate OneLine(ps: seq<(string, string)>)
  {
    forall k :: 0 <= k < |ps| ==> '\n' !in ps[k].0 && '\n' !in ps[k].1
  }

  /** Reading a body the server wrote gives back its pairs, later duplicates winning. */
  lemma {:induction false} FlatRoundTrip(ps: seq<(string, string)>)
    requires OneLine(ps)
    ensures FlatResponse(Serialize(ps)) == Assign(ps)
  {
    var lines := Flatten(ps) + [""];
    forall i | 0 <= i < |lines| ensures '\n' !in lines[i] {
      if i < 2 * |ps| {
        assert lines[i] == if i % 2 == 0 then ps[i / 2].0 else ps[i / 2].1;
      }
    }
    SplitJoin(lines, '\n');
    assert Pairs(lines) == ps;
  }
}
