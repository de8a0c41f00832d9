/** JavaScript string semantics that the backup client relies on: `undefined`
    values, property-key coercion, the `<` order on strings, `split`,
    `replace` with a string pattern, and the `\s` character class. */
module JsStrings {

  /** A value that JavaScript may leave `undefined` (None). */
  datatype Option<T> = None | Some(value: T)

  /** Coercion of a value used as an object key: `obj[undefined]` is `obj["undefined"]`. */
  function JsKey(v: Option<string>): string
  {
    match v
    case None => "undefined"
    case Some(s) => s
  }

  // ---------------------------------------------------------------------------
  // The `<` operator on two strings: lexicographic on characters.

  predicate Less(a: string, b: string)
  {
    if |a| == 0 then |b| > 0
    else if |b| == 0 then false
    else if a[0] != b[0] then a[0] < b[0]
    else Less(a[1..], b[1..])
  }

  /** `a < b` where either side may be undefined: a comparison with undefined is false. */
  predicate JsLess(a: Option<string>, b: Option<string>)
  {
    a.Some? && b.Some? && Less(a.value, b.value)
  }

  lemma {:induction false} LessIrreflexive(a: string)
    ensures !Less(a, a)
  {
    if |a| > 0 {
      LessIrreflexive(a[1..]);
    }
  }

  lemma {:induction false} LessTransitive(a: string, b: string, c: string)
    requires Less(a, b) && Less(b, c)
    ensures Less(a, c)
  {
    if |a| > 0 && |b| > 0 && |c| > 0 && a[0] == b[0] && b[0] == c[0] {
      LessTransitive(a[1..], b[1..], c[1..]);
    }
  }

  lemma {:induction false} LessTotal(a: string, b: string)
    ensures a == b || Less(a, b) || Less(b, a)
  {
    if |a| > 0 && |b| > 0 && a[0] == b[0] {
      LessTotal(a[1..], b[1..]);
      if a[1..] == b[1..] {
        assert a == [a[0]] + a[1..] && b == [b[0]] + b[1..];
      }
    }
  }

  lemma LessAsymmetric(a: string, b: string)
    requires Less(a, b)
    ensures !Less(b, a)
  {
    if Less(b, a) {
      LessTransitive(a, b, a);
      LessIrreflexive(a);
    }
  }

  /** The larger of two strings under `<`. */
  function Later(a: string, b: string): (r: string)
    ensures r == a || r == b
    ensures !Less(r, a) && !Less(r, b)
  {
    LessIrreflexive(a);
    LessIrreflexive(b);
    if Less(a, b) then LessAsymmetric(a, b); b else a
  }

  // ---------------------------------------------------------------------------
  // `s.split(sep)` for a one-character separator, and its inverse.

  function Count(s: string, c: char): nat
  {
    if s == [] then 0 else (if s[0] == c then 1 else 0) + Count(s[1..], c)
  }

  function Split(s: string, sep: char): (parts: seq<string>)
    ensures |parts| == Count(s, sep) + 1
    ensures forall i :: 0 <= i < |parts| ==> sep !in parts[i]
  {
    if s == [] then [""]
    else
      var rest := Split(s[1..], sep);
      if s[0] == sep then [""] + rest else [[s[0]] + rest[0]] + rest[1..]
  }

  /** `parts.join(sep)`. */
  function Join(parts: seq<string>, sep: char): string
    requires |parts| >= 1
  {
    if |parts| == 1 then parts[0] else parts[0] + [sep] + Join(parts[1..], sep)
  }

  lemma {:induction false} JoinSplit(s: string, sep: char)
    ensures Join(Split(s, sep), sep) == s
  {
    if s != [] {
      JoinSplit(s[1..], sep);
      var rest := Split(s[1..], sep);
      if s[0] != sep {
        if |rest| == 1 {
          assert Join(Split(s, sep), sep) == [s[0]] + rest[0];
        } else {
          assert Join(Split(s, sep), sep) == ([s[0]] + rest[0]) + [sep] + Join(rest[1..], sep);
          assert Join(rest, sep) == rest[0] + [sep] + Join(rest[1..], sep);
        }
        assert s == [s[0]] + s[1..];
      } else {
        assert Join(Split(s, sep), sep) == "" + [sep] + Join(rest, sep);
        assert s == [s[0]] + s[1..];
      }
    }
  }

  /** Splitting a text with no separator in front of the rest. */
  lemma {:induction false} SplitPrefix(p: string, t: string, sep: char)
    requires sep !in p
    ensures var r := Split(t, sep); Split(p + t, sep) == [p + r[0]] + r[1..]
  {
    if p != [] {
      SplitPrefix(p[1..], t, sep);
      assert (p + t)[1..] == p[1..] + t;
      assert (p + t)[0] == p[0] && p[0] != sep;
      var r := Split(t, sep);
      var rr := Split(p[1..] + t, sep);
      assert rr[0] == p[1..] + r[0] && rr[1..] == r[1..];
      assert Split(p + t, sep) == [[p[0]] + rr[0]] + rr[1..];
      assert [p[0]] + (p[1..] + r[0]) == p + r[0];
    } else {
      var r := Split(t, sep);
      assert p + t == t;
      assert r == [r[0]] + r[1..];
      assert p + r[0] == r[0];
    }
  }

  lemma {:induction false} SplitJoin(parts: seq<string>, sep: char)
    requires |parts| >= 1
    requires forall i :: 0 <= i < |parts| ==> sep !in parts[i]
    ensures Split(Join(parts, sep), sep) == parts
  {
    if |parts| == 1 {
      SplitPrefix(parts[0], "", sep);
      assert parts[0] + "" == parts[0];
    } else {
      SplitJoin(parts[1..], sep);
      var t := [sep] + Join(parts[1..], sep);
      assert Join(parts, sep) == parts[0] + t;
      SplitPrefix(parts[0], t, sep);
      assert t != [] && t[0] == sep;
      assert t[1..] == Join(parts[1..], sep);
      assert Split(t, sep) == [""] + Split(t[1..], sep);
      assert Split(t, sep)[0] == "" && Split(t, sep)[1..] == parts[1..];
      assert parts[0] + "" == parts[0];
      assert parts == [parts[0]] + parts[1..];
    }
  }

  /** `pieces[pieces.length - 1]` for `pieces = s.split(sep)`. */
  function LastSegment(s: string, sep: char): string
  {
    var pieces := Split(s, sep);
    pieces[|pieces| - 1]
  }

  /** The text after the last separator is the last segment. */
  lemma LastSegmentOf(s: string, sep: char, segment: string)
    requires sep !in segment
    requires s == segment || (|s| > |segment| && s[|s| - |segment| - 1] == sep && s[|s| - |segment|..] == segment)
    ensures LastSegment(s, sep) == segment
  {
    LastSegmentSpec(s, sep);
    SeparatorFreeSuffixes(s, sep, LastSegment(s, sep), segment);
  }

  /** Two separator-free suffixes of s, each all of s or preceded by the separator, are equal. */
  lemma SeparatorFreeSuffixes(s: string, sep: char, a: string, b: string)
    requires sep !in a && sep !in b
    requires |a| <= |s| && s[|s| - |a|..] == a && (|a| == |s| || s[|s| - |a| - 1] == sep)
    requires |b| <= |s| && s[|s| - |b|..] == b && (|b| == |s| || s[|s| - |b| - 1] == sep)
    ensures a == b
  {
    var n := |s|;
    assert forall i :: n - |a| <= i < n ==> s[i] == a[i - (n - |a|)];
    assert forall i :: n - |b| <= i < n ==> s[i] == b[i - (n - |b|)];
  }

  /** The last segment is what follows the last separator (or all of s). */
  lemma {:induction false} LastSegmentSpec(s: string, sep: char)
    ensures var r := LastSegment(s, sep);
      && sep !in r
      && |r| <= |s| && s[|s| - |r|..] == r
      && (|r| == |s| || s[|s| - |r| - 1] == sep)
  {
    if s != [] {
      var t := s[1..];
      LastSegmentSpec(t, sep);
      var rest := Split(t, sep);
      var r' := LastSegment(t, sep);
      var r := LastSegment(s, sep);
      if s[0] == sep || |rest| > 1 {
        assert r == r';
        assert s[|s| - |r|..] == t[|t| - |r|..];
        if |r| < |t| {
          assert s[|s| - |r| - 1] == t[|t| - |r| - 1];
        } else if s[0] != sep {
          assert r' == t[|t| - |r'|..] == t;
          CountZero(t, sep);
          assert false;
        }
      } else {
        CountZero(t, sep);
        assert r' == t;
        assert r == [s[0]] + t;
        assert s == [s[0]] + t;
      }
    }
  }

  lemma {:induction false} CountZero(s: string, c: char)
    ensures Count(s, c) == 0 <==> c !in s
  {
    if s != [] {
      CountZero(s[1..], c);
      assert s == [s[0]] + s[1..];
    }
  }

  // ---------------------------------------------------------------------------
  // `s.replace(pat, rep)` with a string pattern: only the first occurrence.

  predicate OccursAt(s: string, pat: string, k: int)
  {
    0 <= k && k + |pat| <= |s| && s[k..k + |pat|] == pat
  }

  function FindFirst(s: string, pat: string): (r: Option<nat>)
    ensures r.Some? ==> OccursAt(s, pat, r.value) && forall j :: 0 <= j < r.value ==> !OccursAt(s, pat, j)
    ensures r.None? ==> forall j :: !OccursAt(s, pat, j)
  {
    if pat <= s then Some(0)
    else if s == [] then None
    else
      match FindFirst(s[1..], pat)
      case None =>
        assert forall j :: 1 <= j ==> (OccursAt(s, pat, j) <==> OccursAt(s[1..], pat, j - 1));
        None
      case Some(k) =>
        assert forall j :: 1 <= j ==> (OccursAt(s, pat, j) <==> OccursAt(s[1..], pat, j - 1));
        Some(k + 1)
  }

  function ReplaceFirst(s: string, pat: string, rep: string): (r: string)
    ensures (forall j :: !OccursAt(s, pat, j)) ==> r == s
    ensures forall k :: OccursAt(s, pat, k) && (forall j :: 0 <= j < k ==> !OccursAt(s, pat, j)) ==>
      r == s[..k] + rep + s[k + |pat|..]
  {
    match FindFirst(s, pat)
    case None => s
    case Some(k) => s[..k] + rep + s[k + |pat|..]
  }

  // ---------------------------------------------------------------------------
  // The `\s` class of JavaScript regular expressions (white space and line
  // terminators); the same set is trimmed by Number() and parseInt().

  predicate IsSpace(c: char)
  {
    var n := c as int;
    (9 <= n <= 13) || n == 32 || n == 0xA0 || n == 0x1680 || (0x2000 <= n <= 0x200A)
    || n == 0x2028 || n == 0x2029 || n == 0x202F || n == 0x205F || n == 0x3000 || n == 0xFEFF
  }

  function TrimStart(s: string): (r: string)
    ensures |r| <= |s| && r == s[|s| - |r|..]
    ensures r == [] || !IsSpace(r[0])
    ensures forall i :: 0 <= i < |s| - |r| ==> IsSpace(s[i])
  {
    if s != [] && IsSpace(s[0]) then TrimStart(s[1..]) else s
  }

  function TrimEnd(s: string): (r: string)
    ensures |r| <= |s| && r == s[..|r|]
    ensures r == [] || !IsSpace(r[|r| - 1])
    ensures forall i :: |r| <= i < |s| ==> IsSpace(s[i])
  {
    if s != [] && IsSpace(s[|s| - 1]) then TrimEnd(s[..|s| - 1]) else s
  }
}
