/** JavaScript number conversions used by the decoders: the decimal text of
    a loop index inside a key (`'sync_' + i + '_item'`), `Number(s)` as
    applied by a comparison `i <= s`, and `parseInt(s, 10)`. */
module JsNumbers {
  import opened JsStrings

  predicate IsDigit(c: char)
  {
    '0' <= c <= '9'
  }

  predicate AllDigits(s: string)
  {
    forall i :: 0 <= i < |s| ==> IsDigit(s[i])
  }

  function DigitValue(c: char): nat
    requires IsDigit(c)
  {
    (c as int) - ('0' as int)
  }

  function DigitChar(d: nat): char
    requires d < 10
  {
    (('0' as int) + d) as char
  }

  /** The value of a run of decimal digits. */
  function DigitsValue(s: string): nat
    requires AllDigits(s)
  {
    if s == [] then 0 else DigitsValue(s[..|s| - 1]) * 10 + DigitValue(s[|s| - 1])
  }

  /** `String(n)` for a non-negative integer. */
  function Decimal(n: nat): (s: string)
    ensures |s| >= 1 && AllDigits(s)
    ensures s[0] == '0' ==> n == 0
  {
    if n < 10 then [DigitChar(n)] else Decimal(n / 10) + [DigitChar(n % 10)]
  }

  lemma {:induction false} DecimalRoundTrip(n: nat)
    ensures DigitsValue(Decimal(n)) == n
  {
    if n >= 10 {
      DecimalRoundTrip(n / 10);
      var s := Decimal(n);
      assert s[..|s| - 1] == Decimal(n / 10);
    }
  }

  lemma DecimalInjective(i: nat, j: nat)
    requires Decimal(i) == Decimal(j)
    ensures i == j
  {
    DecimalRoundTrip(i);
    DecimalRoundTrip(j);
  }

  // ---------------------------------------------------------------------------
  // Keys of the flat protocol: prefix + decimal index + suffix.

  function Field(prefix: string, i: nat, suffix: string): string
  {
    prefix + Decimal(i) + suffix
  }

  /** A suffix that cannot be read as more digits of the index. */
  predicate Delimits(suffix: string)
  {
    suffix == [] || !IsDigit(suffix[0])
  }

  lemma DigitRunsEqual(a: string, s1: string, b: string, s2: string)
    requires AllDigits(a) && AllDigits(b) && Delimits(s1) && Delimits(s2)
    requires a + s1 == b + s2
    ensures a == b && s1 == s2
  {
    if |a| == |b| {
      assert a == (a + s1)[..|a|] && b == (b + s2)[..|b|];
      assert s1 == (a + s1)[|a|..] && s2 == (b + s2)[|b|..];
    } else if |a| < |b| {
      CharOfLeft(b, s2, |a|);
      assert false;
    } else {
      CharOfLeft(a, s1, |b|);
      assert false;
    }
  }

  lemma CharOfLeft(x: string, y: string, k: nat)
    requires k < |x|
    ensures (x + y)[k] == x[k]
  {
  }

  /** Keys built with the same prefix name the same index and suffix. */
  lemma FieldInjective(p: string, i: nat, s1: string, j: nat, s2: string)
    requires Delimits(s1) && Delimits(s2)
    requires Field(p, i, s1) == Field(p, j, s2)
    ensures i == j && s1 == s2
  {
    var x := Field(p, i, s1);
    assert x[|p|..] == Decimal(i) + s1;
    assert Field(p, j, s2)[|p|..] == Decimal(j) + s2;
    DigitRunsEqual(Decimal(i), s1, Decimal(j), s2);
    DecimalInjective(i, j);
  }

  /** A key whose text after the prefix starts with a non-digit is no indexed key. */
  lemma FieldNotPlain(p: string, i: nat, s: string, rest: string)
    requires |rest| > 0 && !IsDigit(rest[0])
    ensures Field(p, i, s) != p + rest
  {
    assert Field(p, i, s)[|p|] == Decimal(i)[0];
    assert (p + rest)[|p|] == rest[0];
  }

  // ---------------------------------------------------------------------------
  // Number(s): white space trimmed, "" is 0, an optional sign and decimal
  // digits give their value, anything else is NaN (None).

  function ToNumber(v: Option<string>): (r: Option<int>)
    ensures v.None? ==> r.None?
    ensures v.Some? && AllDigits(v.value) && v.value != [] ==> r == Some(DigitsValue(v.value))
  {
    match v
    case None => None
    case Some(s) =>
      var t := TrimEnd(TrimStart(s));
      DigitsTrimmed(s);
      NumberOfTrimmed(t)
  }

  /** A sign before the digits gives a negative or a positive value, and text
      of white space only is 0. */
  lemma ToNumberSpec(s: string)
    ensures |s| > 1 && s[0] == '-' && AllDigits(s[1..]) ==> ToNumber(Some(s)) == Some(-(DigitsValue(s[1..]) as int))
    ensures |s| > 1 && s[0] == '+' && AllDigits(s[1..]) ==> ToNumber(Some(s)) == Some(DigitsValue(s[1..]))
    ensures (forall i :: 0 <= i < |s| ==> IsSpace(s[i])) ==> ToNumber(Some(s)) == Some(0)
  {
    SignedTrimmed(s);
    SpacesTrimmed(s);
  }

  /** The number denoted by text with no white space at either end. */
  function NumberOfTrimmed(t: string): Option<int>
  {
    if t == [] then Some(0)
    else if (t[0] == '+' || t[0] == '-') && |t| > 1 && AllDigits(t[1..]) then
      Some(if t[0] == '-' then -(DigitsValue(t[1..]) as int) else DigitsValue(t[1..]))
    else if AllDigits(t) then Some(DigitsValue(t))
    else None
  }

  lemma DigitsTrimmed(s: string)
    ensures AllDigits(s) && s != [] ==> TrimEnd(TrimStart(s)) == s && !(s[0] == '+' || s[0] == '-')
  {
    if AllDigits(s) && s != [] {
      assert !IsSpace(s[0]) && !IsSpace(s[|s| - 1]);
    }
  }

  lemma SignedTrimmed(s: string)
    ensures |s| > 1 && (s[0] == '-' || s[0] == '+') && AllDigits(s[1..]) ==> TrimEnd(TrimStart(s)) == s
  {
    if |s| > 1 && (s[0] == '-' || s[0] == '+') && AllDigits(s[1..]) {
      assert s[1..][|s| - 2] == s[|s| - 1];
      assert !IsSpace(s[0]) && !IsSpace(s[|s| - 1]);
    }
  }

  lemma SpacesTrimmed(s: string)
    ensures (forall i :: 0 <= i < |s| ==> IsSpace(s[i])) ==> TrimEnd(TrimStart(s)) == []
  {
  }

  /** White space before the text does not change the number it denotes. */
  lemma {:induction false} NumberIgnoresLeadingSpace(w: string, s: string)
    requires forall i :: 0 <= i < |w| ==> IsSpace(w[i])
    ensures ToNumber(Some(w + s)) == ToNumber(Some(s))
  {
    LeadingSpaceTrimmed(w, s);
    assert TrimEnd(TrimStart(w + s)) == TrimEnd(TrimStart(s));
  }

  lemma {:induction false} LeadingSpaceTrimmed(w: string, s: string)
    requires forall i :: 0 <= i < |w| ==> IsSpace(w[i])
    ensures TrimStart(w + s) == TrimStart(s)
  {
    if w != [] {
      assert (w + s)[1..] == w[1..] + s;
      LeadingSpaceTrimmed(w[1..], s);
    } else {
      assert w + s == s;
    }
  }

  /** How many times `for (i = 1; i <= bound; i++)` runs, and also
      `for (i = 1; i < bound + 1; i++)`, when bound is a number or NaN (None). */
  function Iterations(bound: Option<int>): (n: nat)
    ensures n > 0 ==> bound == Some(n)
    ensures bound.Some? && bound.value >= 0 ==> n == bound.value
  {
    if bound.Some? && bound.value > 0 then bound.value else 0
  }

  /** The longest run of digits at the front of s. */
  function LeadingDigits(s: string): (d: string)
    ensures AllDigits(d) && d <= s
    ensures |d| == |s| || !IsDigit(s[|d|])
  {
    if s != [] && IsDigit(s[0]) then [s[0]] + LeadingDigits(s[1..]) else []
  }

  /** parseInt(v, 10): leading white space and a sign are skipped, then the
      longest run of digits is read; no digit at all is NaN (None). */
  function ParseInt(v: Option<string>): (r: Option<int>)
    ensures v.Some? && AllDigits(v.value) && v.value != [] ==> r == Some(DigitsValue(v.value))
  {
    var t := TrimStart(JsKey(v));
    var neg := t != [] && t[0] == '-';
    var body := if t != [] && (t[0] == '-' || t[0] == '+') then t[1..] else t;
    var d := LeadingDigits(body);
    DigitsParse(v);
    if d == [] then None else Some(if neg then -(DigitsValue(d) as int) else DigitsValue(d))
  }

  lemma DigitsParse(v: Option<string>)
    ensures v.Some? && AllDigits(v.value) && v.value != [] ==>
      TrimStart(v.value) == v.value && LeadingDigits(v.value) == v.value
  {
    if v.Some? && AllDigits(v.value) && v.value != [] {
      LeadingAll(v.value);
    }
  }

  lemma {:induction false} LeadingAll(s: string)
    requires AllDigits(s)
    ensures LeadingDigits(s) == s
  {
    if s != [] {
      LeadingAll(s[1..]);
    }
  }
}
