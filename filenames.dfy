/** The names of the files the backup writes: an entry's file is named after
    the last segment of its URL path (ljsnarf.js:237-239), and a userpic's
    file after its keyword run through `canonicalizeFilename`
    (ljsnarf.js:578-584) and the subtype of its MIME type (ljsnarf.js:625-626). */
module FileNames {
  import opened JsStrings

  // ---------------------------------------------------------------------------
  // Entries

  /** `pieces[pieces.length - 1].replace('.html', '.json')` with
      `pieces = pathname.split('/')`. The URL is parsed by the platform; the
      pathname is the input here. */
  function EntryFileName(pathname: string): (r: string)
    ensures '/' !in r
  {
    var segment := LastSegment(pathname, '/');
    LastSegmentSpec(pathname, '/');
    var r := ReplaceFirst(segment, ".html", ".json");
    ReplaceFirstKeeps(segment, ".html", ".json", '/');
    r
  }

  /** The file name is the text after the last '/', with its first ".html"
      (if any) turned into ".json"; the item id plays no part. */
  lemma EntryFileNameSpec(pathname: string, segment: string)
    requires '/' !in segment
    requires pathname == segment || (|pathname| > |segment| && pathname[|pathname| - |segment| - 1] == '/' && pathname[|pathname| - |segment|..] == segment)
    ensures EntryFileName(pathname) == ReplaceFirst(segment, ".html", ".json")
  {
    LastSegmentOf(pathname, '/', segment);
  }

  /** For instance `/user/12345.html` is stored as `12345.json`. */
  lemma EntryFileNameOfPage(dir: string, name: string)
    requires '/' !in name && '.' !in name
    ensures EntryFileName(dir + "/" + name + ".html") == name + ".json"
  {
    var segment := name + ".html";
    var pathname := dir + "/" + name + ".html";
    assert pathname == (dir + "/") + segment;
    assert pathname[|pathname| - |segment|..] == segment;
    assert pathname[|pathname| - |segment| - 1] == '/';
    assert '/' !in segment by {
      assert forall i :: 0 <= i < |name| ==> segment[i] == name[i];
      assert forall i :: |name| <= i < |segment| ==> segment[i] == ".html"[i - |name|];
    }
    EntryFileNameSpec(pathname, segment);
    HtmlToJson(name);
  }

  /** A name that has no '.' keeps its stem when ".html" becomes ".json". */
  lemma HtmlToJson(name: string)
    requires '.' !in name
    ensures ReplaceFirst(name + ".html", ".html", ".json") == name + ".json"
  {
    var segment := name + ".html";
    var k := |name|;
    assert segment[k..k + 5] == ".html";
    forall j | 0 <= j < k ensures !OccursAt(segment, ".html", j) {
      assert segment[j] == name[j];
    }
    assert segment[..k] == name && segment[k + 5..] == [];
  }

  /** A character absent from the text and from the replacement stays absent. */
  lemma ReplaceFirstKeeps(s: string, pat: string, rep: string, c: char)
    requires c !in s && c !in rep
    ensures c !in ReplaceFirst(s, pat, rep)
  {
    match FindFirst(s, pat)
    case None =>
    case Some(k) =>
      assert forall x :: x in s[..k] || x in s[k + |pat|..] ==> x in s;
  }

  // ---------------------------------------------------------------------------
  // Userpics

  /** `input.replace(/\//g, "+")`. */
  function SlashesToPlus(s: string): (r: string)
    ensures |r| == |s|
    ensures forall i :: 0 <= i < |s| ==> r[i] == if s[i] == '/' then '+' else s[i]
  {
    seq(|s|, i requires 0 <= i < |s| => if s[i] == '/' then '+' else s[i])
  }

  /** `input.replace(/\s+/g, '_')`: every maximal run of white space becomes one '_'. */
  function CollapseSpaces(s: string): (r: string)
    ensures forall i :: 0 <= i < |r| ==> !IsSpace(r[i])
    decreases |s|
  {
    if s == [] then []
    else if IsSpace(s[0]) then "_" + CollapseSpaces(TrimStart(s[1..]))
    else [s[0]] + CollapseSpaces(s[1..])
  }

  /** Any other character is in the result iff it is in the text. */
  lemma CollapseKeeps(s: string, c: char)
    requires !IsSpace(c) && c != '_'
    ensures c in CollapseSpaces(s) <==> c in s
  {
    CollapseCount(s, c);
    CountZero(s, c);
    CountZero(CollapseSpaces(s), c);
  }

  /** A text without white space is left as it is. */
  lemma {:induction false} CollapseNoSpace(s: string)
    requires forall i :: 0 <= i < |s| ==> !IsSpace(s[i])
    ensures CollapseSpaces(s) == s
  {
    if s != [] {
      CollapseNoSpace(s[1..]);
    }
  }

  /** Replacing the runs a second time changes nothing. */
  lemma CollapseIdempotent(s: string)
    ensures CollapseSpaces(CollapseSpaces(s)) == CollapseSpaces(s)
  {
    CollapseNoSpace(CollapseSpaces(s));
  }

  /** A text of white space only becomes a single '_'. */
  lemma {:induction false} CollapseAllSpace(s: string)
    requires s != [] && forall i :: 0 <= i < |s| ==> IsSpace(s[i])
    ensures CollapseSpaces(s) == "_"
  {
    AllSpaceTrimmed(s[1..]);
  }

  lemma {:induction false} AllSpaceTrimmed(s: string)
    requires forall i :: 0 <= i < |s| ==> IsSpace(s[i])
    ensures TrimStart(s) == []
  {
    if s != [] {
      AllSpaceTrimmed(s[1..]);
    }
  }

  /** `canonicalizeFilename(input)`: every '/' becomes '+', then the first '&'
      becomes '+', then every run of white space becomes '_'. */
  function Canonicalize(tag: string): (r: string)
    ensures '/' !in r
    ensures forall i :: 0 <= i < |r| ==> !IsSpace(r[i])
  {
    var a := SlashesToPlus(tag);
    var b := ReplaceFirst(a, "&", "+");
    ReplaceFirstKeeps(a, "&", "+", '/');
    CollapseKeeps(b, '/');
    CollapseSpaces(b)
  }

  /** Only the first '&' is replaced: the name keeps one '&' fewer than the tag
      when the tag has any, and none otherwise. */
  lemma CanonicalizeAmpersands(tag: string)
    ensures Count(Canonicalize(tag), '&') == if '&' in tag then Count(tag, '&') - 1 else 0
  {
    var a := SlashesToPlus(tag);
    var b := ReplaceFirst(a, "&", "+");
    SlashesCount(tag, '&');
    CountZero(tag, '&');
    CountZero(a, '&');
    ReplaceAmpersand(a);
    CollapseCount(b, '&');
  }

  /** `replace('&', '+')` removes exactly one '&' when there is one. */
  lemma ReplaceAmpersand(a: string)
    ensures Count(ReplaceFirst(a, "&", "+"), '&') == if '&' in a then Count(a, '&') - 1 else 0
  {
    CountZero(a, '&');
    match FindFirst(a, "&")
    case None =>
      forall j | 0 <= j < |a| ensures a[j] != '&' {
        assert !OccursAt(a, "&", j);
        assert a[j..j + 1] == [a[j]];
      }
    case Some(k) =>
      assert a[k..k + 1] == "&";
      assert a == (a[..k] + "&") + a[k + 1..];
      CountConcat(a[..k] + "&", a[k + 1..], '&');
      CountConcat(a[..k], "&", '&');
      CountConcat(a[..k] + "+", a[k + 1..], '&');
      CountConcat(a[..k], "+", '&');
  }

  lemma {:induction false} CountConcat(s: string, t: string, c: char)
    ensures Count(s + t, c) == Count(s, c) + Count(t, c)
  {
    if s == [] {
      assert s + t == t;
    } else {
      assert (s + t)[1..] == s[1..] + t;
      CountConcat(s[1..], t, c);
    }
  }

  lemma {:induction false} SlashesCount(s: string, c: char)
    requires c != '/' && c != '+'
    ensures Count(SlashesToPlus(s), c) == Count(s, c)
  {
    if s != [] {
      SlashesCount(s[1..], c);
      assert SlashesToPlus(s)[1..] == SlashesToPlus(s[1..]);
    }
  }

  lemma {:induction false} CollapseCount(s: string, c: char)
    requires !IsSpace(c) && c != '_'
    ensures Count(CollapseSpaces(s), c) == Count(s, c)
    decreases |s|
  {
    if s != [] {
      if IsSpace(s[0]) {
        var rest := TrimStart(s[1..]);
        CollapseCount(rest, c);
        TrimStartCount(s[1..], c);
        assert ("_" + CollapseSpaces(rest))[1..] == CollapseSpaces(rest);
      } else {
        CollapseCount(s[1..], c);
        assert ([s[0]] + CollapseSpaces(s[1..]))[1..] == CollapseSpaces(s[1..]);
      }
    }
  }

  lemma {:induction false} TrimStartCount(s: string, c: char)
    requires !IsSpace(c)
    ensures Count(TrimStart(s), c) == Count(s, c)
  {
    if s != [] && IsSpace(s[0]) {
      TrimStartCount(s[1..], c);
    }
  }

  /** `mimetype.replace('image/', '')`: an image type loses its "image/"
      prefix, and a type that never mentions "image/" is kept whole. */
  function ImageSuffix(mimetype: string): (r: string)
    ensures "image/" <= mimetype ==> r == mimetype[6..]
    ensures (forall j :: !OccursAt(mimetype, "image/", j)) ==> r == mimetype
  {
    assert "image/" <= mimetype ==> OccursAt(mimetype, "image/", 0);
    ReplaceFirst(mimetype, "image/", "")
  }

  /** `canonicalizeFilename(tag) + '.' + suffix`: the name is the canonical
      keyword, free of '/' and of white space, then a '.', then the suffix
      of the MIME type. */
  function ImageFileName(tag: string, mimetype: string): (r: string)
    ensures |r| > |Canonicalize(tag)| && r[|Canonicalize(tag)|] == '.'
    ensures r[..|Canonicalize(tag)|] == Canonicalize(tag)
    ensures r[|Canonicalize(tag)| + 1..] == ImageSuffix(mimetype)
    ensures forall i :: 0 <= i < |Canonicalize(tag)| ==> r[i] != '/' && !IsSpace(r[i])
  {
    Canonicalize(tag) + "." + ImageSuffix(mimetype)
  }

  /** An image type names its file after its subtype: "image/png" gives ".png". */
  lemma ImageFileNameOfType(tag: string, subtype: string)
    ensures ImageFileName(tag, "image/" + subtype) == Canonicalize(tag) + "." + subtype
  {
    assert OccursAt("image/" + subtype, "image/", 0);
  }
}
