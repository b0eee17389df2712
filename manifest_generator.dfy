/**
 * The offline manifest builder: for each phase folder it lists the `.html`
 * files in ascending name order, derives a title for each (from `<title>`,
 * else from the first `<h1>`, else from the file name) and assembles the
 * `manifest.json` object. Directory listings, file contents and stat results
 * are inputs; timestamps and the writing of the file are not modelled.
 */
module ManifestGenerator {
  import opened Wrappers
  import opened Strings
  import opened FilenameFormat

  /** `BASE_DIR`. */
  const BaseDir := "thesis_html"

  /** `PHASES`: the folders a manifest is generated for, in order. */
  const PhaseFolders: seq<string> := [
    "0_reflection_journal",
    "1_idea_generation",
    "2_proposal",
    "3_literature_review",
    "4_theoretical_framework",
    "5_design",
    "6_data_collection",
    "7_data_analysis",
    "8_report"
  ]

  // ---------------------------------------------------------------------
  // Ordering of names: Array.prototype.sort without a comparator compares
  // strings character by character.

  /** `a` sorts no later than `b`: `a` is a prefix of `b`, or the first difference is smaller in `a`. */
  predicate NameLe(a: string, b: string) {
    |a| == 0 || (|b| > 0 && (a[0] < b[0] || (a[0] == b[0] && NameLe(a[1..], b[1..]))))
  }

  lemma {:induction false} NameLeTotal(a: string, b: string)
    ensures NameLe(a, b) || NameLe(b, a)
  {
    if |a| > 0 && |b| > 0 && a[0] == b[0] {
      NameLeTotal(a[1..], b[1..]);
    }
  }

  lemma {:induction false} NameLeAntisymmetric(a: string, b: string)
    requires NameLe(a, b) && NameLe(b, a)
    ensures a == b
  {
    if |a| > 0 && |b| > 0 {
      NameLeAntisymmetric(a[1..], b[1..]);
      assert a == [a[0]] + a[1..];
      assert b == [b[0]] + b[1..];
    }
  }

  lemma {:induction false} NameLeTransitive(a: string, b: string, c: string)
    requires NameLe(a, b) && NameLe(b, c)
    ensures NameLe(a, c)
  {
    if |a| > 0 && |b| > 0 && |c| > 0 && a[0] == b[0] && b[0] == c[0] {
      NameLeTransitive(a[1..], b[1..], c[1..]);
    }
  }

  /** Every name sorts no later than every name after it. */
  predicate SortedNames(s: seq<string>) {
    forall i, j :: 0 <= i < j < |s| ==> NameLe(s[i], s[j])
  }

  /** Inserts `x` before the first name it sorts no later than. */
  function Insert(x: string, s: seq<string>): (r: seq<string>)
    ensures multiset(r) == multiset(s) + multiset{x}
  {
    if |s| == 0 then [x]
    else if NameLe(x, s[0]) then [x] + s
    else
      assert s == [s[0]] + s[1..];
      [s[0]] + Insert(x, s[1..])
  }

  lemma {:induction false} InsertSorted(x: string, s: seq<string>)
    requires SortedNames(s)
    ensures SortedNames(Insert(x, s))
  {
    if |s| > 0 {
      if NameLe(x, s[0]) {
        var r := [x] + s;
        forall j | 0 < j < |r|
          ensures NameLe(x, r[j])
        {
          if j > 1 {
            NameLeTransitive(x, s[0], s[j - 1]);
          }
        }
      } else {
        NameLeTotal(x, s[0]);
        InsertSorted(x, s[1..]);
        var t := Insert(x, s[1..]);
        var r := [s[0]] + t;
        forall j | 0 <= j < |t|
          ensures NameLe(s[0], t[j])
        {
          assert t[j] in multiset(t);
          if t[j] != x {
            assert t[j] in multiset(s[1..]);
            var k :| 0 <= k < |s[1..]| && s[1..][k] == t[j];
            assert s[k + 1] == t[j];
          }
        }
        assert SortedNames(r);
      }
    }
  }

  /** `.sort()` on the kept names: an ascending rearrangement of them. */
  function SortNames(s: seq<string>): (r: seq<string>)
    ensures multiset(r) == multiset(s)
    ensures SortedNames(r)
  {
    if |s| == 0 then []
    else
      var t := SortNames(s[1..]);
      InsertSorted(s[0], t);
      assert s == [s[0]] + s[1..];
      Insert(s[0], t)
  }

  /** Two ascending arrangements of the same non-empty names start with the same name. */
  lemma SortedArrangementsShareHead(a: seq<string>, b: seq<string>)
    requires SortedNames(a) && SortedNames(b) && multiset(a) == multiset(b) && |a| > 0
    ensures |b| > 0 && a[0] == b[0]
  {
    assert a[0] in multiset(b);
    assert b[0] in multiset(a);
    var i :| 0 <= i < |b| && b[i] == a[0];
    var j :| 0 <= j < |a| && a[j] == b[0];
    assert NameLe(b[0], a[0]) by {
      if i == 0 {
        NameLeTotal(b[0], a[0]);
      }
    }
    assert NameLe(a[0], b[0]) by {
      if j == 0 {
        NameLeTotal(a[0], b[0]);
      }
    }
    NameLeAntisymmetric(a[0], b[0]);
  }

  /** Two arrangements of the same names with the same first name have tails of the same names. */
  lemma SameTails(a: seq<string>, b: seq<string>)
    requires |a| > 0 && |b| > 0 && a[0] == b[0] && multiset(a) == multiset(b)
    ensures multiset(a[1..]) == multiset(b[1..])
  {
    assert a == [a[0]] + a[1..] && b == [b[0]] + b[1..];
    var ma, mb := multiset(a[1..]), multiset(b[1..]);
    assert multiset(a) == multiset{a[0]} + ma;
    assert multiset(b) == multiset{a[0]} + mb;
    assert ma == (multiset{a[0]} + ma) - multiset{a[0]};
    assert mb == (multiset{a[0]} + mb) - multiset{a[0]};
  }

  /**
   * Any two ascending arrangements of the same names are equal, so the sorted
   * order does not depend on the sorting algorithm.
   */
  lemma {:induction false} SortedArrangementUnique(a: seq<string>, b: seq<string>)
    requires SortedNames(a) && SortedNames(b) && multiset(a) == multiset(b)
    ensures a == b
  {
    if |a| > 0 {
      SortedArrangementsShareHead(a, b);
      assert a == [a[0]] + a[1..] && b == [b[0]] + b[1..];
      SameTails(a, b);
      SortedArrangementUnique(a[1..], b[1..]);
    } else {
      assert |b| == |multiset(b)| == 0;
    }
  }

  // ---------------------------------------------------------------------
  // Title extraction. The two regular expressions of the source are matched
  // case-insensitively and their `.` stops at a line break; the model searches
  // for the first occurrence of the lower-case tags in the whole content, which
  // agrees with the source on single-line, lower-case markup.

  const TitleOpen := "<title>"
  const TitleClose := "</title>"
  const H1Open := "<h1"
  const H1Close := "</h1>"
  const ThesisSuffix := " - DBA Thesis"

  /** `content` has `<title>` at `i`, directly followed by `t` and then `</title>`, with no `</title>` inside `t`. */
  predicate TitleMatchAt(content: string, i: nat, t: string) {
    && OccursAt(content, TitleOpen, i)
    && i + 7 + |t| <= |content| && content[i + 7..i + 7 + |t|] == t
    && OccursAt(content, TitleClose, i + 7 + |t|)
    && forall k :: i + 7 <= k < i + 7 + |t| ==> !OccursAt(content, TitleClose, k)
  }

  /** No `<title>` starts before `i`. */
  predicate NoTitleOpenBefore(content: string, i: nat) {
    forall k :: 0 <= k < i ==> !OccursAt(content, TitleOpen, k)
  }

  /**
   * The capture of `/<title>(.*?)<\/title>/`: the shortest text after the
   * first `<title>` that is closed by `</title>`; None when no `<title>` is
   * ever followed by a `</title>`.
   */
  function TitleTagContent(content: string): (r: Option<string>)
    ensures r.Some? ==> exists i :: TitleMatchAt(content, i, r.value) && NoTitleOpenBefore(content, i)
    ensures r.None? ==> forall i, j :: 0 <= i && i + 7 <= j && OccursAt(content, TitleOpen, i) ==>
      !OccursAt(content, TitleClose, j)
  {
    match IndexOf(content, TitleOpen, 0)
    case None => None
    case Some(i) =>
      match IndexOf(content, TitleClose, i + 7)
      case None => None
      case Some(j) =>
        var t := content[i + 7..j];
        assert TitleMatchAt(content, i, t);
        Some(t)
  }

  /**
   * `content` has `<h1` at `p`, its first `>` at `q`, then `h` and then
   * `</h1>`, with no `</h1>` inside `h`.
   */
  predicate H1MatchAt(content: string, p: nat, q: nat, h: string) {
    && OccursAt(content, H1Open, p)
    && p + 3 <= q && OccursAt(content, ">", q)
    && (forall k :: p + 3 <= k < q ==> !OccursAt(content, ">", k))
    && q + 1 + |h| <= |content| && content[q + 1..q + 1 + |h|] == h
    && OccursAt(content, H1Close, q + 1 + |h|)
    && forall k :: q + 1 <= k < q + 1 + |h| ==> !OccursAt(content, H1Close, k)
  }

  /**
   * The capture of `/<h1[^>]*>(.*?)<\/h1>/`: after the first `<h1`, skip to
   * its `>`, and take the shortest text closed by `</h1>`; None when no
   * `<h1` is followed by a `>` and then a `</h1>`.
   */
  function H1Content(content: string): (r: Option<string>)
    ensures r.Some? ==> exists p: nat, q: nat ::
      H1MatchAt(content, p, q, r.value) && forall k :: 0 <= k < p ==> !OccursAt(content, H1Open, k)
    ensures r.None? ==> forall p: nat, q: nat, j: nat :: p + 3 <= q < j && OccursAt(content, H1Open, p) && OccursAt(content, ">", q) ==>
      !OccursAt(content, H1Close, j)
  {
    match IndexOf(content, H1Open, 0)
    case None => None
    case Some(p) =>
      match IndexOf(content, ">", p + 3)
      case None => None
      case Some(q) =>
        match IndexOf(content, H1Close, q + 1)
        case None => None
        case Some(j) =>
          var h := content[q + 1..j];
          assert H1MatchAt(content, p, q, h);
          Some(h)
  }

  /**
   * `s.replace(/<[^>]*>/g, '')`: every `<` that has a `>` after it is removed
   * together with everything up to and including the first such `>`.
   */
  function StripTags(s: string): (r: string)
    ensures |r| <= |s|
    decreases |s|
  {
    if |s| == 0 then ""
    else if s[0] == '<' && '>' in s[1..] then
      var q := CharIndex(s[1..], '>');
      StripTags(s[q + 2..])
    else [s[0]] + StripTags(s[1..])
  }

  /** No `<` of the stripped text is followed by a `>`: no tag is left. */
  lemma {:induction false} StripTagsLeavesNoTag(s: string)
    ensures NoTag(StripTags(s))
    decreases |s|
  {
    if |s| > 0 {
      if s[0] == '<' && '>' in s[1..] {
        StripTagsLeavesNoTag(s[CharIndex(s[1..], '>') + 2..]);
      } else {
        StripTagsLeavesNoTag(s[1..]);
        if s[0] == '<' {
          StripTagsKeepsNoClose(s[1..]);
        }
      }
    }
  }

  /** Text without `>` holds no complete tag, so every `<` and everything after it is kept: the text is unchanged. */
  lemma {:induction false} StripTagsKeepsNoClose(s: string)
    requires '>' !in s
    ensures StripTags(s) == s
    decreases |s|
  {
    if |s| > 0 {
      assert '>' !in s[1..];
      StripTagsKeepsNoClose(s[1..]);
      assert s == [s[0]] + s[1..];
    }
  }

  /** Text without `<` is left unchanged. */
  lemma {:induction false} StripTagsKeepsPlainText(s: string)
    requires '<' !in s
    ensures StripTags(s) == s
    decreases |s|
  {
    if |s| > 0 {
      assert '<' !in s[1..];
      StripTagsKeepsPlainText(s[1..]);
      assert s == [s[0]] + s[1..];
    }
  }

  /** Text before the first `<` is kept as it is, and stripping goes on after it. */
  lemma {:induction false} StripTagsKeepsPrefix(a: string, b: string)
    requires '<' !in a
    ensures StripTags(a + b) == a + StripTags(b)
    decreases |a|
  {
    if |a| == 0 {
      assert a + b == b;
    } else {
      var s := a + b;
      assert a[0] in a;
      assert s[0] == a[0];
      assert s[1..] == a[1..] + b;
      StripTagsPlainHead(s);
      assert '<' !in a[1..];
      StripTagsKeepsPrefix(a[1..], b);
      assert a == [a[0]] + a[1..];
    }
  }

  /** A first character other than `<` is kept. */
  lemma StripTagsPlainHead(s: string)
    requires |s| > 0 && s[0] != '<'
    ensures StripTags(s) == [s[0]] + StripTags(s[1..])
  {
  }

  /** A tag, from its `<` up to the first `>` after it, disappears and nothing after it is touched. */
  lemma StripTagsDropsTag(t: string, b: string)
    requires '>' !in t
    ensures StripTags("<" + t + ">" + b) == StripTags(b)
  {
    var s := "<" + t + ">" + b;
    var rest := t + ">" + b;
    assert s[1..] == rest;
    assert rest[|t|] == '>';
    forall k | 0 <= k < |t|
      ensures rest[k] != '>'
    {
      assert rest[k] == t[k] && t[k] in t;
    }
    var q := CharIndex(rest, '>');
    assert q == |t|;
    assert s[q + 2..] == b;
  }

  /**
   * `replace(/<[^>]*>/g, '')` on text, one tag and more text: the text before
   * the tag survives, the tag goes, and the rest is stripped in turn.
   */
  lemma StripTagsOneTag(a: string, t: string, b: string)
    requires '<' !in a && '>' !in t
    ensures StripTags(a + "<" + t + ">" + b) == a + StripTags(b)
  {
    assert a + "<" + t + ">" + b == a + ("<" + t + ">" + b);
    StripTagsKeepsPrefix(a, "<" + t + ">" + b);
    StripTagsDropsTag(t, b);
  }

  /**
   * The title the generator records for `filename`, given the file's content
   * (None when it could not be read): the `<title>` text without its first
   * " - DBA Thesis", trimmed; else the first `<h1>`'s text without tags,
   * trimmed; else the formatted file name.
   */
  function ExtractTitle(filename: string, content: Option<string>): string {
    match content
    case None => FormatFilename(filename)
    case Some(c) =>
      match TitleTagContent(c)
      case Some(t) => Trim(ReplaceFirst(t, ThesisSuffix, ""))
      case None =>
        match H1Content(c)
        case Some(h) => Trim(StripTags(h))
        case None => FormatFilename(filename)
  }

  /** The order of precedence of the three title sources. */
  lemma ExtractTitleSources(filename: string, content: Option<string>)
    ensures content.None? ==> ExtractTitle(filename, content) == FormatFilename(filename)
    ensures content.Some? && TitleTagContent(content.value).Some? ==>
      ExtractTitle(filename, content) == Trim(ReplaceFirst(TitleTagContent(content.value).value, ThesisSuffix, ""))
    ensures content.Some? && TitleTagContent(content.value).None? && H1Content(content.value).Some? ==>
      ExtractTitle(filename, content) == Trim(StripTags(H1Content(content.value).value))
    ensures content.Some? && TitleTagContent(content.value).None? && H1Content(content.value).None? ==>
      ExtractTitle(filename, content) == FormatFilename(filename)
  {
  }

  /** A title taken from `<title>` or `<h1>` has no whitespace at either end, and one from `<h1>` holds no tag. */
  lemma ExtractedTitleClean(filename: string, c: string)
    requires TitleTagContent(c).Some? || H1Content(c).Some?
    ensures var r := ExtractTitle(filename, Some(c));
      r != "" ==> !IsJsWhitespace(r[0]) && !IsJsWhitespace(r[|r| - 1])
    ensures TitleTagContent(c).None? ==> NoTag(ExtractTitle(filename, Some(c)))
  {
    if TitleTagContent(c).None? {
      var h := H1Content(c).value;
      StripTagsLeavesNoTag(h);
      TrimKeepsNoTag(StripTags(h));
      assert ExtractTitle(filename, Some(c)) == Trim(StripTags(h));
    }
  }

  /** No `<` is followed, anywhere later, by a `>`. */
  predicate NoTag(s: string) {
    forall i, j :: 0 <= i < j < |s| && s[i] == '<' ==> s[j] != '>'
  }

  lemma TrimKeepsNoTag(h: string)
    requires NoTag(h)
    ensures NoTag(Trim(h))
  {
    var r := Trim(h);
    var a: nat :| TrimmedSlice(h, r, a);
    assert r == h[a..a + |r|];
    forall i, j | 0 <= i < j < |r| && r[i] == '<'
      ensures r[j] != '>'
    {
      assert r[i] == h[a + i] && r[j] == h[a + j];
    }
  }

  // ---------------------------------------------------------------------
  // Records and manifests.

  /** One entry of a manifest's `files`; the `modified` timestamp is not modelled. */
  datatype ManifestFile = ManifestFile(filename: string, title: string, path: string)

  /** The `.filter(file => file.endsWith('.html'))` step: the names ending in ".html", in listing order. */
  function HtmlNames(listing: seq<string>): (r: seq<string>)
    ensures forall w <- r :: EndsWith(w, HtmlSuffix)
    ensures forall w :: multiset(r)[w] == if EndsWith(w, HtmlSuffix) then multiset(listing)[w] else 0
  {
    if |listing| == 0 then []
    else
      assert listing == [listing[0]] + listing[1..];
      (if EndsWith(listing[0], HtmlSuffix) then [listing[0]] else []) + HtmlNames(listing[1..])
  }

  /** The record built for one kept name of folder `folderName`. */
  function RecordFor(folderName: string, filename: string, content: Option<string>): ManifestFile {
    ManifestFile(filename, ExtractTitle(filename, content), BaseDir + "/" + folderName + "/" + filename)
  }

  /**
   * getHtmlFiles for a directory whose base name is `folderName`. `listing` is
   * the directory listing (None when reading it fails), `statOk` says whether
   * stat succeeds on a name and `read` gives a file's content (None when it
   * cannot be read). A failing listing or stat yields no records at all.
   */
  function GetHtmlFiles(folderName: string, listing: Option<seq<string>>, statOk: string -> bool,
                        read: string -> Option<string>): (r: seq<ManifestFile>)
    ensures listing.None? ==> r == []
    ensures forall i :: 0 <= i < |r| ==> r[i].path == BaseDir + "/" + folderName + "/" + r[i].filename
    ensures listing.Some? && (exists w <- SortNames(HtmlNames(listing.value)) :: !statOk(w)) ==> r == []
    ensures listing.Some? && (forall w <- SortNames(HtmlNames(listing.value)) :: statOk(w)) ==>
      var names := SortNames(HtmlNames(listing.value));
      && |r| == |names|
      && forall i :: 0 <= i < |r| ==> r[i] == RecordFor(folderName, names[i], read(names[i]))
  {
    match listing
    case None => []
    case Some(entries) =>
      var names := SortNames(HtmlNames(entries));
      if exists w <- names :: !statOk(w) then []
      else seq(|names|, i requires 0 <= i < |names| => RecordFor(folderName, names[i], read(names[i])))
  }

  /** The file names of a list of records. */
  function Filenames(files: seq<ManifestFile>): (names: seq<string>)
    ensures |names| == |files| && forall i :: 0 <= i < |files| ==> names[i] == files[i].filename
  {
    seq(|files|, i requires 0 <= i < |files| => files[i].filename)
  }

  /**
   * When the listing and every stat succeed, the records are exactly the
   * ".html" names of the listing in ascending order, each with its title and
   * its path `thesis_html/<folder>/<name>`.
   */
  lemma GetHtmlFilesRecords(folderName: string, entries: seq<string>, statOk: string -> bool,
                            read: string -> Option<string>)
    requires forall w <- entries :: EndsWith(w, HtmlSuffix) ==> statOk(w)
    ensures var r := GetHtmlFiles(folderName, Some(entries), statOk, read);
      && SortedNames(Filenames(r))
      && (forall w :: multiset(Filenames(r))[w] == if EndsWith(w, HtmlSuffix) then multiset(entries)[w] else 0)
      && (forall i :: 0 <= i < |r| ==>
            && r[i].title == ExtractTitle(r[i].filename, read(r[i].filename))
            && r[i].path == BaseDir + "/" + folderName + "/" + r[i].filename)
  {
    var names := SortNames(HtmlNames(entries));
    KeptNamesStat(entries, statOk);
    var r := GetHtmlFiles(folderName, Some(entries), statOk, read);
    assert |r| == |names|;
    assert forall i :: 0 <= i < |r| ==> r[i] == RecordFor(folderName, names[i], read(names[i]));
    assert Filenames(r) == names;
  }

  /** Every kept name comes from the listing, so stat succeeds on it when it succeeds on every ".html" entry. */
  lemma KeptNamesStat(entries: seq<string>, statOk: string -> bool)
    requires forall w <- entries :: EndsWith(w, HtmlSuffix) ==> statOk(w)
    ensures forall w <- SortNames(HtmlNames(entries)) :: statOk(w)
  {
    var names := SortNames(HtmlNames(entries));
    forall w <- names
      ensures statOk(w)
    {
      assert w in multiset(names);
      assert multiset(HtmlNames(entries))[w] > 0;
      assert multiset(entries)[w] > 0;
    }
  }

  /** The manifest object: `phase`, `fileCount` and `files`; the `generated` timestamp is not modelled. */
  datatype Manifest = Manifest(phase: string, fileCount: nat, files: seq<ManifestFile>)

  /**
   * generateManifest for `phaseFolder`: no manifest when the directory does
   * not exist; otherwise one naming the folder and counting its records.
   */
  function GenerateManifest(phaseFolder: string, dirExists: bool, listing: Option<seq<string>>,
                            statOk: string -> bool, read: string -> Option<string>): (r: Option<Manifest>)
    ensures r.Some? <==> dirExists
    ensures r.Some? ==>
      && r.value.phase == phaseFolder
      && r.value.fileCount == |r.value.files|
      && r.value.files == GetHtmlFiles(phaseFolder, listing, statOk, read)
  {
    if !dirExists then None
    else
      var files := GetHtmlFiles(phaseFolder, listing, statOk, read);
      Some(Manifest(phaseFolder, |files|, files))
  }
}
