/**
 * `formatFilename`, the display title derived from a document's file name. The
 * browser table of contents and the offline manifest generator carry the same
 * definition, so it is modelled once here.
 */
module FilenameFormat {
  import opened Strings

  const HtmlSuffix := ".html"

  /** `word.charAt(0).toUpperCase() + word.slice(1)`; the empty word stays empty. */
  function Capitalize(w: string): (r: string)
    ensures |r| == |w|
  {
    if |w| == 0 then "" else [UpperAscii(w[0])] + w[1..]
  }

  /** `.map(word => ...)` over the words. */
  function CapitalizeAll(ws: seq<string>): (rs: seq<string>)
    ensures |rs| == |ws|
    ensures forall i :: 0 <= i < |ws| ==> rs[i] == Capitalize(ws[i])
  {
    seq(|ws|, i requires 0 <= i < |ws| => Capitalize(ws[i]))
  }

  /** The name after `.replace('.html', '')`, `.replace(/_/g, ' ')` and `.replace(/-/g, ' ')`. */
  function Spaced(filename: string): string {
    ReplaceAllChar(ReplaceAllChar(ReplaceFirst(filename, HtmlSuffix, ""), '_', ' '), '-', ' ')
  }

  /** `formatFilename(filename)`: split the spaced name on ' ', capitalise each word, join with ' '. */
  function FormatFilename(filename: string): string {
    Join(CapitalizeAll(Split(Spaced(filename), ' ')), ' ')
  }

  /** Reference definition: a character is upper-cased exactly when it starts the string or follows a space. */
  function CapitalizeAfterSpaces(t: string): (r: string)
    ensures |r| == |t|
  {
    seq(|t|, k requires 0 <= k < |t| => if k == 0 || t[k - 1] == ' ' then UpperAscii(t[k]) else t[k])
  }

  /** Without spaces, the reference rule capitalises the whole text as one word. */
  lemma CapitalizeAfterSpacesOneWord(t: string)
    requires ' ' !in t
    ensures CapitalizeAfterSpaces(t) == Capitalize(t)
  {
    if |t| > 0 {
      var r := CapitalizeAfterSpaces(t);
      forall k | 0 < k < |t|
        ensures r[k] == t[k]
      {
        assert t[k - 1] in t;
      }
      assert r == [UpperAscii(t[0])] + t[1..];
    }
  }

  /** The reference rule works word by word: the first word, the space, then the rest. */
  lemma CapitalizeAfterSpacesFirstWord(t: string, i: nat)
    requires i < |t| && t[i] == ' ' && ' ' !in t[..i]
    ensures CapitalizeAfterSpaces(t) == CapitalizeAfterSpaces(t[..i]) + [' '] + CapitalizeAfterSpaces(t[i + 1..])
  {
    var rest := t[i + 1..];
    var r := CapitalizeAfterSpaces(t[..i]) + [' '] + CapitalizeAfterSpaces(rest);
    var cas := CapitalizeAfterSpaces(t);
    forall k | 0 <= k < |t|
      ensures r[k] == cas[k]
    {
      if k > i {
        assert rest[k - i - 1] == t[k];
        assert k - i - 1 > 0 ==> rest[k - i - 2] == t[k - 1];
      }
    }
  }

  /** Split, capitalise each word and join is the same as upper-casing after every space. */
  lemma {:induction false} JoinCapitalizeSplit(t: string)
    ensures Join(CapitalizeAll(Split(t, ' ')), ' ') == CapitalizeAfterSpaces(t)
    decreases |t|
  {
    var i := CharIndex(t, ' ');
    if i == |t| {
      assert Split(t, ' ') == [t];
      assert CapitalizeAll([t]) == [Capitalize(t)];
      CapitalizeAfterSpacesOneWord(t);
    } else {
      var rest := t[i + 1..];
      var ws := Split(rest, ' ');
      assert Split(t, ' ') == [t[..i]] + ws;
      var caps := CapitalizeAll([t[..i]] + ws);
      assert caps[0] == Capitalize(t[..i]);
      assert caps[1..] == CapitalizeAll(ws);
      assert Join(caps, ' ') == Capitalize(t[..i]) + [' '] + Join(CapitalizeAll(ws), ' ');
      JoinCapitalizeSplit(rest);
      CapitalizeAfterSpacesOneWord(t[..i]);
      CapitalizeAfterSpacesFirstWord(t, i);
    }
  }

  /** formatFilename upper-cases the first character of the name and every character after a space, and changes nothing else. */
  lemma FormatFilenameMeaning(filename: string)
    ensures FormatFilename(filename) == CapitalizeAfterSpaces(Spaced(filename))
  {
    JoinCapitalizeSplit(Spaced(filename));
  }

  /** Upper-casing after spaces introduces no character outside a-z's images, so '_' and '-' stay absent. */
  lemma CapitalizeAfterSpacesAbsent(t: string)
    requires '_' !in t && '-' !in t
    ensures '_' !in CapitalizeAfterSpaces(t) && '-' !in CapitalizeAfterSpaces(t)
  {
    var r := CapitalizeAfterSpaces(t);
    forall k | 0 <= k < |r|
      ensures r[k] != '_' && r[k] != '-'
    {
      assert t[k] in t;
    }
  }

  /** The spaced name holds no '_' and no '-'. */
  lemma SpacedAbsent(filename: string)
    ensures '_' !in Spaced(filename) && '-' !in Spaced(filename)
  {
    var t := Spaced(filename);
    forall k | 0 <= k < |t|
      ensures t[k] != '_' && t[k] != '-'
    {
    }
  }

  /** The formatted name holds no '_' and no '-'. */
  lemma FormatFilenameHasNoSeparators(filename: string)
    ensures '_' !in FormatFilename(filename) && '-' !in FormatFilename(filename)
  {
    FormatFilenameMeaning(filename);
    SpacedAbsent(filename);
    CapitalizeAfterSpacesAbsent(Spaced(filename));
  }

  /** Only the first ".html" goes, so the formatted name is five characters shorter exactly when the name contains ".html". */
  lemma FormatFilenameLength(filename: string)
    ensures |FormatFilename(filename)| ==
      if IndexOf(filename, HtmlSuffix, 0).Some? then |filename| - 5 else |filename|
  {
    FormatFilenameMeaning(filename);
    ReplaceFirstEffect(filename, HtmlSuffix, "");
  }

  /** Neither the separator replacements nor the capitalisation touch an occurrence of ".html". */
  lemma HtmlSurvivesSpacing(u: string, p: nat)
    requires OccursAt(u, HtmlSuffix, p)
    ensures OccursAt(CapitalizeAfterSpaces(ReplaceAllChar(ReplaceAllChar(u, '_', ' '), '-', ' ')), HtmlSuffix, p)
  {
    var t := ReplaceAllChar(ReplaceAllChar(u, '_', ' '), '-', ' ');
    var r := CapitalizeAfterSpaces(t);
    forall k | 0 <= k < 5
      ensures r[p + k] == HtmlSuffix[k]
    {
      assert u[p + k] == u[p..p + 5][k] == HtmlSuffix[k];
      if k > 0 {
        assert u[p + k - 1] == u[p..p + 5][k - 1] == HtmlSuffix[k - 1];
      }
    }
    assert r[p..p + 5] == HtmlSuffix;
  }

  /** A ".html" that starts after the first one survives formatting, shifted left by five. */
  lemma FormatFilenameKeepsLaterHtml(filename: string, j: nat)
    requires IndexOf(filename, HtmlSuffix, 0).Some?
    requires IndexOf(filename, HtmlSuffix, 0).value + 5 <= j
    requires OccursAt(filename, HtmlSuffix, j)
    ensures OccursAt(FormatFilename(filename), HtmlSuffix, j - 5)
  {
    var u := ReplaceFirst(filename, HtmlSuffix, "");
    ReplaceFirstEffect(filename, HtmlSuffix, "");
    assert OccursAt(u, HtmlSuffix, j - 5);
    HtmlSurvivesSpacing(u, j - 5);
    FormatFilenameMeaning(filename);
  }

  /** The words of the formatted name are the capitalised words of the spaced name: one more word than spaces, empty words included. */
  lemma FormatFilenameWords(filename: string)
    ensures Split(FormatFilename(filename), ' ') == CapitalizeAll(Split(Spaced(filename), ' '))
    ensures |Split(FormatFilename(filename), ' ')| == multiset(Spaced(filename))[' '] + 1
  {
    var ws := Split(Spaced(filename), ' ');
    var caps := CapitalizeAll(ws);
    forall w <- caps
      ensures ' ' !in w
    {
      var i :| 0 <= i < |caps| && caps[i] == w;
      assert ws[i] in ws;
      forall k | 0 <= k < |w|
        ensures w[k] != ' '
      {
        assert ws[i][k] in ws[i];
      }
    }
    SplitJoin(caps, ' ');
    SplitCount(Spaced(filename), ' ');
  }
}
