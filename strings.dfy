/**
 * The JavaScript string built-ins the site's scripts rely on (startsWith, endsWith,
 * indexOf, replace with a string pattern, replace with a one-character global regex,
 * split/join on one character, trim, toUpperCase on ASCII) and JavaScript's
 * truthiness of an optional string. Strings are sequences of characters; the
 * UTF-16 code-unit view of JavaScript is not modelled.
 */
module Strings {
  import opened Wrappers

  /** `if (x)` for a value that is a string or undefined: the empty string is falsy. */
  predicate Truthy(o: Option<string>) {
    o.Some? && o.value != ""
  }

  /** How a template literal renders a string or undefined. */
  function JsText(o: Option<string>): string {
    match o
    case Some(s) => s
    case None => "undefined"
  }

  predicate StartsWith(s: string, p: string) {
    |p| <= |s| && s[..|p|] == p
  }

  predicate EndsWith(s: string, p: string) {
    |p| <= |s| && s[|s| - |p|..] == p
  }

  /** `pat` occurs in `s` starting at index `i`. */
  predicate OccursAt(s: string, pat: string, i: nat) {
    i + |pat| <= |s| && s[i..i + |pat|] == pat
  }

  /** `s.indexOf(pat, from)`: the first occurrence at or after `from`. */
  function IndexOf(s: string, pat: string, from: nat): (r: Option<nat>)
    ensures r.Some? ==> from <= r.value && OccursAt(s, pat, r.value)
    ensures r.Some? ==> forall k :: from <= k < r.value ==> !OccursAt(s, pat, k)
    ensures r.None? ==> forall k: nat :: from <= k ==> !OccursAt(s, pat, k)
    decreases |s| - from
  {
    if from + |pat| > |s| then None
    else if OccursAt(s, pat, from) then Some(from)
    else IndexOf(s, pat, from + 1)
  }

  /** `s.replace(pat, rep)` with a string pattern: only the first occurrence is replaced. */
  function ReplaceFirst(s: string, pat: string, rep: string): string {
    match IndexOf(s, pat, 0)
    case None => s
    case Some(i) => s[..i] + rep + s[i + |pat|..]
  }

  /** The first occurrence is the one replaced, and every occurrence that starts after it survives. */
  lemma ReplaceFirstEffect(s: string, pat: string, rep: string)
    requires |pat| > 0
    ensures IndexOf(s, pat, 0).None? ==> ReplaceFirst(s, pat, rep) == s
    ensures IndexOf(s, pat, 0).Some? ==>
      var i := IndexOf(s, pat, 0).value;
      var r := ReplaceFirst(s, pat, rep);
      && |r| == |s| - |pat| + |rep|
      && r[..i] == s[..i]
      && r[i..i + |rep|] == rep
      && (forall j :: i + |pat| <= j && OccursAt(s, pat, j) ==> OccursAt(r, pat, j - |pat| + |rep|))
  {
    if IndexOf(s, pat, 0).Some? {
      var i := IndexOf(s, pat, 0).value;
      var r := ReplaceFirst(s, pat, rep);
      assert r == s[..i] + rep + s[i + |pat|..];
      forall j | i + |pat| <= j && OccursAt(s, pat, j)
        ensures OccursAt(r, pat, j - |pat| + |rep|)
      {
        var j' := j - |pat| + |rep|;
        assert r[j'..j' + |pat|] == s[j..j + |pat|];
      }
    }
  }

  /** `s.replace(/c/g, d)` for a single character `c`. */
  function ReplaceAllChar(s: string, c: char, d: char): (r: string)
    ensures |r| == |s|
    ensures forall k :: 0 <= k < |s| ==> r[k] == (if s[k] == c then d else s[k])
  {
    if |s| == 0 then "" else [if s[0] == c then d else s[0]] + ReplaceAllChar(s[1..], c, d)
  }

  /** `c.toUpperCase()` restricted to ASCII: only a-z change. */
  function UpperAscii(c: char): (u: char)
    ensures 'a' <= c <= 'z' ==> 'A' <= u <= 'Z' && u as int == c as int - 32
    ensures !('a' <= c <= 'z') ==> u == c
  {
    if 'a' <= c <= 'z' then (c as int - 32) as char else c
  }

  /** Index of the first `c` in `s`, or `|s|` when there is none. */
  function CharIndex(s: string, c: char): (i: nat)
    ensures i <= |s|
    ensures i < |s| ==> s[i] == c
    ensures forall k :: 0 <= k < i ==> s[k] != c
  {
    if |s| == 0 then 0 else if s[0] == c then 0 else 1 + CharIndex(s[1..], c)
  }

  /** `s.split(sep)` for a one-character separator: never empty, no piece holds `sep`. */
  function Split(s: string, sep: char): (ws: seq<string>)
    ensures |ws| >= 1
    ensures forall w <- ws :: sep !in w
    decreases |s|
  {
    var i := CharIndex(s, sep);
    if i == |s| then [s] else [s[..i]] + Split(s[i + 1..], sep)
  }

  /** `ws.join(sep)`. */
  function Join(ws: seq<string>, sep: char): string {
    if |ws| == 0 then ""
    else if |ws| == 1 then ws[0]
    else ws[0] + [sep] + Join(ws[1..], sep)
  }

  /** Joining the pieces of a split gives back the string. */
  lemma {:induction false} JoinSplit(s: string, sep: char)
    ensures Join(Split(s, sep), sep) == s
    decreases |s|
  {
    var i := CharIndex(s, sep);
    if i < |s| {
      var ws := Split(s[i + 1..], sep);
      assert Split(s, sep) == [s[..i]] + ws;
      assert ([s[..i]] + ws)[1..] == ws;
      assert Join([s[..i]] + ws, sep) == s[..i] + [sep] + Join(ws, sep);
      JoinSplit(s[i + 1..], sep);
      assert s == s[..i] + [sep] + s[i + 1..];
    } else {
      assert Split(s, sep) == [s];
    }
  }

  /** The first separator of `w + [sep] + rest` is the one after `w` when `w` holds none. */
  lemma {:induction false} CharIndexAfter(w: string, sep: char, rest: string)
    requires sep !in w
    ensures CharIndex(w + rest, sep) == |w| + CharIndex(rest, sep)
  {
    if |w| > 0 {
      assert (w + rest)[1..] == w[1..] + rest;
      CharIndexAfter(w[1..], sep, rest);
    } else {
      assert w + rest == rest;
    }
  }

  /** Splitting a join of separator-free pieces gives back the pieces. */
  lemma {:induction false} SplitJoin(ws: seq<string>, sep: char)
    requires |ws| >= 1
    requires forall w <- ws :: sep !in w
    ensures Split(Join(ws, sep), sep) == ws
  {
    var w := ws[0];
    assert ws[0] in ws;
    if |ws| == 1 {
      CharIndexAfter(w, sep, "");
      assert w + "" == w;
    } else {
      var tail := Join(ws[1..], sep);
      var s := Join(ws, sep);
      assert s == w + ([sep] + tail);
      CharIndexAfter(w, sep, [sep] + tail);
      assert CharIndex(s, sep) == |w|;
      assert s[..|w|] == w;
      assert s[|w| + 1..] == tail;
      SplitJoin(ws[1..], sep);
    }
  }

  /** A split yields one more piece than there are separators. */
  lemma {:induction false} SplitCount(s: string, sep: char)
    ensures |Split(s, sep)| == multiset(s)[sep] + 1
    decreases |s|
  {
    var i := CharIndex(s, sep);
    assert sep !in multiset(s[..i]);
    if i == |s| {
      assert s[..i] == s;
    } else {
      SplitCount(s[i + 1..], sep);
      assert s == s[..i] + [sep] + s[i + 1..];
      assert multiset(s) == multiset(s[..i]) + multiset{sep} + multiset(s[i + 1..]);
    }
  }

  /** The characters String.prototype.trim removes: WhiteSpace and LineTerminator of ECMAScript. */
  predicate IsJsWhitespace(c: char) {
    || c == '\t' || c == '\n' || c == '\U{B}' || c == '\U{C}' || c == '\r' || c == ' '
    || c == '\U{A0}' || c == '\U{1680}' || ('\U{2000}' <= c <= '\U{200A}')
    || c == '\U{2028}' || c == '\U{2029}' || c == '\U{202F}' || c == '\U{205F}' || c == '\U{3000}'
    || c == '\U{FEFF}'
  }

  /** The end of the run of whitespace that starts at `i`. */
  function LeadingEnd(s: string, i: nat): (n: nat)
    requires i <= |s|
    ensures i <= n <= |s|
    ensures forall k :: i <= k < n ==> IsJsWhitespace(s[k])
    ensures n < |s| ==> !IsJsWhitespace(s[n])
    decreases |s| - i
  {
    if i < |s| && IsJsWhitespace(s[i]) then LeadingEnd(s, i + 1) else i
  }

  /** The start of the run of whitespace that ends at `j`, not going below `lo`. */
  function TrailingStart(s: string, lo: nat, j: nat): (n: nat)
    requires lo <= j <= |s|
    ensures lo <= n <= j
    ensures forall k :: n <= k < j ==> IsJsWhitespace(s[k])
    ensures n > lo ==> !IsJsWhitespace(s[n - 1])
    decreases j
  {
    if j > lo && IsJsWhitespace(s[j - 1]) then TrailingStart(s, lo, j - 1) else j
  }

  /** `r` is the slice of `s` starting at `a` and only whitespace lies outside it. */
  predicate TrimmedSlice(s: string, r: string, a: nat) {
    && a + |r| <= |s|
    && (forall k :: 0 <= k < |r| ==> r[k] == s[a + k])
    && (forall k :: 0 <= k < a ==> IsJsWhitespace(s[k]))
    && (forall k :: a + |r| <= k < |s| ==> IsJsWhitespace(s[k]))
  }

  /**
   * `s.trim()`: the slice of `s` left when whitespace is cut from both ends;
   * it neither starts nor ends with whitespace.
   */
  function Trim(s: string): (r: string)
    ensures exists a :: TrimmedSlice(s, r, a)
    ensures r != "" ==> !IsJsWhitespace(r[0]) && !IsJsWhitespace(r[|r| - 1])
  {
    var a := LeadingEnd(s, 0);
    var b := TrailingStart(s, a, |s|);
    assert TrimmedSlice(s, s[a..b], a);
    s[a..b]
  }

  /** Every character is a decimal digit. */
  predicate IsDigits(s: string) {
    forall i :: 0 <= i < |s| ==> '0' <= s[i] <= '9'
  }

  /** Decimal rendering of a natural number, as `n.toString()`: digits only, one digit below ten, no leading zero. */
  function NatToString(n: nat): (r: string)
    ensures |r| >= 1 && IsDigits(r)
    ensures n < 10 ==> r == [('0' as int + n) as char]
    ensures n > 0 ==> r[0] != '0'
  {
    if n < 10 then [('0' as int + n) as char]
    else NatToString(n / 10) + [('0' as int + n % 10) as char]
  }

  /** The number a string of decimal digits denotes, as `parseInt` reads it. */
  function DigitsValue(s: string): nat
    requires IsDigits(s)
  {
    if |s| == 0 then 0
    else DigitsValue(s[..|s| - 1]) * 10 + (s[|s| - 1] as int - '0' as int)
  }

  /** `parseInt(n.toString())` gives back n. */
  lemma {:induction false} NatToStringRoundTrip(n: nat)
    ensures DigitsValue(NatToString(n)) == n
  {
    var r := NatToString(n);
    if n < 10 {
      assert r[..0] == [];
    } else {
      var q := n / 10;
      var d := n % 10;
      var p := NatToString(q);
      assert r == p + [('0' as int + d) as char];
      assert r[..|r| - 1] == p;
      NatToStringRoundTrip(q);
      assert DigitsValue(r) == DigitsValue(p) * 10 + d;
      assert q * 10 + d == n;
    }
  }
}
