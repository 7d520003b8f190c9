/** Hand-written versions of the global `String.prototype.replace` calls that the
    markdown code makes with fixed regular expressions. A global replace scans left
    to right, replaces the leftmost match, and resumes after it; none of the
    patterns below can match the empty string. */
module Replace {
  import opened Options
  import opened Strings

  /** The regular expressions the source passes to a global replace. */
  datatype Pattern =
    | Literal(text: string)   // a fixed string: /&nbsp;/g, /<div>/g, /<\/div>/g, /&/g, ...
    | DivBr                   // /<div><br([^>]*)?><\/div>/g
    | Br                      // /<br([^>]*)?>/g
    | DivCloseOpen            // /<\/div>(\s*)<div>/g

  predicate ValidPattern(p: Pattern)
  {
    p.Literal? ==> p.text != ""
  }

  /** The character every match of `p` starts with. */
  function FirstChar(p: Pattern): char
    requires ValidPattern(p)
  {
    match p
    case Literal(t) => t[0]
    case _ => '<'
  }

  /** `p` occurs in `s` at index `i`. */
  predicate At(s: string, i: nat, p: string)
  {
    i + |p| <= |s| && s[i..i + |p|] == p
  }

  /** Index of the first `c` in `s` at or after `i`. */
  function FindFrom(s: string, i: nat, c: char): (r: Option<nat>)
    requires i <= |s|
    ensures r.Some? ==> i <= r.value < |s| && s[r.value] == c
    decreases |s| - i
  {
    if i == |s| then None
    else if s[i] == c then Some(i)
    else FindFrom(s, i + 1, c)
  }

  /** `FindFrom` finds the first occurrence: there is none before it. */
  lemma {:induction false} FindFromFirst(s: string, i: nat, c: char)
    requires i <= |s|
    ensures var r := FindFrom(s, i, c);
      forall k :: i <= k < |s| && (r.None? || k < r.value) ==> s[k] != c
    decreases |s| - i
  {
    if i < |s| && s[i] != c {
      FindFromFirst(s, i + 1, c);
    }
  }

  /** Index just after the run of `\s` characters that starts at `i`. */
  function SkipWhitespace(s: string, i: nat): (r: nat)
    requires i <= |s|
    ensures i <= r <= |s|
    decreases |s| - i
  {
    if i < |s| && IsJsWhitespace(s[i]) then SkipWhitespace(s, i + 1) else i
  }

  /** `SkipWhitespace` stops at the first non-space. */
  lemma {:induction false} SkipWhitespaceMaximal(s: string, i: nat)
    requires i <= |s|
    ensures var r := SkipWhitespace(s, i);
      (forall k :: i <= k < r ==> IsJsWhitespace(s[k])) && (r < |s| ==> !IsJsWhitespace(s[r]))
    decreases |s| - i
  {
    if i < |s| && IsJsWhitespace(s[i]) {
      SkipWhitespaceMaximal(s, i + 1);
    }
  }

  /** Where the match of `p` that starts at `i` ends, if there is one. For these
      patterns backtracking never finds a second candidate: `[^>]*` must stop at
      the first `>` and `\s*` at the first non-space for the rest to match. */
  function MatchAt(p: Pattern, s: string, i: nat): (r: Option<nat>)
    requires ValidPattern(p) && i <= |s|
    ensures r.Some? ==> i < r.value <= |s| && s[i] == FirstChar(p)
  {
    match p
    case Literal(t) =>
      if At(s, i, t) then Some(i + |t|) else None
    case DivBr =>
      if !At(s, i, "<div><br") then None
      else (match FindFrom(s, i + 8, '>')
        case Some(j) => if At(s, j, "></div>") then Some(j + 7) else None
        case None => None)
    case Br =>
      if !At(s, i, "<br") then None
      else (match FindFrom(s, i + 3, '>')
        case Some(j) => Some(j + 1)
        case None => None)
    case DivCloseOpen =>
      if !At(s, i, "</div>") then None
      else
        var j := SkipWhitespace(s, i + 6);
        if At(s, j, "<div>") then Some(j + 5) else None
  }

  /** The strings each pattern's regular expression denotes, stated directly. */
  predicate InLanguage(p: Pattern, w: string)
  {
    match p
    case Literal(t) => w == t
    case DivBr =>
      |w| >= 15 && w[..8] == "<div><br" && w[|w| - 7..] == "></div>"
      && forall k :: 8 <= k < |w| - 7 ==> w[k] != '>'
    case Br =>
      |w| >= 4 && w[..3] == "<br" && w[|w| - 1] == '>'
      && forall k :: 3 <= k < |w| - 1 ==> w[k] != '>'
    case DivCloseOpen =>
      |w| >= 11 && w[..6] == "</div>" && w[|w| - 5..] == "<div>"
      && forall k :: 6 <= k < |w| - 5 ==> IsJsWhitespace(w[k])
  }

  /** The scanner finds exactly the matches the regular expression denotes:
      `MatchAt` reports the end `e` precisely when `s[i..e]` is in the pattern's language. */
  lemma {:induction false} MatchAtIsRegexMatch(p: Pattern, s: string, i: nat, e: nat)
    requires ValidPattern(p) && i <= e <= |s|
    ensures MatchAt(p, s, i) == Some(e) <==> InLanguage(p, s[i..e])
  {
    match p
    case Literal(t) =>
    case DivBr =>
      if InLanguage(p, s[i..e]) { DivBrFromLanguage(s, i, e); }
      if MatchAt(p, s, i) == Some(e) { DivBrToLanguage(s, i, e); }
    case Br =>
      if InLanguage(p, s[i..e]) { BrFromLanguage(s, i, e); }
      if MatchAt(p, s, i) == Some(e) { BrToLanguage(s, i, e); }
    case DivCloseOpen =>
      if InLanguage(p, s[i..e]) { DivCloseOpenFromLanguage(s, i, e); }
      if MatchAt(p, s, i) == Some(e) { DivCloseOpenToLanguage(s, i, e); }
  }

  lemma {:induction false} DivBrFromLanguage(s: string, i: nat, e: nat)
    requires i <= e <= |s| && InLanguage(DivBr, s[i..e])
    ensures MatchAt(DivBr, s, i) == Some(e)
  {
    var w := s[i..e];
    assert s[i..i + 8] == w[..8];
    var j := e - 7;
    assert s[j..e] == w[|w| - 7..];
    forall k | i + 8 <= k < j ensures s[k] != '>' {
      assert s[k] == w[k - i];
    }
    FindFromStops(s, i + 8, j, '>');
  }

  lemma {:induction false} DivBrToLanguage(s: string, i: nat, e: nat)
    requires i <= e <= |s| && MatchAt(DivBr, s, i) == Some(e)
    ensures InLanguage(DivBr, s[i..e])
  {
    var w := s[i..e];
    var j := FindFrom(s, i + 8, '>').value;
    FindFromFirst(s, i + 8, '>');
    assert e == j + 7;
    assert w[..8] == s[i..i + 8];
    assert w[|w| - 7..] == s[j..j + 7];
    forall k | 8 <= k < |w| - 7 ensures w[k] != '>' {
      assert w[k] == s[i + k];
    }
  }

  lemma {:induction false} BrFromLanguage(s: string, i: nat, e: nat)
    requires i <= e <= |s| && InLanguage(Br, s[i..e])
    ensures MatchAt(Br, s, i) == Some(e)
  {
    var w := s[i..e];
    assert s[i..i + 3] == w[..3];
    var j := e - 1;
    assert s[j] == w[|w| - 1];
    forall k | i + 3 <= k < j ensures s[k] != '>' {
      assert s[k] == w[k - i];
    }
    FindFromStops(s, i + 3, j, '>');
  }

  lemma {:induction false} BrToLanguage(s: string, i: nat, e: nat)
    requires i <= e <= |s| && MatchAt(Br, s, i) == Some(e)
    ensures InLanguage(Br, s[i..e])
  {
    var w := s[i..e];
    FindFromFirst(s, i + 3, '>');
    assert w[..3] == s[i..i + 3];
    forall k | 3 <= k < |w| - 1 ensures w[k] != '>' {
      assert w[k] == s[i + k];
    }
  }

  lemma {:induction false} DivCloseOpenFromLanguage(s: string, i: nat, e: nat)
    requires i <= e <= |s| && InLanguage(DivCloseOpen, s[i..e])
    ensures MatchAt(DivCloseOpen, s, i) == Some(e)
  {
    var w := s[i..e];
    assert s[i..i + 6] == w[..6];
    var j := e - 5;
    assert s[j..e] == w[|w| - 5..];
    forall k | i + 6 <= k < j ensures IsJsWhitespace(s[k]) {
      assert s[k] == w[k - i];
    }
    assert !IsJsWhitespace(s[j]);
    SkipWhitespaceStops(s, i + 6, j);
  }

  lemma {:induction false} DivCloseOpenToLanguage(s: string, i: nat, e: nat)
    requires i <= e <= |s| && MatchAt(DivCloseOpen, s, i) == Some(e)
    ensures InLanguage(DivCloseOpen, s[i..e])
  {
    var w := s[i..e];
    var j := SkipWhitespace(s, i + 6);
    SkipWhitespaceMaximal(s, i + 6);
    assert e == j + 5;
    assert w[..6] == s[i..i + 6];
    assert w[|w| - 5..] == s[j..j + 5];
    forall k | 6 <= k < |w| - 5 ensures IsJsWhitespace(w[k]) {
      assert w[k] == s[i + k];
    }
  }

  lemma {:induction false} FindFromStops(s: string, i: nat, j: nat, c: char)
    requires i <= j < |s| && s[j] == c
    requires forall k :: i <= k < j ==> s[k] != c
    ensures FindFrom(s, i, c) == Some(j)
    decreases j - i
  {
    if i < j {
      FindFromStops(s, i + 1, j, c);
    }
  }

  lemma {:induction false} SkipWhitespaceStops(s: string, i: nat, j: nat)
    requires i <= j < |s| && !IsJsWhitespace(s[j])
    requires forall k :: i <= k < j ==> IsJsWhitespace(s[k])
    ensures SkipWhitespace(s, i) == j
    decreases j - i
  {
    if i < j {
      SkipWhitespaceStops(s, i + 1, j);
    }
  }

  /** The global replace of `p` by `rep` in `s[i..]`. */
  function ReplaceFrom(p: Pattern, s: string, rep: string, i: nat): string
    requires ValidPattern(p) && i <= |s|
    decreases |s| - i
  {
    if i == |s| then ""
    else match MatchAt(p, s, i)
      case Some(e) => rep + ReplaceFrom(p, s, rep, e)
      case None => [s[i]] + ReplaceFrom(p, s, rep, i + 1)
  }

  /** `s.replace(p, rep)` with the global flag. */
  function ReplaceAll(p: Pattern, s: string, rep: string): string
    requires ValidPattern(p)
  {
    ReplaceFrom(p, s, rep, 0)
  }

  /** A string in which no match can start is left unchanged. */
  lemma {:induction false} ReplaceFromIdentity(p: Pattern, s: string, rep: string, i: nat)
    requires ValidPattern(p) && i <= |s|
    requires forall k :: i <= k < |s| ==> s[k] != FirstChar(p)
    ensures ReplaceFrom(p, s, rep, i) == s[i..]
    decreases |s| - i
  {
    if i < |s| {
      ReplaceFromIdentity(p, s, rep, i + 1);
      assert s[i..] == [s[i]] + s[i + 1..];
    }
  }

  lemma {:induction false} ReplaceAllIdentity(p: Pattern, s: string, rep: string)
    requires ValidPattern(p)
    requires forall k :: 0 <= k < |s| ==> s[k] != FirstChar(p)
    ensures ReplaceAll(p, s, rep) == s
  {
    ReplaceFromIdentity(p, s, rep, 0);
  }

  /** `s` with every `c` dropped and the other characters kept in order. */
  function Without(s: string, c: char): string
  {
    if s == [] then [] else (if s[0] == c then [] else [s[0]]) + Without(s[1..], c)
  }

  /** No `c` is left in `Without(s, c)`. */
  lemma {:induction false} WithoutAbsent(s: string, c: char)
    ensures forall k :: 0 <= k < |Without(s, c)| ==> Without(s, c)[k] != c
  {
    if s != [] {
      WithoutAbsent(s[1..], c);
    }
  }

  /** A global replace of a one-character literal by "" drops exactly that
      character from `s[i..]`. */
  lemma {:induction false} DeleteCharFrom(c: char, s: string, i: nat)
    requires i <= |s|
    ensures ReplaceFrom(Literal([c]), s, "", i) == Without(s[i..], c)
    decreases |s| - i
  {
    if i < |s| {
      DeleteCharFrom(c, s, i + 1);
      assert s[i..][1..] == s[i + 1..];
      assert s[i..i + 1] == [s[i]];
    }
  }

  /** `s.replace(/c/g, "")` keeps every other character in order and leaves no
      `c`. */
  lemma {:induction false} DeleteChar(c: char, s: string)
    ensures ReplaceAll(Literal([c]), s, "") == Without(s, c)
    ensures forall k :: 0 <= k < |ReplaceAll(Literal([c]), s, "")| ==> ReplaceAll(Literal([c]), s, "")[k] != c
  {
    DeleteCharFrom(c, s, 0);
    assert s[0..] == s;
    WithoutAbsent(s, c);
  }

  // ---------------------------------------------------------------------------
  // The two rewrite pipelines that tokenizer.ts and index.ts both run
  // ---------------------------------------------------------------------------

  /** `text.replace(/&nbsp;/g, ' ')`. */
  function ReplaceNbsp(s: string): string
  {
    ReplaceAll(Literal("&nbsp;"), s, " ")
  }

  /** The five HTML line-break rewrites, in the source's order: a Safari
      `<div><br…></div>` and a bare `<br…>` become a newline, a `</div>` followed by
      optional whitespace and `<div>` becomes a newline, a remaining `<div>`
      becomes a newline, and a remaining `</div>` is deleted. */
  function NormalizeLineBreaks(s: string): string
  {
    var a := ReplaceAll(DivBr, s, "\n");
    var b := ReplaceAll(Br, a, "\n");
    var c := ReplaceAll(DivCloseOpen, b, "\n");
    var d := ReplaceAll(Literal("<div>"), c, "\n");
    ReplaceAll(Literal("</div>"), d, "")
  }

  /** Text without `&` has no `&nbsp;` to replace. */
  lemma {:induction false} ReplaceNbspIdentity(s: string)
    requires forall k :: 0 <= k < |s| ==> s[k] != '&'
    ensures ReplaceNbsp(s) == s
  {
    ReplaceAllIdentity(Literal("&nbsp;"), s, " ");
  }

  /** Text without `<` contains no markup for the line-break rewrites to touch. */
  lemma {:induction false} NormalizeLineBreaksIdentity(s: string)
    requires forall k :: 0 <= k < |s| ==> s[k] != '<'
    ensures NormalizeLineBreaks(s) == s
  {
    ReplaceAllIdentity(DivBr, s, "\n");
    ReplaceAllIdentity(Br, s, "\n");
    ReplaceAllIdentity(DivCloseOpen, s, "\n");
    ReplaceAllIdentity(Literal("<div>"), s, "\n");
    ReplaceAllIdentity(Literal("</div>"), s, "");
  }
}
