/** The entry point of src/util/markdown/index.ts: HTML-ish input is
    preprocessed (entities, backslash escapes, line breaks), tokenized, parsed,
    rendered, and the escaped characters are put back. */
module Markdown {
  import opened Options
  import opened Strings
  import opened Replace
  import opened MarkdownTypes
  import opened MarkdownTokenizer
  import opened MarkdownParser
  import opened MarkdownGenerator

  // ---------------------------------------------------------------------------
  // Backslash escapes (index.ts lines 11-14)
  // ---------------------------------------------------------------------------

  /** The private-use characters that bracket the code of an escaped character
      while the text goes through the pipeline. */
  const SentinelOpen: char := '\U{E000}'
  const SentinelClose: char := '\U{E001}'

  /** The characters a backslash escapes: the range `1`..`~` and the listed
      punctuation, of which only `! # ( ) * + - .` lie outside that range. */
  predicate Escapable(c: char)
  {
    ('1' <= c <= '~') || c == '!' || c == '#' || c == '(' || c == ')' || c == '*' || c == '+' || c == '-' || c == '.'
  }

  /** The placeholder an escaped character becomes: its code in decimal
      between the two private-use characters. */
  function Sentinel(c: char): (r: string)
    ensures |r| >= 3 && r[0] == SentinelOpen && r[|r| - 1] == SentinelClose
  {
    [SentinelOpen] + NatToDecimal(c as nat) + [SentinelClose]
  }

  /** `text.replace(/\\(…)/g, …)`: scanning from the left, a backslash followed
      by an escapable character becomes that character's placeholder; matches do
      not overlap. */
  function SubstituteEscapes(s: string): string
    decreases |s|
  {
    if s == [] then ""
    else if |s| >= 2 && s[0] == '\\' && Escapable(s[1]) then Sentinel(s[1]) + SubstituteEscapes(s[2..])
    else [s[0]] + SubstituteEscapes(s[1..])
  }

  /** What escaping means to the reader: the backslash before each escapable
      character dropped, the character kept. */
  function DropEscapes(s: string): string
    decreases |s|
  {
    if s == [] then ""
    else if |s| >= 2 && s[0] == '\\' && Escapable(s[1]) then [s[1]] + DropEscapes(s[2..])
    else [s[0]] + DropEscapes(s[1..])
  }

  /** `preprocessHtml(input)`: `&nbsp;` to a space, then the escapes, then the
      line-break rewrites. */
  function Preprocess(s: string): string
  {
    NormalizeLineBreaks(SubstituteEscapes(ReplaceNbsp(s)))
  }

  // ---------------------------------------------------------------------------
  // restoreEscapedChars (index.ts lines 26-30)
  // ---------------------------------------------------------------------------

  /** Where the run of digits that starts at `j` ends. */
  function DigitRunEnd(s: string, j: nat): (r: nat)
    requires j <= |s|
    ensures j <= r <= |s| && AllDigits(s[j..r]) && (r < |s| ==> !IsDigit(s[r]))
    decreases |s| - j
  {
    if j == |s| || !IsDigit(s[j]) then j
    else
      var r := DigitRunEnd(s, j + 1);
      assert s[j..r] == [s[j]] + s[j + 1..r];
      r
  }

  /** `String.fromCharCode(n)`: the UTF-16 code unit `n` modulo 2^16. A lone
      surrogate code unit cannot be a `char` here and becomes U+FFFD. */
  function FromCharCode(n: nat): (c: char)
    ensures !(0xD800 <= n % 0x1_0000 < 0xE000) ==> c as int == n % 0x1_0000
    ensures n < 0xD800 ==> c as int == n
  {
    var u := n % 0x1_0000;
    if 0xD800 <= u < 0xE000 then '\U{FFFD}' else u as char
  }

  /** A placeholder at the start of `s`: its code and its length. The digit run
      is greedy, so a placeholder matches only when the run is closed right after
      its last digit. */
  function SentinelAt(s: string): (r: Option<(nat, nat)>)
    ensures r.Some? ==> 3 <= r.value.1 <= |s|
  {
    if s == [] || s[0] != SentinelOpen then None
    else
      var j := DigitRunEnd(s, 1);
      if j > 1 && j < |s| && s[j] == SentinelClose then Some((DecimalValue(s[1..j]), j + 1)) else None
  }

  /** `restoreEscapedChars(input)`: every placeholder, scanning from the left,
      replaced by the character with its code. */
  function Restore(s: string): string
    decreases |s|
  {
    if s == [] then ""
    else match SentinelAt(s)
      case Some((code, e)) => [FromCharCode(code)] + Restore(s[e..])
      case None => [s[0]] + Restore(s[1..])
  }

  // ---------------------------------------------------------------------------
  // parseMarkdown (index.ts lines 32-50)
  // ---------------------------------------------------------------------------

  /** The whole pipeline as a function of the input. The language-name lookup
      the parser consults is a parameter. */
  function MarkdownToHtml(input: string, isLanguage: string -> bool): string
  {
    var tokens := Lex(TokenizerRewrite(Preprocess(input)));
    var ast := ParseTokens(tokens, isLanguage);
    ParseWellShaped(tokens, isLanguage);
    WellShapedRenderable(ast);
    Restore(Generate(ast))
  }

  /** `parseMarkdown(input, withMarkdownLinks)`: the tokenizer and the parser
      objects run in turn. The result does not depend on `withMarkdownLinks`,
      which the tokenizer stores and never reads. */
  method ParseMarkdown(input: string, withMarkdownLinks: bool := false, isLanguage: string -> bool)
    returns (html: string)
    ensures html == MarkdownToHtml(input, isLanguage)
  {
    var preprocessed := Preprocess(input);
    var tokenizer := new Tokenizer(preprocessed, withMarkdownLinks);
    var tokens := tokenizer.Tokenize();
    var parser := new Parser(tokens, isLanguage);
    var ast := parser.Parse();
    ParseWellShaped(tokens, isLanguage);
    WellShapedRenderable(ast);
    html := Restore(Generate(ast));
  }

  // ---------------------------------------------------------------------------
  // Properties
  // ---------------------------------------------------------------------------

  /** Text without a placeholder opener. */
  predicate NoSentinel(s: string)
  {
    forall k :: 0 <= k < |s| ==> s[k] != SentinelOpen
  }

  /** A character that is not a placeholder opener is copied. */
  lemma {:induction false} RestoreCopies(x: char, t: string)
    requires x != SentinelOpen
    ensures Restore([x] + t) == [x] + Restore(t)
  {
    assert ([x] + t)[0] == x && ([x] + t)[1..] == t;
  }

  /** The digit run of a placeholder is the numeral of its code. */
  lemma {:induction false} DigitRunEndIs(s: string, j: nat, r: nat)
    requires j <= r < |s| && AllDigits(s[j..r]) && !IsDigit(s[r])
    ensures DigitRunEnd(s, j) == r
    decreases r - j
  {
    if j < r {
      assert s[j] == s[j..r][0];
      assert s[j + 1..r] == s[j..r][1..];
      DigitRunEndIs(s, j + 1, r);
    }
  }

  /** A placeholder restores to the character it stands for. */
  lemma {:induction false} RestoreSentinel(c: char, t: string)
    requires Escapable(c)
    ensures Restore(Sentinel(c) + t) == [c] + Restore(t)
  {
    var d := NatToDecimal(c as nat);
    var w := Sentinel(c) + t;
    assert w == [SentinelOpen] + d + [SentinelClose] + t;
    assert w[1..1 + |d|] == d && w[1 + |d|] == SentinelClose;
    DigitRunEndIs(w, 1, 1 + |d|);
    DecimalRoundTrip(c as nat);
    assert SentinelAt(w) == Some((c as nat, |d| + 2));
    assert w[|d| + 2..] == t;
  }

  /** On text free of placeholder openers, restoring undoes the escape
      substitution: the backslash of each escape is gone and its character is
      back. */
  lemma {:induction false} RestoreSubstitute(s: string)
    requires NoSentinel(s)
    ensures Restore(SubstituteEscapes(s)) == DropEscapes(s)
    decreases |s|
  {
    if s != [] {
      if |s| >= 2 && s[0] == '\\' && Escapable(s[1]) {
        assert NoSentinel(s[2..]) by {
          forall k | 0 <= k < |s[2..]| ensures s[2..][k] != SentinelOpen { assert s[2..][k] == s[k + 2]; }
        }
        RestoreSubstitute(s[2..]);
        RestoreSentinel(s[1], SubstituteEscapes(s[2..]));
      } else {
        assert NoSentinel(s[1..]) by {
          forall k | 0 <= k < |s[1..]| ensures s[1..][k] != SentinelOpen { assert s[1..][k] == s[k + 1]; }
        }
        RestoreSubstitute(s[1..]);
        RestoreCopies(s[0], SubstituteEscapes(s[1..]));
      }
    }
  }

  /** Text without a placeholder opener is not changed by restoring. */
  lemma {:induction false} RestoreIdentity(s: string)
    requires NoSentinel(s)
    ensures Restore(s) == s
    decreases |s|
  {
    if s != [] {
      assert s == [s[0]] + s[1..];
      assert NoSentinel(s[1..]) by {
        forall k | 0 <= k < |s[1..]| ensures s[1..][k] != SentinelOpen { assert s[1..][k] == s[k + 1]; }
      }
      RestoreIdentity(s[1..]);
      RestoreCopies(s[0], s[1..]);
    }
  }

  /** Text without a placeholder opener in front: restoring acts on the rest
      only. */
  lemma {:induction false} RestoreAfter(a: string, b: string)
    requires NoSentinel(a)
    ensures Restore(a + b) == a + Restore(b)
    decreases |a|
  {
    if a == [] {
      assert a + b == b;
    } else {
      assert a + b == [a[0]] + (a[1..] + b);
      assert NoSentinel(a[1..]) by {
        forall k | 0 <= k < |a[1..]| ensures a[1..][k] != SentinelOpen { assert a[1..][k] == a[k + 1]; }
      }
      RestoreCopies(a[0], a[1..] + b);
      RestoreAfter(a[1..], b);
      assert Restore(a + b) == [a[0]] + (a[1..] + Restore(b));
      AppendAssoc([a[0]], a[1..], Restore(b));
      assert a == [a[0]] + a[1..];
    }
  }

  /** Without a backslash nothing is substituted, and nothing is dropped. */
  lemma {:induction false} NoEscapesIdentity(s: string)
    requires forall k :: 0 <= k < |s| ==> s[k] != '\\'
    ensures SubstituteEscapes(s) == s && DropEscapes(s) == s
    decreases |s|
  {
    if s != [] {
      assert s == [s[0]] + s[1..];
      NoEscapesIdentity(s[1..]);
    }
  }

  /** A placeholder is inert: it contains no character the tokenizer, the HTML
      escaping, the line-break rewrites or `&nbsp;` react to. */
  lemma {:induction false} SentinelInert(c: char)
    ensures forall k :: 0 <= k < |Sentinel(c)| ==>
      PlainChar(Sentinel(c)[k]) && Sentinel(c)[k] != '<' && Sentinel(c)[k] != '&'
      && Sentinel(c)[k] != '\n' && !IsMarkupChar(Sentinel(c)[k])
    ensures EscapeHtml(Sentinel(c)) == Sentinel(c)
  {
    var w := Sentinel(c);
    var d := NatToDecimal(c as nat);
    assert w == [SentinelOpen] + d + [SentinelClose];
    assert forall k :: 0 <= k < |w| ==> w[k] == SentinelOpen || w[k] == SentinelClose || IsDigit(w[k]) by {
      forall k | 0 <= k < |w|
        ensures w[k] == SentinelOpen || w[k] == SentinelClose || IsDigit(w[k])
      {
        if 0 < k < |w| - 1 { assert w[k] == d[k - 1]; }
      }
    }
    EscapeHtmlIdentity(w);
  }

  /** An escaped character is placed in the HTML as it is, even inside code:
      the placeholder passes the HTML escaping untouched, and only afterwards is
      the character put back, so an escaped `<` in inline code comes out as a
      raw `<`. */
  lemma {:induction false} EscapedCharUnescapedInCode(c: char)
    requires Escapable(c)
    ensures Restore("<code>" + EscapeHtml(Sentinel(c)) + "</code>") == "<code>" + [c] + "</code>"
  {
    SentinelInert(c);
    var open: string := "<code>";
    var close: string := "</code>";
    var rest := Sentinel(c) + close;
    assert NoSentinel(open) && NoSentinel(close);
    RestoreAfter(open, rest);
    AppendAssoc(open, Sentinel(c), close);
    RestoreSentinel(c, close);
    RestoreIdentity(close);
    assert Restore(rest) == [c] + close;
    AppendAssoc(open, [c], close);
  }

  /** Characters the whole pipeline passes through: plain to the scanner and
      untouched by the HTML rewrites. */
  predicate InertText(s: string)
  {
    forall k :: 0 <= k < |s| ==> PlainChar(s[k]) && s[k] != '<' && s[k] != '&'
  }

  /** Text whose escape substitution leaves no markup, no HTML and no entity
      renders as the text with its escape backslashes dropped: every token is
      plain text or a newline, each becomes a text node, and text nodes render
      verbatim. */
  lemma {:induction false} EscapedTextRendering(s: string, isLanguage: string -> bool)
    requires NoSentinel(s) && forall k :: 0 <= k < |s| ==> s[k] != '&'
    requires InertText(SubstituteEscapes(s))
    ensures MarkdownToHtml(s, isLanguage) == DropEscapes(s)
  {
    var t := SubstituteEscapes(s);
    ReplaceNbspIdentity(s);
    NormalizeLineBreaksIdentity(t);
    assert Preprocess(s) == t;
    ReplaceNbspIdentity(t);
    assert TokenizerRewrite(t) == t;
    var toks := Lex(t);
    LexPlain(t);
    var n := |toks| - 1;
    assert PlainRun(toks, 0, n);
    PlainTokens(toks, n, isLanguage);
    var ast := ParseTokens(toks, isLanguage);
    assert ast == ContainerNode(Root, TextNodes(Init(toks)));
    RenderTextNodes(Init(toks));
    LexSpellsInput(t);
    assert Generate(ast) == t;
    RestoreSubstitute(s);
  }

  /** Plain text without markup, backslashes, HTML or entities comes out
      unchanged. */
  lemma {:induction false} PlainTextUnchanged(s: string, isLanguage: string -> bool)
    requires InertText(s) && NoSentinel(s)
    ensures MarkdownToHtml(s, isLanguage) == s
  {
    NoEscapesIdentity(s);
    EscapedTextRendering(s, isLanguage);
  }

  /** An escape at the front of the text: its placeholder, or its character
      with the backslash dropped, then the rest. */
  lemma {:induction false} EscapeStep(c: char, rest: string)
    requires Escapable(c)
    ensures SubstituteEscapes(['\\', c] + rest) == Sentinel(c) + SubstituteEscapes(rest)
    ensures DropEscapes(['\\', c] + rest) == [c] + DropEscapes(rest)
  {
    var s := ['\\', c] + rest;
    assert s[0] == '\\' && s[1] == c && s[2..] == rest;
  }

  lemma {:induction false} InertAppend(a: string, b: string)
    requires InertText(a) && InertText(b)
    ensures InertText(a + b)
  {
    forall k | 0 <= k < |a + b|
      ensures PlainChar((a + b)[k]) && (a + b)[k] != '<' && (a + b)[k] != '&'
    {
      if k < |a| { assert (a + b)[k] == a[k]; } else { assert (a + b)[k] == b[k - |a|]; }
    }
  }

  /** A span whose two-character markers are escaped: `\\m\\mb\\m\\m`. */
  function EscapedSpan(m: char, b: char): string
  {
    var e := ['\\', m];
    e + (e + ([b] + (e + e)))
  }

  /** The escapes of an escaped span, one step at a time. */
  lemma {:induction false} EscapedSpanEscapes(m: char, b: char)
    requires Escapable(m) && b != '\\'
    ensures var w := Sentinel(m);
      SubstituteEscapes(EscapedSpan(m, b)) == w + (w + ([b] + (w + w)))
      && DropEscapes(EscapedSpan(m, b)) == [m, m, b, m, m]
  {
    var w := Sentinel(m);
    var e := ['\\', m];
    var s2 := [b] + (e + e);
    EscapeStep(m, "");
    assert e + "" == e && w + "" == w && [m] + "" == [m];
    EscapeStep(m, e);
    assert s2[0] == b && s2[1..] == e + e;
    EscapeStep(m, s2);
    EscapeStep(m, e + s2);
  }

  /** The characters of an escaped span other than its markers and backslashes. */
  lemma {:induction false} EscapedSpanChars(m: char, b: char)
    ensures forall k :: 0 <= k < |EscapedSpan(m, b)| ==>
      EscapedSpan(m, b)[k] in {'\\', m, b}
  {
    var e := ['\\', m];
    var s := EscapedSpan(m, b);
    forall k | 0 <= k < |s|
      ensures s[k] in {'\\', m, b}
    {
      if k == 4 { assert s[k] == b; }
      else if k < 4 { assert s[k] == e[k % 2]; }
      else { assert s[k] == e[(k - 5) % 2]; }
    }
  }

  /** Escaped markers are text: with every marker escaped, `\\*\\*b\\*\\*`
      renders as `**b**` and not as a bold span; the same holds for every
      escapable marker character and any plain character in between. */
  lemma {:induction false} EscapedMarkersAreText(m: char, b: char, isLanguage: string -> bool)
    requires Escapable(m) && InertText([b]) && b != SentinelOpen
    ensures MarkdownToHtml(EscapedSpan(m, b), isLanguage) == [m, m, b, m, m]
  {
    var w := Sentinel(m);
    var s := EscapedSpan(m, b);
    assert b != '\\';
    EscapedSpanEscapes(m, b);
    EscapedSpanChars(m, b);
    assert m != SentinelOpen && m != '&';
    SentinelInert(m);
    assert InertText(w);
    InertAppend(w, w);
    InertAppend([b], w + w);
    InertAppend(w, [b] + (w + w));
    InertAppend(w, w + ([b] + (w + w)));
    EscapedTextRendering(s, isLanguage);
  }

  /** Inline code holding one escaped character. */
  function EscapedCode(c: char): string
  {
    ['`', '\\', c, '`']
  }

  /** Plain text between two backticks. */
  function Backticked(w: string): string
  {
    ['`'] + w + ['`']
  }

  /** A run the scanner reads as one text token: no stop character, and not
      starting with a character that is a token alone or opens HTML. */
  predicate PlainWord(w: string)
  {
    0 < |w| && w[0] !in {' ', '\r', '\t', '<'}
    && forall k :: 0 <= k < |w| ==> !IsStopChar(w[k])
  }

  lemma {:induction false} BacktickedChars(w: string)
    requires PlainWord(w)
    ensures var t := Backticked(w);
      t[0] == '`' && t[1] == w[0] && t[|t| - 1] == '`'
      && t[0..1] == "`" && t[1..|t| - 1] == w && t[|t| - 1..|t|] == "`"
      && forall k :: 1 <= k < |t| - 1 ==> !IsStopChar(t[k])
  {
    var t := Backticked(w);
    assert forall k :: 1 <= k < |t| - 1 ==> t[k] == w[k - 1];
  }

  /** The three scanner steps over a backticked plain run. */
  lemma {:induction false} BacktickedScans(w: string)
    requires PlainWord(w)
    ensures var t := Backticked(w);
      ScanOne(t, 0, true) == (Backtick, 1)
      && ScanOne(t, 1, false) == (TokenType.Text, |t| - 1)
      && ScanOne(t, |t| - 1, false) == (Backtick, |t|)
  {
    var t := Backticked(w);
    BacktickedChars(w);
    assert !IsStopChar(t[1]) && !IsDoubling(t[1]);
    assert BackslashRun(t, 1) == 0 && BackslashRun(t, 2) == 0;
    assert BackslashRun(t, |t|) == 0;
    TextRunEndIs(t, 2, |t| - 1);
  }

  /** The tokens of a backticked plain run: a backtick, the run as one text
      token, a backtick and the end. */
  lemma {:induction false} BacktickedTokens(w: string)
    requires PlainWord(w)
    ensures var t := Backticked(w);
      Lex(t) == [Token(Backtick, "`", 0), Token(TokenType.Text, w, 1),
                 Token(Backtick, "`", |t| - 1), Token(Eof, "`", |t| - 1)]
  {
    var t := Backticked(w);
    var n := |t|;
    BacktickedChars(w);
    BacktickedScans(w);
    var r3 := LexFrom(t, n, n - 1);
    assert r3 == [Token(Eof, "`", n - 1)];
    LexFromScanned(t, n - 1, 1, Backtick, n);
    LexFromScanned(t, 1, 0, TokenType.Text, n - 1);
    LexFromScanned(t, 0, 0, Backtick, 1);
    assert Lex(t) == [Token(Backtick, "`", 0)] + ([Token(TokenType.Text, w, 1)]
      + ([Token(Backtick, "`", n - 1)] + r3));
  }

  /** Those tokens parse to one inline code node holding the run. */
  lemma {:induction false} BacktickedParse(w: string, isLanguage: string -> bool)
    ensures var toks := [Token(Backtick, "`", 0), Token(TokenType.Text, w, 1),
                         Token(Backtick, "`", |w| + 1), Token(Eof, "`", |w| + 1)];
      ParseTokens(toks, isLanguage) == ContainerNode(Root, [ASTNode(Code, Some(w), Absent, None)])
  {
    var toks := [Token(Backtick, "`", 0), Token(TokenType.Text, w, 1),
                 Token(Backtick, "`", |w| + 1), Token(Eof, "`", |w| + 1)];
    var code := ASTNode(Code, Some(w), Absent, None);
    assert InlineCodeBody(toks, 2) == ("", true, 3);
    assert w + "" == w;
    assert InlineCodeBody(toks, 1) == (w, true, 3);
    assert ParseNodeAt(toks, 0, {}, isLanguage) == (Some(code), 3);
    SingleNode(toks, code, 3, isLanguage);
  }

  /** The escape in inline code becomes its placeholder between the backticks. */
  lemma {:induction false} EscapedCodePreprocess(c: char)
    requires Escapable(c)
    ensures TokenizerRewrite(Preprocess(EscapedCode(c))) == Backticked(Sentinel(c))
  {
    var s := EscapedCode(c);
    var w := Sentinel(c);
    var t := Backticked(w);
    SentinelInert(c);
    ReplaceNbspIdentity(s);
    assert s[0] == '`' && s[1..] == ['\\', c] + "`";
    EscapeStep(c, "`");
    assert SubstituteEscapes("`") == "`";
    assert SubstituteEscapes(s) == t;
    assert forall k :: 1 <= k < |t| - 1 ==> t[k] == w[k - 1];
    NormalizeLineBreaksIdentity(t);
    ReplaceNbspIdentity(t);
  }

  /** An escaped character inside inline code comes out as the raw character:
      the placeholder is HTML-escaped as code content, and the restoration
      after generation puts the character back without escaping it, so
      `` `\<` `` yields `<code><</code>`. */
  lemma {:induction false} EscapedCharInInlineCode(c: char, isLanguage: string -> bool)
    requires Escapable(c)
    ensures MarkdownToHtml(EscapedCode(c), isLanguage) == "<code>" + [c] + "</code>"
  {
    var code := ASTNode(Code, Some(Sentinel(c)), Absent, None);
    EscapedCodeAst(c, isLanguage);
    CodeRootHtml(Sentinel(c));
    EscapedCharUnescapedInCode(c);
    assert MarkdownToHtml(EscapedCode(c), isLanguage) == Restore(Generate(ContainerNode(Root, [code])));
  }

  /** The front half of the pipeline on an escaped character in inline code:
      a root over one `code` node holding the placeholder. */
  lemma {:induction false} EscapedCodeAst(c: char, isLanguage: string -> bool)
    requires Escapable(c)
    ensures ParseTokens(Lex(TokenizerRewrite(Preprocess(EscapedCode(c)))), isLanguage)
      == ContainerNode(Root, [ASTNode(Code, Some(Sentinel(c)), Absent, None)])
  {
    var w := Sentinel(c);
    SentinelInert(c);
    EscapedCodePreprocess(c);
    assert PlainWord(w);
    BacktickedTokens(w);
    BacktickedParse(w, isLanguage);
  }

  /** A root over one `code` node renders as that node's `code` element. */
  lemma {:induction false} CodeRootHtml(w: string)
    ensures var code := ASTNode(Code, Some(w), Absent, None);
      Renderable(ContainerNode(Root, [code]))
      && Generate(ContainerNode(Root, [code])) == "<code>" + EscapeHtml(w) + "</code>"
  {
    var code := ASTNode(Code, Some(w), Absent, None);
    CodeRendering(w);
    RenderOne(code);
  }
}
