/** The recursive-descent parser of src/util/markdown/parser.ts: a token list
    becomes a syntax tree of text, spans (bold, italic, underline, strike,
    spoiler), inline code and fenced code blocks.

    The functions come first and are the specification: each one takes the token
    list, the cursor and the set of span markers that are open, and returns what
    a parser method returns together with where the cursor ends. The class
    `Parser` below keeps the cursor and the open markers in fields, as the source
    does, and each of its methods is proved to agree with its function. */
module MarkdownParser {
  import opened Options
  import opened Strings
  import opened Replace
  import opened MarkdownTypes

  // ---------------------------------------------------------------------------
  // The span markers (parser.ts lines 18-26)
  // ---------------------------------------------------------------------------

  /** One row of the marker table: the opening token, the node it builds, the
      text it stands for when it is left unclosed, and the token that closes it. */
  datatype MarkerInfo = MarkerInfo(kind: TokenType, nodeType: NodeType, symbol: string, closing: TokenType)

  /** The table, in the source's order (lookups take the first match). */
  const Markers: seq<MarkerInfo> := [
    MarkerInfo(DoubleUnderscore, Underline, "__", DoubleUnderscore),
    MarkerInfo(DoubleAsterisk, Bold, "**", DoubleAsterisk),
    MarkerInfo(Underscore, Italic, "_", Underscore),
    MarkerInfo(Asterisk, Bold, "*", Asterisk),
    MarkerInfo(Tilde, Strike, "~", Tilde),
    MarkerInfo(DoubleTilde, Strike, "~~", DoubleTilde),
    MarkerInfo(DoublePipe, Spoiler, "||", DoublePipe)
  ]

  /** The node kinds a marker builds. */
  predicate IsSpanKind(k: NodeType)
  {
    k == Bold || k == Italic || k == Underline || k == Strike || k == Spoiler
  }

  /** `MARKERS.find(m => m.type === t)`, scanning from row `i`. */
  function FindKindFrom(t: TokenType, i: nat): (r: Option<MarkerInfo>)
    requires i <= |Markers|
    decreases |Markers| - i
  {
    if i == |Markers| then None
    else if Markers[i].kind == t then Some(Markers[i])
    else FindKindFrom(t, i + 1)
  }

  /** `getMarkerInfo(t)`, one case per row. */
  function MarkerFor(t: TokenType): (r: Option<MarkerInfo>)
    ensures r.Some? ==> r.value.kind == t && r.value.closing == t
    ensures r.Some? ==> |r.value.symbol| > 0 && IsSpanKind(r.value.nodeType)
  {
    match t
    case DoubleUnderscore => Some(MarkerInfo(DoubleUnderscore, Underline, "__", DoubleUnderscore))
    case DoubleAsterisk => Some(MarkerInfo(DoubleAsterisk, Bold, "**", DoubleAsterisk))
    case Underscore => Some(MarkerInfo(Underscore, Italic, "_", Underscore))
    case Asterisk => Some(MarkerInfo(Asterisk, Bold, "*", Asterisk))
    case Tilde => Some(MarkerInfo(Tilde, Strike, "~", Tilde))
    case DoubleTilde => Some(MarkerInfo(DoubleTilde, Strike, "~~", DoubleTilde))
    case DoublePipe => Some(MarkerInfo(DoublePipe, Spoiler, "||", DoublePipe))
    case _ => None
  }

  /** The case split is the table lookup: it returns the first row that opens
      with `t`, and nothing for a kind no row opens with. */
  lemma {:induction false} MarkerForIsFind(t: TokenType)
    ensures MarkerFor(t) == FindKindFrom(t, 0)
  {
    MarkerKinds(t);
    if MarkerFor(t).None? {
      FindKindNone(t, 0);
    }
  }

  /** No row from `i` on opens with `t`: the scan finds nothing. */
  lemma {:induction false} FindKindNone(t: TokenType, i: nat)
    requires i <= |Markers| && forall j :: i <= j < |Markers| ==> Markers[j].kind != t
    ensures FindKindFrom(t, i) == None
    decreases |Markers| - i
  {
    if i < |Markers| {
      FindKindNone(t, i + 1);
    }
  }


  /** `MARKERS.find(m => m.nodeType === n)`, scanning from row `i`. */
  function FindNodeFrom(n: NodeType, i: nat): (r: Option<MarkerInfo>)
    requires i <= |Markers|
    decreases |Markers| - i
  {
    if i == |Markers| then None
    else if Markers[i].nodeType == n then Some(Markers[i])
    else FindNodeFrom(n, i + 1)
  }

  /** The first row that builds node kind `n`, one case per node kind. */
  function MarkerForNode(n: NodeType): (r: Option<MarkerInfo>)
    ensures r.Some? <==> IsSpanKind(n)
    ensures r.Some? ==> r.value.nodeType == n
  {
    match n
    case Underline => Some(MarkerInfo(DoubleUnderscore, Underline, "__", DoubleUnderscore))
    case Bold => Some(MarkerInfo(DoubleAsterisk, Bold, "**", DoubleAsterisk))
    case Italic => Some(MarkerInfo(Underscore, Italic, "_", Underscore))
    case Strike => Some(MarkerInfo(Tilde, Strike, "~", Tilde))
    case Spoiler => Some(MarkerInfo(DoublePipe, Spoiler, "||", DoublePipe))
    case _ => None
  }

  /** The case split is the table lookup by node kind, which takes the first
      of the two bold rows and the first of the two strike rows. */
  lemma {:induction false} MarkerForNodeIsFind(n: NodeType)
    ensures MarkerForNode(n) == FindNodeFrom(n, 0)
  {
  }

  /** The opening kinds are exactly the seven emphasis tokens, each building the
      node kind of its row. */
  lemma {:induction false} MarkerKinds(t: TokenType)
    ensures MarkerFor(t).Some? <==>
      (t == DoubleUnderscore || t == DoubleAsterisk || t == Underscore || t == Asterisk
       || t == Tilde || t == DoubleTilde || t == DoublePipe)
    ensures MarkerFor(t).Some? ==> MarkerFor(t).value.nodeType == SpanOf(t)
  {
  }

  /** The node kind each emphasis token opens. */
  function SpanOf(t: TokenType): NodeType
  {
    match t
    case DoubleUnderscore => Underline
    case DoubleAsterisk => Bold
    case Asterisk => Bold
    case Underscore => Italic
    case Tilde => Strike
    case DoubleTilde => Strike
    case DoublePipe => Spoiler
    case _ => NodeType.Text
  }

  /** An unclosed span respells a span child by the first row of its node kind:
      a bold child as `**` whether `*` or `**` opened it, a strike child as `~`. */
  lemma {:induction false} MarkerSymbols()
    ensures MarkerForNode(Bold).value.symbol == "**"
    ensures MarkerForNode(Strike).value.symbol == "~"
    ensures MarkerForNode(Italic).value.symbol == "_"
    ensures MarkerForNode(Underline).value.symbol == "__"
    ensures MarkerForNode(Spoiler).value.symbol == "||"
  {
  }

  /** Code and code blocks have no row, so an unclosed span respells them by
      their text alone, which for these leaves is empty. */
  lemma {:induction false} CodeHasNoRow(n: ASTNode)
    requires (n.kind == Code || n.kind == Pre) && WellShaped(n)
    ensures ChildSpelling(n) == ""
  {
  }

  // ---------------------------------------------------------------------------
  // The cursor (parser.ts lines 34-64)
  // ---------------------------------------------------------------------------

  /** `isAtEnd()`: past the list or on an EOF token. */
  predicate AtEnd(toks: seq<Token>, cur: nat)
  {
    cur >= |toks| || toks[cur].kind == Eof
  }

  /** `check(t)`. */
  predicate CheckAt(toks: seq<Token>, cur: nat, t: TokenType)
  {
    !AtEnd(toks, cur) && toks[cur].kind == t
  }

  // ---------------------------------------------------------------------------
  // Node text (parser.ts lines 245-262)
  // ---------------------------------------------------------------------------

  /** `getNodeText(n)`: a text node's value, otherwise the text of its children. */
  function NodeText(n: ASTNode): string
    decreases n
  {
    if n.kind == NodeType.Text then n.value.GetOr("")
    else match n.children
      case Absent => ""
      case Present(cs) => Join(seq(|cs|, i requires 0 <= i < |cs| => NodeText(cs[i])))
  }

  /** What one child of an unclosed span contributes to its text: a text child
      its value, a span child its text between the first symbol of its node kind. */
  function ChildSpelling(n: ASTNode): string
  {
    if n.kind == NodeType.Text then n.value.GetOr("")
    else match MarkerForNode(n.kind)
      case Some(m) => m.symbol + NodeText(n) + m.symbol
      case None => NodeText(n)
  }

  /** The text of the children of an unclosed span. */
  function Respell(cs: seq<ASTNode>): string
  {
    Join(seq(|cs|, i requires 0 <= i < |cs| => ChildSpelling(cs[i])))
  }

  // ---------------------------------------------------------------------------
  // Code (parser.ts lines 80-195)
  // ---------------------------------------------------------------------------

  predicate IsFence(t: TokenType)
  {
    t == TripleBacktick || t == TripleBacktickInline
  }

  /** The line after an opening fence: the values of the tokens up to a newline,
      a fence or the end; whether a newline stopped it; where the cursor stops
      (on the newline, if any). */
  function FirstLine(toks: seq<Token>, c: nat): (r: (string, bool, nat))
    requires c <= |toks|
    ensures c <= r.2 <= |toks|
    ensures r.1 ==> r.2 < |toks| && toks[r.2].kind == Newline
    ensures !r.1 ==> AtEnd(toks, r.2) || IsFence(toks[r.2].kind)
    decreases |toks| - c
  {
    if AtEnd(toks, c) || IsFence(toks[c].kind) then ("", false, c)
    else if toks[c].kind == Newline then ("", true, c)
    else
      var (rest, nl, e) := FirstLine(toks, c + 1);
      (toks[c].value + rest, nl, e)
  }

  /** The body of a fenced block: token values (a newline token as `\n`) up to a
      fence, which is consumed, or the end; whether the fence was found; where
      the cursor ends. */
  function FenceBody(toks: seq<Token>, c: nat): (r: (string, bool, nat))
    requires c <= |toks|
    ensures c <= r.2 <= |toks|
    ensures r.1 ==> c < r.2 && IsFence(toks[r.2 - 1].kind)
    ensures !r.1 ==> AtEnd(toks, r.2)
    decreases |toks| - c
  {
    if AtEnd(toks, c) then ("", false, c)
    else if IsFence(toks[c].kind) then ("", true, c + 1)
    else
      var (rest, found, e) := FenceBody(toks, c + 1);
      (CodePiece(toks[c]) + rest, found, e)
  }

  /** What one token adds to a code block: a newline token a line break, any
      other token its value. */
  function CodePiece(t: Token): string
  {
    if t.kind == Newline then "\n" else t.value
  }

  /** One step of the body loop. */
  lemma {:induction false} FenceBodyStep(toks: seq<Token>, c: nat)
    requires c < |toks| && !AtEnd(toks, c) && !IsFence(toks[c].kind)
    ensures FenceBody(toks, c).0 == CodePiece(toks[c]) + FenceBody(toks, c + 1).0
    ensures FenceBody(toks, c).1 == FenceBody(toks, c + 1).1 && FenceBody(toks, c).2 == FenceBody(toks, c + 1).2
  {
  }

  /** Where the body loop stops: at the end, or just past a closing fence. */
  lemma {:induction false} FenceBodyClose(toks: seq<Token>, c: nat)
    requires c <= |toks| && (AtEnd(toks, c) || IsFence(toks[c].kind))
    ensures FenceBody(toks, c) == if AtEnd(toks, c) then ("", false, c) else ("", true, c + 1)
  {
  }

  /** The body loop's invariant carried over one token that is not a fence. */
  lemma {:induction false} CodeBodyStep(toks: seq<Token>, c: nat, parts: seq<string>, whole: string)
    requires c < |toks| && !AtEnd(toks, c) && !IsFence(toks[c].kind)
    requires Join(parts) + FenceBody(toks, c).0 == whole
    ensures Join(parts + [CodePiece(toks[c])]) + FenceBody(toks, c + 1).0 == whole
    ensures FenceBody(toks, c + 1).1 == FenceBody(toks, c).1 && FenceBody(toks, c + 1).2 == FenceBody(toks, c).2
  {
    FenceBodyStep(toks, c);
    JoinAppend(parts, CodePiece(toks[c]));
    AppendAssoc(Join(parts), CodePiece(toks[c]), FenceBody(toks, c + 1).0);
  }

  /** The first-line loop's invariant carried over one token that is neither a
      fence nor a newline. */
  lemma {:induction false} FirstLineStep(toks: seq<Token>, c: nat, line: string, whole: string)
    requires c < |toks| && !AtEnd(toks, c) && !IsFence(toks[c].kind) && toks[c].kind != Newline
    requires line + FirstLine(toks, c).0 == whole
    ensures (line + toks[c].value) + FirstLine(toks, c + 1).0 == whole
    ensures FirstLine(toks, c + 1).1 == FirstLine(toks, c).1 && FirstLine(toks, c + 1).2 == FirstLine(toks, c).2
  {
    AppendAssoc(line, toks[c].value, FirstLine(toks, c + 1).0);
  }

  /** Where the first-line loop stops: the end, a fence, or a newline, which is
      left for the caller. */
  lemma {:induction false} FirstLineStop(toks: seq<Token>, c: nat)
    requires c <= |toks| && (AtEnd(toks, c) || IsFence(toks[c].kind) || toks[c].kind == Newline)
    ensures FirstLine(toks, c) == ("", !AtEnd(toks, c) && toks[c].kind == Newline, c)
  {
  }

  /** The inline-code loop's invariant carried over one token that is not a
      backtick. */
  lemma {:induction false} InlineCodeStep(toks: seq<Token>, c: nat, parts: seq<string>, whole: string)
    requires c < |toks| && !AtEnd(toks, c) && toks[c].kind != Backtick
    requires Join(parts) + InlineCodeBody(toks, c).0 == whole
    ensures Join(parts + [toks[c].value]) + InlineCodeBody(toks, c + 1).0 == whole
    ensures InlineCodeBody(toks, c + 1).1 == InlineCodeBody(toks, c).1
      && InlineCodeBody(toks, c + 1).2 == InlineCodeBody(toks, c).2
  {
    JoinAppend(parts, toks[c].value);
    AppendAssoc(Join(parts), toks[c].value, InlineCodeBody(toks, c + 1).0);
  }

  /** Where the inline-code loop stops: the end, or just past a backtick. */
  lemma {:induction false} InlineCodeStop(toks: seq<Token>, c: nat)
    requires c <= |toks| && (AtEnd(toks, c) || toks[c].kind == Backtick)
    ensures InlineCodeBody(toks, c) == if AtEnd(toks, c) then ("", false, c) else ("", true, c + 1)
  {
  }

  /** `s.replace(/\n+$/, '')`: the trailing run of newlines removed. */
  function TrimTrailingNewlines(s: string): (r: string)
    ensures |r| <= |s|
  {
    if s != [] && s[|s| - 1] == '\n' then TrimTrailingNewlines(s[..|s| - 1]) else s
  }

  /** What is trimmed is exactly the maximal run of newlines at the end: the
      rest is a prefix that does not end with a newline. */
  lemma {:induction false} TrimTrailingNewlinesMeaning(s: string)
    ensures TrimTrailingNewlines(s) == s[..|TrimTrailingNewlines(s)|]
    ensures forall k :: |TrimTrailingNewlines(s)| <= k < |s| ==> s[k] == '\n'
    ensures TrimTrailingNewlines(s) != [] ==> TrimTrailingNewlines(s)[|TrimTrailingNewlines(s)| - 1] != '\n'
  {
    if s != [] && s[|s| - 1] == '\n' {
      TrimTrailingNewlinesMeaning(s[..|s| - 1]);
      assert s[..|s| - 1][..|TrimTrailingNewlines(s)|] == s[..|TrimTrailingNewlines(s)|];
    }
  }

  /** The value of a closed code block: trailing newlines trimmed, then every
      carriage return removed. */
  function PreValue(content: string): string
  {
    ReplaceAll(Literal("\r"), TrimTrailingNewlines(content), "")
  }

  /** Content with no carriage return and no trailing newline is kept as it
      is. */
  lemma {:induction false} PreValuePlain(content: string)
    requires forall k :: 0 <= k < |content| ==> content[k] != '\r'
    requires content == [] || content[|content| - 1] != '\n'
    ensures PreValue(content) == content
  {
    assert TrimTrailingNewlines(content) == content;
    ReplaceAllIdentity(Literal("\r"), content, "");
  }

  /** The value of a closed code block has no carriage return left: it is the
      trimmed content with every `\r` dropped and the rest kept in order. */
  lemma {:induction false} PreValueNoCr(content: string)
    ensures PreValue(content) == Without(TrimTrailingNewlines(content), '\r')
    ensures forall k :: 0 <= k < |PreValue(content)| ==> PreValue(content)[k] != '\r'
  {
    assert Literal("\r") == Literal(['\r']);
    DeleteChar('\r', TrimTrailingNewlines(content));
  }

  /** The node of a closed code block, with a `language` attribute when one
      was recognised. */
  function PreNode(content: string, language: string): ASTNode
  {
    ASTNode(Pre, Some(PreValue(content)), Absent,
            if language != "" then Some(map["language" := language]) else None)
  }

  /** How the first line of a block is read: when it is followed by a newline
      and is not empty, its trimmed lower-case form is asked for as a language
      name; a recognised name becomes the language and the newline is consumed,
      anything else stays as content. Returns the language, the content so far
      and the cursor. */
  function FenceHeader(toks: seq<Token>, c: nat, isLanguage: string -> bool): (r: (string, string, nat))
    requires c <= |toks|
    ensures c <= r.2 <= |toks|
  {
    var (first, nl, c1) := FirstLine(toks, c);
    if nl && first != "" then
      var candidate := ToLowerAscii(Trim(first));
      if isLanguage(candidate) then (candidate, "", c1 + 1) else ("", first, c1 + 1)
    else ("", first, c1)
  }

  /** A fenced block after its opening token: a `pre` node when the closing
      fence is found, otherwise the text it was written as, with the fence
      restored and the language (when one was recognised) on its own line. */
  function FenceAt(toks: seq<Token>, c: nat, isLanguage: string -> bool): (r: (ASTNode, nat))
    requires c <= |toks|
    ensures c <= r.1 <= |toks|
  {
    var (language, head, c2) := FenceHeader(toks, c, isLanguage);
    var (body, found, c3) := FenceBody(toks, c2);
    var content := head + body;
    if found then (PreNode(content, language), c3)
    else (TextNode("```" + (if language != "" then language + "\n" else "") + content + "```"), c3)
  }

  /** The body of inline code: token values up to a backtick, which is
      consumed, or the end. */
  function InlineCodeBody(toks: seq<Token>, c: nat): (r: (string, bool, nat))
    requires c <= |toks|
    ensures c <= r.2 <= |toks|
    ensures r.1 ==> c < r.2 && toks[r.2 - 1].kind == Backtick
    ensures !r.1 ==> AtEnd(toks, r.2)
    decreases |toks| - c
  {
    if AtEnd(toks, c) then ("", false, c)
    else if toks[c].kind == Backtick then ("", true, c + 1)
    else
      var (rest, found, e) := InlineCodeBody(toks, c + 1);
      (toks[c].value + rest, found, e)
  }

  /** Inline code after its opening backtick: a `code` node when a closing
      backtick follows, otherwise the text with the backtick restored. */
  function InlineCodeAt(toks: seq<Token>, c: nat): (r: (ASTNode, nat))
    requires c <= |toks|
    ensures c <= r.1 <= |toks|
  {
    var (content, found, e) := InlineCodeBody(toks, c);
    if found then (ASTNode(Code, Some(content), Absent, None), e)
    else (TextNode("`" + content), e)
  }

  // ---------------------------------------------------------------------------
  // Nodes, spans and sequences (parser.ts lines 70-271)
  // ---------------------------------------------------------------------------

  /** `parseNode()` at `cur` with the markers in `active` open: no node exactly
      at an EOF token, otherwise a node and a cursor strictly further on. */
  function ParseNodeAt(toks: seq<Token>, cur: nat, active: set<TokenType>, isLanguage: string -> bool)
    : (r: (Option<ASTNode>, nat))
    requires cur < |toks|
    ensures cur <= r.1 <= |toks|
    ensures r.0.None? <==> AtEnd(toks, cur)
    ensures !AtEnd(toks, cur) ==> cur < r.1
    decreases |toks| - cur, 1
  {
    if AtEnd(toks, cur) then (None, cur)
    else
      var t := toks[cur];
      if t.kind == TokenType.Text || t.kind == Newline then (Some(TextNode(t.value)), cur + 1)
      else if t.kind == TripleBacktick then
        var (n, e) := FenceAt(toks, cur + 1, isLanguage);
        (Some(n), e)
      else if t.kind == Backtick then
        var (n, e) := InlineCodeAt(toks, cur + 1);
        (Some(n), e)
      else match MarkerFor(t.kind)
        case Some(info) =>
          var (n, e) := ParseMarkedAt(toks, cur, active, info, isLanguage);
          (Some(n), e)
        case None => (Some(TextNode(t.value)), cur + 1)
  }

  /** `parseMarkedText(info)` on the marker token at `cur`. A marker that is
      already open stands for its symbol; otherwise the nodes up to its closing
      token become its children, and without a closing token the span is
      turned back into text. */
  function ParseMarkedAt(toks: seq<Token>, cur: nat, active: set<TokenType>, info: MarkerInfo,
                         isLanguage: string -> bool): (r: (ASTNode, nat))
    requires cur < |toks| && !AtEnd(toks, cur) && MarkerFor(toks[cur].kind) == Some(info)
    ensures cur < r.1 <= |toks|
    ensures info.kind in active ==> r == (TextNode(info.symbol), cur + 1)
    ensures r.0.kind == info.nodeType ==> cur + 1 < r.1 && toks[r.1 - 1].kind == info.closing
    ensures r.0.kind != info.nodeType ==>
      r.0.kind == NodeType.Text && r.0.value.Some? && info.symbol <= r.0.value.value
    decreases |toks| - cur, 0
  {
    if info.kind in active then (TextNode(info.symbol), cur + 1)
    else
      var (children, end) := ParseSequence(toks, cur + 1, active + {info.kind}, Some(info.closing), isLanguage);
      if CheckAt(toks, end, info.closing) then (ContainerNode(info.nodeType, children), end + 1)
      else (TextNode(info.symbol + Respell(children)), end)
  }

  /** The loop that repeats `parseNode()` from `cur` until the end or, when
      `closing` is given, a token of that kind, keeping the nodes it returns. */
  function ParseSequence(toks: seq<Token>, cur: nat, active: set<TokenType>, closing: Option<TokenType>,
                         isLanguage: string -> bool): (r: (seq<ASTNode>, nat))
    requires cur <= |toks|
    ensures cur <= r.1 <= |toks|
    ensures AtEnd(toks, r.1) || (closing.Some? && CheckAt(toks, r.1, closing.value))
    decreases |toks| - cur, 2
  {
    if AtEnd(toks, cur) || (closing.Some? && CheckAt(toks, cur, closing.value)) then ([], cur)
    else
      var (node, next) := ParseNodeAt(toks, cur, active, isLanguage);
      var (rest, end) := ParseSequence(toks, next, active, closing, isLanguage);
      (if node.Some? then [node.value] + rest else rest, end)
  }

  /** `parse()` on a fresh parser: the root node over every top-level node. */
  function ParseTokens(toks: seq<Token>, isLanguage: string -> bool): ASTNode
  {
    ContainerNode(Root, ParseSequence(toks, 0, {}, None, isLanguage).0)
  }

  // ---------------------------------------------------------------------------
  // Properties of the parse
  // ---------------------------------------------------------------------------

  predicate AllWellShaped(ns: seq<ASTNode>)
  {
    forall i :: 0 <= i < |ns| ==> WellShaped(ns[i])
  }

  /** The branches of `parseNode()` one at a time: a text or newline token,
      an opening fence, a backtick, a marker, and any other token. */
  lemma {:induction false} NodeAtText(toks: seq<Token>, cur: nat, active: set<TokenType>, isLanguage: string -> bool)
    requires cur < |toks| && !AtEnd(toks, cur) && toks[cur].kind in [TokenType.Text, Newline]
    ensures ParseNodeAt(toks, cur, active, isLanguage) == (Some(TextNode(toks[cur].value)), cur + 1)
  {
  }

  lemma {:induction false} NodeAtFence(toks: seq<Token>, cur: nat, active: set<TokenType>, isLanguage: string -> bool)
    requires cur < |toks| && !AtEnd(toks, cur) && toks[cur].kind == TripleBacktick
    ensures var f := FenceAt(toks, cur + 1, isLanguage);
      ParseNodeAt(toks, cur, active, isLanguage) == (Some(f.0), f.1)
  {
  }

  lemma {:induction false} NodeAtInlineCode(toks: seq<Token>, cur: nat, active: set<TokenType>, isLanguage: string -> bool)
    requires cur < |toks| && !AtEnd(toks, cur) && toks[cur].kind == Backtick
    ensures var q := InlineCodeAt(toks, cur + 1);
      ParseNodeAt(toks, cur, active, isLanguage) == (Some(q.0), q.1)
  {
  }

  lemma {:induction false} NodeAtMarker(toks: seq<Token>, cur: nat, active: set<TokenType>, isLanguage: string -> bool,
                                        info: MarkerInfo)
    requires cur < |toks| && !AtEnd(toks, cur) && MarkerFor(toks[cur].kind) == Some(info)
    ensures var q := ParseMarkedAt(toks, cur, active, info, isLanguage);
      ParseNodeAt(toks, cur, active, isLanguage) == (Some(q.0), q.1)
  {
    MarkerKinds(toks[cur].kind);
  }

  lemma {:induction false} NodeAtOther(toks: seq<Token>, cur: nat, active: set<TokenType>, isLanguage: string -> bool)
    requires cur < |toks| && !AtEnd(toks, cur) && MarkerFor(toks[cur].kind).None?
    requires toks[cur].kind !in {TokenType.Text, Newline, TripleBacktick, Backtick}
    ensures ParseNodeAt(toks, cur, active, isLanguage) == (Some(TextNode(toks[cur].value)), cur + 1)
  {
  }

  /** One step of the node loop: away from its stopping point the sequence is
      the node at the cursor followed by the sequence after it; at its stopping
      point it is empty. */
  lemma {:induction false} SequenceStep(toks: seq<Token>, cur: nat, active: set<TokenType>,
                                        closing: Option<TokenType>, isLanguage: string -> bool)
    requires cur < |toks| && !AtEnd(toks, cur) && !(closing.Some? && CheckAt(toks, cur, closing.value))
    ensures var (node, next) := ParseNodeAt(toks, cur, active, isLanguage);
      var (rest, end) := ParseSequence(toks, next, active, closing, isLanguage);
      ParseSequence(toks, cur, active, closing, isLanguage) == ((if node.Some? then [node.value] else []) + rest, end)
  {
  }

  lemma {:induction false} SequenceDone(toks: seq<Token>, cur: nat, active: set<TokenType>,
                                        closing: Option<TokenType>, isLanguage: string -> bool)
    requires cur <= |toks| && (AtEnd(toks, cur) || (closing.Some? && CheckAt(toks, cur, closing.value)))
    ensures ParseSequence(toks, cur, active, closing, isLanguage) == ([], cur)
  {
  }

  /** A marker that is not yet open: its span is the sequence up to its closing
      token, kept when that token is there and respelled as text otherwise. */
  lemma {:induction false} MarkedAtOpen(toks: seq<Token>, cur: nat, active: set<TokenType>, info: MarkerInfo,
                                        isLanguage: string -> bool, children: seq<ASTNode>, end: nat)
    requires cur < |toks| && !AtEnd(toks, cur) && MarkerFor(toks[cur].kind) == Some(info)
    requires info.kind !in active
    requires ParseSequence(toks, cur + 1, active + {info.kind}, Some(info.closing), isLanguage) == (children, end)
    ensures CheckAt(toks, end, info.closing) ==>
      ParseMarkedAt(toks, cur, active, info, isLanguage) == (ContainerNode(info.nodeType, children), end + 1)
    ensures !CheckAt(toks, end, info.closing) ==>
      ParseMarkedAt(toks, cur, active, info, isLanguage) == (TextNode(info.symbol + Respell(children)), end)
  {
  }

  /** A code block or inline code is a well-shaped leaf: a `pre`, `code` or
      text node with a value and no children. */
  lemma {:induction false} CodeShape(toks: seq<Token>, c: nat, isLanguage: string -> bool)
    requires c <= |toks|
    ensures var n := FenceAt(toks, c, isLanguage).0; (n.kind == Pre || n.kind == NodeType.Text) && WellShaped(n)
    ensures var n := InlineCodeAt(toks, c).0; (n.kind == Code || n.kind == NodeType.Text) && WellShaped(n)
  {
  }

  /** Every node the parser builds has the shape `WellShaped` describes. */
  lemma {:induction false} NodeShape(toks: seq<Token>, cur: nat, active: set<TokenType>, isLanguage: string -> bool)
    requires cur < |toks|
    ensures ParseNodeAt(toks, cur, active, isLanguage).0.Some? ==>
      WellShaped(ParseNodeAt(toks, cur, active, isLanguage).0.value)
    decreases |toks| - cur, 1
  {
    if !AtEnd(toks, cur) {
      var t := toks[cur];
      if t.kind == TokenType.Text || t.kind == Newline {
      } else if t.kind == TripleBacktick || t.kind == Backtick {
        CodeShape(toks, cur + 1, isLanguage);
      } else if MarkerFor(t.kind).Some? {
        MarkedShape(toks, cur, active, MarkerFor(t.kind).value, isLanguage);
      }
    }
  }

  lemma {:induction false} MarkedShape(toks: seq<Token>, cur: nat, active: set<TokenType>, info: MarkerInfo,
                                       isLanguage: string -> bool)
    requires cur < |toks| && !AtEnd(toks, cur) && MarkerFor(toks[cur].kind) == Some(info)
    ensures WellShaped(ParseMarkedAt(toks, cur, active, info, isLanguage).0)
    decreases |toks| - cur, 0
  {
    if info.kind !in active {
      SequenceShape(toks, cur + 1, active + {info.kind}, Some(info.closing), isLanguage);
    }
  }

  lemma {:induction false} SequenceShape(toks: seq<Token>, cur: nat, active: set<TokenType>,
                                         closing: Option<TokenType>, isLanguage: string -> bool)
    requires cur <= |toks|
    ensures AllWellShaped(ParseSequence(toks, cur, active, closing, isLanguage).0)
    decreases |toks| - cur, 2
  {
    if !(AtEnd(toks, cur) || (closing.Some? && CheckAt(toks, cur, closing.value))) {
      var (node, next) := ParseNodeAt(toks, cur, active, isLanguage);
      NodeShape(toks, cur, active, isLanguage);
      SequenceShape(toks, next, active, closing, isLanguage);
    }
  }

  /** The tree `parse()` returns is a root whose every node is well shaped. */
  lemma {:induction false} ParseWellShaped(toks: seq<Token>, isLanguage: string -> bool)
    ensures ParseTokens(toks, isLanguage).kind == Root && WellShaped(ParseTokens(toks, isLanguage))
  {
    SequenceShape(toks, 0, {}, None, isLanguage);
  }

  /** The largest of a list of depths (0 for none). */
  function MaxDepth(ds: seq<nat>): (r: nat)
    ensures forall i :: 0 <= i < |ds| ==> ds[i] <= r
  {
    if ds == [] then 0
    else var m := MaxDepth(ds[1..]); if ds[0] > m then ds[0] else m
  }

  lemma {:induction false} MaxDepthBound(ds: seq<nat>, b: nat)
    requires forall i :: 0 <= i < |ds| ==> ds[i] <= b
    ensures MaxDepth(ds) <= b
  {
    if ds != [] {
      MaxDepthBound(ds[1..], b);
    }
  }

  /** How many spans of kind `k` are nested along the deepest path of `n`,
      `n` itself included. */
  function SpanDepth(n: ASTNode, k: NodeType): nat
    decreases n
  {
    (if n.kind == k then 1 else 0)
    + match n.children
      case Absent => 0
      case Present(cs) => MaxDepth(seq(|cs|, i requires 0 <= i < |cs| => SpanDepth(cs[i], k)))
  }

  /** How many of the opening kinds of span kind `k` are not yet open in
      `active` (two for bold and strike, one for the others). */
  function Budget(k: NodeType, active: set<TokenType>): nat
  {
    match k
    case Bold => (if DoubleAsterisk in active then 0 else 1) + (if Asterisk in active then 0 else 1)
    case Strike => (if Tilde in active then 0 else 1) + (if DoubleTilde in active then 0 else 1)
    case Italic => if Underscore in active then 0 else 1
    case Underline => if DoubleUnderscore in active then 0 else 1
    case Spoiler => if DoublePipe in active then 0 else 1
    case _ => 0
  }

  /** Opening a marker uses up one unit of its own span kind's budget and none
      of the others'. */
  lemma {:induction false} BudgetStep(t: TokenType, active: set<TokenType>, k: NodeType)
    requires MarkerFor(t).Some? && t !in active
    ensures (if MarkerFor(t).value.nodeType == k then 1 else 0) + Budget(k, active + {t}) <= Budget(k, active)
  {
  }

  predicate DepthsWithin(ns: seq<ASTNode>, k: NodeType, b: nat)
  {
    forall i :: 0 <= i < |ns| ==> SpanDepth(ns[i], k) <= b
  }

  lemma {:induction false} NodeDepth(toks: seq<Token>, cur: nat, active: set<TokenType>, isLanguage: string -> bool,
                                     k: NodeType)
    requires cur < |toks| && IsSpanKind(k)
    ensures ParseNodeAt(toks, cur, active, isLanguage).0.Some? ==>
      SpanDepth(ParseNodeAt(toks, cur, active, isLanguage).0.value, k) <= Budget(k, active)
    decreases |toks| - cur, 1
  {
    if !AtEnd(toks, cur) {
      var t := toks[cur];
      if t.kind == TokenType.Text || t.kind == Newline {
      } else if t.kind == TripleBacktick || t.kind == Backtick {
        CodeShape(toks, cur + 1, isLanguage);
      } else if MarkerFor(t.kind).Some? {
        MarkedDepth(toks, cur, active, MarkerFor(t.kind).value, isLanguage, k);
      }
    }
  }

  lemma {:induction false} MarkedDepth(toks: seq<Token>, cur: nat, active: set<TokenType>, info: MarkerInfo,
                                       isLanguage: string -> bool, k: NodeType)
    requires cur < |toks| && !AtEnd(toks, cur) && MarkerFor(toks[cur].kind) == Some(info) && IsSpanKind(k)
    ensures SpanDepth(ParseMarkedAt(toks, cur, active, info, isLanguage).0, k) <= Budget(k, active)
    decreases |toks| - cur, 0
  {
    if info.kind !in active {
      var inner := active + {info.kind};
      SequenceDepth(toks, cur + 1, inner, Some(info.closing), isLanguage, k);
      var (children, end) := ParseSequence(toks, cur + 1, inner, Some(info.closing), isLanguage);
      MaxDepthBound(seq(|children|, i requires 0 <= i < |children| => SpanDepth(children[i], k)), Budget(k, inner));
      BudgetStep(info.kind, active, k);
    }
  }

  lemma {:induction false} SequenceDepth(toks: seq<Token>, cur: nat, active: set<TokenType>,
                                         closing: Option<TokenType>, isLanguage: string -> bool, k: NodeType)
    requires cur <= |toks| && IsSpanKind(k)
    ensures DepthsWithin(ParseSequence(toks, cur, active, closing, isLanguage).0, k, Budget(k, active))
    decreases |toks| - cur, 2
  {
    if !(AtEnd(toks, cur) || (closing.Some? && CheckAt(toks, cur, closing.value))) {
      var (node, next) := ParseNodeAt(toks, cur, active, isLanguage);
      NodeDepth(toks, cur, active, isLanguage, k);
      SequenceDepth(toks, next, active, closing, isLanguage, k);
    }
  }

  /** The open-marker set keeps spans from nesting inside spans opened by the
      same token kind: an italic, underline or spoiler never contains another
      of its kind, and bold or strike nest at most two deep (a `*` span inside
      a `**` span or the other way round, a `~` span inside `~~` or the other
      way round). */
  lemma {:induction false} SpanNesting(toks: seq<Token>, isLanguage: string -> bool)
    ensures SpanDepth(ParseTokens(toks, isLanguage), Italic) <= 1
    ensures SpanDepth(ParseTokens(toks, isLanguage), Underline) <= 1
    ensures SpanDepth(ParseTokens(toks, isLanguage), Spoiler) <= 1
    ensures SpanDepth(ParseTokens(toks, isLanguage), Bold) <= 2
    ensures SpanDepth(ParseTokens(toks, isLanguage), Strike) <= 2
  {
    RootDepth(toks, isLanguage, Italic);
    RootDepth(toks, isLanguage, Underline);
    RootDepth(toks, isLanguage, Spoiler);
    RootDepth(toks, isLanguage, Bold);
    RootDepth(toks, isLanguage, Strike);
  }

  lemma {:induction false} RootDepth(toks: seq<Token>, isLanguage: string -> bool, k: NodeType)
    requires IsSpanKind(k)
    ensures SpanDepth(ParseTokens(toks, isLanguage), k) <= Budget(k, {})
    ensures SpanDepth(ParseTokens(toks, isLanguage), k) <= if k == Bold || k == Strike then 2 else 1
  {
    var cs := ParseSequence(toks, 0, {}, None, isLanguage).0;
    SequenceDepth(toks, 0, {}, None, isLanguage, k);
    MaxDepthBound(seq(|cs|, i requires 0 <= i < |cs| => SpanDepth(cs[i], k)), Budget(k, {}));
  }

  /** Only text and newline tokens from `cur` up to `n`. */
  predicate PlainRun(toks: seq<Token>, cur: nat, n: nat)
    requires cur <= n <= |toks|
  {
    forall k :: cur <= k < n ==> toks[k].kind == TokenType.Text || toks[k].kind == Newline
  }

  /** One text node per token, holding its value. */
  function TextNodes(ts: seq<Token>): (r: seq<ASTNode>)
    ensures |r| == |ts|
  {
    seq(|ts|, i requires 0 <= i < |ts| => TextNode(ts[i].value))
  }

  /** Where a run of nodes stops: the end, or the closing kind when one is
      given. */
  predicate StopsAt(toks: seq<Token>, n: nat, closing: Option<TokenType>)
  {
    AtEnd(toks, n) || (closing.Some? && CheckAt(toks, n, closing.value))
  }

  /** Text and newline tokens up to the stop each become a text node with the
      token's value, whatever markers are open. */
  lemma {:induction false} PlainSequence(toks: seq<Token>, cur: nat, n: nat, active: set<TokenType>,
                                         closing: Option<TokenType>, isLanguage: string -> bool)
    requires cur <= n <= |toks| && PlainRun(toks, cur, n) && StopsAt(toks, n, closing)
    requires closing.None? || MarkerFor(closing.value).Some?
    ensures ParseSequence(toks, cur, active, closing, isLanguage) == (TextNodes(toks[cur..n]), n)
    decreases n - cur
  {
    if cur < n {
      PlainSequence(toks, cur + 1, n, active, closing, isLanguage);
      assert TextNodes(toks[cur..n]) == [TextNode(toks[cur].value)] + TextNodes(toks[cur + 1..n]);
    }
  }

  /** A token list of plain text and newlines parses to a root over one text
      node per token. */
  lemma {:induction false} PlainTokens(toks: seq<Token>, n: nat, isLanguage: string -> bool)
    requires n <= |toks| && PlainRun(toks, 0, n) && AtEnd(toks, n)
    ensures ParseTokens(toks, isLanguage) == ContainerNode(Root, TextNodes(toks[..n]))
  {
    PlainSequence(toks, 0, n, {}, None, isLanguage);
  }

  /** A marker, plain text and its closing token make a span over the text
      nodes, and the cursor moves past the closing token. */
  lemma {:induction false} PlainSpan(toks: seq<Token>, cur: nat, n: nat, active: set<TokenType>, info: MarkerInfo,
                  isLanguage: string -> bool)
    requires cur < n < |toks| && !AtEnd(toks, cur) && MarkerFor(toks[cur].kind) == Some(info)
    requires info.kind !in active && PlainRun(toks, cur + 1, n) && toks[n].kind == info.closing
    ensures ParseMarkedAt(toks, cur, active, info, isLanguage)
      == (ContainerNode(info.nodeType, TextNodes(toks[cur + 1..n])), n + 1)
  {
    PlainSequence(toks, cur + 1, n, active + {info.kind}, Some(info.closing), isLanguage);
  }

  lemma {:induction false} ValuesAppend(a: seq<Token>, b: seq<Token>)
    ensures Values(a + b) == Values(a) + Values(b)
    decreases |a|
  {
    if a == [] {
      assert a + b == b;
    } else {
      ValuesAppend(a[1..], b);
      assert (a + b)[0] == a[0] && (a + b)[1..] == a[1..] + b;
      AppendAssoc(a[0].value, Values(a[1..]), Values(b));
    }
  }

  /** Text children are spelled back as their values. */
  lemma {:induction false} RespellText(ts: seq<Token>)
    ensures Respell(TextNodes(ts)) == Values(ts)
    decreases |ts|
  {
    if ts != [] {
      var init := ts[..|ts| - 1];
      var last := ts[|ts| - 1];
      RespellText(init);
      var cs := TextNodes(ts);
      var parts := seq(|cs|, i requires 0 <= i < |cs| => ChildSpelling(cs[i]));
      var initCs := TextNodes(init);
      assert parts[..|parts| - 1] == seq(|initCs|, i requires 0 <= i < |initCs| => ChildSpelling(initCs[i]));
      assert Join(parts) == Values(init) + last.value;
      ValuesAppend(init, [last]);
      assert init + [last] == ts;
      assert Values([last]) == last.value + "";
    }
  }

  /** A marker with nothing but plain text after it up to the end stays text:
      its symbol followed by the text's values. */
  lemma {:induction false} UnclosedPlainSpan(toks: seq<Token>, cur: nat, n: nat, active: set<TokenType>, info: MarkerInfo,
                          isLanguage: string -> bool)
    requires cur < n <= |toks| && !AtEnd(toks, cur) && MarkerFor(toks[cur].kind) == Some(info)
    requires info.kind !in active && PlainRun(toks, cur + 1, n) && AtEnd(toks, n)
    ensures ParseMarkedAt(toks, cur, active, info, isLanguage)
      == (TextNode(info.symbol + Values(toks[cur + 1..n])), n)
  {
    var ts := toks[cur + 1..n];
    PlainSequence(toks, cur + 1, n, active + {info.kind}, Some(info.closing), isLanguage);
    RespellText(ts);
    assert !CheckAt(toks, n, info.closing);
    assert ParseMarkedAt(toks, cur, active, info, isLanguage) == (TextNode(info.symbol + Respell(TextNodes(ts))), n);
  }

  /** Where the content of a scanned body ends: before the closing token when
      one was found, otherwise where the scan stopped. */
  function BodyStop(r: (string, bool, nat)): nat
  {
    if r.1 && r.2 > 0 then r.2 - 1 else r.2
  }

  /** No backtick and no end of input from `c` up to `e`. */
  predicate InlineRun(toks: seq<Token>, c: nat, e: nat)
  {
    forall k :: c <= k < e ==> !AtEnd(toks, k) && toks[k].kind != Backtick
  }

  /** Inline code holds the values of exactly the tokens between the
      backticks; unclosed, those up to the end. */
  lemma {:induction false} InlineCodeContent(toks: seq<Token>, c: nat)
    requires c <= |toks|
    ensures c <= BodyStop(InlineCodeBody(toks, c)) <= |toks|
    ensures InlineCodeBody(toks, c).0 == Values(toks[c..BodyStop(InlineCodeBody(toks, c))])
    decreases |toks| - c
  {
    if !AtEnd(toks, c) && toks[c].kind != Backtick {
      InlineCodeContent(toks, c + 1);
      var stop := BodyStop(InlineCodeBody(toks, c + 1));
      assert BodyStop(InlineCodeBody(toks, c)) == stop;
      assert toks[c..stop][1..] == toks[c + 1..stop];
    }
  }

  /** None of the tokens inside inline code is a backtick or the end of
      input. */
  lemma {:induction false} InlineCodeRun(toks: seq<Token>, c: nat)
    requires c <= |toks|
    ensures c <= BodyStop(InlineCodeBody(toks, c)) <= |toks|
    ensures InlineRun(toks, c, BodyStop(InlineCodeBody(toks, c)))
    decreases |toks| - c
  {
    if !AtEnd(toks, c) && toks[c].kind != Backtick {
      InlineCodeRun(toks, c + 1);
    }
  }

  /** The text of a code block's tokens: line breaks for newline tokens,
      values for the rest. */
  function CodeText(ts: seq<Token>): string
  {
    if ts == [] then "" else CodePiece(ts[0]) + CodeText(ts[1..])
  }

  /** No fence and no end of input from `c` up to `e`. */
  predicate FenceRun(toks: seq<Token>, c: nat, e: nat)
  {
    forall k :: c <= k < e ==> !AtEnd(toks, k) && !IsFence(toks[k].kind)
  }

  /** A code block's body is the text of exactly the tokens before the closing
      fence; unclosed, those up to the end. */
  lemma {:induction false} FenceContent(toks: seq<Token>, c: nat)
    requires c <= |toks|
    ensures c <= BodyStop(FenceBody(toks, c)) <= |toks|
    ensures FenceBody(toks, c).0 == CodeText(toks[c..BodyStop(FenceBody(toks, c))])
    decreases |toks| - c
  {
    if !AtEnd(toks, c) && !IsFence(toks[c].kind) {
      FenceContent(toks, c + 1);
      FenceBodyStep(toks, c);
      var r := FenceBody(toks, c + 1);
      var stop := BodyStop(r);
      assert FenceBody(toks, c).0 == CodePiece(toks[c]) + r.0 && BodyStop(FenceBody(toks, c)) == stop;
      var ts := toks[c..stop];
      assert ts[0] == toks[c] && ts[1..] == toks[c + 1..stop];
    }
  }

  /** None of the tokens in a code block's body is a fence or the end of
      input. */
  lemma {:induction false} FenceContentRun(toks: seq<Token>, c: nat)
    requires c <= |toks|
    ensures c <= BodyStop(FenceBody(toks, c)) <= |toks|
    ensures FenceRun(toks, c, BodyStop(FenceBody(toks, c)))
    decreases |toks| - c
  {
    if !AtEnd(toks, c) && !IsFence(toks[c].kind) {
      FenceContentRun(toks, c + 1);
      FenceBodyStep(toks, c);
    }
  }

  /** The first line of a block is the values of exactly the tokens before the
      newline, fence or end that stopped it. */
  lemma {:induction false} FirstLineContent(toks: seq<Token>, c: nat)
    requires c <= |toks|
    ensures FirstLine(toks, c).0 == Values(toks[c..FirstLine(toks, c).2])
    decreases |toks| - c
  {
    if !AtEnd(toks, c) && !IsFence(toks[c].kind) && toks[c].kind != Newline {
      FirstLineContent(toks, c + 1);
      var stop := FirstLine(toks, c + 1).2;
      assert toks[c..stop][1..] == toks[c + 1..stop];
    } else {
      assert toks[c..c] == [];
    }
  }

  /** When a block gets a language: exactly when its first line is not empty,
      a newline follows it, and its trimmed lower-case form is a recognised,
      non-empty name; the language is then that name and the line is not
      content. A first line followed by a newline but not recognised stays as
      content while its newline token is skipped; one recognised but trimming
      to "" is dropped with its newline. An empty first line leaves its newline
      token in place, where the body takes it as a line break. */
  lemma {:induction false} FenceLanguage(toks: seq<Token>, c: nat, isLanguage: string -> bool)
    requires c <= |toks|
    ensures var (first, nl, c1) := FirstLine(toks, c);
      var candidate := ToLowerAscii(Trim(first));
      var (language, head, c2) := FenceHeader(toks, c, isLanguage);
      first == Values(toks[c..c1])
      && (language != "" <==> nl && first != "" && candidate != "" && isLanguage(candidate))
      && (language != "" ==> language == candidate && head == "" && c2 == c1 + 1)
      && (nl && first != "" && !isLanguage(candidate) ==>
            head == first && c2 == c1 + 1 && toks[c1].kind == Newline)
      && (!nl ==> language == "" && head == first && c2 == c1)
      && (nl && first == "" ==> language == "" && head == "" && c2 == c1 && toks[c1].kind == Newline)
      && (nl && first != "" && isLanguage(candidate) ==> head == "" && c2 == c1 + 1)
  {
    FirstLineContent(toks, c);
  }

  // ---------------------------------------------------------------------------
  // Worked examples
  // ---------------------------------------------------------------------------

  function Tok(kind: TokenType, value: string): Token
  {
    Token(kind, value, 0)
  }

  /** The tokens of "```JS\nx```". */
  function FenceTokens(): seq<Token>
  {
    [Tok(TripleBacktick, "```"), Tok(TokenType.Text, "JS"), Tok(Newline, "\n"), Tok(TokenType.Text, "x"),
     Tok(TripleBacktickInline, "```"), Tok(Eof, "")]
  }

  /** The first line of that block is "JS", ended by the newline token, and the
      body after the newline is "x", closed by the second fence. */
  lemma {:induction false} FenceTokensScan()
    ensures FirstLine(FenceTokens(), 1) == ("JS", true, 2)
    ensures FenceBody(FenceTokens(), 3) == ("x", true, 5)
  {
    var t := FenceTokens();
    assert t[2].kind == Newline && t[1].value == "JS" && t[1].kind == TokenType.Text;
    assert FirstLine(t, 2) == ("", true, 2);
    assert "JS" + "" == "JS";
    assert t[4].kind == TripleBacktickInline && t[3].value == "x" && t[3].kind == TokenType.Text;
    assert FenceBody(t, 4) == ("", true, 5);
    assert "x" + "" == "x";
  }

  /** The first line "JS" asks for the language name "js". */
  lemma {:induction false} JsCandidate()
    ensures ToLowerAscii(Trim("JS")) == "js"
  {
    assert !IsJsWhitespace('J') && !IsJsWhitespace('S');
    assert TrimStart("JS") == "JS";
    assert TrimEnd("JS") == "JS";
    ToLowerAsciiMeaning("JS");
    assert ToLowerAscii("JS") == "js";
  }

  /** The block itself, with and without `js` recognised. */
  lemma {:induction false} FenceTokensBlock(isLanguage: string -> bool)
    ensures isLanguage("js") ==>
      FenceAt(FenceTokens(), 1, isLanguage) == (ASTNode(Pre, Some("x"), Absent, Some(map["language" := "js"])), 5)
    ensures !isLanguage("js") ==>
      FenceAt(FenceTokens(), 1, isLanguage) == (ASTNode(Pre, Some("JSx"), Absent, None), 5)
  {
    var t := FenceTokens();
    FenceTokensScan();
    JsCandidate();
    if isLanguage("js") {
      assert FenceHeader(t, 1, isLanguage) == ("js", "", 3);
      assert "" + "x" == "x";
      PreValuePlain("x");
    } else {
      assert FenceHeader(t, 1, isLanguage) == ("", "JS", 3);
      assert "JS" + "x" == "JSx";
      PreValuePlain("JSx");
    }
  }

  /** A token list whose first node reaches the end parses to a root over
      that one node. */
  lemma {:induction false} SingleNode(toks: seq<Token>, n: ASTNode, e: nat, isLanguage: string -> bool)
    requires 0 < |toks| && ParseNodeAt(toks, 0, {}, isLanguage) == (Some(n), e) && AtEnd(toks, e)
    ensures ParseTokens(toks, isLanguage) == ContainerNode(Root, [n])
  {
    assert ParseSequence(toks, e, {}, None, isLanguage) == ([], e);
    assert [n] + [] == [n];
  }

  /** With `js` recognised, the trimmed lower-case first line becomes the
      language and its newline is consumed. */
  lemma {:induction false} KnownLanguageExample(isLanguage: string -> bool)
    requires isLanguage("js")
    ensures ParseTokens(FenceTokens(), isLanguage)
      == ContainerNode(Root, [ASTNode(Pre, Some("x"), Absent, Some(map["language" := "js"]))])
  {
    FenceTokensBlock(isLanguage);
    assert FenceTokens()[0].kind == TripleBacktick && FenceTokens()[5].kind == Eof;
    SingleNode(FenceTokens(), ASTNode(Pre, Some("x"), Absent, Some(map["language" := "js"])), 5, isLanguage);
  }

  /** With no language recognised the first line stays as content, but the
      newline after it is consumed all the same: the content reads "JSx". */
  lemma {:induction false} UnknownLanguageExample(isLanguage: string -> bool)
    requires !isLanguage("js")
    ensures ParseTokens(FenceTokens(), isLanguage) == ContainerNode(Root, [ASTNode(Pre, Some("JSx"), Absent, None)])
  {
    FenceTokensBlock(isLanguage);
    assert FenceTokens()[0].kind == TripleBacktick && FenceTokens()[5].kind == Eof;
    SingleNode(FenceTokens(), ASTNode(Pre, Some("JSx"), Absent, None), 5, isLanguage);
  }

  /** The tokens of "```\nx```", a block whose first line is empty. */
  function EmptyFirstLineTokens(): seq<Token>
  {
    [Tok(TripleBacktick, "```"), Tok(Newline, "\n"), Tok(TokenType.Text, "x"),
     Tok(TripleBacktickInline, "```"), Tok(Eof, "")]
  }

  /** Its first line is empty and stops on the newline; the body from that
      newline on is "\nx", closed by the second fence. */
  lemma {:induction false} EmptyFirstLineScan()
    ensures FirstLine(EmptyFirstLineTokens(), 1) == ("", true, 1)
    ensures FenceBody(EmptyFirstLineTokens(), 1) == ("\nx", true, 4)
  {
    var t := EmptyFirstLineTokens();
    assert t[1].kind == Newline && t[2].kind == TokenType.Text && t[3].kind == TripleBacktickInline;
    assert FenceBody(t, 3) == ("", true, 4);
    assert t[2].value == "x" && "x" + "" == "x";
    assert FenceBody(t, 2) == ("x", true, 4);
    assert CodePiece(t[1]) == "\n" && "\n" + "x" == "\nx";
  }

  /** The newline after an empty first line is not consumed by the header, so
      the body keeps it: the value reads "\nx". */
  lemma {:induction false} EmptyFirstLineExample(isLanguage: string -> bool)
    ensures ParseTokens(EmptyFirstLineTokens(), isLanguage) == ContainerNode(Root, [ASTNode(Pre, Some("\nx"), Absent, None)])
  {
    var t := EmptyFirstLineTokens();
    EmptyFirstLineScan();
    assert FenceHeader(t, 1, isLanguage) == ("", "", 1);
    assert "" + "\nx" == "\nx";
    PreValuePlain("\nx");
    assert FenceAt(t, 1, isLanguage) == (ASTNode(Pre, Some("\nx"), Absent, None), 4);
    assert t[0].kind == TripleBacktick && t[4].kind == Eof;
    SingleNode(t, ASTNode(Pre, Some("\nx"), Absent, None), 4, isLanguage);
  }

  /** The tokens of "```a", a block that is never closed. */
  function UnclosedFenceTokens(): seq<Token>
  {
    [Tok(TripleBacktick, "```"), Tok(TokenType.Text, "a"), Tok(Eof, "")]
  }

  /** It comes back as text with both fences. */
  lemma {:induction false} UnclosedFenceExample(isLanguage: string -> bool)
    ensures ParseTokens(UnclosedFenceTokens(), isLanguage) == ContainerNode(Root, [TextNode("```a```")])
  {
    var t := UnclosedFenceTokens();
    assert t[2].kind == Eof && t[1].value == "a" && t[1].kind == TokenType.Text;
    assert FirstLine(t, 2) == ("", false, 2);
    assert "a" + "" == "a";
    assert FirstLine(t, 1) == ("a", false, 2);
    assert FenceHeader(t, 1, isLanguage) == ("", "a", 2);
    assert FenceBody(t, 2) == ("", false, 2);
    assert "```" + "" + ("a" + "") + "```" == "```a```";
    assert FenceAt(t, 1, isLanguage) == (TextNode("```a```"), 2);
    assert ParseNodeAt(t, 0, {}, isLanguage) == (Some(TextNode("```a```")), 2);
    assert ParseSequence(t, 2, {}, None, isLanguage) == ([], 2);
    assert [TextNode("```a```")] + [] == [TextNode("```a```")];
  }

  /** A single child is spelled back on its own. */
  lemma {:induction false} RespellOne(n: ASTNode)
    ensures Respell([n]) == ChildSpelling(n)
  {
    var parts := seq(1, i requires 0 <= i < 1 => ChildSpelling([n][i]));
    assert parts == [ChildSpelling(n)] && parts[..0] == [];
    assert Join(parts) == Join([]) + ChildSpelling(n);
  }

  /** The tokens of "*`x`": a `*` span holding closed inline code, never
      closed. */
  function DropsCodeTokens(): seq<Token>
  {
    [Tok(Asterisk, "*"), Tok(Backtick, "`"), Tok(TokenType.Text, "x"), Tok(Backtick, "`"), Tok(Eof, "")]
  }

  /** Inside the `*` span the inline code parses to a `code` node. */
  lemma {:induction false} DropsCodeInner(isLanguage: string -> bool)
    ensures ParseSequence(DropsCodeTokens(), 1, {Asterisk}, Some(Asterisk), isLanguage)
      == ([ASTNode(Code, Some("x"), Absent, None)], 4)
  {
    var t := DropsCodeTokens();
    var code := ASTNode(Code, Some("x"), Absent, None);
    assert t[3].kind == Backtick && t[2].kind == TokenType.Text && t[2].value == "x" && t[4].kind == Eof;
    assert InlineCodeBody(t, 3) == ("", true, 4);
    assert InlineCodeBody(t, 2) == (t[2].value + InlineCodeBody(t, 3).0, true, 4);
    assert "x" + "" == "x";
    assert InlineCodeAt(t, 2) == (code, 4);
    assert ParseNodeAt(t, 1, {Asterisk}, isLanguage) == (Some(code), 4);
    assert ParseSequence(t, 4, {Asterisk}, Some(Asterisk), isLanguage) == ([], 4);
    assert !CheckAt(t, 1, Asterisk) && [code] + [] == [code];
  }

  /** The span falls back to its symbol, and the code inside it is lost: a
      code child is spelled back as the empty string. */
  lemma {:induction false} UnclosedSpanDropsCode(isLanguage: string -> bool)
    ensures ParseTokens(DropsCodeTokens(), isLanguage) == ContainerNode(Root, [TextNode("*")])
  {
    var t := DropsCodeTokens();
    var code := ASTNode(Code, Some("x"), Absent, None);
    DropsCodeInner(isLanguage);
    RespellOne(code);
    assert ChildSpelling(code) == "";
    var info := MarkerInfo(Asterisk, Bold, "*", Asterisk);
    assert info == MarkerInfo(Asterisk, Bold, "*", Asterisk) && MarkerFor(t[0].kind) == Some(info);
    assert {} + {Asterisk} == {Asterisk} && !CheckAt(t, 4, Asterisk) && "*" + "" == "*";
    assert ParseMarkedAt(t, 0, {}, info, isLanguage) == (TextNode("*"), 4);
    assert ParseNodeAt(t, 0, {}, isLanguage) == (Some(TextNode("*")), 4);
    assert ParseSequence(t, 4, {}, None, isLanguage) == ([], 4);
    assert [TextNode("*")] + [] == [TextNode("*")];
  }

  /** The tokens of "_a*b*", an italic that is never closed around a bold. */
  function RespellTokens(): seq<Token>
  {
    [Tok(Underscore, "_"), Tok(TokenType.Text, "a"), Tok(Asterisk, "*"), Tok(TokenType.Text, "b"),
     Tok(Asterisk, "*"), Tok(Eof, "")]
  }

  /** Inside the italic, the `*` span over "b" is closed and becomes a bold. */
  lemma {:induction false} RespellBold(isLanguage: string -> bool)
    ensures ParseNodeAt(RespellTokens(), 2, {Underscore}, isLanguage)
      == (Some(ContainerNode(Bold, [TextNode("b")])), 5)
  {
    var t := RespellTokens();
    var info := MarkerInfo(Asterisk, Bold, "*", Asterisk);
    assert t[2].kind == Asterisk && t[3].kind == TokenType.Text && t[4].kind == Asterisk;
    assert MarkerFor(t[2].kind) == Some(info);
    assert PlainRun(t, 3, 4);
    PlainSpan(t, 2, 4, {Underscore}, info, isLanguage);
    assert t[3..4] == [t[3]] && TextNodes([t[3]]) == [TextNode("b")];
  }

  /** Inside the italic: the text "a", then a bold over "b". */
  lemma {:induction false} RespellInner(isLanguage: string -> bool)
    ensures ParseSequence(RespellTokens(), 1, {Underscore}, Some(Underscore), isLanguage)
      == ([TextNode("a"), ContainerNode(Bold, [TextNode("b")])], 5)
  {
    var t := RespellTokens();
    var bold := ContainerNode(Bold, [TextNode("b")]);
    RespellBold(isLanguage);
    assert t[5].kind == Eof && t[2].kind == Asterisk && t[1].kind == TokenType.Text && t[1].value == "a";
    var s5 := ParseSequence(t, 5, {Underscore}, Some(Underscore), isLanguage);
    assert s5 == ([], 5);
    var s2 := ParseSequence(t, 2, {Underscore}, Some(Underscore), isLanguage);
    assert s2 == ([bold] + s5.0, 5);
    assert [bold] + [] == [bold];
    assert ParseNodeAt(t, 1, {Underscore}, isLanguage) == (Some(TextNode("a")), 2);
    assert ParseSequence(t, 1, {Underscore}, Some(Underscore), isLanguage) == ([TextNode("a")] + s2.0, 5);
    assert [TextNode("a")] + [bold] == [TextNode("a"), bold];
  }

  /** The children of the unclosed italic are spelled back as "a**b**". */
  lemma {:induction false} RespellChildren()
    ensures Respell([TextNode("a"), ContainerNode(Bold, [TextNode("b")])]) == "a**b**"
  {
    var bold := ContainerNode(Bold, [TextNode("b")]);
    var cs := [TextNode("a"), bold];
    assert NodeText(bold) == "b" by {
      var parts := seq(1, i requires 0 <= i < 1 => NodeText([TextNode("b")][i]));
      assert parts == ["b"] && parts[..0] == [];
      assert Join(parts) == Join([]) + "b";
    }
    assert ChildSpelling(bold) == "**b**";
    var parts := seq(2, i requires 0 <= i < 2 => ChildSpelling(cs[i]));
    assert parts == ["a", "**b**"] && parts[..1] == ["a"] && parts[..1][..0] == [];
    assert Join(parts) == Join(["a"]) + "**b**";
    assert Join(["a"]) == "" + "a";
  }

  /** The unclosed italic becomes text: its symbol, then its children spelled
      back. */
  lemma {:induction false} RespellOuter(isLanguage: string -> bool)
    ensures ParseMarkedAt(RespellTokens(), 0, {}, MarkerInfo(Underscore, Italic, "_", Underscore), isLanguage)
      == (TextNode("_a**b**"), 5)
  {
    var t := RespellTokens();
    var cs := [TextNode("a"), ContainerNode(Bold, [TextNode("b")])];
    RespellInner(isLanguage);
    RespellChildren();
    assert t[0].kind == Underscore && t[5].kind == Eof;
    assert {} + {Underscore} == {Underscore} && !CheckAt(t, 5, Underscore);
    assert "_" + "a**b**" == "_a**b**";
  }

  /** The bold child of an unclosed span is spelled back with the first symbol
      of its kind, `**`, though it was written with `*`. */
  lemma {:induction false} UnclosedSpanRespells(isLanguage: string -> bool)
    ensures ParseTokens(RespellTokens(), isLanguage) == ContainerNode(Root, [TextNode("_a**b**")])
  {
    var t := RespellTokens();
    RespellOuter(isLanguage);
    assert t[0].kind == Underscore && t[5].kind == Eof;
    assert MarkerFor(t[0].kind) == Some(MarkerInfo(Underscore, Italic, "_", Underscore));
    assert ParseNodeAt(t, 0, {}, isLanguage) == (Some(TextNode("_a**b**")), 5);
    SingleNode(t, TextNode("_a**b**"), 5, isLanguage);
  }

  // ---------------------------------------------------------------------------
  // The parser object (parser.ts lines 27-271)
  // ---------------------------------------------------------------------------

  /** The parser: a fixed token list, a cursor, and the kinds of the spans
      that are open. The language-name lookup the code-block rule consults is a
      constructor parameter. */
  class Parser {
    const tokens: seq<Token>
    const isLanguage: string -> bool
    var current: nat
    var activeMarkers: set<TokenType>

    constructor(tokens: seq<Token>, isLanguage: string -> bool)
      ensures this.tokens == tokens && this.isLanguage == isLanguage
      ensures current == 0 && activeMarkers == {}
    {
      this.tokens := tokens;
      this.isLanguage := isLanguage;
      current := 0;
      activeMarkers := {};
    }

    /** The cursor stays within the list: `advance` never moves past the end. */
    predicate Valid()
      reads this`current
    {
      current <= |tokens|
    }

    function IsAtEnd(): bool
      reads this`current
    {
      AtEnd(tokens, current)
    }

    function Peek(): Token
      requires current < |tokens|
      reads this`current
    {
      tokens[current]
    }

    function Previous(): Token
      requires 0 < current <= |tokens|
      reads this`current
    {
      tokens[current - 1]
    }

    /** Steps past the current token unless at the end, and returns the token
        before the cursor. */
    method Advance() returns (t: Token)
      requires Valid() && (0 < current || !IsAtEnd())
      modifies this`current
      ensures Valid()
      ensures current == if old(IsAtEnd()) then old(current) else old(current) + 1
      ensures t == tokens[current - 1]
    {
      if !IsAtEnd() {
        current := current + 1;
      }
      t := Previous();
    }

    function Check(t: TokenType): bool
      reads this`current
    {
      CheckAt(tokens, current, t)
    }

    /** Consumes the current token when its kind is one of `types`. */
    method Match(types: seq<TokenType>) returns (matched: bool)
      requires Valid()
      modifies this`current
      ensures Valid()
      ensures matched == (!old(IsAtEnd()) && old(Peek()).kind in types)
      ensures current == if matched then old(current) + 1 else old(current)
    {
      for i := 0 to |types|
        invariant current == old(current)
        invariant forall j :: 0 <= j < i ==> !Check(types[j])
      {
        if Check(types[i]) {
          var _ := Advance();
          return true;
        }
      }
      return false;
    }

    /** `parseNode()`. */
    method ParseNode() returns (node: Option<ASTNode>)
      requires Valid() && current < |tokens|
      modifies this`current, this`activeMarkers
      ensures Valid() && activeMarkers == old(activeMarkers)
      ensures (node, current) == ParseNodeAt(tokens, old(current), old(activeMarkers), isLanguage)
      decreases |tokens| - current, 2
    {
      var m := Match([TokenType.Text, Newline]);
      if m {
        NodeAtText(tokens, current - 1, activeMarkers, isLanguage);
        return Some(TextNode(Previous().value));
      }
      m := Match([TripleBacktick]);
      if m {
        NodeAtFence(tokens, current - 1, activeMarkers, isLanguage);
        var n := ParseCodeBlock();
        return Some(n);
      }
      m := Match([Backtick]);
      if m {
        NodeAtInlineCode(tokens, current - 1, activeMarkers, isLanguage);
        var n := ParseInlineCode();
        return Some(n);
      }
      node := ParseMarkerOrToken();
    }

    /** The last two branches of `parseNode()`, on a token that is not text, a
        newline, an opening fence or a backtick: a formatting marker, or any
        other token as text. */
    method ParseMarkerOrToken() returns (node: Option<ASTNode>)
      requires Valid() && current < |tokens|
      requires !AtEnd(tokens, current) ==>
        tokens[current].kind !in {TokenType.Text, Newline, TripleBacktick, Backtick}
      modifies this`current, this`activeMarkers
      ensures Valid() && activeMarkers == old(activeMarkers)
      ensures (node, current) == ParseNodeAt(tokens, old(current), old(activeMarkers), isLanguage)
      decreases |tokens| - current, 1
    {
      var marker := MarkerFor(Peek().kind);
      if marker.Some? {
        NodeAtMarker(tokens, current, activeMarkers, isLanguage, marker.value);
        var n := ParseMarkedText(marker.value);
        return Some(n);
      }
      if !IsAtEnd() {
        NodeAtOther(tokens, current, activeMarkers, isLanguage);
        var t := Advance();
        return Some(TextNode(t.value));
      }
      return None;
    }

    /** The code-block branch of `parseNode()`, after the opening fence. */
    method ParseCodeBlock() returns (node: ASTNode)
      requires Valid()
      modifies this`current
      ensures Valid()
      ensures (node, current) == FenceAt(tokens, old(current), isLanguage)
    {
      var language := "";
      var codeContent: seq<string> := [];
      var firstLine, hasNewline := CollectFirstLine();
      if hasNewline && firstLine != "" {
        var potentialLang := ToLowerAscii(Trim(firstLine));
        if isLanguage(potentialLang) {
          language := potentialLang;
        } else {
          codeContent := codeContent + [firstLine];
        }
        var _ := Match([Newline]);
      } else if firstLine != "" {
        codeContent := codeContent + [firstLine];
      }
      ghost var head := FenceHeader(tokens, old(current), isLanguage);
      assert Join(codeContent) == head.1 && language == head.0 && current == head.2;
      var foundClosing;
      codeContent, foundClosing := CollectCodeBody(codeContent);
      var content := Join(codeContent);
      if foundClosing {
        node := PreNode(content, language);
      } else {
        node := TextNode("```" + (if language != "" then language + "\n" else "") + content + "```");
      }
    }

    /** The first loop of the code-block branch: the first line, and whether a
        newline (left unconsumed) ended it. */
    method CollectFirstLine() returns (firstLine: string, hasNewline: bool)
      requires Valid()
      modifies this`current
      ensures Valid()
      ensures (firstLine, hasNewline, current) == FirstLine(tokens, old(current))
    {
      firstLine := "";
      hasNewline := false;
      ghost var goal := FirstLine(tokens, current);
      while !IsAtEnd() && !Check(TripleBacktick) && !Check(TripleBacktickInline)
        invariant Valid() && !hasNewline
        invariant firstLine + FirstLine(tokens, current).0 == goal.0
        invariant FirstLine(tokens, current).1 == goal.1 && FirstLine(tokens, current).2 == goal.2
        decreases |tokens| - current
      {
        if Check(Newline) {
          hasNewline := true;
          break;
        }
        FirstLineStep(tokens, current, firstLine, goal.0);
        var value := ConsumeValue();
        firstLine := firstLine + value;
      }
      FirstLineStop(tokens, current);
      assert firstLine + "" == firstLine;
    }

    /** The second loop of the code-block branch: the body appended to
        `codeContent`, and whether the closing fence (consumed) was found. */
    method CollectCodeBody(init: seq<string>) returns (codeContent: seq<string>, foundClosing: bool)
      requires Valid()
      modifies this`current
      ensures Valid()
      ensures Join(codeContent) == Join(init) + FenceBody(tokens, old(current)).0
      ensures (foundClosing, current) == (FenceBody(tokens, old(current)).1, FenceBody(tokens, old(current)).2)
    {
      codeContent := init;
      foundClosing := false;
      var lastWasNewline := false;
      ghost var goal := FenceBody(tokens, current);
      while !IsAtEnd() && !foundClosing
        invariant Valid() && !foundClosing
        invariant Join(codeContent) + FenceBody(tokens, current).0 == Join(init) + goal.0
        invariant FenceBody(tokens, current).1 == goal.1 && FenceBody(tokens, current).2 == goal.2
        decreases |tokens| - current
      {
        ghost var p := current;
        var nextToken := Peek();
        if nextToken.kind == TripleBacktick || nextToken.kind == TripleBacktickInline {
          FenceBodyClose(tokens, p);
          foundClosing := true;
          var _ := Advance();
          break;
        }
        CodeBodyStep(tokens, p, codeContent, Join(init) + goal.0);
        var piece;
        piece, lastWasNewline := CodePieceAt();
        codeContent := codeContent + [piece];
      }
      if !foundClosing {
        FenceBodyClose(tokens, current);
      }
      assert Join(codeContent) + "" == Join(codeContent);
    }

    /** `match(TokenType.TEXT)` and otherwise `advance()`, keeping the consumed
        token's value. */
    method ConsumeValue() returns (value: string)
      requires Valid() && !IsAtEnd()
      modifies this`current
      ensures Valid() && current == old(current) + 1 && value == old(Peek()).value
    {
      var m := Match([TokenType.Text]);
      if m {
        return Previous().value;
      }
      var t := Advance();
      return t.value;
    }

    /** One token of a code block's body, consumed: a newline token becomes a
        line break, a text token or any other token its value. */
    method CodePieceAt() returns (piece: string, wasNewline: bool)
      requires Valid() && !IsAtEnd() && !IsFence(Peek().kind)
      modifies this`current
      ensures Valid() && current == old(current) + 1
      ensures piece == CodePiece(old(Peek())) && wasNewline == (old(Peek()).kind == Newline)
    {
      var m := Match([Newline]);
      if m {
        return "\n", true;
      }
      m := Match([TokenType.Text]);
      if m {
        return Previous().value, false;
      }
      var token := Advance();
      return token.value, false;
    }

    /** The inline-code branch of `parseNode()`, after the opening backtick. */
    method ParseInlineCode() returns (node: ASTNode)
      requires Valid()
      modifies this`current
      ensures Valid()
      ensures (node, current) == InlineCodeAt(tokens, old(current))
    {
      var codeContent: seq<string> := [];
      var foundClosing := false;
      ghost var goal := InlineCodeBody(tokens, current);
      while !IsAtEnd() && !foundClosing
        invariant Valid()
        invariant !foundClosing ==>
          Join(codeContent) + InlineCodeBody(tokens, current).0 == goal.0
          && InlineCodeBody(tokens, current).1 == goal.1
          && InlineCodeBody(tokens, current).2 == goal.2
        invariant foundClosing ==> Join(codeContent) + "" == goal.0 && goal.1 && current == goal.2
        decreases |tokens| - current, if foundClosing then 0 else 1
      {
        if Check(Backtick) {
          InlineCodeStop(tokens, current);
          foundClosing := true;
          var _ := Advance();
        } else {
          InlineCodeStep(tokens, current, codeContent, goal.0);
          var piece := ConsumeValue();
          codeContent := codeContent + [piece];
        }
      }
      if !foundClosing {
        InlineCodeStop(tokens, current);
      }
      assert Join(codeContent) + "" == Join(codeContent);
      if foundClosing {
        node := ASTNode(Code, Some(Join(codeContent)), Absent, None);
      } else {
        node := TextNode("`" + Join(codeContent));
      }
    }

    /** `parseMarkedText(info)`. The set of open markers is the same on return. */
    method ParseMarkedText(info: MarkerInfo) returns (node: ASTNode)
      requires Valid() && !IsAtEnd() && MarkerFor(Peek().kind) == Some(info)
      modifies this`current, this`activeMarkers
      ensures Valid() && activeMarkers == old(activeMarkers)
      ensures (node, current) == ParseMarkedAt(tokens, old(current), old(activeMarkers), info, isLanguage)
      decreases |tokens| - current, 0
    {
      ghost var c0 := current;
      ghost var a0 := activeMarkers;
      if info.kind in activeMarkers {
        var _ := Advance();
        return TextNode(info.symbol);
      }
      var _ := Advance();
      var children: seq<ASTNode> := [];
      activeMarkers := activeMarkers + {info.kind};
      ghost var goal := ParseSequence(tokens, c0 + 1, a0 + {info.kind}, Some(info.closing), isLanguage);
      while !IsAtEnd() && !Check(info.closing)
        invariant Valid() && c0 < current
        invariant activeMarkers == a0 + {info.kind}
        invariant children + ParseSequence(tokens, current, activeMarkers, Some(info.closing), isLanguage).0
                  == goal.0
        invariant ParseSequence(tokens, current, activeMarkers, Some(info.closing), isLanguage).1 == goal.1
        decreases |tokens| - current
      {
        ghost var before := current;
        SequenceStep(tokens, before, activeMarkers, Some(info.closing), isLanguage);
        var n := ParseNode();
        ghost var rest := ParseSequence(tokens, current, activeMarkers, Some(info.closing), isLanguage).0;
        if n.Some? {
          AppendAssoc(children, [n.value], rest);
          children := children + [n.value];
        }
      }
      SequenceDone(tokens, current, activeMarkers, Some(info.closing), isLanguage);
      assert children + [] == children;
      ghost var e := current;
      assert (children, e) == goal;
      activeMarkers := activeMarkers - {info.kind};
      assert activeMarkers == a0;
      MarkedAtOpen(tokens, c0, a0, info, isLanguage, children, e);
      var closed := Match([info.closing]);
      if closed {
        return ContainerNode(info.nodeType, children);
      }
      return TextNode(info.symbol + Respell(children));
    }

    /** `parse()`: the root node over the nodes from the cursor to the end. */
    method Parse() returns (root: ASTNode)
      requires Valid()
      modifies this`current, this`activeMarkers
      ensures Valid() && activeMarkers == old(activeMarkers)
      ensures root == ContainerNode(Root, ParseSequence(tokens, old(current), old(activeMarkers), None, isLanguage).0)
    {
      var children: seq<ASTNode> := [];
      ghost var goal := ParseSequence(tokens, current, activeMarkers, None, isLanguage);
      while !IsAtEnd()
        invariant Valid() && activeMarkers == old(activeMarkers)
        invariant children + ParseSequence(tokens, current, activeMarkers, None, isLanguage).0 == goal.0
        decreases |tokens| - current
      {
        ghost var before := current;
        SequenceStep(tokens, before, activeMarkers, None, isLanguage);
        var n := ParseNode();
        ghost var rest := ParseSequence(tokens, current, activeMarkers, None, isLanguage).0;
        if n.Some? {
          AppendAssoc(children, [n.value], rest);
          children := children + [n.value];
        }
      }
      SequenceDone(tokens, current, activeMarkers, None, isLanguage);
      assert children + [] == children;
      return ContainerNode(Root, children);
    }
  }
}
