/** The tokenizer (src/util/markdown/tokenizer.ts): a left-to-right scanner that
    turns the rewritten input into a flat token list ending in one EOF token.

    The functions at the top are the specification: `ScanOne` says which token
    starts at an index and where it ends, `Lex` strings those tokens together. The
    class `Tokenizer` is the source's object, with its fields and methods, and its
    methods are proved to produce exactly `Lex` of the rewritten input. */
module MarkdownTokenizer {
  import opened Options
  import opened Strings
  import opened Replace
  import opened MarkdownTypes

  /** The input after the rewrites `tokenize` applies before it scans: `&nbsp;`
      becomes a space, then the HTML line-break rewrites. */
  function TokenizerRewrite(s: string): string
  {
    NormalizeLineBreaks(ReplaceNbsp(s))
  }

  /** The characters that end a run of plain text. */
  predicate IsStopChar(c: char)
  {
    c == '*' || c == '_' || c == '~' || c == '|' || c == '`' || c == '>' || c == '\n' || c == '\\'
  }

  /** Number of consecutive backslashes that end just before index `n`. */
  function BackslashRun(s: string, n: nat): (r: nat)
    requires n <= |s|
    ensures r <= n
  {
    if n == 0 || s[n - 1] != '\\' then 0 else 1 + BackslashRun(s, n - 1)
  }

  /** What the `lastWasNewline` flag means once `s[..n]` has been consumed: the
      last character before `n` that is not a space, tab or carriage return is a
      newline, or there is no such character. */
  function NewlineState(s: string, n: nat): bool
    requires n <= |s|
  {
    if n == 0 then true
    else if s[n - 1] == '\n' then true
    else if Tokenizer.IsWhitespace(s[n - 1]) then NewlineState(s, n - 1)
    else false
  }

  predicate NextIs(s: string, j: nat, c: char)
  {
    j < |s| && s[j] == c
  }

  /** Where the HTML-like text that starts before index `j` ends: just after the
      first `>` or newline at or after `j`, or at the end of the input. */
  function TagEnd(s: string, j: nat): (r: nat)
    requires j <= |s|
    ensures j <= r <= |s|
    decreases |s| - j
  {
    if j == |s| then j
    else if s[j] == '>' || s[j] == '\n' then j + 1
    else TagEnd(s, j + 1)
  }

  /** One step of `TagEnd`. */
  lemma {:induction false} TagEndAt(s: string, j: nat)
    requires j < |s|
    ensures s[j] == '>' || s[j] == '\n' ==> TagEnd(s, j) == j + 1
    ensures !(s[j] == '>' || s[j] == '\n') ==> TagEnd(s, j) == TagEnd(s, j + 1)
  {
  }

  /** What `TagEnd` finds: no `>` or newline before its last character, and the
      last character is one of them unless the input ran out. */
  lemma {:induction false} TagEndMeaning(s: string, j: nat)
    requires j <= |s|
    ensures var r := TagEnd(s, j);
      (forall k :: j <= k < r - 1 ==> s[k] != '>' && s[k] != '\n')
      && (r == |s| || (j < r && (s[r - 1] == '>' || s[r - 1] == '\n')))
    decreases |s| - j
  {
    if j < |s| && s[j] != '>' && s[j] != '\n' {
      TagEndMeaning(s, j + 1);
    }
  }

  /** Where the plain text run that continues at index `j` ends: at the first
      stop character at or after `j`, or at the end of the input. */
  function TextRunEnd(s: string, j: nat): (r: nat)
    requires j <= |s|
    ensures j <= r <= |s|
    decreases |s| - j
  {
    if j == |s| || IsStopChar(s[j]) then j else TextRunEnd(s, j + 1)
  }

  /** What `TextRunEnd` finds: no stop character inside the run, and a stop
      character right after it unless the input ran out. */
  lemma {:induction false} TextRunEndMeaning(s: string, j: nat)
    requires j <= |s|
    ensures var r := TextRunEnd(s, j);
      (forall k :: j <= k < r ==> !IsStopChar(s[k])) && (r < |s| ==> IsStopChar(s[r]))
    decreases |s| - j
  {
    if j < |s| && !IsStopChar(s[j]) {
      TextRunEndMeaning(s, j + 1);
    }
  }

  /** A run of plain characters from `j` that a stop character at `e` ends. */
  lemma {:induction false} TextRunEndIs(s: string, j: nat, e: nat)
    requires j <= e < |s| && IsStopChar(s[e])
    requires forall k :: j <= k < e ==> !IsStopChar(s[k])
    ensures TextRunEnd(s, j) == e
    decreases e - j
  {
    if j < e {
      TextRunEndIs(s, j + 1, e);
    }
  }

  /** The characters that form a token alone and, doubled, a token of their own:
      the cases `*`, `_`, `~`, `|` and `>` of `scanToken`. */
  predicate IsDoubling(c: char)
  {
    c == '*' || c == '_' || c == '~' || c == '|' || c == '>'
  }

  /** The kind of one doubling character; a lone `|` is plain text. */
  function SingleKind(c: char): TokenType
    requires IsDoubling(c)
  {
    match c
    case '*' => Asterisk
    case '_' => Underscore
    case '~' => Tilde
    case '|' => TokenType.Text
    case '>' => Gt
  }

  /** The kind of a doubled doubling character. */
  function DoubleKind(c: char): TokenType
    requires IsDoubling(c)
  {
    match c
    case '*' => DoubleAsterisk
    case '_' => DoubleUnderscore
    case '~' => DoubleTilde
    case '|' => DoublePipe
    case '>' => DoubleGt
  }

  /** A doubling character followed by itself or not. */
  function Paired(s: string, i: nat, single: TokenType, double: TokenType): (TokenType, nat)
    requires i < |s|
  {
    if NextIs(s, i + 1, s[i]) then (double, i + 2) else (single, i + 1)
  }

  /** One, two or three backticks; three make the fence opener only when
      `first`. */
  function BacktickScan(s: string, i: nat, first: bool): (TokenType, nat)
    requires i < |s|
  {
    if !NextIs(s, i + 1, '`') then (Backtick, i + 1)
    else if !NextIs(s, i + 2, '`') then (DoubleBacktick, i + 2)
    else (if first then TripleBacktick else TripleBacktickInline, i + 3)
  }

  /** The token that `scanToken` reads at index `i` of `s`: its kind and the index
      just after it. `first` says that no token has been emitted yet. */
  function ScanOne(s: string, i: nat, first: bool): (r: (TokenType, nat))
    requires i < |s|
    ensures i < r.1 <= |s|
    ensures r.0 != Eof && !IsLinkKind(r.0)
    ensures r.0 == TripleBacktick ==> first
  {
    if BackslashRun(s, i + 1) % 2 == 1 then (TokenType.Text, i + 1)
    else if IsDoubling(s[i]) then Paired(s, i, SingleKind(s[i]), DoubleKind(s[i]))
    else match s[i]
      case '`' => BacktickScan(s, i, first)
      case '\n' => (Newline, i + 1)
      case ' ' => (TokenType.Text, i + 1)
      case '\r' => (TokenType.Text, i + 1)
      case '\t' => (TokenType.Text, i + 1)
      case '<' => (TokenType.Text, TagEnd(s, i + 1))
      case _ => (TokenType.Text, TextRunEnd(s, i + 1))
  }

  /** A one-character slice. */
  lemma {:induction false} SliceOne(s: string, i: nat)
    requires i < |s|
    ensures s[i..i + 1] == [s[i]]
  {
  }

  /** A slice grown by the character after it. */
  lemma {:induction false} SliceExtend(s: string, a: nat, b: nat)
    requires a <= b < |s|
    ensures s[a..b + 1] == s[a..b] + [s[b]]
  {
  }

  /** `ScanOne` on a character that is not escaped, case by case. */
  lemma {:induction false} ScanOneUnescaped(s: string, i: nat, first: bool)
    requires i < |s| && BackslashRun(s, i + 1) % 2 == 0
    ensures IsDoubling(s[i]) ==> ScanOne(s, i, first) == Paired(s, i, SingleKind(s[i]), DoubleKind(s[i]))
    ensures s[i] == '`' ==> ScanOne(s, i, first) == BacktickScan(s, i, first)
    ensures s[i] == '\n' ==> ScanOne(s, i, first) == (Newline, i + 1)
    ensures s[i] == ' ' || s[i] == '\r' || s[i] == '\t' ==> ScanOne(s, i, first) == (TokenType.Text, i + 1)
    ensures s[i] == '<' ==> ScanOne(s, i, first) == (TokenType.Text, TagEnd(s, i + 1))
    ensures !IsDoubling(s[i]) && !(s[i] in "`\n \r\t<") ==>
      ScanOne(s, i, first) == (TokenType.Text, TextRunEnd(s, i + 1))
  {
  }

  /** The tokens of `s[i..]`; `last` is where the previous token started, which
      is where the final EOF token's slice begins. */
  function LexFrom(s: string, i: nat, last: nat): seq<Token>
    requires last <= i <= |s|
    decreases |s| - i
  {
    if i == |s| then [Token(Eof, s[last..], last)]
    else
      var (k, e) := ScanOne(s, i, i == 0);
      [Token(k, s[i..e], i)] + LexFrom(s, e, i)
  }

  /** One step of `LexFrom`: the token at `i`, then the rest; where the previous
      token started does not matter before the end. */
  lemma {:induction false} LexFromStep(s: string, i: nat, last: nat)
    requires last <= i < |s|
    ensures var (k, e) := ScanOne(s, i, i == 0);
      LexFrom(s, i, last) == [Token(k, s[i..e], i)] + LexFrom(s, e, i)
  {
  }

  /** `LexFromStep` with the scanned token given. */
  lemma {:induction false} LexFromScanned(s: string, i: nat, last: nat, k: TokenType, e: nat)
    requires last <= i < |s| && ScanOne(s, i, i == 0) == (k, e)
    ensures LexFrom(s, i, last) == [Token(k, s[i..e], i)] + LexFrom(s, e, i)
  {
    LexFromStep(s, i, last);
  }

  /** The token list `tokenize` returns for the (already rewritten) input `s`. */
  function Lex(s: string): seq<Token>
  {
    LexFrom(s, 0, 0)
  }

  class Tokenizer {
    var input: string
    var position: nat
    var tokens: seq<Token>
    const withMarkdownLinks: bool
    var start: nat
    var lastWasNewline: bool

    /** The scan cursor lies inside the input, and the flag says whether the last
        significant character consumed was a newline. */
    ghost predicate Valid()
      reads this`input, this`position, this`start, this`lastWasNewline
    {
      start <= position <= |input| && lastWasNewline == NewlineState(input, position)
    }

    constructor (input: string, withMarkdownLinks: bool := true)
      ensures Valid()
      ensures this.input == input && position == 0 && tokens == [] && start == 0
      ensures this.withMarkdownLinks == withMarkdownLinks && lastWasNewline
    {
      this.input := input;
      position := 0;
      tokens := [];
      this.withMarkdownLinks := withMarkdownLinks;
      start := 0;
      lastWasNewline := true;
    }

    function IsAtEnd(): bool
      reads this`input, this`position
    {
      position >= |input|
    }

    function Peek(): char
      reads this`input, this`position
    {
      if IsAtEnd() then '\0' else input[position]
    }

    function PeekNext(): char
      reads this`input, this`position
    {
      if position + 1 >= |input| then '\0' else input[position + 1]
    }

    function PeekPrev(): char
      reads this`input, this`position
      requires position <= |input|
    {
      if position == 0 then '\0' else input[position - 1]
    }

    function Previous(): char
      reads this`input, this`position
      requires 0 < position <= |input|
    {
      input[position - 1]
    }

    /** Space, tab and carriage return: the characters that leave
        `lastWasNewline` as it is. */
    static predicate IsWhitespace(c: char)
    {
      c == ' ' || c == '\t' || c == '\r'
    }

    /** Consumes one character and updates the newline flag. */
    method Advance() returns (c: char)
      requires Valid() && position < |input|
      modifies this`position, this`lastWasNewline
      ensures Valid()
      ensures c == input[old(position)] && position == old(position) + 1
      ensures lastWasNewline ==
        if c == '\n' then true else if IsWhitespace(c) then old(lastWasNewline) else false
    {
      c := input[position];
      position := position + 1;
      if c == '\n' {
        lastWasNewline := true;
      } else if c != ' ' && c != '\t' && c != '\r' {
        lastWasNewline := false;
      }
    }

    /** Appends a token; an empty `value` stands for the slice from `start` to
        `position` (the source's `value || slice`). */
    method AddToken(kind: TokenType, value: string := "")
      requires start <= position <= |input|
      modifies this`tokens
      ensures tokens ==
        old(tokens) + [Token(kind, if value == "" then input[start..position] else value, start)]
    {
      var token := Token(kind, if value == "" then input[start..position] else value, start);
      tokens := tokens + [token];
    }

    /** Whether the character just consumed ends an odd run of backslashes: a
        backward scan over the backslashes before `position`. */
    method IsEscaped() returns (escaped: bool)
      requires position <= |input|
      ensures escaped == (BackslashRun(input, position) % 2 == 1)
    {
      if position == 0 {
        return false;
      }
      var count := 0;
      var pos: int := position - 1;
      while pos >= 0 && input[pos] == '\\'
        invariant -1 <= pos < position
        invariant count + BackslashRun(input, pos + 1) == BackslashRun(input, position)
        decreases pos + 1
      {
        count := count + 1;
        pos := pos - 1;
      }
      return count % 2 == 1;
    }

    /** Consumes the next character when it is `expected`. */
    method Match(expected: char) returns (matched: bool)
      requires position <= |input|
      modifies this`position
      ensures matched == (old(position) < |input| && input[old(position)] == expected)
      ensures position == if matched then old(position) + 1 else old(position)
    {
      if IsAtEnd() {
        return false;
      }
      if input[position] != expected {
        return false;
      }
      position := position + 1;
      return true;
    }

    /** Rewrites the input, scans it token by token, and appends the EOF token. */
    method Tokenize() returns (result: seq<Token>)
      requires Valid() && position == 0 && start == 0 && tokens == []
      modifies this
      ensures input == TokenizerRewrite(old(input))
      ensures result == tokens && tokens == Lex(input)
    {
      input := ReplaceAll(Literal("&nbsp;"), input, " ");
      input := ReplaceAll(DivBr, input, "\n");
      input := ReplaceAll(Br, input, "\n");
      input := ReplaceAll(DivCloseOpen, input, "\n");
      input := ReplaceAll(Literal("<div>"), input, "\n");
      input := ReplaceAll(Literal("</div>"), input, "");
      ScanTokens();
      AddToken(Eof);
      result := tokens;
    }

    /** The scanning loop of `tokenize`: one token per iteration until the input
        is used up. What is left for the EOF token is the slice from the last
        token's start. */
    method ScanTokens()
      requires Valid() && position == 0 && start == 0 && tokens == []
      modifies this`position, this`lastWasNewline, this`tokens, this`start
      ensures Valid() && position == |input|
      ensures tokens + [Token(Eof, input[start..position], start)] == Lex(input)
    {
      while !IsAtEnd()
        invariant Valid()
        invariant tokens + LexFrom(input, position, start) == Lex(input)
        invariant |tokens| == 0 <==> position == 0
        decreases |input| - position
      {
        ghost var before := tokens;
        LexFromStep(input, position, start);
        start := position;
        ScanToken();
        AppendAssoc(before, [tokens[|tokens| - 1]], LexFrom(input, position, start));
      }
      assert input[start..position] == input[start..];
    }

    /** Reads one token starting at `position` (which `start` marks). */
    method ScanToken()
      requires Valid() && position < |input| && start == position
      modifies this`position, this`lastWasNewline, this`tokens
      ensures Valid() && start == old(start)
      ensures position == ScanOne(input, old(position), old(|tokens|) == 0).1
      ensures tokens == old(tokens) + [Token(ScanOne(input, old(position), old(|tokens|) == 0).0,
                                             input[old(position)..position], old(position))]
    {
      var c := Advance();
      SliceOne(input, start);
      var escaped := IsEscaped();
      if escaped {
        AddToken(TokenType.Text, [c]);
        return;
      }
      ScanUnescaped(c);
    }

    /** The `switch` of `scanToken` on a character `c` that is not escaped. */
    method ScanUnescaped(c: char)
      requires Valid() && start + 1 == position && input[start] == c
      requires BackslashRun(input, position) % 2 == 0 && input[start..position] == [c]
      modifies this`position, this`lastWasNewline, this`tokens
      ensures Valid() && start == old(start)
      ensures position == ScanOne(input, start, |old(tokens)| == 0).1
      ensures tokens == old(tokens) + [Token(ScanOne(input, start, |old(tokens)| == 0).0,
                                             input[start..position], start)]
    {
      ScanOneUnescaped(input, start, |tokens| == 0);
      if IsDoubling(c) {
        ScanMarker(c);
        return;
      }
      match c {
        case '`' =>
          ScanBackticks();
        case '\n' =>
          AddToken(Newline);
        case ' ' =>
          AddToken(TokenType.Text, [c]);
        case '\r' =>
          AddToken(TokenType.Text, [c]);
        case '\t' =>
          AddToken(TokenType.Text, [c]);
        case '<' =>
          ScanTag();
        case _ =>
          ScanText();
      }
    }

    /** The `switch` cases of the five doubling characters. */
    method ScanMarker(c: char)
      requires Valid() && start + 1 == position && input[start] == c && IsDoubling(c)
      modifies this`position, this`lastWasNewline, this`tokens
      ensures Valid() && start == old(start)
      ensures position == Paired(input, start, SingleKind(c), DoubleKind(c)).1
      ensures tokens == old(tokens) + [Token(Paired(input, start, SingleKind(c), DoubleKind(c)).0,
                                             input[start..position], start)]
    {
      match c {
        case '*' =>
          ScanPaired('*', Asterisk, DoubleAsterisk, "");
        case '_' =>
          ScanPaired('_', Underscore, DoubleUnderscore, "");
        case '~' =>
          ScanPaired('~', Tilde, DoubleTilde, "");
        case '|' =>
          ScanPaired('|', TokenType.Text, DoublePipe, "|");
        case '>' =>
          ScanPaired('>', Gt, DoubleGt, "");
      }
    }

    /** A marker character that doubles: one more of it makes the double token,
        otherwise the single token carries `singleValue` (empty for the slice). */
    method ScanPaired(c: char, single: TokenType, double: TokenType, singleValue: string)
      requires Valid() && start + 1 == position && input[start] == c
      requires c != '\n' && !IsWhitespace(c) && !lastWasNewline
      requires singleValue == "" || singleValue == [c]
      modifies this`position, this`tokens
      ensures Valid() && start == old(start) && lastWasNewline == old(lastWasNewline)
      ensures position == Paired(input, start, single, double).1
      ensures tokens == old(tokens) + [Token(Paired(input, start, single, double).0,
                                             input[start..position], start)]
    {
      var matched := Match(c);
      MarkKeepsValid();
      if matched {
        AddToken(double);
      } else {
        assert input[start..position] == [c];
        AddToken(single, singleValue);
      }
    }

    /** One, two or three backticks. Three open a fence only when no token has
        been emitted yet: `lastWasNewline` is false here, since `advance` has
        just consumed a backtick. */
    method ScanBackticks()
      requires Valid() && start + 1 == position && input[start] == '`' && !lastWasNewline
      modifies this`position, this`tokens
      ensures Valid() && start == old(start) && lastWasNewline == old(lastWasNewline)
      ensures position == BacktickScan(input, start, |old(tokens)| == 0).1
      ensures tokens == old(tokens) + [Token(BacktickScan(input, start, |old(tokens)| == 0).0,
                                             input[start..position], start)]
    {
      var two := Match('`');
      MarkKeepsValid();
      if two {
        var three := Match('`');
        MarkKeepsValid();
        if three {
          AddToken(if lastWasNewline || |tokens| == 0 then TripleBacktick else TripleBacktickInline);
        } else {
          AddToken(DoubleBacktick);
        }
      } else {
        AddToken(Backtick);
      }
    }

    /** After a marker character has been matched, the newline flag (false since
        the marker was consumed) still agrees with the consumed prefix. */
    lemma {:induction false} MarkKeepsValid()
      requires start < position <= |input| && !lastWasNewline
      requires input[position - 1] != '\n' && !IsWhitespace(input[position - 1])
      ensures Valid()
    {
    }

    /** The `<` case: the rest of an HTML-like text token, through the first `>`
        or newline. */
    method ScanTag()
      requires Valid() && start + 1 == position && input[start] == '<'
      modifies this`position, this`lastWasNewline, this`tokens
      ensures Valid() && start == old(start)
      ensures position == TagEnd(input, start + 1)
      ensures tokens == old(tokens) + [Token(TokenType.Text, input[start..position], start)]
    {
      var text := [input[start]];
      SliceOne(input, start);
      ghost var goal := TagEnd(input, start + 1);
      while !IsAtEnd()
        invariant Valid() && start < position <= |input| && text == input[start..position]
        invariant TagEnd(input, position) == goal
        invariant tokens == old(tokens) && start == old(start)
        decreases |input| - position
      {
        ghost var p := position;
        SliceExtend(input, start, p);
        TagEndAt(input, p);
        var d := Advance();
        text := text + [d];
        if text[|text| - 1] == '>' || Previous() == '\n' {
          assert d == input[p] && position == p + 1;
          break;
        }
      }
      assert position == goal;
      AddToken(TokenType.Text, text);
    }

    /** The default case: the rest of a plain text run, up to the next stop
        character. */
    method ScanText()
      requires Valid() && start < position
      modifies this`position, this`lastWasNewline, this`tokens
      ensures Valid() && start == old(start)
      ensures position == TextRunEnd(input, old(position))
      ensures tokens == old(tokens) + [Token(TokenType.Text, input[start..position], start)]
    {
      while !IsAtEnd()
        invariant Valid() && old(position) <= position <= |input|
        invariant TextRunEnd(input, position) == TextRunEnd(input, old(position))
        invariant tokens == old(tokens) && start == old(start)
        decreases |input| - position
      {
        var next := Peek();
        if IsStopChar(next) {
          break;
        }
        var _ := Advance();
      }
      AddToken(TokenType.Text);
    }
  }

  // ---------------------------------------------------------------------------
  // Properties of the token stream
  // ---------------------------------------------------------------------------

  /** The kinds do not depend on where the previous token started: that only
      sets the final EOF token's value and position. */
  lemma {:induction false} KindsIgnoreLast(s: string, i: nat, a: nat, b: nat)
    requires a <= i && b <= i && i <= |s|
    ensures Kinds(LexFrom(s, i, a)) == Kinds(LexFrom(s, i, b))
  {
  }

  /** The stream ends with exactly one EOF token, and no other token is a link
      kind. */
  lemma {:induction false} LexFromEndsWithEof(s: string, i: nat, last: nat)
    requires last <= i <= |s|
    ensures var r := LexFrom(s, i, last);
      |r| >= 1 && r[|r| - 1].kind == Eof
      && (forall k :: 0 <= k < |r| - 1 ==> r[k].kind != Eof)
      && (forall k :: 0 <= k < |r| ==> !IsLinkKind(r[k].kind))
    decreases |s| - i
  {
    if i < |s| {
      var (kind, e) := ScanOne(s, i, i == 0);
      LexFromEndsWithEof(s, e, i);
    }
  }

  /** `tokenize` produces one EOF token, last, and never a bracket or
      parenthesis token. */
  lemma {:induction false} LexEndsWithEof(s: string)
    ensures var r := Lex(s);
      |r| >= 1 && r[|r| - 1].kind == Eof
      && (forall k :: 0 <= k < |r| - 1 ==> r[k].kind != Eof)
      && (forall k :: 0 <= k < |r| ==> !IsLinkKind(r[k].kind))
  {
    LexFromEndsWithEof(s, 0, 0);
  }

  /** All tokens but the last. */
  function Init(toks: seq<Token>): seq<Token>
    requires |toks| >= 1
  {
    toks[..|toks| - 1]
  }

  /** The values of the tokens before the EOF token spell out the input. */
  lemma {:induction false} LexFromValues(s: string, i: nat, last: nat)
    requires last <= i <= |s|
    ensures var r := LexFrom(s, i, last); |r| >= 1 && Values(Init(r)) == s[i..]
    decreases |s| - i
  {
    if i < |s| {
      var (kind, e) := ScanOne(s, i, i == 0);
      var rest := LexFrom(s, e, i);
      LexFromValues(s, e, i);
      LexFromScanned(s, i, last, kind, e);
      assert Init(LexFrom(s, i, last)) == [Token(kind, s[i..e], i)] + Init(rest);
      assert s[i..] == s[i..e] + s[e..];
    }
  }

  /** Every token before the EOF token is a non-empty slice of the input at its
      own position. */
  lemma {:induction false} LexFromSlices(s: string, i: nat, last: nat)
    requires last <= i <= |s|
    ensures var r := LexFrom(s, i, last);
      |r| >= 1
      && forall k :: 0 <= k < |r| - 1 ==>
           i <= r[k].position && 0 < |r[k].value| && r[k].position + |r[k].value| <= |s|
           && r[k].value == s[r[k].position..r[k].position + |r[k].value|]
    decreases |s| - i
  {
    if i < |s| {
      var (kind, e) := ScanOne(s, i, i == 0);
      var rest := LexFrom(s, e, i);
      LexFromSlices(s, e, i);
      var r := LexFrom(s, i, last);
      LexFromScanned(s, i, last, kind, e);
      assert r == [Token(kind, s[i..e], i)] + rest;
      forall k | 1 <= k < |r| - 1
        ensures i <= r[k].position && 0 < |r[k].value| && r[k].position + |r[k].value| <= |s|
           && r[k].value == s[r[k].position..r[k].position + |r[k].value|]
      {
        assert r[k] == rest[k - 1];
      }
    }
  }

  /** Each token starts where the one before it ends; the first starts at `i`
      and the last before the EOF token ends at the end of the input. */
  lemma {:induction false} LexFromContiguous(s: string, i: nat, last: nat)
    requires last <= i <= |s|
    ensures var r := LexFrom(s, i, last);
      |r| >= 1
      && (forall k :: 0 <= k < |r| - 2 ==> r[k + 1].position == r[k].position + |r[k].value|)
      && (|r| >= 2 ==> r[0].position == i && r[|r| - 2].position + |r[|r| - 2].value| == |s|)
    decreases |s| - i
  {
    if i < |s| {
      var (kind, e) := ScanOne(s, i, i == 0);
      var rest := LexFrom(s, e, i);
      LexFromContiguous(s, e, i);
      var r := LexFrom(s, i, last);
      assert r == [Token(kind, s[i..e], i)] + rest;
      forall k | 1 <= k < |r| - 2
        ensures r[k + 1].position == r[k].position + |r[k].value|
      {
        assert r[k] == rest[k - 1] && r[k + 1] == rest[k];
      }
    }
  }

  /** The last two elements of a sequence with one element put in front. */
  lemma {:induction false} ConsLast(t: Token, rest: seq<Token>)
    requires |rest| >= 1
    ensures var r := [t] + rest;
      |r| == |rest| + 1 && r[|r| - 1] == rest[|rest| - 1]
      && r[|r| - 2] == if |rest| == 1 then t else rest[|rest| - 2]
  {
  }

  /** The EOF token starts where the last token before it starts (or at `last`
      when there is none) and its value is the input from there on. */
  lemma {:induction false} LexFromEofValue(s: string, i: nat, last: nat)
    requires last <= i <= |s|
    ensures var r := LexFrom(s, i, last);
      |r| >= 1
      && r[|r| - 1].position == (if |r| == 1 then last else r[|r| - 2].position)
      && r[|r| - 1].position <= |s| && r[|r| - 1].value == s[r[|r| - 1].position..]
    decreases |s| - i
  {
    if i < |s| {
      var (kind, e) := ScanOne(s, i, i == 0);
      var rest := LexFrom(s, e, i);
      LexFromEofValue(s, e, i);
      LexFromScanned(s, i, last, kind, e);
      ConsLast(Token(kind, s[i..e], i), rest);
    }
  }

  /** The values of the tokens `tokenize` produces, EOF aside, spell out the
      scanned input. */
  lemma {:induction false} LexSpellsInput(s: string)
    ensures |Lex(s)| >= 1 && Values(Init(Lex(s))) == s
  {
    LexFromValues(s, 0, 0);
  }

  /** `tokenize` cuts the input into consecutive non-empty slices, the first at
      offset 0 and the last ending at the end of the input. */
  lemma {:induction false} LexSlicesInput(s: string)
    ensures var r := Lex(s);
      |r| >= 1
      && (forall k :: 0 <= k < |r| - 1 ==>
            0 < |r[k].value| && r[k].position + |r[k].value| <= |s|
            && r[k].value == s[r[k].position..r[k].position + |r[k].value|])
      && (forall k :: 0 <= k < |r| - 2 ==> r[k + 1].position == r[k].position + |r[k].value|)
      && (|r| >= 2 ==> r[0].position == 0 && r[|r| - 2].position + |r[|r| - 2].value| == |s|)
  {
    LexFromSlices(s, 0, 0);
    LexFromContiguous(s, 0, 0);
  }

  /** The EOF token is not empty in general: it starts where the last token
      starts and repeats the input from there. */
  lemma {:induction false} LexEofRepeatsLastToken(s: string)
    ensures var r := Lex(s);
      |r| >= 1
      && r[|r| - 1].position == (if |r| == 1 then 0 else r[|r| - 2].position)
      && r[|r| - 1].position <= |s| && r[|r| - 1].value == s[r[|r| - 1].position..]
  {
    LexFromEofValue(s, 0, 0);
  }

  /** Three backticks make the fence opener exactly when they come first. */
  lemma {:induction false} ScanOneOpener(s: string, i: nat, first: bool)
    requires i < |s|
    ensures ScanOne(s, i, first).0 == TripleBacktick
        <==> first && i + 3 <= |s| && s[i..i + 3] == "```"
  {
    if i + 3 <= |s| && s[i..i + 3] == "```" {
      assert s[i] == '`' && s[i + 1] == '`' && s[i + 2] == '`';
      ScanBacktickChar(s, i, first);
    }
    if ScanOne(s, i, first).0 == TripleBacktick {
      assert s[i] == '`' && s[i + 1] == '`' && s[i + 2] == '`';
      assert s[i..i + 3] == "```";
    }
  }

  /** After the first token, three backticks scan as TRIPLE_BACKTICK_INLINE. */
  lemma {:induction false} NoFenceOpenerAfterStart(s: string, i: nat, last: nat)
    requires 0 < i && last <= i <= |s|
    ensures var r := LexFrom(s, i, last);
      forall k :: 0 <= k < |r| ==> r[k].kind != TripleBacktick
    decreases |s| - i
  {
    if i < |s| {
      var (kind, e) := ScanOne(s, i, i == 0);
      NoFenceOpenerAfterStart(s, e, i);
      var r := LexFrom(s, i, last);
      var rest := LexFrom(s, e, i);
      assert forall k :: 0 <= k < |LexFrom(s, e, i)| ==> LexFrom(s, e, i)[k].kind != TripleBacktick;
      LexFromScanned(s, i, last, kind, e);
      assert r == [Token(kind, s[i..e], i)] + rest;
      forall k | 1 <= k < |r|
        ensures r[k].kind != TripleBacktick
      {
        assert r[k] == rest[k - 1];
      }
    }
  }

  /** A TRIPLE_BACKTICK token occurs only as the very first token, and exactly
      when the input starts with three backticks. */
  lemma {:induction false} FenceOpenerOnlyFirst(s: string)
    ensures var r := Lex(s);
      (forall k :: 1 <= k < |r| ==> r[k].kind != TripleBacktick)
      && (r[0].kind == TripleBacktick <==> |s| >= 3 && s[..3] == "```")
  {
    var r := Lex(s);
    if |s| > 0 {
      var (kind, e) := ScanOne(s, 0, true);
      ScanOneOpener(s, 0, true);
      NoFenceOpenerAfterStart(s, e, 0);
      var rest := LexFrom(s, e, 0);
      assert forall k :: 0 <= k < |LexFrom(s, e, 0)| ==> LexFrom(s, e, 0)[k].kind != TripleBacktick;
      assert r == [Token(kind, s[..e], 0)] + rest;
      forall k | 1 <= k < |r|
        ensures r[k].kind != TripleBacktick
      {
        assert r[k] == rest[k - 1];
      }
    }
  }

  /** The text a token kind stands for, for the kinds that stand for one text
      only: all but TEXT and EOF (and the link kinds, which never occur). */
  function Symbol(t: TokenType): Option<string>
  {
    match t
    case Asterisk => Some("*")
    case DoubleAsterisk => Some("**")
    case Underscore => Some("_")
    case DoubleUnderscore => Some("__")
    case Tilde => Some("~")
    case DoubleTilde => Some("~~")
    case Backtick => Some("`")
    case DoubleBacktick => Some("``")
    case TripleBacktick => Some("```")
    case TripleBacktickInline => Some("```")
    case DoublePipe => Some("||")
    case Gt => Some(">")
    case DoubleGt => Some(">>")
    case Newline => Some("\n")
    case _ => None
  }

  /** A token of a fixed-text kind spans exactly that text. */
  lemma {:induction false} ScanOneSymbol(s: string, i: nat, first: bool)
    requires i < |s|
    ensures var (k, e) := ScanOne(s, i, first);
      Symbol(k).Some? ==> s[i..e] == Symbol(k).value
  {
    var (k, e) := ScanOne(s, i, first);
    if Symbol(k).Some? {
      if e == i + 3 {
        assert s[i + 1] == '`' && s[i + 2] == '`';
      } else if e == i + 2 {
        assert s[i + 1] == s[i];
      }
    }
  }

  /** Every token of a fixed-text kind has that text as its value. */
  predicate ValuesMatchSymbols(toks: seq<Token>)
  {
    forall k :: 0 <= k < |toks| && Symbol(toks[k].kind).Some? ==> toks[k].value == Symbol(toks[k].kind).value
  }

  lemma {:induction false} LexFromSymbols(s: string, i: nat, last: nat)
    requires last <= i <= |s|
    ensures ValuesMatchSymbols(LexFrom(s, i, last))
    decreases |s| - i
  {
    if i < |s| {
      var (kind, e) := ScanOne(s, i, i == 0);
      ScanOneSymbol(s, i, i == 0);
      LexFromSymbols(s, e, i);
      var r := LexFrom(s, i, last);
      var rest := LexFrom(s, e, i);
      LexFromScanned(s, i, last, kind, e);
      assert r == [Token(kind, s[i..e], i)] + rest;
      forall k | 1 <= k < |r| && Symbol(r[k].kind).Some?
        ensures r[k].value == Symbol(r[k].kind).value
      {
        assert r[k] == rest[k - 1];
      }
    }
  }

  /** Every token `tokenize` emits of a fixed-text kind has that text as its
      value. */
  lemma {:induction false} LexSymbols(s: string)
    ensures ValuesMatchSymbols(Lex(s))
  {
    LexFromSymbols(s, 0, 0);
  }

  /** A character that is plain text to the scanner: a newline, or anything
      that does not stop a text run. */
  predicate PlainChar(c: char)
  {
    c == '\n' || !IsStopChar(c)
  }

  lemma {:induction false} LexFromPlain(s: string, i: nat, last: nat)
    requires last <= i <= |s|
    requires forall k :: 0 <= k < |s| ==> PlainChar(s[k])
    ensures var r := LexFrom(s, i, last);
      |r| >= 1 && forall k :: 0 <= k < |r| - 1 ==> r[k].kind == TokenType.Text || r[k].kind == Newline
    decreases |s| - i
  {
    if i < |s| {
      var (kind, e) := ScanOne(s, i, i == 0);
      assert BackslashRun(s, i + 1) == 0;
      assert kind == TokenType.Text || kind == Newline;
      LexFromPlain(s, e, i);
      var r := LexFrom(s, i, last);
      var rest := LexFrom(s, e, i);
      assert r == [Token(kind, s[i..e], i)] + rest;
      assert forall k :: 1 <= k < |r| ==> r[k] == rest[k - 1];
    }
  }

  /** Input made of plain characters only scans into text and newline tokens,
      then the EOF token. */
  lemma {:induction false} LexPlain(s: string)
    requires forall k :: 0 <= k < |s| ==> PlainChar(s[k])
    ensures var r := Lex(s);
      |r| >= 1 && r[|r| - 1].kind == Eof
      && forall k :: 0 <= k < |r| - 1 ==> r[k].kind == TokenType.Text || r[k].kind == Newline
  {
    LexFromPlain(s, 0, 0);
    LexFromEndsWithEof(s, 0, 0);
  }

  /** How a doubling character tokenizes: the kind of one copy and of two. */
  predicate PairedChar(c: char, single: TokenType, double: TokenType)
  {
    IsDoubling(c) && single == SingleKind(c) && double == DoubleKind(c)
  }

  /** The kinds a run of `n` copies of a doubling character makes, reading
      greedily: as many doubles as fit, then a single when `n` is odd. */
  function PairedKinds(single: TokenType, double: TokenType, n: nat): seq<TokenType>
  {
    if n >= 2 then [double] + PairedKinds(single, double, n - 2)
    else if n == 1 then [single]
    else []
  }

  /** A doubling character is never escaped, so it scans as `Paired`. */
  lemma {:induction false} ScanPairedChar(s: string, i: nat, first: bool, c: char, single: TokenType, double: TokenType)
    requires i < |s| && s[i] == c && PairedChar(c, single, double)
    ensures ScanOne(s, i, first) == Paired(s, i, single, double)
  {
    assert BackslashRun(s, i + 1) == 0;
  }

  /** A backtick is never escaped, so it scans as `BacktickScan`. */
  lemma {:induction false} ScanBacktickChar(s: string, i: nat, first: bool)
    requires i < |s| && s[i] == '`'
    ensures ScanOne(s, i, first) == BacktickScan(s, i, first)
  {
    assert BackslashRun(s, i + 1) == 0;
  }

  /** A maximal run `s[i..j]` of one doubling character scans greedily into
      pairs. */
  lemma {:induction false} PairedRun(s: string, i: nat, j: nat, last: nat, c: char,
                                     single: TokenType, double: TokenType)
    requires PairedChar(c, single, double)
    requires last <= i <= j <= |s|
    requires forall k :: i <= k < j ==> s[k] == c
    requires j == |s| || s[j] != c
    ensures Kinds(LexFrom(s, i, last)) == PairedKinds(single, double, j - i) + Kinds(LexFrom(s, j, j))
    decreases j - i
  {
    var tail := Kinds(LexFrom(s, j, j));
    if i == j {
      KindsIgnoreLast(s, i, last, i);
    } else {
      ScanPairedChar(s, i, i == 0, c, single, double);
      var (kind, e) := ScanOne(s, i, i == 0);
      var tok := Token(kind, s[i..e], i);
      var rest := LexFrom(s, e, i);
      assert LexFrom(s, i, last) == [tok] + rest;
      KindsAppend([tok], rest);
      assert Kinds([tok]) == [kind];
      if j - i >= 2 {
        assert s[i + 1] == c;
        assert kind == double && e == i + 2;
        PairedRun(s, e, j, i, c, single, double);
        AppendAssoc([double], PairedKinds(single, double, j - e), tail);
      } else {
        assert kind == single && e == j;
        KindsIgnoreLast(s, j, i, j);
      }
    }
  }

  /** The kinds a run of `n` backticks makes: triples while they fit (the
      first one the fence opener when `first`), then a double or a single. */
  function BacktickKinds(first: bool, n: nat): seq<TokenType>
  {
    if n >= 3 then [if first then TripleBacktick else TripleBacktickInline] + BacktickKinds(false, n - 3)
    else if n == 2 then [DoubleBacktick]
    else if n == 1 then [Backtick]
    else []
  }

  /** A maximal run `s[i..j]` of backticks scans greedily into triples. */
  lemma {:induction false} BacktickRun(s: string, i: nat, j: nat, last: nat)
    requires last <= i <= j <= |s|
    requires forall k :: i <= k < j ==> s[k] == '`'
    requires j == |s| || s[j] != '`'
    ensures Kinds(LexFrom(s, i, last)) == BacktickKinds(i == 0, j - i) + Kinds(LexFrom(s, j, j))
    decreases j - i
  {
    var tail := Kinds(LexFrom(s, j, j));
    if i == j {
      KindsIgnoreLast(s, i, last, i);
    } else {
      ScanBacktickChar(s, i, i == 0);
      var (kind, e) := ScanOne(s, i, i == 0);
      var tok := Token(kind, s[i..e], i);
      var rest := LexFrom(s, e, i);
      LexFromScanned(s, i, last, kind, e);
      assert LexFrom(s, i, last) == [tok] + rest;
      KindsAppend([tok], rest);
      assert Kinds([tok]) == [kind];
      if j - i >= 3 {
        assert s[i + 1] == '`' && s[i + 2] == '`';
        assert e == i + 3;
        BacktickRun(s, e, j, i);
        AppendAssoc([kind], BacktickKinds(false, j - e), tail);
      } else {
        if j - i == 2 {
          assert s[i + 1] == '`';
        }
        assert e == j;
        KindsIgnoreLast(s, j, i, j);
      }
    }
  }

  /** `***` scans as `**` then `*`. */
  lemma {:induction false} TripleAsterisk()
    ensures Kinds(Lex("***")) == [DoubleAsterisk, Asterisk, Eof]
  {
    PairedRun("***", 0, 3, 0, '*', Asterisk, DoubleAsterisk);
  }

  /** Four backticks at the start scan as the fence opener and one backtick. */
  lemma {:induction false} FourBackticks()
    ensures Kinds(Lex("````")) == [TripleBacktick, Backtick, Eof]
  {
    BacktickRun("````", 0, 4, 0);
  }

  /** A run `s[b..j]` of backslashes, right after a non-backslash and followed
      by a stop character or the end, scans as one-character TEXT tokens: a
      backslash after an even number of backslashes starts a text run that
      stops at once, and one after an odd number is escaped. `i` is where the
      scan has got to inside the run. */
  lemma {:induction false} BackslashRunTokens(s: string, b: nat, i: nat, j: nat, last: nat)
    requires b <= i <= j <= |s| && last <= i
    requires forall k :: b <= k < j ==> s[k] == '\\'
    requires b == 0 || s[b - 1] != '\\'
    requires j == |s| || IsStopChar(s[j])
    ensures var r := LexFrom(s, i, last);
      |r| > j - i && forall k :: 0 <= k < j - i ==> r[k] == Token(TokenType.Text, "\\", i + k)
    decreases j - i
  {
    if i < j {
      BackslashRunIs(s, b, i + 1);
      var (kind, e) := ScanOne(s, i, i == 0);
      assert kind == TokenType.Text && e == i + 1 by {
        if (i + 1 - b) % 2 == 0 {
          assert e == TextRunEnd(s, i + 1);
          assert i + 1 == |s| || IsStopChar(s[i + 1]);
        }
      }
      var r := LexFrom(s, i, last);
      var rest := LexFrom(s, e, i);
      LexFromScanned(s, i, last, kind, e);
      assert r == [Token(kind, s[i..e], i)] + rest;
      BackslashRunTokens(s, b, e, j, i);
      assert forall k :: 1 <= k < |r| ==> r[k] == rest[k - 1];
    }
  }

  /** The backslash run ending before `n` that starts at a non-backslash
      boundary `b` has length `n - b`. */
  lemma {:induction false} BackslashRunIs(s: string, b: nat, n: nat)
    requires b <= n <= |s|
    requires forall k :: b <= k < n ==> s[k] == '\\'
    requires b == 0 || s[b - 1] != '\\'
    ensures BackslashRun(s, n) == n - b
    decreases n - b
  {
    if b < n {
      BackslashRunIs(s, b, n - 1);
    }
  }
}
