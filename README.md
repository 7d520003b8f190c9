# Chat markdown to HTML compiler: a verified model

This project models the chat-markdown compiler in `src/util/markdown`.
`parseMarkdown` turns the text a user typed, possibly holding HTML line
breaks from the message editor, into the HTML the message view shows. It runs
five stages:

1. `preprocessHtml` replaces `&nbsp;` with a space. It then replaces each
   backslash escape `\c` with a placeholder (U+E000, the decimal code of `c`,
   U+E001) and rewrites the editor's `<div>`/`<br>` markup into newlines.
2. `Tokenizer.tokenize` repeats the `&nbsp;` and line-break rewrites, then
   scans the string left to right into a flat token list that ends in EOF.
3. `Parser.parse` builds a syntax tree by recursive descent. Its rule is that
   any construct left unclosed becomes literal text.
4. `Generator.generate` renders the tree to HTML, escaping code contents.
5. `restoreEscapedChars` puts the escaped characters back in place of their
   placeholders.

Each source file has its own module:

| module | file | form |
|---|---|---|
| `MarkdownTypes` | `types.dfy` | datatypes for the token and node kinds, `Token` and `ASTNode` |
| `MarkdownTokenizer` | `tokenizer.dfy` | the `Tokenizer` class, proved against the scanning function `Lex` |
| `MarkdownParser` | `parser.dfy` | the `Parser` class, proved against the mutually recursive functions `ParseNodeAt`, `ParseMarkedAt` and `ParseSequence` |
| `MarkdownGenerator` | `generator.dfy` | functions |
| `Markdown` | `markdown.dfy` | the pipeline |

The generator has no fields, so it becomes functions rather than a class.
Three helper modules carry what the source gets from JavaScript's library:

- `Options`: an `Option` type.
- `Strings`: joining, decimal numerals, ECMAScript `trim` and ASCII lower-casing.
- `Replace`: the specific global regular-expression replacements, written out by hand.

### Behaviour the model follows as the code is written

These behaviours differ from what one might expect. The model follows the code, and a lemma exhibits each one.

- **Opening fence only at the very start.** `advance()` clears
  `lastWasNewline` for the first backtick before the triple-backtick case
  reads it. So `TRIPLE_BACKTICK` is produced only for the very first token,
  and a code block can only open at the start of the text. The source's own
  comments intend more: `lastWasNewline` starts true so that an opening mark
  is recognised (tokenizer.ts:17), and the triple-backtick case means to mark
  backticks at the start of any line as an opening (tokenizer.ts:144-145).
  The model follows the code: see `FenceOpenerOnlyFirst`.
- **Only backslashes are escaped in the tokenizer.** `isEscaped` looks at the
  character just consumed, so it never protects the character after a
  backslash (`BackslashRunTokens`).
- **A rejected language line loses its newline.** When a block's first line is
  not a recognised language, the line stays as content but its newline is
  dropped: "```JS\nx```" holds "JSx" (`FenceLanguage`, `UnknownLanguageExample`).
- **An empty first line keeps its newline.** The header consumes the newline
  only after a non-empty first line. After "```" directly followed by a
  newline, the body loop takes that newline as content, so "```\nx```" holds
  "\nx" with its leading line break (`FenceLanguage`, `EmptyFirstLineExample`).
- **An unclosed fence gains a closing fence** (`UnclosedFenceExample`).
- **Unclosed spans are respelled lossily.** A span child is wrapped in the
  first symbol listed for its node kind (bold becomes `**` even when written
  with `*`), and code children vanish (`UnclosedSpanRespells`,
  `UnclosedSpanDropsCode`).
- **Restored characters skip HTML escaping.** Placeholders are replaced after
  generation, so `` `\<` `` renders as `<code><</code>`
  (`EscapedCharInInlineCode`).

## Model

| member | source | states |
|---|---|---|
| MarkdownTypes.TokenTypesDistinct | src/util/markdown/types.ts:1-21 | the token kinds form a closed list of exactly 20 pairwise distinct tags |
| MarkdownTypes.Ordinal | src/util/markdown/types.ts:1-21 | every token kind has a position in that list, and the list at that position holds that kind |
| MarkdownTypes.NodeTypesClosed | src/util/markdown/types.ts:29-40 | every node kind is one of exactly 11 |
| MarkdownParser.ParseWellShaped | src/util/markdown/types.ts:42-47 | every tree the parser builds is a root in which text, code and pre leaves carry a value and no children, containers carry children, and only pre carries attributes |
| Strings.DecimalRoundTrip | src/util/markdown/index.ts:13 | reading back the decimal numeral written for a character code gives that code |
| Strings.NatToDecimal | src/util/markdown/index.ts:13 | the numeral for a code is a non-empty digit string without a leading zero |
| Strings.TrimStartMeaning | src/util/markdown/parser.ts:105 | trimming the front removes exactly the maximal leading run of ECMAScript whitespace |
| Strings.TrimEndMeaning | src/util/markdown/parser.ts:105 | trimming the end removes exactly the maximal trailing run of ECMAScript whitespace |
| Strings.ToLowerAsciiMeaning | src/util/markdown/parser.ts:105 | lower-casing maps each letter A-Z to its lower-case form, keeps every other character, and leaves no upper-case letter |
| Replace.MatchAtIsRegexMatch | src/util/markdown/tokenizer.ts:81-86 | the hand-written matcher for each line-break pattern finds a match from `i` to `e` exactly when `s[i..e]` is in the language of that regular expression |
| Replace.DivBrFromLanguage | src/util/markdown/tokenizer.ts:81 | every word of `<div><br([^>]*)?></div>` is found by the matcher |
| Replace.DivBrToLanguage | src/util/markdown/tokenizer.ts:81 | everything the matcher finds for that pattern is a word of it |
| Replace.BrFromLanguage | src/util/markdown/tokenizer.ts:83 | every word of `<br([^>]*)?>` is found by the matcher |
| Replace.BrToLanguage | src/util/markdown/tokenizer.ts:83 | everything the matcher finds for that pattern is a word of it |
| Replace.DivCloseOpenFromLanguage | src/util/markdown/tokenizer.ts:86 | every word of `</div>(\s*)<div>` is found by the matcher |
| Replace.DivCloseOpenToLanguage | src/util/markdown/tokenizer.ts:86 | everything the matcher finds for that pattern is a word of it |
| Replace.SkipWhitespaceMaximal | src/util/markdown/tokenizer.ts:86 | `\s*` consumes the maximal run of ECMAScript whitespace |
| Replace.FindFromFirst | src/util/markdown/tokenizer.ts:81-83 | the `[^>]*` scan finds the first `>`, and none appears before it |
| Replace.DeleteChar | src/util/markdown/parser.ts:157 | a global replace of a one-character literal by "" leaves none of that character and keeps the others in order |
| Replace.ReplaceAllIdentity | src/util/markdown/tokenizer.ts:78-88 | a replacement whose pattern's first character does not occur leaves the text unchanged |
| Replace.ReplaceNbspIdentity | src/util/markdown/index.ts:9 | text without `&` is unchanged by the `&nbsp;` rewrite |
| Replace.NormalizeLineBreaksIdentity | src/util/markdown/index.ts:17-21 | text without `<` is unchanged by the five line-break rewrites |
| MarkdownTokenizer.Tokenizer.constructor | src/util/markdown/tokenizer.ts:11-18 | a new tokenizer holds the input at position 0 with no tokens and `lastWasNewline` set |
| MarkdownTokenizer.Tokenizer.Advance | src/util/markdown/tokenizer.ts:39-47 | returns the character at the cursor and moves past it; a newline sets `lastWasNewline`, a space, tab or CR keeps it, and anything else clears it |
| MarkdownTokenizer.Tokenizer.AddToken | src/util/markdown/tokenizer.ts:49-56 | appends one token at `start` whose value is the given one or, when that is empty, the slice from `start` to the cursor |
| MarkdownTokenizer.Tokenizer.IsEscaped | src/util/markdown/tokenizer.ts:58-67 | says whether an odd number of backslashes ends just before the cursor |
| MarkdownTokenizer.Tokenizer.Match | src/util/markdown/tokenizer.ts:69-74 | consumes one character exactly when the cursor is on the expected one |
| MarkdownTokenizer.Tokenizer.Tokenize | src/util/markdown/tokenizer.ts:76-97 | rewrites the input's `&nbsp;` and line-break markup, then returns exactly `Lex` of the rewritten input |
| MarkdownTokenizer.Tokenizer.ScanTokens | src/util/markdown/tokenizer.ts:90-93 | the scanning loop runs to the end of the input and leaves every token of `Lex` except the final EOF |
| MarkdownTokenizer.Tokenizer.ScanToken | src/util/markdown/tokenizer.ts:99-197 | one call appends the token `ScanOne` describes and moves the cursor to its end |
| MarkdownTokenizer.Tokenizer.ScanUnescaped | src/util/markdown/tokenizer.ts:108-196 | on a character that is not escaped, appends the token `ScanOne` describes and moves the cursor to its end |
| MarkdownTokenizer.Tokenizer.ScanMarker | src/util/markdown/tokenizer.ts:109-162 | the `*`, `_`, `~`, `|` and `>` cases consume a second copy when there is one and append the token `Paired` gives |
| MarkdownTokenizer.Tokenizer.ScanPaired | src/util/markdown/tokenizer.ts:109-139 | a doubling character gives its double token when repeated and its single token otherwise |
| MarkdownTokenizer.Tokenizer.ScanBackticks | src/util/markdown/tokenizer.ts:141-153 | one, two or three backticks give BACKTICK, DOUBLE_BACKTICK, or a fence whose kind depends only on whether a token was already emitted |
| MarkdownTokenizer.Tokenizer.ScanTag | src/util/markdown/tokenizer.ts:174-185 | `<` starts one text token running through the first `>` or newline |
| MarkdownTokenizer.Tokenizer.ScanText | src/util/markdown/tokenizer.ts:187-196 | a default text token runs to the first stop character |
| MarkdownTokenizer.ScanOne | src/util/markdown/tokenizer.ts:99-197 | every scanned token consumes at least one character, is never EOF or a link token, and is a fence opener only as the first token |
| MarkdownTokenizer.TagEndMeaning | src/util/markdown/tokenizer.ts:177-183 | the HTML-like run contains no `>` or newline before its last character, which is one of them unless the input ran out |
| MarkdownTokenizer.TextRunEndMeaning | src/util/markdown/tokenizer.ts:189-195 | a text run holds none of `` * _ ~ \| ` > \n \ `` and stops just before one of them or at the end |
| MarkdownTokenizer.TextRunEndIs | src/util/markdown/tokenizer.ts:189-195 | a run of non-stop characters ended by a stop character is exactly where the text run ends |
| MarkdownTokenizer.LexEndsWithEof | src/util/markdown/tokenizer.ts:90-96 | the token list is non-empty, ends with EOF, has no earlier EOF, and holds no bracket or parenthesis token |
| MarkdownTokenizer.LexSpellsInput | src/util/markdown/tokenizer.ts:49-56 | the values of all tokens but EOF concatenate to the input |
| MarkdownTokenizer.LexSlicesInput | src/util/markdown/tokenizer.ts:90-93 | every token but EOF is a non-empty slice of the input at its position, and the tokens tile the input without gaps from 0 to its end |
| MarkdownTokenizer.LexEofRepeatsLastToken | src/util/markdown/tokenizer.ts:95 | the EOF token starts where the last real token starts (0 for empty input), and its value is the rest of the input from there |
| MarkdownTokenizer.ScanOneOpener | src/util/markdown/tokenizer.ts:141-146 | a scan gives TRIPLE_BACKTICK exactly when no token has been emitted and three backticks follow |
| MarkdownTokenizer.FenceOpenerOnlyFirst | src/util/markdown/tokenizer.ts:39-46 | only the first token can be TRIPLE_BACKTICK, and it is one exactly when the input starts with three backticks |
| MarkdownTokenizer.LexSymbols | src/util/markdown/tokenizer.ts:108-161 | every marker, backtick, pipe and `>` token's value is that token's symbol |
| MarkdownTokenizer.PairedRun | src/util/markdown/tokenizer.ts:109-139 | a run of one doubling character pairs greedily left to right: doubles as long as two remain, then one single |
| MarkdownTokenizer.BacktickRun | src/util/markdown/tokenizer.ts:141-153 | a run of backticks is taken three at a time, then two or one, and only a run that starts the input opens a fence |
| MarkdownTokenizer.TripleAsterisk | src/util/markdown/tokenizer.ts:109-115 | `***` scans as DOUBLE_ASTERISK, ASTERISK, EOF |
| MarkdownTokenizer.FourBackticks | src/util/markdown/tokenizer.ts:141-153 | four backticks at the start scan as TRIPLE_BACKTICK, BACKTICK, EOF |
| MarkdownTokenizer.BackslashRunIs | src/util/markdown/tokenizer.ts:58-67 | the backward backslash count before a position is the length of the backslash run ending there |
| MarkdownTokenizer.BackslashRunTokens | src/util/markdown/tokenizer.ts:102-106 | a backslash run before a stop character becomes one text token per backslash, so nothing but a backslash is ever escaped |
| MarkdownTokenizer.LexPlain | src/util/markdown/tokenizer.ts:163-196 | input of newlines and non-stop characters scans to text and newline tokens only, then EOF |
| MarkdownParser.MarkerFor | src/util/markdown/parser.ts:18-26 | a marker entry for a token kind has that kind, closes with it, has a non-empty symbol and makes a span node |
| MarkdownParser.MarkerForIsFind | src/util/markdown/parser.ts:66-68 | the lookup is the first table entry with that token kind |
| MarkdownParser.MarkerKinds | src/util/markdown/parser.ts:18-26 | exactly the seven marker token kinds have an entry, each with its node kind |
| MarkdownParser.MarkerForNode | src/util/markdown/parser.ts:253 | a node kind has an entry exactly when it is a span kind, and the entry makes that kind |
| MarkdownParser.MarkerForNodeIsFind | src/util/markdown/parser.ts:253 | the reverse lookup is the first table entry with that node kind |
| MarkdownParser.MarkerSymbols | src/util/markdown/parser.ts:18-26 | the first symbols by node kind: bold `**`, strike `~`, italic `_`, underline `__`, spoiler `\|\|` |
| MarkdownParser.CodeHasNoRow | src/util/markdown/parser.ts:251-261 | a code or pre child contributes nothing to a respelled span |
| MarkdownParser.ParseNodeAt | src/util/markdown/parser.ts:70-213 | `parseNode` returns nothing exactly at the end, and otherwise consumes at least one token |
| MarkdownParser.ParseMarkedAt | src/util/markdown/parser.ts:215-257 | an already open marker becomes its symbol as text; a span node ends just after its closing token; any other result is text starting with the symbol |
| MarkdownParser.ParseSequence | src/util/markdown/parser.ts:231-235 | the node loop stops only at the end or on the closing token |
| MarkdownParser.FirstLine | src/util/markdown/parser.ts:88-99 | the first-line scan stops on a newline (reported) or at a fence or the end |
| MarkdownParser.FirstLineContent | src/util/markdown/parser.ts:88-99 | the first line is the values of exactly the tokens before where the scan stopped |
| MarkdownParser.FenceLanguage | src/util/markdown/parser.ts:102-120 | a block gets a language exactly when its first line is non-empty, followed by a newline and, trimmed and lower-cased, a recognised non-empty name; a rejected line stays as content while its newline is skipped; a recognised line that trims to "" is dropped with its newline; an empty first line leaves its newline token unconsumed and nothing in the header |
| MarkdownParser.FenceBody | src/util/markdown/parser.ts:122-149 | the body scan ends just after a fence when it finds one, otherwise at the end |
| MarkdownParser.FenceContent | src/util/markdown/parser.ts:122-151 | a block's content is its tokens' text, newline tokens as line breaks, up to the closing fence |
| MarkdownParser.FenceContentRun | src/util/markdown/parser.ts:125-133 | no token inside a block's content is a fence or the end |
| MarkdownParser.TrimTrailingNewlinesMeaning | src/util/markdown/parser.ts:157 | removing trailing newlines keeps a prefix that does not end in a newline, and only newlines are dropped |
| MarkdownParser.PreValuePlain | src/util/markdown/parser.ts:157 | content without CR and without a trailing newline is kept as it is |
| MarkdownParser.PreValueNoCr | src/util/markdown/parser.ts:157 | a closed block's value has no CR left: it is the trimmed content with every CR dropped and every other character kept in order |
| MarkdownParser.CodeShape | src/util/markdown/parser.ts:79-195 | a fence gives a well-shaped pre or text node, inline code a well-shaped code or text node |
| MarkdownParser.InlineCodeBody | src/util/markdown/parser.ts:173-182 | the inline-code scan ends just after a backtick when it finds one, otherwise at the end |
| MarkdownParser.InlineCodeContent | src/util/markdown/parser.ts:169-195 | inline code holds the raw values of exactly the tokens between the backticks; unclosed, of those up to the end |
| MarkdownParser.InlineCodeRun | src/util/markdown/parser.ts:173-182 | no token inside inline code is a backtick or the end |
| MarkdownParser.SpanNesting | src/util/markdown/parser.ts:216-238 | because an open marker cannot reopen, italic, underline and spoiler nest at most once, and bold and strike (two markers each) at most twice |
| MarkdownParser.RootDepth | src/util/markdown/parser.ts:216-238 | the nesting depth of each span kind is bounded by the number of its markers that are not open |
| MarkdownParser.PlainTokens | src/util/markdown/parser.ts:264-271 | text and newline tokens up to the end parse to a root of text leaves with their values, in order |
| MarkdownParser.PlainSpan | src/util/markdown/parser.ts:232-246 | a marker, text tokens and the closing marker parse to a span node of the table's kind over those text leaves |
| MarkdownParser.UnclosedPlainSpan | src/util/markdown/parser.ts:248-256 | an unclosed marker over text tokens becomes text: its symbol followed by the tokens' values |
| MarkdownParser.RespellText | src/util/markdown/parser.ts:251-252 | text children are respelled verbatim |
| MarkdownParser.RespellOne | src/util/markdown/parser.ts:251-255 | a span's respelling of one child is that child's spelling |
| MarkdownParser.UnclosedSpanRespells | src/util/markdown/parser.ts:248-256 | `_a*b*` with no closing `_` becomes the text `_a**b**` |
| MarkdownParser.UnclosedSpanDropsCode | src/util/markdown/parser.ts:251-261 | inline code inside an unclosed span disappears from the text |
| MarkdownParser.KnownLanguageExample | src/util/markdown/parser.ts:102-116 | "```JS\nx```" with `js` recognised is a pre node "x" with language `js` |
| MarkdownParser.UnknownLanguageExample | src/util/markdown/parser.ts:111-116 | the same block with `js` unknown is a pre node "JSx": the newline is lost |
| MarkdownParser.EmptyFirstLineExample | src/util/markdown/parser.ts:102-165 | "```\nx```" parses to a pre node whose value "\nx" keeps the leading newline |
| MarkdownParser.UnclosedFenceExample | src/util/markdown/parser.ts:162-165 | an unclosed block "```a" becomes the text "```a```" |
| MarkdownParser.Parser.constructor | src/util/markdown/parser.ts:28-32 | a new parser holds the tokens with the cursor at 0 and no open markers |
| MarkdownParser.Parser.Advance | src/util/markdown/parser.ts:46-49 | the cursor moves by one unless at the end, and the token before the cursor is returned |
| MarkdownParser.Parser.Match | src/util/markdown/parser.ts:56-64 | consumes the current token exactly when it is not the end and its kind is one of those given |
| MarkdownParser.Parser.ParseNode | src/util/markdown/parser.ts:70-213 | gives the node and cursor of `ParseNodeAt` and leaves the open markers as they were |
| MarkdownParser.Parser.ParseCodeBlock | src/util/markdown/parser.ts:79-166 | gives the node and cursor of `FenceAt` |
| MarkdownParser.Parser.ParseMarkerOrToken | src/util/markdown/parser.ts:197-212 | on a marker, any other token or the end, gives the node and cursor of `ParseNodeAt` and leaves the open markers as they were |
| MarkdownParser.Parser.ConsumeValue | src/util/markdown/parser.ts:94-98 | consumes exactly one token and gives its value, whether it is a text token or not |
| MarkdownParser.Parser.CodePieceAt | src/util/markdown/parser.ts:136-147 | consumes exactly one body token and gives its `CodePiece`: a line break for a newline token, the value otherwise |
| MarkdownParser.Parser.CollectFirstLine | src/util/markdown/parser.ts:84-99 | gives the first line, newline flag and cursor of `FirstLine` |
| MarkdownParser.Parser.CollectCodeBody | src/util/markdown/parser.ts:122-149 | extends the collected content by the body text of `FenceBody`, with its found flag and cursor |
| MarkdownParser.Parser.ParseInlineCode | src/util/markdown/parser.ts:168-195 | gives the node and cursor of `InlineCodeAt` |
| MarkdownParser.Parser.ParseMarkedText | src/util/markdown/parser.ts:215-257 | gives the node and cursor of `ParseMarkedAt` and restores the open markers, whether the span closes or not |
| MarkdownParser.Parser.Parse | src/util/markdown/parser.ts:264-271 | returns a root over the nodes of the top-level sequence, in order |
| MarkdownGenerator.EscapeHtmlIsEach | src/util/markdown/generator.ts:68-75 | the five replacement passes, `&` first, equal the per-character escape |
| MarkdownGenerator.EscapeHtmlAppend | src/util/markdown/generator.ts:68-75 | escaping distributes over concatenation |
| MarkdownGenerator.EscapeHtmlIdentity | src/util/markdown/generator.ts:68-75 | text without `& < > " '` is unchanged by escaping |
| MarkdownGenerator.EscapeHtmlSafe | src/util/markdown/generator.ts:68-75 | escaped text has no `< > " '`, and every `&` in it starts one of the five entities |
| MarkdownGenerator.EscapeHtmlRoundTrip | src/util/markdown/generator.ts:68-75 | decoding the five entities in escaped text gives back the original |
| MarkdownGenerator.WellShapedRenderable | src/util/markdown/generator.ts:28-49 | every well-shaped tree can be rendered: its code and pre nodes have the value `escapeHtml` needs |
| MarkdownGenerator.RenderAllAppend | src/util/markdown/generator.ts:62-65 | the rendering of a node list is the concatenation of the renderings of its parts |
| MarkdownGenerator.RenderOne | src/util/markdown/generator.ts:62-65 | a one-child root renders as that child |
| MarkdownGenerator.EmptyRoot | src/util/markdown/generator.ts:62-63 | a root without children and an empty child list render as "" |
| MarkdownGenerator.RenderTextNodes | src/util/markdown/generator.ts:10-11 | text leaves render as their values verbatim, without HTML escaping |
| MarkdownGenerator.ContainerRendering | src/util/markdown/generator.ts:13-26 | a span or blockquote node renders as its opening tag, its rendered children and its closing tag |
| MarkdownGenerator.TagShape | src/util/markdown/generator.ts:51-55 | each tag starts with `<` and ends with `>`; the two blockquotes differ only by ` expandable` and share their closing tag |
| MarkdownGenerator.SpanTagsDistinct | src/util/markdown/generator.ts:13-26 | the five span kinds have pairwise different opening and closing tags |
| MarkdownGenerator.CodeRendering | src/util/markdown/generator.ts:28-31 | code renders as `<code>` with a safely escaped body that decodes to the value, then `</code>` |
| MarkdownGenerator.PreRendering | src/util/markdown/generator.ts:33-49 | pre renders as the opening for its language, a safely escaped body that decodes to the value, and `</code></pre>` |
| Markdown.Sentinel | src/util/markdown/index.ts:13 | a placeholder starts with U+E000 and ends with U+E001 |
| Markdown.EscapeStep | src/util/markdown/index.ts:12-14 | a leading escape `\c` becomes the placeholder for `c`, and in the reference reading the bare `c` |
| Markdown.NoEscapesIdentity | src/util/markdown/index.ts:12-14 | text without backslashes has no escapes to substitute |
| Markdown.SentinelInert | src/util/markdown/index.ts:13 | a placeholder has no stop character, newline, `<`, `&` or other markup, and HTML escaping leaves it unchanged |
| Markdown.DigitRunEnd | src/util/markdown/index.ts:27 | the digit scan covers the maximal run of decimal digits |
| Markdown.FromCharCode | src/util/markdown/index.ts:28 | a code reduced modulo 65536 gives the character with that code, whenever the reduced code is not a surrogate code unit |
| Markdown.RestoreSentinel | src/util/markdown/index.ts:26-30 | a leading placeholder for an escapable character is restored to that character |
| Markdown.RestoreCopies | src/util/markdown/index.ts:26-30 | a character other than U+E000 is copied through by restoration |
| Markdown.RestoreIdentity | src/util/markdown/index.ts:26-30 | text free of U+E000 is unchanged by restoration |
| Markdown.RestoreAfter | src/util/markdown/index.ts:26-30 | restoration passes over a placeholder-free prefix unchanged |
| Markdown.RestoreSubstitute | src/util/markdown/index.ts:12-30 | for text free of U+E000, restoring the substituted text gives the text with each escape's backslash dropped |
| Markdown.ParseMarkdown | src/util/markdown/index.ts:32-50 | the result is restore ∘ generate ∘ parse ∘ tokenize ∘ preprocess of the input, whatever `withMarkdownLinks` is |
| Markdown.EscapedTextRendering | src/util/markdown/index.ts:32-50 | text whose substitution leaves no markup, HTML or entity comes out with only its escape backslashes dropped |
| Markdown.PlainTextUnchanged | src/util/markdown/index.ts:32-50 | text with no markup, backslash, `<`, `&` or placeholder characters comes out unchanged |
| Markdown.EscapedMarkersAreText | src/util/markdown/index.ts:11-14 | `\m\mb\m\m` for an escapable marker `m` comes out as plain `mmbmm`, not as a span |
| Markdown.EscapedCharUnescapedInCode | src/util/markdown/index.ts:44-49 | restoring a code element whose body is a placeholder gives back the raw character, not an entity |
| Markdown.EscapedCodePreprocess | src/util/markdown/index.ts:5-24 | `` `\c` `` reaches the tokenizer as a backtick, the placeholder for `c`, and a backtick |
| Markdown.BacktickedTokens | src/util/markdown/tokenizer.ts:141-196 | a plain word between backticks scans as a backtick, one text token for the word, a backtick and EOF |
| Markdown.BacktickedParse | src/util/markdown/parser.ts:169-189 | those tokens parse to a root over one code node holding the word |
| Markdown.EscapedCharInInlineCode | src/util/markdown/index.ts:44-49 | `` `\c` `` renders as `<code>` + the raw character + `</code>`, so `` `\<` `` gives `<code><</code>` |

## Left out

- `getPrettyCodeLanguageName` becomes the `isLanguage` parameter, a predicate on names with no fixed contents. `src/util/prettyCodeLanguageNames` is not part of this model.
- The values of `ApiMessageEntityTypes` are constants named like the enum members (`MessageEntityBold`, …). `src/api/types.ts` is not part of this model.
- `toLowerCase` is modelled on ASCII letters only; other letters are kept. `trim` and the regular expression `\s` use the ECMAScript whitespace and line-terminator set.
- `String.fromCharCode` reduces the code modulo 65536. Surrogate code units, which a Dafny `char` cannot hold, become U+FFFD, and the precision loss of `Number` above 2^53 is not modelled. The placeholders the preprocessor writes are all for ASCII characters, but `restoreEscapedChars` (index.ts:26-30) rewrites every placeholder in the generated HTML, including ones typed by the user. On such typed input the model differs from the source in two cases. A pair of typed placeholders for the two halves of a surrogate pair gives one astral character in the source and two U+FFFD in the model. A code above 2^53 is rounded by `Number` in the source and reduced exactly in the model.
- Link syntax is left out: the source has no logic for `withMarkdownLinks`, and no code produces the bracket and parenthesis tokens. The flag is kept as a parameter that changes nothing.
- Token positions and the EOF token's value are modelled, because the tokenizer computes them, but no later stage reads them. The source counts positions in UTF-16 code units and the model in Unicode scalar values, so the two differ after any character outside the Basic Multilingual Plane.
- The local `lastWasNewline` in the fence body loop (parser.ts:124) is written but never read. `CollectCodeBody` keeps the writes, from the flag `CodePieceAt` returns, and no contract mentions it.
- MarkdownTokenizer.Tokenizer.Tokenize: requires a freshly constructed tokenizer (cursor, start and tokens at their initial values), which is the only way the source calls it.
- MarkdownParser.Parser.Advance: requires that the parser is not at the end with its cursor at 0. There the source would return `tokens[-1]`, which is `undefined`, and no caller reaches that state.
- The `default` branch of `generate`, which returns "", is unreachable because the node kinds form a closed datatype. Code and pre nodes are rendered only with a value (`Renderable`). The source would throw on `escapeHtml(undefined)`, and the parser never builds such a node (`WellShapedRenderable`).
- The source's scanning and parsing method bodies are split into several Dafny methods. `ScanTokens`, `ScanUnescaped`, `ScanMarker`, `ScanPaired`, `ScanBackticks`, `ScanTag` and `ScanText` split `tokenize`/`scanToken`. `ParseMarkerOrToken`, `ParseCodeBlock`, `CollectFirstLine`, `CodePieceAt`, `CollectCodeBody`, `ConsumeValue` and `ParseInlineCode` split `parseNode`. Each is proved against the same specification function as the code it replaces.
- The one-line private helpers (`isAtEnd`, `peek`, `peekNext`, `peekPrev`, `previous`, `check`, `isWhitespace`) are functions without contracts of their own. `peekNext` and `peekPrev` are unused in the source.
- `src/components/left/main/ChatFolders.tsx` is a user-interface component outside the compiler and is not part of this model.
- Markdown.FromCharCode: states the character for every code whose value modulo 65536 is not a surrogate code unit. A surrogate code unit becomes U+FFFD, which differs from the source for typed placeholders, as the `String.fromCharCode` line above says.
- MarkdownTokenizer.LexPlain: restricted to inputs of newlines and non-stop characters. The general token shapes are stated by `PairedRun`, `BacktickRun`, `BackslashRunTokens`, `TagEndMeaning` and `TextRunEndMeaning`.
