/** The token and syntax-tree vocabulary shared by the tokenizer, the parser and
    the generator (src/util/markdown/types.ts). */
module MarkdownTypes {
  import opened Options

  /** The token kinds. The four bracket and parenthesis kinds are reserved for a
      link syntax that nothing produces. */
  datatype TokenType =
    | Text                  // a run of plain text, one space/tab/CR, an HTML-like tag, a lone `|`
    | Asterisk              // *
    | DoubleAsterisk        // **
    | Underscore            // _
    | DoubleUnderscore      // __
    | Tilde                 // ~
    | DoubleTilde           // ~~
    | Backtick              // `
    | DoubleBacktick        // ``
    | TripleBacktick        // ``` as the opening of a fenced block
    | TripleBacktickInline  // ``` anywhere else
    | DoublePipe            // ||
    | Gt                    // >
    | DoubleGt              // >>
    | Newline               // \n
    | BracketOpen           // [
    | BracketClose          // ]
    | ParenOpen             // (
    | ParenClose            // )
    | Eof                   // end of input

  /** The token kinds in declaration order. */
  const TokenTypeOrder: seq<TokenType> := [
    TokenType.Text, Asterisk, DoubleAsterisk, Underscore, DoubleUnderscore, Tilde, DoubleTilde,
    Backtick, DoubleBacktick, TripleBacktick, TripleBacktickInline, DoublePipe, Gt, DoubleGt,
    Newline, BracketOpen, BracketClose, ParenOpen, ParenClose, Eof
  ]

  /** Where a kind stands in `TokenTypeOrder`: every kind is listed. */
  function Ordinal(t: TokenType): (r: nat)
    ensures r < |TokenTypeOrder| && TokenTypeOrder[r] == t
  {
    match t
    case Text => 0
    case Asterisk => 1
    case DoubleAsterisk => 2
    case Underscore => 3
    case DoubleUnderscore => 4
    case Tilde => 5
    case DoubleTilde => 6
    case Backtick => 7
    case DoubleBacktick => 8
    case TripleBacktick => 9
    case TripleBacktickInline => 10
    case DoublePipe => 11
    case Gt => 12
    case DoubleGt => 13
    case Newline => 14
    case BracketOpen => 15
    case BracketClose => 16
    case ParenOpen => 17
    case ParenClose => 18
    case Eof => 19
  }

  /** No kind is listed twice, so there are exactly twenty token kinds. */
  lemma {:induction false} TokenTypesDistinct()
    ensures |TokenTypeOrder| == 20
    ensures forall i, j :: 0 <= i < j < |TokenTypeOrder| ==> TokenTypeOrder[i] != TokenTypeOrder[j]
  {
    forall i | 0 <= i < |TokenTypeOrder|
      ensures Ordinal(TokenTypeOrder[i]) == i
    {
    }
  }

  /** The kinds reserved for links. */
  predicate IsLinkKind(t: TokenType)
  {
    t == BracketOpen || t == BracketClose || t == ParenOpen || t == ParenClose
  }

  /** A token: its kind, the text it stands for, and the offset where it starts
      (the offset is informational and never consulted). */
  datatype Token = Token(kind: TokenType, value: string, position: nat)

  /** The kinds of a token list. */
  function Kinds(toks: seq<Token>): (r: seq<TokenType>)
    ensures |r| == |toks| && forall k :: 0 <= k < |toks| ==> r[k] == toks[k].kind
  {
    seq(|toks|, k requires 0 <= k < |toks| => toks[k].kind)
  }

  lemma {:induction false} KindsAppend(a: seq<Token>, b: seq<Token>)
    ensures Kinds(a + b) == Kinds(a) + Kinds(b)
  {
  }

  /** The concatenated values of a token list. */
  function Values(toks: seq<Token>): string
  {
    if toks == [] then "" else toks[0].value + Values(toks[1..])
  }

  /** The syntax-tree node kinds. */
  datatype NodeType =
    | Root
    | Text
    | Bold
    | Italic
    | Underline
    | Strike
    | Spoiler
    | Code
    | Pre
    | Blockquote
    | ExpandableBlockquote

  const AllNodeTypes: set<NodeType> := {
    Root, NodeType.Text, Bold, Italic, Underline, Strike, Spoiler, Code, Pre, Blockquote,
    ExpandableBlockquote
  }

  /** The node kinds form a closed set of eleven. */
  lemma {:induction false} NodeTypesClosed(n: NodeType)
    ensures n in AllNodeTypes && |AllNodeTypes| == 11
  {
  }

  /** A syntax-tree node with the optional properties of its interface: `value`,
      `children` and `attributes` may each be absent. */
  datatype ASTNode = ASTNode(
    kind: NodeType,
    value: Option<string>,
    children: Children,
    attributes: Option<map<string, string>>)

  /** The optional `children` array of a node. */
  datatype Children = Absent | Present(nodes: seq<ASTNode>)

  /** Kinds that carry a string value rather than children. */
  predicate IsLeafKind(k: NodeType)
  {
    k == NodeType.Text || k == Code || k == Pre
  }

  /** `{ type: 'text', value: v }`. */
  function TextNode(v: string): ASTNode
  {
    ASTNode(NodeType.Text, Some(v), Absent, None)
  }

  /** `{ type: k, children: cs }`. */
  function ContainerNode(k: NodeType, cs: seq<ASTNode>): ASTNode
  {
    ASTNode(k, None, Present(cs), None)
  }

  /** How the parser fills the optional properties: leaves (`text`, `code`,
      `pre`) have a value and no children, containers have children and no value,
      and only `pre` may carry attributes, and then only a `language`. */
  predicate WellShaped(n: ASTNode)
    decreases n
  {
    if IsLeafKind(n.kind) then
      n.value.Some? && n.children.Absent?
      && (n.kind != Pre ==> n.attributes.None?)
      && (n.attributes.Some? ==> n.attributes.value.Keys == {"language"})
    else
      n.value.None? && n.attributes.None?
      && match n.children
         case Absent => false
         case Present(cs) => forall i :: 0 <= i < |cs| ==> WellShaped(cs[i])
  }
}
