/** The HTML generator of src/util/markdown/generator.ts: a recursive switch over
    the node kind that wraps the rendered children of each span in one fixed tag,
    copies text verbatim, and HTML-escapes the contents of code. */
module MarkdownGenerator {
  import opened Options
  import opened Strings
  import opened Replace
  import opened MarkdownTypes
  import MarkdownParser

  // ---------------------------------------------------------------------------
  // escapeHtml (generator.ts lines 68-75)
  // ---------------------------------------------------------------------------

  /** `escapeHtml(s)`: five global replaces, `&` first so that the entities the
      later ones insert are not escaped again. */
  function EscapeHtml(s: string): string
  {
    var a := ReplaceAll(Literal("&"), s, "&amp;");
    var b := ReplaceAll(Literal("<"), a, "&lt;");
    var c := ReplaceAll(Literal(">"), b, "&gt;");
    var d := ReplaceAll(Literal("\""), c, "&quot;");
    ReplaceAll(Literal("'"), d, "&#039;")
  }

  /** What one character becomes under escaping. */
  function EscapeChar(c: char): string
  {
    if c == '&' then "&amp;"
    else if c == '<' then "&lt;"
    else if c == '>' then "&gt;"
    else if c == '"' then "&quot;"
    else if c == '\'' then "&#039;"
    else [c]
  }

  /** The reference escaping: every character replaced on its own. */
  function EscapeEach(s: string): string
  {
    if s == [] then "" else EscapeChar(s[0]) + EscapeEach(s[1..])
  }

  /** Every occurrence of the character `c` replaced by `rep`. */
  function SubChar(s: string, c: char, rep: string): string
  {
    if s == [] then "" else (if s[0] == c then rep else [s[0]]) + SubChar(s[1..], c, rep)
  }

  /** A global replace of a one-character literal replaces each occurrence of
      that character and nothing else. */
  lemma {:induction false} ReplaceCharFrom(s: string, c: char, rep: string, i: nat)
    requires i <= |s|
    ensures ReplaceFrom(Literal([c]), s, rep, i) == SubChar(s[i..], c, rep)
    decreases |s| - i
  {
    if i < |s| {
      assert s[i..i + 1] == [s[i]];
      assert MatchAt(Literal([c]), s, i) == if s[i] == c then Some(i + 1) else None;
      ReplaceCharFrom(s, c, rep, i + 1);
      assert s[i..][0] == s[i] && s[i..][1..] == s[i + 1..];
    }
  }

  lemma {:induction false} ReplaceChar(s: string, c: char, rep: string)
    ensures ReplaceAll(Literal([c]), s, rep) == SubChar(s, c, rep)
  {
    ReplaceCharFrom(s, c, rep, 0);
    assert s[0..] == s;
  }

  lemma {:induction false} SubCharAppend(a: string, b: string, c: char, rep: string)
    ensures SubChar(a + b, c, rep) == SubChar(a, c, rep) + SubChar(b, c, rep)
    decreases |a|
  {
    if a == [] {
      assert a + b == b;
    } else {
      assert (a + b)[0] == a[0] && (a + b)[1..] == a[1..] + b;
      SubCharAppend(a[1..], b, c, rep);
      AppendAssoc(if a[0] == c then rep else [a[0]], SubChar(a[1..], c, rep), SubChar(b, c, rep));
    }
  }

  /** A string without `c` is left as it is. */
  lemma {:induction false} SubCharAbsent(s: string, c: char, rep: string)
    requires forall k :: 0 <= k < |s| ==> s[k] != c
    ensures SubChar(s, c, rep) == s
    decreases |s|
  {
    if s != [] {
      SubCharAbsent(s[1..], c, rep);
      assert s == [s[0]] + s[1..];
    }
  }

  /** The five passes, each a character substitution. */
  function Passes(s: string): string
  {
    SubChar(SubChar(SubChar(SubChar(SubChar(s, '&', "&amp;"), '<', "&lt;"), '>', "&gt;"), '"', "&quot;"), '\'', "&#039;")
  }

  lemma {:induction false} EscapeHtmlIsPasses(s: string)
    ensures EscapeHtml(s) == Passes(s)
  {
    var a := SubChar(s, '&', "&amp;");
    var b := SubChar(a, '<', "&lt;");
    var c := SubChar(b, '>', "&gt;");
    var d := SubChar(c, '"', "&quot;");
    ReplaceChar(s, '&', "&amp;");
    ReplaceChar(a, '<', "&lt;");
    ReplaceChar(b, '>', "&gt;");
    ReplaceChar(c, '"', "&quot;");
    ReplaceChar(d, '\'', "&#039;");
  }

  lemma {:induction false} PassesAppend(x: string, y: string)
    ensures Passes(x + y) == Passes(x) + Passes(y)
  {
    var x1 := SubChar(x, '&', "&amp;");
    var y1 := SubChar(y, '&', "&amp;");
    SubCharAppend(x, y, '&', "&amp;");
    var x2 := SubChar(x1, '<', "&lt;");
    var y2 := SubChar(y1, '<', "&lt;");
    SubCharAppend(x1, y1, '<', "&lt;");
    var x3 := SubChar(x2, '>', "&gt;");
    var y3 := SubChar(y2, '>', "&gt;");
    SubCharAppend(x2, y2, '>', "&gt;");
    var x4 := SubChar(x3, '"', "&quot;");
    var y4 := SubChar(y3, '"', "&quot;");
    SubCharAppend(x3, y3, '"', "&quot;");
    SubCharAppend(x4, y4, '\'', "&#039;");
  }

  /** A string none of whose characters any pass rewrites. */
  predicate NoSpecial(s: string)
  {
    forall k :: 0 <= k < |s| ==> s[k] != '&' && !IsMarkupChar(s[k])
  }

  /** The characters HTML markup is made of, besides `&`. */
  predicate IsMarkupChar(c: char)
  {
    c == '<' || c == '>' || c == '"' || c == '\''
  }

  /** Text the passes after the first one leave alone. */
  predicate NoMarkup(s: string)
  {
    forall k :: 0 <= k < |s| ==> !IsMarkupChar(s[k])
  }

  lemma {:induction false} LaterPassesIdentity(s: string)
    requires NoMarkup(s)
    ensures SubChar(SubChar(SubChar(SubChar(s, '<', "&lt;"), '>', "&gt;"), '"', "&quot;"), '\'', "&#039;") == s
  {
    SubCharAbsent(s, '<', "&lt;");
    SubCharAbsent(s, '>', "&gt;");
    SubCharAbsent(s, '"', "&quot;");
    SubCharAbsent(s, '\'', "&#039;");
  }

  /** One pass on a one-character string. */
  lemma {:induction false} SubCharOne(x: char, c: char, rep: string)
    ensures SubChar([x], c, rep) == if x == c then rep else [x]
  {
    assert [x][1..] == [];
    assert (if x == c then rep else [x]) + "" == (if x == c then rep else [x]);
  }

  /** On one character the five passes give its entity. */
  lemma {:induction false} PassesOne(x: char)
    ensures Passes([x]) == EscapeChar(x)
  {
    SubCharOne(x, '&', "&amp;");
    if x == '&' {
      LaterPassesIdentity("&amp;");
    } else {
      SubCharOne(x, '<', "&lt;");
      if x == '<' {
        SubCharAbsent("&lt;", '>', "&gt;");
        SubCharAbsent("&lt;", '"', "&quot;");
        SubCharAbsent("&lt;", '\'', "&#039;");
      } else {
        SubCharOne(x, '>', "&gt;");
        if x == '>' {
          SubCharAbsent("&gt;", '"', "&quot;");
          SubCharAbsent("&gt;", '\'', "&#039;");
        } else {
          SubCharOne(x, '"', "&quot;");
          if x == '"' {
            SubCharAbsent("&quot;", '\'', "&#039;");
          } else {
            SubCharOne(x, '\'', "&#039;");
          }
        }
      }
    }
  }

  /** The chain of replaces escapes each character independently: it is the
      reference escaping. */
  lemma {:induction false} EscapeHtmlIsEach(s: string)
    ensures EscapeHtml(s) == EscapeEach(s)
    decreases |s|
  {
    EscapeHtmlIsPasses(s);
    if s != [] {
      assert s == [s[0]] + s[1..];
      PassesAppend([s[0]], s[1..]);
      PassesOne(s[0]);
      EscapeHtmlIsEach(s[1..]);
      EscapeHtmlIsPasses(s[1..]);
    }
  }

  lemma {:induction false} EscapeEachAppend(a: string, b: string)
    ensures EscapeEach(a + b) == EscapeEach(a) + EscapeEach(b)
    decreases |a|
  {
    if a == [] {
      assert a + b == b;
    } else {
      assert (a + b)[0] == a[0] && (a + b)[1..] == a[1..] + b;
      EscapeEachAppend(a[1..], b);
      AppendAssoc(EscapeChar(a[0]), EscapeEach(a[1..]), EscapeEach(b));
    }
  }

  /** Escaping distributes over concatenation. */
  lemma {:induction false} EscapeHtmlAppend(a: string, b: string)
    ensures EscapeHtml(a + b) == EscapeHtml(a) + EscapeHtml(b)
  {
    EscapeHtmlIsEach(a + b);
    EscapeHtmlIsEach(a);
    EscapeHtmlIsEach(b);
    EscapeEachAppend(a, b);
  }

  /** Text with no character to escape is left unchanged. */
  lemma {:induction false} EscapeHtmlIdentity(s: string)
    requires NoSpecial(s)
    ensures EscapeHtml(s) == s
    decreases |s|
  {
    EscapeHtmlIsEach(s);
    EscapeEachIdentity(s);
  }

  lemma {:induction false} EscapeEachIdentity(s: string)
    requires NoSpecial(s)
    ensures EscapeEach(s) == s
    decreases |s|
  {
    if s != [] {
      EscapeEachIdentity(s[1..]);
      assert s == [s[0]] + s[1..];
    }
  }

  /** One of the five entities starts at index `k` of `s`. */
  predicate EntityAt(s: string, k: nat)
  {
    At(s, k, "&amp;") || At(s, k, "&lt;") || At(s, k, "&gt;") || At(s, k, "&quot;") || At(s, k, "&#039;")
  }

  /** What escaped text looks like: no markup character, and every `&` opens
      one of the five entities. */
  predicate Escaped(s: string)
  {
    forall k :: 0 <= k < |s| ==> !IsMarkupChar(s[k]) && (s[k] == '&' ==> EntityAt(s, k))
  }

  lemma {:induction false} AtAppend(a: string, b: string, k: nat, p: string)
    ensures At(a, k, p) ==> At(a + b, k, p)
    ensures At(b, k, p) ==> At(a + b, |a| + k, p)
  {
    if At(a, k, p) {
      assert (a + b)[k..k + |p|] == a[k..k + |p|];
    }
    if At(b, k, p) {
      assert (a + b)[|a| + k..|a| + k + |p|] == b[k..k + |p|];
    }
  }

  lemma {:induction false} EscapedAppend(a: string, b: string)
    requires Escaped(a) && Escaped(b)
    ensures Escaped(a + b)
  {
    forall k | 0 <= k < |a + b| && (a + b)[k] == '&'
      ensures EntityAt(a + b, k)
    {
      if k < |a| {
        assert a[k] == '&';
        AtAppend(a, b, k, "&amp;");
        AtAppend(a, b, k, "&lt;");
        AtAppend(a, b, k, "&gt;");
        AtAppend(a, b, k, "&quot;");
        AtAppend(a, b, k, "&#039;");
      } else {
        assert b[k - |a|] == '&';
        AtAppend(a, b, k - |a|, "&amp;");
        AtAppend(a, b, k - |a|, "&lt;");
        AtAppend(a, b, k - |a|, "&gt;");
        AtAppend(a, b, k - |a|, "&quot;");
        AtAppend(a, b, k - |a|, "&#039;");
      }
    }
    assert forall k :: 0 <= k < |a + b| ==> !IsMarkupChar((a + b)[k]) by {
      forall k | 0 <= k < |a + b|
        ensures !IsMarkupChar((a + b)[k])
      {
        if k < |a| { assert (a + b)[k] == a[k]; } else { assert (a + b)[k] == b[k - |a|]; }
      }
    }
  }

  lemma {:induction false} EscapeCharEscaped(c: char)
    ensures Escaped(EscapeChar(c))
  {
    var w := EscapeChar(c);
    if c == '&' {
      assert At(w, 0, "&amp;");
    } else if c == '<' {
      assert At(w, 0, "&lt;");
    } else if c == '>' {
      assert At(w, 0, "&gt;");
    } else if c == '"' {
      assert At(w, 0, "&quot;");
    } else if c == '\'' {
      assert At(w, 0, "&#039;");
    }
  }

  lemma {:induction false} EscapeEachEscaped(s: string)
    ensures Escaped(EscapeEach(s))
    decreases |s|
  {
    if s != [] {
      EscapeCharEscaped(s[0]);
      EscapeEachEscaped(s[1..]);
      EscapedAppend(EscapeChar(s[0]), EscapeEach(s[1..]));
    }
  }

  /** Escaped text contains no `<`, `>`, `"` or `'`, and every `&` in it starts
      one of the five entities. */
  lemma {:induction false} EscapeHtmlSafe(s: string)
    ensures Escaped(EscapeHtml(s))
  {
    EscapeHtmlIsEach(s);
    EscapeEachEscaped(s);
  }

  /** The reference decoder: each of the five entities back to its character,
      anything else kept. */
  function Unescape(s: string): string
    decreases |s|
  {
    if s == [] then ""
    else if At(s, 0, "&amp;") then "&" + Unescape(s[5..])
    else if At(s, 0, "&lt;") then "<" + Unescape(s[4..])
    else if At(s, 0, "&gt;") then ">" + Unescape(s[4..])
    else if At(s, 0, "&quot;") then "\"" + Unescape(s[6..])
    else if At(s, 0, "&#039;") then "'" + Unescape(s[6..])
    else [s[0]] + Unescape(s[1..])
  }

  /** A string that starts with `p` has `p` at index 0, and the rest after it. */
  lemma {:induction false} AtPrefix(p: string, t: string)
    ensures At(p + t, 0, p) && (p + t)[|p|..] == t
  {
    assert (p + t)[0..|p|] == p;
  }

  /** Two entities with different second characters cannot both start at 0. */
  lemma {:induction false} AtExcludes(w: string, p: string, q: string)
    requires At(w, 0, p) && 1 < |p| && 1 < |q| && p[1] != q[1]
    ensures !At(w, 0, q)
  {
    assert w[1] == w[0..|p|][1] == p[1];
  }

  lemma {:induction false} UnescapeStep(c: char, t: string)
    ensures Unescape(EscapeChar(c) + t) == [c] + Unescape(t)
  {
    var p := EscapeChar(c);
    var w := p + t;
    if c == '&' || c == '<' || c == '>' || c == '"' || c == '\'' {
      AtPrefix(p, t);
    }
    if c == '<' || c == '>' || c == '"' || c == '\'' {
      AtExcludes(w, p, "&amp;");
    }
    if c == '>' || c == '"' || c == '\'' {
      AtExcludes(w, p, "&lt;");
    }
    if c == '"' || c == '\'' {
      AtExcludes(w, p, "&gt;");
    }
    if c == '\'' {
      AtExcludes(w, p, "&quot;");
    }
    if p == [c] {
      assert w[0] == c && w[1..] == t;
    }
  }

  lemma {:induction false} UnescapeEach(s: string)
    ensures Unescape(EscapeEach(s)) == s
    decreases |s|
  {
    if s != [] {
      UnescapeStep(s[0], EscapeEach(s[1..]));
      UnescapeEach(s[1..]);
      assert s == [s[0]] + s[1..];
    }
  }

  /** Escaping loses nothing: decoding the five entities gives the text back. */
  lemma {:induction false} EscapeHtmlRoundTrip(s: string)
    ensures Unescape(EscapeHtml(s)) == s
  {
    EscapeHtmlIsEach(s);
    UnescapeEach(s);
  }

  // ---------------------------------------------------------------------------
  // generate and generateChildren (generator.ts lines 4-66)
  // ---------------------------------------------------------------------------

  /** What rendering needs so that it does not fail: a `code` or `pre` node
      reached by the recursion has a value (the source would call `replace` on
      `undefined`). The children of a leaf kind are never visited. */
  predicate Renderable(n: ASTNode)
    decreases n
  {
    ((n.kind == Code || n.kind == Pre) ==> n.value.Some?)
    && (!IsLeafKind(n.kind) ==>
          match n.children
          case Absent => true
          case Present(cs) => forall i :: 0 <= i < |cs| ==> Renderable(cs[i]))
  }

  /** Every tree the parser builds can be rendered. */
  lemma {:induction false} WellShapedRenderable(n: ASTNode)
    requires WellShaped(n)
    ensures Renderable(n)
    decreases n
  {
    if !IsLeafKind(n.kind) {
      var cs := n.children.nodes;
      forall i | 0 <= i < |cs|
        ensures Renderable(cs[i])
      {
        WellShapedRenderable(cs[i]);
      }
    }
  }

  /** `attributes?.language`, with an absent attribute read as the empty
      string (both are falsy). */
  function Language(n: ASTNode): string
  {
    match n.attributes
    case None => ""
    case Some(m) => if "language" in m then m["language"] else ""
  }

  /** The `ApiMessageEntityTypes` members the generator writes into the
      `data-entity-type` attribute; api/types.ts is not part of this model, so
      the names are fixed here. */
  const EntityBold := "MessageEntityBold"
  const EntityItalic := "MessageEntityItalic"
  const EntityUnderline := "MessageEntityUnderline"
  const EntityStrike := "MessageEntityStrike"
  const EntitySpoiler := "MessageEntitySpoiler"
  const EntityBlockquote := "MessageEntityBlockquote"

  /** `data-entity-type="<entity>"`. */
  function EntityAttr(entity: string): string
  {
    "data-entity-type=\"" + entity + "\""
  }

  /** The opening tag of a span or quote kind. */
  function OpenTag(k: NodeType): string
  {
    match k
    case Bold => "<b " + EntityAttr(EntityBold) + ">"
    case Italic => "<i " + EntityAttr(EntityItalic) + ">"
    case Underline => "<u " + EntityAttr(EntityUnderline) + ">"
    case Strike => "<s " + EntityAttr(EntityStrike) + ">"
    case Spoiler => "<span class=\"spoiler\" " + EntityAttr(EntitySpoiler) + ">"
    case Blockquote => QuoteHead() + ">"
    case ExpandableBlockquote => QuoteHead() + " expandable>"
    case _ => ""
  }

  /** The opening of both blockquote tags up to the point where they differ. */
  function QuoteHead(): string
  {
    "<blockquote " + "class=\"text-entity-quote\" dir=\"auto\" " + EntityAttr(EntityBlockquote)
  }

  /** The closing tag of a span or quote kind. */
  function CloseTag(k: NodeType): string
  {
    match k
    case Bold => "</b>"
    case Italic => "</i>"
    case Underline => "</u>"
    case Strike => "</s>"
    case Spoiler => "</span>"
    case Blockquote => "</blockquote>"
    case ExpandableBlockquote => "</blockquote>"
    case _ => ""
  }

  /** The opening of a code block: with a non-empty language `L`, a `pre`
      carrying `data-language="L"` around a `code` of class `language-L`, both
      inserted as they are; otherwise bare `pre` and `code` tags. */
  function PreOpen(language: string): string
  {
    if language != "" then
      "<pre data-language=\"" + language + "\"><code class=\"language-" + language + "\">"
    else "<pre><code>"
  }

  /** `generate(node)`. */
  function Generate(n: ASTNode): string
    requires Renderable(n)
    decreases n, 1
  {
    match n.kind
    case Root => GenerateChildren(n)
    case Text => n.value.GetOr("")
    case Code => "<code>" + EscapeHtml(n.value.value) + "</code>"
    case Pre => PreOpen(Language(n)) + EscapeHtml(n.value.value) + "</code></pre>"
    case _ => OpenTag(n.kind) + GenerateChildren(n) + CloseTag(n.kind)
  }

  /** `generateChildren(node)`: the renderings of the children joined, or "" when
      there are none. */
  function GenerateChildren(n: ASTNode): string
    requires Renderable(n) && !IsLeafKind(n.kind)
    decreases n, 0
  {
    match n.children
    case Absent => ""
    case Present(cs) => Join(seq(|cs|, i requires 0 <= i < |cs| => Generate(cs[i])))
  }

  /** Every node of a list can be rendered. */
  predicate AllRenderable(cs: seq<ASTNode>)
  {
    forall i :: 0 <= i < |cs| ==> Renderable(cs[i])
  }

  /** The rendering of a root over `cs`: the children's renderings in order. */
  function RenderAll(cs: seq<ASTNode>): string
    requires AllRenderable(cs)
  {
    Generate(ContainerNode(Root, cs))
  }

  lemma {:induction false} JoinConcat(p: seq<string>, q: seq<string>)
    ensures Join(p + q) == Join(p) + Join(q)
    decreases |q|
  {
    if q == [] {
      assert p + q == p;
    } else {
      var q0 := q[..|q| - 1];
      var x := q[|q| - 1];
      assert q == q0 + [x];
      assert p + q == (p + q0) + [x];
      JoinAppend(p + q0, x);
      JoinConcat(p, q0);
      JoinAppend(q0, x);
      AppendAssoc(Join(p), Join(q0), x);
    }
  }

  /** A root renders as the concatenation of its children's renderings: a root
      over two lists renders as the two renderings one after the other. */
  lemma {:induction false} RenderAllAppend(a: seq<ASTNode>, b: seq<ASTNode>)
    requires AllRenderable(a) && AllRenderable(b)
    ensures AllRenderable(a + b) && RenderAll(a + b) == RenderAll(a) + RenderAll(b)
  {
    var ab := a + b;
    assert AllRenderable(ab) by {
      forall i | 0 <= i < |ab|
        ensures Renderable(ab[i])
      {
        if i < |a| { assert ab[i] == a[i]; } else { assert ab[i] == b[i - |a|]; }
      }
    }
    var pa := seq(|a|, i requires 0 <= i < |a| => Generate(a[i]));
    var pb := seq(|b|, i requires 0 <= i < |b| => Generate(b[i]));
    var pab := seq(|ab|, i requires 0 <= i < |ab| => Generate(ab[i]));
    assert pab == pa + pb;
    JoinConcat(pa, pb);
    assert RenderAll(a) == GenerateChildren(ContainerNode(Root, a)) == Join(pa);
    assert RenderAll(b) == GenerateChildren(ContainerNode(Root, b)) == Join(pb);
    assert RenderAll(ab) == GenerateChildren(ContainerNode(Root, ab)) == Join(pab);
  }

  /** A single child renders on its own. */
  lemma {:induction false} RenderOne(n: ASTNode)
    requires Renderable(n)
    ensures AllRenderable([n]) && RenderAll([n]) == Generate(n)
  {
    var parts := seq(1, i requires 0 <= i < 1 => Generate([n][i]));
    assert parts == [Generate(n)] && parts[..0] == [];
    assert Join(parts) == Join([]) + Generate(n);
    assert RenderAll([n]) == GenerateChildren(ContainerNode(Root, [n])) == Join(parts);
  }

  /** A root with no children, or with an empty list, renders as "". */
  lemma {:induction false} EmptyRoot()
    ensures Generate(ASTNode(Root, None, Absent, None)) == ""
    ensures RenderAll([]) == ""
  {
    assert |ContainerNode(Root, []).children.nodes| == 0;
    assert RenderAll([]) == GenerateChildren(ContainerNode(Root, [])) == Join([]);
  }

  /** Text nodes render verbatim, without escaping: a root over the text nodes
      of some tokens renders as the tokens' values run together. */
  lemma {:induction false} RenderTextNodes(ts: seq<Token>)
    ensures AllRenderable(MarkdownParser.TextNodes(ts))
    ensures RenderAll(MarkdownParser.TextNodes(ts)) == Values(ts)
    decreases |ts|
  {
    var cs := MarkdownParser.TextNodes(ts);
    assert AllRenderable(cs);
    if ts == [] {
      EmptyRoot();
      assert cs == [];
    } else {
      var init := ts[..|ts| - 1];
      var last := ts[|ts| - 1];
      RenderTextNodes(init);
      assert cs == MarkdownParser.TextNodes(init) + [TextNode(last.value)];
      RenderAllAppend(MarkdownParser.TextNodes(init), [TextNode(last.value)]);
      RenderOne(TextNode(last.value));
      MarkdownParser.ValuesAppend(init, [last]);
      assert ts == init + [last];
      assert Values([last]) == last.value + Values([]);
    }
  }

  /** Each span and quote kind wraps the rendering of its children in its
      opening and closing tag. */
  lemma {:induction false} ContainerRendering(k: NodeType, cs: seq<ASTNode>)
    requires k != Root && !IsLeafKind(k) && AllRenderable(cs)
    ensures Renderable(ContainerNode(k, cs))
    ensures Generate(ContainerNode(k, cs)) == OpenTag(k) + RenderAll(cs) + CloseTag(k)
  {
    var n := ContainerNode(k, cs);
    assert Renderable(n);
    assert Generate(n) == OpenTag(k) + GenerateChildren(n) + CloseTag(k);
    assert GenerateChildren(n) == GenerateChildren(ContainerNode(Root, cs));
  }

  /** The opening tag of every span and quote kind is one tag, from `<` to
      `>`; the two quote kinds share their closing tag and differ only by
      ` expandable` before the `>` of the opening one. */
  lemma {:induction false} TagShape(k: NodeType)
    requires k != Root && !IsLeafKind(k)
    ensures OpenTag(k) != "" && OpenTag(k)[0] == '<' && OpenTag(k)[|OpenTag(k)| - 1] == '>'
    ensures CloseTag(k) != "" && CloseTag(k)[0] == '<' && CloseTag(k)[|CloseTag(k)| - 1] == '>'
    ensures k == ExpandableBlockquote ==>
      OpenTag(k) == QuoteHead() + " expandable>" && OpenTag(Blockquote) == QuoteHead() + ">"
      && CloseTag(k) == CloseTag(Blockquote)
  {
    var q := QuoteHead();
    var rest := "class=\"text-entity-quote\" dir=\"auto\" " + EntityAttr(EntityBlockquote);
    assert q == "<blockquote " + rest;
    assert q[0] == '<';
    if k == Blockquote {
      assert OpenTag(k) == q + ">" && (q + ">")[0] == q[0];
    } else if k == ExpandableBlockquote {
      assert OpenTag(k) == q + " expandable>" && (q + " expandable>")[0] == q[0];
    }
  }

  /** The five span kinds open with five different tags. */
  lemma {:induction false} SpanTagsDistinct(j: NodeType, k: NodeType)
    requires MarkdownParser.IsSpanKind(j) && MarkdownParser.IsSpanKind(k) && j != k
    ensures OpenTag(j) != OpenTag(k) && CloseTag(j) != CloseTag(k)
  {
    assert OpenTag(j)[1] != OpenTag(k)[1] || OpenTag(j)[2] != OpenTag(k)[2];
    assert CloseTag(j)[2] != CloseTag(k)[2] || CloseTag(j)[3] != CloseTag(k)[3];
  }

  /** Inline code renders its value escaped: between the tags stands text with
      no markup character that decodes back to the value. */
  lemma {:induction false} CodeRendering(v: string)
    ensures Renderable(ASTNode(Code, Some(v), Absent, None))
    ensures var body := Generate(ASTNode(Code, Some(v), Absent, None))[6..|Generate(ASTNode(Code, Some(v), Absent, None))| - 7];
      Generate(ASTNode(Code, Some(v), Absent, None)) == "<code>" + body + "</code>"
      && Escaped(body) && Unescape(body) == v
  {
    var e := EscapeHtml(v);
    var g := Generate(ASTNode(Code, Some(v), Absent, None));
    assert g == "<code>" + e + "</code>";
    assert g[6..|g| - 7] == e;
    EscapeHtmlSafe(v);
    EscapeHtmlRoundTrip(v);
  }

  /** A code block renders its value escaped after the opening its language
      calls for: between that opening and the closing tags stands text with no
      markup character that decodes back to the value. */
  lemma {:induction false} PreRendering(v: string, attributes: Option<map<string, string>>)
    ensures Renderable(ASTNode(Pre, Some(v), Absent, attributes))
    ensures var n := ASTNode(Pre, Some(v), Absent, attributes);
      var g := Generate(n);
      var open := PreOpen(Language(n));
      |open| + 13 <= |g| && g == open + g[|open|..|g| - 13] + "</code></pre>"
      && Escaped(g[|open|..|g| - 13]) && Unescape(g[|open|..|g| - 13]) == v
  {
    var n := ASTNode(Pre, Some(v), Absent, attributes);
    var open := PreOpen(Language(n));
    var e := EscapeHtml(v);
    var g := Generate(n);
    assert g == open + e + "</code></pre>";
    assert g[|open|..|g| - 13] == e;
    EscapeHtmlSafe(v);
    EscapeHtmlRoundTrip(v);
  }
}
