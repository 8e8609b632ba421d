/** Printing a document and parsing it again gives back the document. */
module RoundTrip {
  import opened XmlChars
  import opened Escape
  import opened Grammar
  import opened XmlTree
  import Decoding
  import Derivation
  import Spans

  // ----- The derivation of printed text -----

  /** Where an attribute printed at `i` lies. */
  function LayoutAttribute(s: string, a: Attr, i: nat): Attribute {
    var name := Span(i + 1, i + 1 + |a.name|);
    Attribute(name, Span(name.hi + 2, name.hi + 2 + |Escaped(a.value, false)|), LineOf(s, i + 1))
  }

  function LayoutAttributes(s: string, attributes: seq<Attr>, i: nat): seq<Attribute> {
    if attributes == [] then []
    else
      [LayoutAttribute(s, attributes[0], i)]
      + LayoutAttributes(s, attributes[1..], i + |PrintAttribute(attributes[0])|)
  }

  function LineOf(s: string, i: nat): nat {
    if i <= |s| then LineAt(s, i) else 1
  }

  function TagOf(s: string, name: string, attributes: seq<Attr>, i: nat): Tag {
    Tag(Span(i, i + |name|), LayoutAttributes(s, attributes, i + |name|))
  }

  function ChildrenStart(x: Xml, i: nat): nat
    requires x.ElementNode?
  {
    i + 1 + |x.name| + |PrintAttributes(x.attributes)| + 1
  }

  /** The parse of `x` printed at `i`. */
  function LayoutNode(s: string, x: Xml, i: nat): Node
    decreases x, 0
  {
    var line := LineOf(s, if i <= |s| then SkipWs(s, i) else i);
    match x
    case ElementNode(name, attributes, children) =>
      var start := ChildrenStart(x, i);
      Element(TagOf(s, name, attributes, i + 1), LayoutNodes(s, children, start),
              if children == [] then None else Some(TagOf(s, name, [], start + |PrintNodes(children)| + 2)), line)
    case TextNode(text, cdata) =>
      if cdata then Text(Span(i + 9, i + 9 + |text|), true, line)
      else Text(Span(i, i + |Escaped(text, true)|), false, line)
    case CommentNode(text) => Comment(Span(i + 4, i + 4 + |text|), line)
    case DeclarationNode(text) => Declaration(Span(i + 2, i + 2 + |text|), line)
    case UnknownNode(text) => Unknown(Span(i + 2, i + 2 + |text|), line)
  }

  function LayoutNodes(s: string, xs: seq<Xml>, i: nat): seq<Node>
    decreases xs
  {
    if xs == [] then [] else [LayoutNode(s, xs[0], i)] + LayoutNodes(s, xs[1..], i + |PrintNode(xs[0])|)
  }

  // ----- Tokens -----

  lemma CharAt(s: string, i: nat, t: string, k: nat)
    requires StartsAt(s, i, t) && k < |t|
    ensures i + k < |s| && s[i + k] == t[k]
  {
    assert s[i..i + |t|][k] == s[i + k];
  }

  lemma NameHere(s: string, i: nat, name: string)
    requires StartsAt(s, i, name) && ValidName(name) && !IsNameChar(At(s, i + |name|))
    ensures Derivation.IsName(s, Span(i, i + |name|)) && TextOf(s, Span(i, i + |name|)) == name
  {
    CharAt(s, i, name, 0);
    forall k | i <= k < i + |name|
      ensures IsNameChar(s[k])
    {
      CharAt(s, i, name, k - i);
    }
  }

  /** A body free of its terminator is delimited by the terminator behind it, as
      no terminator overlaps itself. */
  lemma BodyDelimited(s: string, i: nat, body: string, terminator: string)
    requires StartsAt(s, i, body + terminator) && NoNul(body) && FreeOf(body, terminator)
    requires terminator != ""
    requires forall k :: 0 <= k < |terminator| - 1 ==> terminator[k] != terminator[|terminator| - 1]
    ensures Derivation.Delimits(s, Span(i, i + |body|), terminator)
    ensures TextOf(s, Span(i, i + |body|)) == body
  {
    StartsAtConcat(s, i, body, terminator);
    var end, n := i + |body|, |terminator|;
    forall k | i <= k < end
      ensures At(s, k) != NUL && !StartsAt(s, k, terminator)
    {
      CharAt(s, i, body, k - i);
      if k + n <= end {
        SubSlice(s, i, end, k - i, k - i + n);
        assert StartsAt(s, k, terminator) == StartsAt(body, k - i, terminator);
      } else {
        CharAt(s, end, terminator, k + n - 1 - end);
        Differs(s, k, terminator, n - 1);
      }
    }
  }

  lemma Differs(s: string, i: nat, pattern: string, k: nat)
    requires k < |pattern| && At(s, i + k) != pattern[k]
    ensures !StartsAt(s, i, pattern)
  {
    if i + |pattern| <= |s| {
      assert s[i..i + |pattern|][k] == s[i + k];
    }
  }

  lemma SubSlice(s: string, i: nat, j: nat, a: nat, b: nat)
    requires i <= j <= |s| && a <= b <= j - i
    ensures s[i..j][a..b] == s[i + a..i + b]
  {
    forall k | 0 <= k < b - a
      ensures s[i..j][a..b][k] == s[i + a..i + b][k]
    {
    }
    assert |s[i..j][a..b]| == |s[i + a..i + b]|;
  }

  lemma NoSpaceAt(s: string, i: nat)
    requires i < |s| && !IsWhiteSpace(s[i])
    ensures SkipWs(s, i) == i
  {
  }

  // ----- Attributes and tags -----

  lemma AttributePieces(s: string, i: nat, a: Attr)
    requires StartsAt(s, i, PrintAttribute(a))
    ensures var hi, value := i + 1 + |a.name|, Escaped(a.value, false);
      && hi + 2 + |value| + 1 == i + |PrintAttribute(a)| <= |s|
      && s[i] == ' ' && StartsAt(s, i + 1, a.name) && s[hi] == '=' && s[hi + 1] == '"'
      && StartsAt(s, hi + 2, value + "\"")
  {
    hide Escaped;
    var hi, value := i + 1 + |a.name|, Escaped(a.value, false);
    StartsAtConcat(s, i, " ", a.name + ("=\"" + (value + "\"")));
    StartsAtConcat(s, i + 1, a.name, "=\"" + (value + "\""));
    StartsAtConcat(s, hi, "=\"", value + "\"");
    CharAt(s, i, " ", 0);
    CharAt(s, hi, "=\"", 0);
    CharAt(s, hi, "=\"", 1);
  }

  lemma AttributeDerives(s: string, i: nat, a: Attr)
    requires StartsAt(s, i, PrintAttribute(a)) && ValidName(a.name) && Clean(a.value)
    ensures var r := LayoutAttribute(s, a, i);
      && Derivation.IsAttribute(s, i, r) && r.value.hi + 1 == i + |PrintAttribute(a)| <= |s|
      && TextOf(s, r.name) == a.name && TextOf(s, r.value) == Escaped(a.value, false)
  {
    hide Escaped, Decoding.Value, LineAt, NameEnd, FreeOf, PrintAttribute, StartsAt, Derivation.IsName, Derivation.Delimits;
    AttributePieces(s, i, a);
    var hi, value := i + 1 + |a.name|, Escaped(a.value, false);
    NameHere(s, i + 1, a.name);
    NameOpens(s, i + 1, a.name);
    NoDelimiters(a.value, false);
    QuoteFree(value);
    BodyDelimited(s, hi + 2, value, "\"");
    OneSpace(s, i);
    NoSpaceAt(s, hi);
    NoSpaceAt(s, hi + 1);
    hide SkipWs;
  }

  lemma NameOpens(s: string, i: nat, name: string)
    requires StartsAt(s, i, name) && ValidName(name)
    ensures i < |s| && IsNameStartChar(s[i]) && !IsWhiteSpace(s[i])
  {
    CharAt(s, i, name, 0);
  }

  lemma AttributeReads(s: string, r: Attribute, a: Attr, options: Spans.Options)
    requires TextOf(s, r.name) == a.name && TextOf(s, r.value) == Escaped(a.value, false)
    requires ValidName(a.name) && Clean(a.value) && options.processEntities
    ensures XmlTree.Read(s, Spans.Str(r.name, Decoding.NAME)) == a.name
    ensures XmlTree.Read(s, Spans.Str(r.value, Spans.AttributeFlags(options))) == a.value
  {
    NameIsPlain(a.name);
    hide Escaped, Decoding.Value, ValidName;
    EscapeInverse(a.value, false, Spans.AttributeFlags(options));
    PlainInverse(a.name, Decoding.NAME);
  }

  lemma NameIsPlain(name: string)
    requires ValidName(name)
    ensures NoNul(name) && NoCr(name)
  {
  }

  lemma QuoteFree(value: string)
    requires '"' !in value
    ensures FreeOf(value, "\"")
  {
    forall k | 0 <= k < |value|
      ensures !StartsAt(value, k, "\"")
    {
      StartsAtChar(value, k, '"');
    }
  }

  /** A single space before a name. */
  lemma OneSpace(s: string, i: nat)
    requires i + 1 < |s| && s[i] == ' ' && IsNameStartChar(s[i + 1])
    ensures SkipWs(s, i) == i + 1
  {
    assert SkipWs(s, i + 1) == i + 1;
  }

  /** The attribute list `r` read at `i` is the printed list `attributes`. */
  ghost predicate AttributesLaidOut(s: string, i: nat, r: seq<Attribute>, attributes: seq<Attr>, options: Spans.Options)
    requires i <= |s|
  {
    && Derivation.IsAttributes(s, i, r) && |r| == |attributes|
    && Derivation.AttributesEnd(i, r) == i + |PrintAttributes(attributes)| <= |s|
    && (forall k :: 0 <= k < |r| ==> TextOf(s, r[k].name) == attributes[k].name)
    && ReadAttributes(s, r, options) == attributes
  }

  lemma {:induction false} AttributesDerive(s: string, i: nat, attributes: seq<Attr>, options: Spans.Options)
    requires StartsAt(s, i, PrintAttributes(attributes)) && options.processEntities
    requires forall k :: 0 <= k < |attributes| ==> ValidName(attributes[k].name) && Clean(attributes[k].value)
    ensures i <= |s| && AttributesLaidOut(s, i, LayoutAttributes(s, attributes, i), attributes, options)
    decreases |attributes|
  {
    hide *;
    if attributes == [] {
      NoneLaidOut(s, i, options);
    } else {
      var a, rest := attributes[0], attributes[1..];
      var next := i + |PrintAttribute(a)|;
      AttributesSplit(s, attributes, i);
      AttributeDerives(s, i, a);
      AttributeReads(s, LayoutAttribute(s, a, i), a, options);
      AttributesDerive(s, next, rest, options);
      AttributesLaidOutCons(s, i, LayoutAttribute(s, a, i), LayoutAttributes(s, rest, next), a, rest, options);
      assert attributes == [a] + rest;
    }
  }

  lemma NoneLaidOut(s: string, i: nat, options: Spans.Options)
    requires StartsAt(s, i, PrintAttributes([]))
    ensures i <= |s| && AttributesLaidOut(s, i, LayoutAttributes(s, [], i), [], options)
  {
  }

  lemma AttributesSplit(s: string, attributes: seq<Attr>, i: nat)
    requires attributes != [] && StartsAt(s, i, PrintAttributes(attributes))
    ensures var a, rest := attributes[0], attributes[1..];
      var next := i + |PrintAttribute(a)|;
      && StartsAt(s, i, PrintAttribute(a)) && StartsAt(s, next, PrintAttributes(rest)) && next <= |s|
      && LayoutAttributes(s, attributes, i) == [LayoutAttribute(s, a, i)] + LayoutAttributes(s, rest, next)
  {
    StartsAtConcat(s, i, PrintAttribute(attributes[0]), PrintAttributes(attributes[1..]));
  }

  lemma AttributesLaidOutCons(s: string, i: nat, r: Attribute, later: seq<Attribute>, a: Attr, rest: seq<Attr>,
                              options: Spans.Options)
    requires i <= |s| && Derivation.IsAttribute(s, i, r)
    requires r.value.hi + 1 == i + |PrintAttribute(a)| <= |s| && TextOf(s, r.name) == a.name
    requires XmlTree.Read(s, Spans.Str(r.name, Decoding.NAME)) == a.name
    requires XmlTree.Read(s, Spans.Str(r.value, Spans.AttributeFlags(options))) == a.value
    requires AttributesLaidOut(s, i + |PrintAttribute(a)|, later, rest, options)
    ensures AttributesLaidOut(s, i, [r] + later, [a] + rest, options)
  {
    hide Derivation.IsAttribute, XmlTree.Read, TextOf, PrintAttribute;
    assert ([r] + later)[1..] == later && ([a] + rest)[1..] == rest;
    assert later != [] ==> ([r] + later)[|later|] == later[|later| - 1];
  }

  predicate EndsTag(c: char) {
    c == '>' || c == '/'
  }

  /** A printed start tag, up to its '>' or '/>'. */
  lemma TagDerives(s: string, i: nat, name: string, attributes: seq<Attr>, options: Spans.Options)
    requires StartsAt(s, i, name + PrintAttributes(attributes)) && options.processEntities
    requires ValidName(name) && PrintableAttributes(attributes)
    requires EndsTag(At(s, i + |name| + |PrintAttributes(attributes)|))
    ensures var tag := TagOf(s, name, attributes, i);
      && Derivation.IsTag(s, i, tag) && TextOf(s, tag.name) == name
      && Derivation.TagEnd(s, tag) == i + |name| + |PrintAttributes(attributes)| < |s|
      && ReadAttributes(s, tag.attributes, options) == attributes
  {
    hide *;
    var e := i + |name| + |PrintAttributes(attributes)|;
    StartsAtConcat(s, i, name, PrintAttributes(attributes));
    TagDelimiter(s, i + |name|, attributes);
    NameHere(s, i, name);
    AttributesPrintable(attributes);
    AttributesDerive(s, i + |name|, attributes, options);
    TagEndHere(s, e);
    NoSpaceAt(s, e);
    TagAssembled(s, i, name, attributes, options);
  }

  lemma AttributesPrintable(attributes: seq<Attr>)
    requires PrintableAttributes(attributes)
    ensures forall k :: 0 <= k < |attributes| ==> ValidName(attributes[k].name) && Clean(attributes[k].value)
  {
  }

  lemma TagEndHere(s: string, e: nat)
    requires EndsTag(At(s, e))
    ensures e < |s| && !IsWhiteSpace(s[e])
  {
  }

  lemma TagAssembled(s: string, i: nat, name: string, attributes: seq<Attr>, options: Spans.Options)
    requires i + |name| <= |s| && PrintableAttributes(attributes)
    requires Derivation.IsName(s, Span(i, i + |name|)) && TextOf(s, Span(i, i + |name|)) == name
    requires AttributesLaidOut(s, i + |name|, LayoutAttributes(s, attributes, i + |name|), attributes, options)
    requires SkipWs(s, i + |name| + |PrintAttributes(attributes)|) == i + |name| + |PrintAttributes(attributes)|
    ensures var tag := TagOf(s, name, attributes, i);
      && Derivation.IsTag(s, i, tag) && TextOf(s, tag.name) == name
      && Derivation.TagEnd(s, tag) == i + |name| + |PrintAttributes(attributes)|
      && ReadAttributes(s, tag.attributes, options) == attributes
  {
    hide Derivation.IsName, Derivation.IsAttributes, XmlTree.Read, TextOf, PrintAttributes, LayoutAttributes, ValidName, Clean,
      SkipWs, ReadAttributes, Derivation.AttributesEnd;
  }

  /** What follows the name of a tag is no name character. */
  lemma TagDelimiter(s: string, i: nat, attributes: seq<Attr>)
    requires StartsAt(s, i, PrintAttributes(attributes)) && EndsTag(At(s, i + |PrintAttributes(attributes)|))
    ensures !IsNameChar(At(s, i))
  {
    if attributes != [] {
      CharAt(s, i, PrintAttributes(attributes), 0);
    }
  }

  lemma ElementHere(s: string, j: nat)
    requires j + 1 < |s| && s[j] == '<' && s[j + 1] != '?' && s[j + 1] != '!'
    ensures Identify(s, j) == ElementKind
  {
    Differs(s, j, "<?", 1);
    Differs(s, j, "<!--", 1);
    Differs(s, j, "<![CDATA[", 1);
    Differs(s, j, "<!", 1);
    StartsAtChar(s, j, '<');
  }

  lemma EndTagDerives(s: string, i: nat, name: string, options: Spans.Options)
    requires StartsAt(s, i, "</" + (name + ">")) && ValidName(name) && options.processEntities
    ensures var tag := TagOf(s, name, [], i + 2);
      && Derivation.IsEndTag(s, i, tag) && TextOf(s, tag.name) == name
      && Derivation.TagEnd(s, tag) + 1 == i + 2 + |name| + 1 <= |s|
  {
    hide ValidName, Derivation.IsTag, Derivation.TagEnd, Identify, LayoutAttributes, TextOf;
    StartsAtConcat(s, i, "</", name + ">");
    StartsAtConcat(s, i + 2, name, ">");
    CharAt(s, i, "</", 0);
    CharAt(s, i, "</", 1);
    CharAt(s, i + 2 + |name|, ">", 0);
    NoSpaceAt(s, i);
    NoSpaceAt(s, i + 1);
    ElementHere(s, i);
    assert name + PrintAttributes([]) == name;
    EmptyPrint();
    TagDerives(s, i + 2, name, [], options);
  }

  lemma EmptyPrint()
    ensures PrintAttributes([]) == "" && PrintNodes([]) == ""
  {
  }

  // ----- Nodes -----

  /** `node` is the parse of `x` printed at `i`. */
  ghost predicate LaidOut(s: string, i: nat, node: Node, x: Xml, options: Spans.Options)
    requires i <= |s|
  {
    && Derivation.IsNode(s, i, node) && Derivation.NodeEnd(s, node) == i + |PrintNode(x)| <= |s|
    && Derivation.NodeHeight(node) == XmlTree.NodeHeight(x)
    && ReadNode(s, node, options) == x
    && (node.Declaration? <==> x.DeclarationNode?)
  }

  ghost predicate AllLaidOut(s: string, i: nat, nodes: seq<Node>, xs: seq<Xml>, options: Spans.Options)
    requires i <= |s|
  {
    && Derivation.IsNodes(s, i, nodes) && Derivation.NodesEnd(s, i, nodes) == i + |PrintNodes(xs)| <= |s|
    && Derivation.Height(nodes) == XmlTree.Height(xs)
    && ReadNodes(s, nodes, options) == xs
    && |nodes| == |xs| && forall k :: 0 <= k < |nodes| ==> (nodes[k].Declaration? <==> xs[k].DeclarationNode?)
  }

  function LeafKind(x: Xml): Kind
    requires !x.ElementNode? && !PlainText(x)
  {
    match x
    case TextNode(_, _) => CDataKind
    case CommentNode(_) => CommentKind
    case DeclarationNode(_) => DeclarationKind
    case UnknownNode(_) => UnknownKind
  }

  lemma LeafPrint(x: Xml)
    requires !x.ElementNode? && !PlainText(x)
    ensures IsLeaf(LeafKind(x)) && PrintNode(x) == Header(LeafKind(x)) + (x.text + Terminator(LeafKind(x)))
  {
  }

  /** The header of a printed leaf is recognised for what it is. */
  lemma HeaderHere(s: string, i: nat, x: Xml)
    requires !x.ElementNode? && !PlainText(x) && PrintableNode(x) && StartsAt(s, i, PrintNode(x))
    ensures Identify(s, i) == LeafKind(x)
  {
    var kind := LeafKind(x);
    LeafPrint(x);
    StartsAtConcat(s, i, Header(kind), x.text + Terminator(kind));
    CharAt(s, i, Header(kind), 1);
    match kind
    case CommentKind => Differs(s, i, "<?", 1);
    case CDataKind =>
      CharAt(s, i, Header(kind), 2);
      Differs(s, i, "<?", 1);
      Differs(s, i, "<!--", 2);
    case UnknownKind =>
      Differs(s, i, "<?", 1);
      UnknownBody(s, i, x.text, "--");
      UnknownBody(s, i, x.text, "[CDATA[");
    case _ =>
  }

  /** An unknown is not taken for a comment or CDATA section. */
  lemma UnknownBody(s: string, i: nat, text: string, pattern: string)
    requires StartsAt(s, i, "<!" + (text + ">")) && !StartsAt(text, 0, pattern) && '>' !in pattern
    ensures !StartsAt(s, i, "<!" + pattern)
  {
    StartsAtConcat(s, i, "<!", text + ">");
    StartsAtConcat(s, i + 2, text, ">");
    var all, n := "<!" + pattern, |text|;
    if n < |pattern| {
      CharAt(s, i + 2 + n, ">", 0);
      assert all[2 + n] == pattern[n] && pattern[n] in pattern;
      Differs(s, i, all, 2 + n);
    } else {
      var k :| 0 <= k < |pattern| && text[0..|pattern|][k] != pattern[k];
      CharAt(s, i + 2, text, k);
      assert all[2 + k] == pattern[k] && text[0..|pattern|][k] == text[k];
      Differs(s, i, all, 2 + k);
    }
  }

  lemma LeafDerives(s: string, i: nat, x: Xml, options: Spans.Options)
    requires !x.ElementNode? && !PlainText(x) && PrintableNode(x) && StartsAt(s, i, PrintNode(x))
    ensures LaidOut(s, i, LayoutNode(s, x, i), x, options)
  {
    hide *;
    LeafPrint(x);
    LeafBody(x);
    var kind := LeafKind(x);
    HeaderHere(s, i, x);
    StartsAtConcat(s, i, Header(kind), x.text + Terminator(kind));
    LeafOpens(s, i, kind);
    NoSpaceAt(s, i);
    BodyDelimited(s, i + |Header(kind)|, x.text, Terminator(kind));
    PlainInverse(x.text, Decoding.NEWLINES_ONLY);
    StartsWithin(s, i, PrintNode(x));
    LeafAssembled(s, i, x, options);
  }

  lemma LeafBody(x: Xml)
    requires !x.ElementNode? && !PlainText(x) && PrintableNode(x)
    ensures var terminator := Terminator(LeafKind(x));
      && NoNul(x.text) && NoCr(x.text) && FreeOf(x.text, terminator) && terminator != ""
      && forall k :: 0 <= k < |terminator| - 1 ==> terminator[k] != terminator[|terminator| - 1]
    ensures !Decoding.NEWLINES_ONLY.entities && !Decoding.NEWLINES_ONLY.collapse
  {
    hide FreeOf, NoNul, NoCr;
  }

  lemma LeafOpens(s: string, i: nat, kind: Kind)
    requires IsLeaf(kind) && StartsAt(s, i, Header(kind))
    ensures i < |s| && At(s, i) != NUL && !IsWhiteSpace(s[i])
  {
    CharAt(s, i, Header(kind), 0);
  }

  lemma LeafAssembled(s: string, i: nat, x: Xml, options: Spans.Options)
    requires !x.ElementNode? && !PlainText(x) && i < |s| && At(s, i) != NUL && SkipWs(s, i) == i
    requires Identify(s, i) == LeafKind(x) && i + |PrintNode(x)| <= |s|
    requires PrintNode(x) == Header(LeafKind(x)) + (x.text + Terminator(LeafKind(x)))
    requires var start := i + |Header(LeafKind(x))|;
      var span := Span(start, start + |x.text|);
      Derivation.Delimits(s, span, Terminator(LeafKind(x))) && TextOf(s, span) == x.text
    requires Decoding.Value(x.text, Decoding.NEWLINES_ONLY) == x.text
    ensures LaidOut(s, i, LayoutNode(s, x, i), x, options)
  {
    hide Identify, LineAt, StartsAt, Derivation.Delimits, Decoding.Value, TextOf, FreeOf, SkipWs, PrintNode;
  }

  lemma StartsWithin(s: string, i: nat, t: string)
    requires StartsAt(s, i, t)
    ensures i + |t| <= |s|
  {
  }

  // ----- Texts -----

  /** White space in front of a text is printed as it is, and what follows it is
      not a '<'. */
  lemma {:induction false} EscapedSkip(s: string, i: nat, text: string)
    requires StartsAt(s, i, Escaped(text, true)) && !Blank(text) && NoNul(text)
    ensures var j := SkipWs(s, i);
      j < |s| && At(s, j) == s[j] != '\0' && s[j] != '<'
    decreases |text|
  {
    var head, rest := EscapeChar(text[0], true), text[1..];
    StartsAtConcat(s, i, head, Escaped(rest, true));
    CharAt(s, i, head, 0);
    if IsWhiteSpace(text[0]) {
      NotBlankRest(text);
      EscapedSkip(s, i + 1, rest);
    } else {
      NoSpaceAt(s, i);
    }
  }

  lemma NotBlankRest(text: string)
    requires !Blank(text) && NoNul(text) && IsWhiteSpace(text[0])
    ensures !Blank(text[1..]) && NoNul(text[1..])
  {
    var k :| 0 <= k < |text| && !IsWhiteSpace(text[k]);
    assert text[1..][k - 1] == text[k];
  }

  lemma TextHere(s: string, j: nat)
    requires j < |s| && s[j] != '<'
    ensures Identify(s, j) == TextKind
  {
    Differs(s, j, "<?", 0);
    Differs(s, j, "<!--", 0);
    Differs(s, j, "<![CDATA[", 0);
    Differs(s, j, "<!", 0);
    Differs(s, j, "<", 0);
  }

  /** Texts must be followed by markup. */
  ghost predicate Followed(s: string, i: nat) {
    At(s, i) == '<' && At(s, i + 1) != NUL
  }

  lemma TextDerives(s: string, i: nat, x: Xml, options: Spans.Options)
    requires PlainText(x) && PrintableNode(x) && StartsAt(s, i, PrintNode(x))
    requires Followed(s, i + |PrintNode(x)|) && options == Spans.Options(true, false)
    ensures i <= |s| && LaidOut(s, i, LayoutNode(s, x, i), x, options)
  {
    TextParts(x);
    hide *;
    var text := Escaped(x.text, true);
    EscapedSkip(s, i, x.text);
    TextHere(s, SkipWs(s, i));
    NoDelimiters(x.text, true);
    OpenFree(text);
    FollowedByOpen(s, i + |text|);
    Joined(s, i, text, "<");
    OneCharacter("<");
    BodyDelimited(s, i, text, "<");
    EscapeInverse(x.text, true, Spans.TextFlags(options));
    StartsWithin(s, i, PrintNode(x));
    TextAssembled(s, i, x, options);
  }

  lemma TextParts(x: Xml)
    requires PlainText(x) && PrintableNode(x)
    ensures NoNul(x.text) && NoCr(x.text) && !Blank(x.text) && PrintNode(x) == Escaped(x.text, true)
    ensures Spans.TextFlags(Spans.Options(true, false)) == Decoding.Flags(true, true, false)
    ensures x.TextNode?
  {
  }

  lemma OneCharacter(terminator: string)
    requires |terminator| == 1
    ensures forall k :: 0 <= k < |terminator| - 1 ==> terminator[k] != terminator[|terminator| - 1]
  {
  }

  lemma FollowedByOpen(s: string, i: nat)
    requires Followed(s, i)
    ensures StartsAt(s, i, "<")
  {
    StartsAtChar(s, i, '<');
  }

  lemma TextAssembled(s: string, i: nat, x: Xml, options: Spans.Options)
    requires PlainText(x) && i + |PrintNode(x)| <= |s|
    requires var j, span := SkipWs(s, i), Span(i, i + |PrintNode(x)|);
      && At(s, j) != '\0' && Identify(s, j) == TextKind && Derivation.Delimits(s, span, "<")
      && TextOf(s, span) == Escaped(x.text, true)
      && Decoding.Value(TextOf(s, span), Spans.TextFlags(options)) == x.text
    requires Followed(s, i + |PrintNode(x)|)
    ensures LaidOut(s, i, LayoutNode(s, x, i), x, options)
  {
    hide Identify, LineAt, Derivation.Delimits, Decoding.Value, SkipWs, Escaped, TextOf, Spans.TextFlags;
  }

  lemma Joined(s: string, i: nat, a: string, b: string)
    requires StartsAt(s, i, a) && StartsAt(s, i + |a|, b)
    ensures StartsAt(s, i, a + b)
  {
    assert s[i..i + |a + b|] == s[i..i + |a|] + s[i + |a|..i + |a| + |b|];
  }

  lemma OpenFree(text: string)
    requires '<' !in text
    ensures FreeOf(text, "<")
  {
    forall k | 0 <= k < |text|
      ensures !StartsAt(text, k, "<")
    {
      StartsAtChar(text, k, '<');
    }
  }

  // ----- Elements -----

  lemma ElementPieces(s: string, i: nat, x: Xml)
    requires x.ElementNode? && StartsAt(s, i, PrintNode(x))
    ensures var e := ChildrenStart(x, i) - 1;
      && i < |s| && s[i] == '<' && StartsAt(s, i + 1, x.name + PrintAttributes(x.attributes))
      && (x.children == [] ==> StartsAt(s, e, "/>") && i + |PrintNode(x)| == e + 2)
      && (x.children != [] ==>
            && StartsAt(s, e, ">") && StartsAt(s, e + 1, PrintNodes(x.children))
            && StartsAt(s, e + 1 + |PrintNodes(x.children)|, "</" + (x.name + ">"))
            && i + |PrintNode(x)| == e + 1 + |PrintNodes(x.children)| + 2 + |x.name| + 1)
  {
    hide *;
    ElementShape(x, i);
    var attributes := PrintAttributes(x.attributes);
    var e := i + 1 + |x.name| + |attributes|;
    var close := "</" + (x.name + ">");
    if x.children == [] {
      OpenPieces(s, i, x.name, attributes, "/>");
    } else {
      OpenPieces(s, i, x.name, attributes, ">" + (PrintNodes(x.children) + close));
      BodyPieces(s, e, PrintNodes(x.children), close);
    }
  }

  lemma OpenPieces(s: string, i: nat, name: string, attributes: string, body: string)
    requires StartsAt(s, i, "<" + (name + (attributes + body)))
    ensures i < |s| && s[i] == '<' && StartsAt(s, i + 1, name + attributes)
    ensures StartsAt(s, i + 1 + |name| + |attributes|, body)
  {
    hide *;
    StartsAtConcat(s, i, "<", name + (attributes + body));
    CharAt(s, i, "<", 0);
    StartsAtConcat(s, i + 1, name, attributes + body);
    StartsAtConcat(s, i + 1 + |name|, attributes, body);
    Joined(s, i + 1, name, attributes);
  }

  lemma BodyPieces(s: string, e: nat, children: string, close: string)
    requires StartsAt(s, e, ">" + (children + close))
    ensures StartsAt(s, e, ">") && StartsAt(s, e + 1, children) && StartsAt(s, e + 1 + |children|, close)
  {
    hide *;
    StartsAtConcat(s, e, ">", children + close);
    StartsAtConcat(s, e + 1, children, close);
  }

  lemma ElementShape(x: Xml, i: nat)
    requires x.ElementNode?
    ensures ChildrenStart(x, i) == i + 1 + |x.name| + |PrintAttributes(x.attributes)| + 1
    ensures PrintNode(x) == "<" + (x.name + (PrintAttributes(x.attributes) +
      (if x.children == [] then "/>" else ">" + (PrintNodes(x.children) + ("</" + (x.name + ">"))))))
  {
    hide PrintAttributes, PrintNodes;
  }

  lemma ElementOpens(s: string, i: nat, x: Xml)
    requires x.ElementNode? && ValidName(x.name) && StartsAt(s, i, PrintNode(x))
    ensures i + 1 < |s| && SkipWs(s, i) == i && Identify(s, i) == ElementKind && At(s, i) == '<'
    ensures SkipWs(s, i + 1) == i + 1 && At(s, i + 1) != '/'
  {
    ElementPieces(s, i, x);
    hide PrintNode, PrintAttributes;
    StartsAtConcat(s, i + 1, x.name, PrintAttributes(x.attributes));
    CharAt(s, i + 1, x.name, 0);
    NoSpaceAt(s, i);
    NoSpaceAt(s, i + 1);
    ElementHere(s, i);
  }

  lemma PrintableParts(x: Xml)
    requires x.ElementNode? && PrintableNode(x)
    ensures ValidName(x.name) && PrintableAttributes(x.attributes) && PrintableNodes(x.children)
    ensures forall k :: 0 <= k < |x.children| ==> !x.children[k].DeclarationNode?
  {
  }

  lemma SelfClosedDerives(s: string, i: nat, x: Xml, options: Spans.Options)
    requires x.ElementNode? && x.children == [] && PrintableNode(x) && StartsAt(s, i, PrintNode(x))
    requires options.processEntities
    ensures i <= |s| && LaidOut(s, i, LayoutNode(s, x, i), x, options)
  {
    hide *;
    PrintableParts(x);
    ElementPieces(s, i, x);
    ElementOpens(s, i, x);
    StartIs(x, i);
    SlashGt(s, ChildrenStart(x, i) - 1);
    TagDerives(s, i + 1, x.name, x.attributes, options);
    NameReads(s, TagOf(s, x.name, x.attributes, i + 1).name, x.name);
    StartsWithin(s, i, PrintNode(x));
    SelfClosedAssembled(s, i, x, options);
  }

  lemma NameReads(s: string, span: Span, name: string)
    requires TextOf(s, span) == name && ValidName(name)
    ensures XmlTree.Read(s, Spans.Str(span, Decoding.NAME)) == name
  {
    NameIsPlain(name);
    PlainInverse(name, Decoding.NAME);
  }

  lemma SlashGt(s: string, e: nat)
    requires StartsAt(s, e, "/>")
    ensures e + 1 < |s| && At(s, e) == '/' && At(s, e + 1) == '>' && EndsTag(At(s, e))
  {
    CharAt(s, e, "/>", 0);
    CharAt(s, e, "/>", 1);
  }

  lemma Gt(s: string, e: nat)
    requires StartsAt(s, e, ">")
    ensures e < |s| && At(s, e) == '>' && EndsTag(At(s, e))
  {
    CharAt(s, e, ">", 0);
  }

  lemma StartIs(x: Xml, i: nat)
    requires x.ElementNode?
    ensures ChildrenStart(x, i) - 1 == i + 1 + |x.name| + |PrintAttributes(x.attributes)|
  {
  }

  lemma SelfClosedAssembled(s: string, i: nat, x: Xml, options: Spans.Options)
    requires x.ElementNode? && x.children == [] && i + 1 < |s|
    requires SkipWs(s, i) == i && Identify(s, i) == ElementKind && At(s, i) == '<'
    requires SkipWs(s, i + 1) == i + 1 && At(s, i + 1) != '/'
    requires var tag := TagOf(s, x.name, x.attributes, i + 1);
      && Derivation.IsTag(s, i + 1, tag) && XmlTree.Read(s, Spans.Str(tag.name, Decoding.NAME)) == x.name
      && ReadAttributes(s, tag.attributes, options) == x.attributes
      && At(s, Derivation.TagEnd(s, tag)) == '/' && At(s, Derivation.TagEnd(s, tag) + 1) == '>'
      && Derivation.TagEnd(s, tag) + 2 == i + |PrintNode(x)| <= |s|
    ensures LaidOut(s, i, LayoutNode(s, x, i), x, options)
  {
    hide Derivation.IsTag, Derivation.TagEnd, Identify, LineAt, XmlTree.Read, TagOf, SkipWs, PrintNode, ReadAttributes;
    assert LayoutNodes(s, x.children, ChildrenStart(x, i)) == [];
    var node := LayoutNode(s, x, i);
    assert Derivation.IsNode(s, i, node);
    assert ReadNode(s, node, options) == x;
  }

  lemma {:induction false} OpenDerives(s: string, i: nat, x: Xml, options: Spans.Options)
    requires x.ElementNode? && x.children != [] && PrintableNode(x) && StartsAt(s, i, PrintNode(x))
    requires options == Spans.Options(true, false)
    ensures i <= |s| && LaidOut(s, i, LayoutNode(s, x, i), x, options)
    decreases x, 0
  {
    hide *;
    PrintableParts(x);
    ElementPieces(s, i, x);
    ElementOpens(s, i, x);
    StartIs(x, i);
    Gt(s, ChildrenStart(x, i) - 1);
    TagDerives(s, i + 1, x.name, x.attributes, options);
    NameReads(s, TagOf(s, x.name, x.attributes, i + 1).name, x.name);
    var start := ChildrenStart(x, i);
    var after := start + |PrintNodes(x.children)|;
    EndTagFollows(s, after, x.name);
    NodesDerive(s, start, x.children, options);
    EndTagDerives(s, after, x.name, options);
    FirstCharacter(s, start, x.children);
    StartsWithin(s, i, PrintNode(x));
    OpenAssembled(s, i, x, options);
  }

  lemma EndTagFollows(s: string, i: nat, name: string)
    requires StartsAt(s, i, "</" + (name + ">"))
    ensures Followed(s, i)
  {
    StartsAtConcat(s, i, "</", name + ">");
    CharAt(s, i, "</", 0);
    CharAt(s, i, "</", 1);
  }

  lemma FirstCharacter(s: string, i: nat, xs: seq<Xml>)
    requires xs != [] && PrintableNodes(xs) && StartsAt(s, i, PrintNodes(xs))
    ensures At(s, i) != '\0'
  {
    StartsAtConcat(s, i, PrintNode(xs[0]), PrintNodes(xs[1..]));
    PrintOpens(xs[0]);
    CharAt(s, i, PrintNode(xs[0]), 0);
  }

  /** Every node prints something; everything but text opens with markup. */
  lemma PrintOpens(x: Xml)
    requires PrintableNode(x)
    ensures |PrintNode(x)| > 0 && PrintNode(x)[0] != NUL
    ensures !PlainText(x) ==> |PrintNode(x)| > 1 && PrintNode(x)[0] == '<' && PrintNode(x)[1] != NUL
  {
    match x
    case ElementNode(name, _, _) => assert PrintNode(x)[1] == name[0];
    case TextNode(text, cdata) =>
      if !cdata {
        var k :| 0 <= k < |text| && !IsWhiteSpace(text[k]);
        NoDelimiters(text, true);
      }
    case _ =>
  }

  lemma OpenAssembled(s: string, i: nat, x: Xml, options: Spans.Options)
    requires x.ElementNode? && x.children != [] && i + 1 < |s|
    requires SkipWs(s, i) == i && Identify(s, i) == ElementKind && At(s, i) == '<'
    requires SkipWs(s, i + 1) == i + 1 && At(s, i + 1) != '/'
    requires var tag, start := TagOf(s, x.name, x.attributes, i + 1), ChildrenStart(x, i);
      && Derivation.IsTag(s, i + 1, tag) && XmlTree.Read(s, Spans.Str(tag.name, Decoding.NAME)) == x.name
      && TextOf(s, tag.name) == x.name
      && ReadAttributes(s, tag.attributes, options) == x.attributes
      && Derivation.TagEnd(s, tag) + 1 == start <= |s| && At(s, start - 1) == '>' && At(s, start) != '\0'
      && var after := start + |PrintNodes(x.children)|;
      && AllLaidOut(s, start, LayoutNodes(s, x.children, start), x.children, options)
      && var end := TagOf(s, x.name, [], after + 2);
      && after <= |s| && Derivation.IsEndTag(s, after, end) && TextOf(s, end.name) == x.name
      && Derivation.TagEnd(s, end) + 1 == i + |PrintNode(x)| <= |s|
    requires forall k :: 0 <= k < |x.children| ==> !x.children[k].DeclarationNode?
    ensures LaidOut(s, i, LayoutNode(s, x, i), x, options)
  {
    hide Derivation.IsTag, Derivation.TagEnd, Derivation.IsEndTag, Identify, LineAt, XmlTree.Read, TagOf, SkipWs, PrintNode,
      ReadAttributes, TextOf, PrintNodes, LayoutNodes, Derivation.IsNodes, Derivation.NodesEnd, ReadNodes, Derivation.Height,
      XmlTree.Height;
    var node := LayoutNode(s, x, i);
    assert Derivation.NoDeclaration(node.children);
    assert Derivation.IsNode(s, i, node);
    assert ReadNode(s, node, options) == x;
  }

  // ----- Sequences of nodes -----

  lemma {:induction false} NodeDerives(s: string, i: nat, x: Xml, options: Spans.Options)
    requires PrintableNode(x) && StartsAt(s, i, PrintNode(x)) && options == Spans.Options(true, false)
    requires PlainText(x) ==> Followed(s, i + |PrintNode(x)|)
    ensures i <= |s| && LaidOut(s, i, LayoutNode(s, x, i), x, options)
    decreases x, 1
  {
    hide PrintNode, LaidOut, LayoutNode, PrintableNode;
    StartsWithin(s, i, PrintNode(x));
    if x.ElementNode? && x.children == [] {
      SelfClosedDerives(s, i, x, options);
    } else if x.ElementNode? {
      OpenDerives(s, i, x, options);
    } else if PlainText(x) {
      TextDerives(s, i, x, options);
    } else {
      LeafDerives(s, i, x, options);
    }
  }

  lemma {:induction false} NodesDerive(s: string, i: nat, xs: seq<Xml>, options: Spans.Options)
    requires PrintableNodes(xs) && StartsAt(s, i, PrintNodes(xs)) && options == Spans.Options(true, false)
    requires xs != [] && PlainText(xs[|xs| - 1]) ==> Followed(s, i + |PrintNodes(xs)|)
    ensures i <= |s| && AllLaidOut(s, i, LayoutNodes(s, xs, i), xs, options)
    decreases xs, 0
  {
    hide *;
    if xs == [] {
      NothingLaidOut(s, i, options);
    } else {
      var x, rest := xs[0], xs[1..];
      var next := i + |PrintNode(x)|;
      NodesSplit(s, i, xs);
      PrintableSplit(xs);
      TextIsFollowed(s, i, xs);
      NodeDerives(s, i, x, options);
      NodesDerive(s, next, rest, options);
      LaidOutCons(s, i, LayoutNode(s, x, i), LayoutNodes(s, rest, next), x, rest, options);
      assert xs == [x] + rest;
    }
  }

  lemma NothingLaidOut(s: string, i: nat, options: Spans.Options)
    requires StartsAt(s, i, PrintNodes([]))
    ensures i <= |s| && AllLaidOut(s, i, LayoutNodes(s, [], i), [], options)
  {
  }

  lemma NodesSplit(s: string, i: nat, xs: seq<Xml>)
    requires xs != [] && StartsAt(s, i, PrintNodes(xs))
    ensures var x, rest := xs[0], xs[1..];
      var next := i + |PrintNode(x)|;
      && StartsAt(s, i, PrintNode(x)) && StartsAt(s, next, PrintNodes(rest)) && next <= |s|
      && i + |PrintNodes(xs)| == next + |PrintNodes(rest)|
      && LayoutNodes(s, xs, i) == [LayoutNode(s, x, i)] + LayoutNodes(s, rest, next)
  {
    hide PrintNode, LayoutNode;
    StartsAtConcat(s, i, PrintNode(xs[0]), PrintNodes(xs[1..]));
  }

  lemma PrintableSplit(xs: seq<Xml>)
    requires xs != [] && PrintableNodes(xs)
    ensures PrintableNode(xs[0]) && PrintableNodes(xs[1..])
    ensures |xs| > 1 && PlainText(xs[0]) ==> !PlainText(xs[1])
    ensures |xs| > 1 ==> xs[1..][|xs| - 2] == xs[|xs| - 1]
  {
    hide PrintableNode, PlainText;
    assert |xs| > 1 ==> !(PlainText(xs[1 - 1]) && PlainText(xs[1]));
    forall k | 0 < k < |xs| - 1
      ensures !(PlainText(xs[1..][k - 1]) && PlainText(xs[1..][k]))
    {
      assert !(PlainText(xs[(k + 1) - 1]) && PlainText(xs[k + 1]));
    }
  }

  /** What follows a text is markup: its neighbour, or what follows them all. */
  lemma TextIsFollowed(s: string, i: nat, xs: seq<Xml>)
    requires xs != [] && PrintableNodes(xs) && StartsAt(s, i, PrintNodes(xs))
    requires PlainText(xs[|xs| - 1]) ==> Followed(s, i + |PrintNodes(xs)|)
    ensures PlainText(xs[0]) ==> Followed(s, i + |PrintNode(xs[0])|)
  {
    hide PrintNode, PrintableNode, PrintableNodes, PlainText, StartsAt, Followed;
    PrintableSplit(xs);
    NodesSplit(s, i, xs);
    var next := i + |PrintNode(xs[0])|;
    if |xs| == 1 {
      EmptyPrint();
    } else if PlainText(xs[0]) {
      NodesSplit(s, next, xs[1..]);
      PrintableSplit(xs[1..]);
      PrintOpens(xs[1]);
      MarkupFollows(s, next, PrintNode(xs[1]));
    }
  }

  lemma MarkupFollows(s: string, i: nat, t: string)
    requires StartsAt(s, i, t) && |t| > 1 && t[0] == '<' && t[1] != NUL
    ensures Followed(s, i)
  {
    CharAt(s, i, t, 0);
    CharAt(s, i, t, 1);
  }

  lemma LaidOutCons(s: string, i: nat, node: Node, nodes: seq<Node>, x: Xml, xs: seq<Xml>, options: Spans.Options)
    requires i <= |s| && LaidOut(s, i, node, x, options) && i + |PrintNode(x)| <= |s|
    requires AllLaidOut(s, i + |PrintNode(x)|, nodes, xs, options)
    ensures AllLaidOut(s, i, [node] + nodes, [x] + xs, options)
  {
    hide PrintNode, Derivation.IsNode, Derivation.NodeEnd, Derivation.NodeHeight, XmlTree.NodeHeight, ReadNode;
    assert ([node] + nodes)[1..] == nodes && ([x] + xs)[1..] == xs;
    assert nodes != [] ==> ([node] + nodes)[|nodes|] == nodes[|nodes| - 1];
  }

  // ----- Documents -----

  lemma DocumentStart(s: string, doc: seq<Xml>)
    requires PrintableDocument(doc) && s == PrintNodes(doc)
    ensures StartsAt(s, 0, PrintNodes(doc)) && ContentStart(s) == 0 && At(s, 0) == '<'
  {
    assert s == PrintNode(doc[0]) + PrintNodes(doc[1..]);
    PrintOpens(doc[0]);
    assert s[0] == PrintNode(doc[0])[0];
    assert s[0..|s|] == s;
    NoSpaceAt(s, 0);
    Differs(s, 0, BOM, 0);
  }

  lemma DeclarationsStayFirst(nodes: seq<Node>, doc: seq<Xml>)
    requires |nodes| == |doc| && PrintableDocument(doc)
    requires forall k :: 0 <= k < |nodes| ==> (nodes[k].Declaration? <==> doc[k].DeclarationNode?)
    ensures Derivation.DeclarationsFirst(nodes)
  {
    hide PrintableNodes, XmlTree.Height;
  }

  /** Printing in compact mode and parsing is the identity on printable
      documents: names, ordered attributes, texts, CDATA sections, comments,
      declarations and unknowns all come back. */
  lemma PrintThenParse(doc: seq<Xml>)
    requires PrintableDocument(doc)
    ensures var s := PrintNodes(doc);
      var r := ParseDocument(s);
      r.Parsed? && ReadNodes(s, r.nodes, Spans.Options(true, false)) == doc
  {
    var s, options := PrintNodes(doc), Spans.Options(true, false);
    DocumentStart(s, doc);
    DocumentParts(doc);
    hide *;
    NodesDerive(s, 0, doc, options);
    DocumentDerives(s, doc, LayoutNodes(s, doc, 0), options);
    Derivation.ParsesWhatIsDerived(s, LayoutNodes(s, doc, 0));
    ReadsBack(s, doc, LayoutNodes(s, doc, 0), options);
  }

  lemma DocumentParts(doc: seq<Xml>)
    requires PrintableDocument(doc)
    ensures doc != [] && PrintableNodes(doc) && !PlainText(doc[|doc| - 1])
  {
  }

  lemma ReadsBack(s: string, doc: seq<Xml>, nodes: seq<Node>, options: Spans.Options)
    requires AllLaidOut(s, 0, nodes, doc, options)
    ensures ReadNodes(s, nodes, options) == doc
  {
  }

  lemma DocumentDerives(s: string, doc: seq<Xml>, nodes: seq<Node>, options: Spans.Options)
    requires PrintableDocument(doc) && s == PrintNodes(doc) && At(s, 0) == '<' && ContentStart(s) == 0
    requires AllLaidOut(s, 0, nodes, doc, options)
    ensures Derivation.Derivable(s, nodes)
  {
    hide PrintNodes, PrintableNodes, Derivation.IsNodes, ReadNodes, Derivation.IsEndTag, ContentStart;
    DeclarationsStayFirst(nodes, doc);
    assert At(s, SkipWs(s, |s|)) == NUL;
  }
}
