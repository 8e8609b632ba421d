/** What the strings of a parse are when they are read: the names, attributes
    and bodies of the document, each decoded as its kind asks for. */
module Readings {
  import opened XmlChars
  import opened Grammar
  import opened Decoding
  import opened Spans
  import opened XmlTree
  import opened LazyReads
  import Derivation
  import Documents
  import Intended
  import RoundTrip
  import Whitespace

  function Values(s: string, strs: seq<Str>): (r: seq<string>)
    ensures |r| == |strs| && forall k :: 0 <= k < |strs| ==> r[k] == XmlTree.Read(s, strs[k])
  {
    seq(|strs|, k requires 0 <= k < |strs| => XmlTree.Read(s, strs[k]))
  }

  lemma ValuesConcat(s: string, a: seq<Str>, b: seq<Str>)
    ensures Values(s, a + b) == Values(s, a) + Values(s, b)
  {
    hide XmlTree.Read;
  }

  // ----- The strings are those of the tree -----

  function AttributeTexts(attributes: seq<Attr>): seq<string> {
    if attributes == [] then [] else [attributes[0].name, attributes[0].value] + AttributeTexts(attributes[1..])
  }

  /** The strings of a node as the accessors return them, in document order. An end tag
      has the name of its element, and may carry attributes that no accessor returns. */
  function NodeTexts(s: string, node: Node, options: Options): seq<string>
    decreases node, 0
  {
    var x := ReadNode(s, node, options);
    if node.Element? then
      [x.name] + AttributeTexts(x.attributes) + NodesTexts(s, node.children, options) +
      (match node.closing
       case None => []
       case Some(end) => [x.name] + AttributeTexts(ReadAttributes(s, end.attributes, options)))
    else [x.text]
  }

  function NodesTexts(s: string, nodes: seq<Node>, options: Options): seq<string>
    decreases nodes
  {
    if nodes == [] then []
    else NodesTexts(s, nodes[..|nodes| - 1], options) + NodeTexts(s, nodes[|nodes| - 1], options)
  }

  lemma {:induction false} AttributeTextsAppend(attributes: seq<Attr>, a: Attr)
    ensures AttributeTexts(attributes + [a]) == AttributeTexts(attributes) + [a.name, a.value]
  {
    if attributes == [] {
      assert attributes + [a] == [a] && [a][1..] == [];
    } else {
      assert (attributes + [a])[1..] == attributes[1..] + [a];
      AttributeTextsAppend(attributes[1..], a);
    }
  }

  lemma {:induction false} ReadAttributesAppend(s: string, attributes: seq<Attribute>, a: Attribute, options: Options)
    ensures ReadAttributes(s, attributes + [a], options) == ReadAttributes(s, attributes, options) +
      [Attr(XmlTree.Read(s, Str(a.name, NAME)), XmlTree.Read(s, Str(a.value, AttributeFlags(options))))]
  {
    hide XmlTree.Read;
    if attributes == [] {
      assert attributes + [a] == [a] && [a][1..] == [];
    } else {
      assert (attributes + [a])[1..] == attributes[1..] + [a];
      ReadAttributesAppend(s, attributes[1..], a, options);
    }
  }

  lemma {:induction false} AttributesRead(s: string, attributes: seq<Attribute>, options: Options)
    ensures Values(s, AttributeStrs(attributes, options)) == AttributeTexts(ReadAttributes(s, attributes, options))
    decreases |attributes|
  {
    hide XmlTree.Read;
    if attributes != [] {
      var n := |attributes| - 1;
      var front, a := attributes[..n], attributes[n];
      AttributesRead(s, front, options);
      var strs := [Str(a.name, NAME), Str(a.value, AttributeFlags(options))];
      ValuesConcat(s, AttributeStrs(front, options), strs);
      assert attributes == front + [a];
      ReadAttributesAppend(s, front, a, options);
      AttributeTextsAppend(ReadAttributes(s, front, options),
        Attr(XmlTree.Read(s, strs[0]), XmlTree.Read(s, strs[1])));
    }
  }

  lemma TagRead(s: string, tag: Tag, options: Options)
    ensures Values(s, TagStrs(tag, options))
         == [XmlTree.Read(s, Str(tag.name, NAME))] + AttributeTexts(ReadAttributes(s, tag.attributes, options))
  {
    hide XmlTree.Read, AttributeStrs;
    AttributesRead(s, tag.attributes, options);
    ValuesConcat(s, [Str(tag.name, NAME)], AttributeStrs(tag.attributes, options));
  }

  /** The end tag of an element has its name. */
  predicate EndsAlike(s: string, node: Node)
    decreases node, 0
  {
    node.Element? ==>
      && AllEndAlike(s, node.children)
      && (node.closing.Some? ==> TextOf(s, node.closing.value.name) == TextOf(s, node.tag.name))
  }

  predicate AllEndAlike(s: string, nodes: seq<Node>)
    decreases nodes
  {
    forall k :: 0 <= k < |nodes| ==> EndsAlike(s, nodes[k])
  }

  lemma {:induction false} NodeRead(s: string, node: Node, options: Options)
    requires EndsAlike(s, node)
    ensures Values(s, NodeStrs(node, options)) == NodeTexts(s, node, options)
    decreases node, 0
  {
    hide Value, TextOf, TagStrs, Strs, NodesTexts, AttributeTexts, ReadAttributes, ReadNodes, Values;
    if node.Element? {
      NodesRead(s, node.children, options);
      TagRead(s, node.tag, options);
      ValuesConcat(s, TagStrs(node.tag, options), Strs(node.children, options));
      var strs := TagStrs(node.tag, options) + Strs(node.children, options);
      if node.closing.Some? {
        TagRead(s, node.closing.value, options);
        ValuesConcat(s, strs, TagStrs(node.closing.value, options));
      } else {
        assert strs + [] == strs;
      }
    }
  }

  lemma {:induction false} NodesRead(s: string, nodes: seq<Node>, options: Options)
    requires AllEndAlike(s, nodes)
    ensures Values(s, Strs(nodes, options)) == NodesTexts(s, nodes, options)
    decreases nodes
  {
    hide XmlTree.Read, NodeStrs, NodeTexts, EndsAlike;
    if nodes != [] {
      var n := |nodes| - 1;
      NodesRead(s, nodes[..n], options);
      NodeRead(s, nodes[n], options);
      ValuesConcat(s, Strs(nodes[..n], options), NodeStrs(nodes[n], options));
    }
  }

  lemma {:induction false} DerivedEndAlike(s: string, i: nat, nodes: seq<Node>)
    requires i <= |s| && Derivation.IsNodes(s, i, nodes)
    ensures AllEndAlike(s, nodes)
    decreases nodes, 1
  {
    hide Derivation.IsNode, Derivation.NodeEnd, EndsAlike;
    if nodes != [] {
      NodeEndsAlike(s, i, nodes[0]);
      DerivedEndAlike(s, Derivation.NodeEnd(s, nodes[0]), nodes[1..]);
      assert forall k :: 0 < k < |nodes| ==> nodes[k] == nodes[1..][k - 1];
    }
  }

  lemma {:induction false} NodeEndsAlike(s: string, i: nat, node: Node)
    requires i <= |s| && Derivation.IsNode(s, i, node)
    ensures EndsAlike(s, node)
    decreases node, 0
  {
    hide LineAt, Identify, TextOf, Derivation.IsTag, Derivation.TagEnd, Derivation.IsEndTag, Derivation.IsNodes,
      Derivation.NodesEnd, Derivation.NoDeclaration, Derivation.NameStart, Derivation.HasSlash, AllEndAlike;
    if node.Element? {
      if node.closing.Some? {
        DerivedEndAlike(s, Derivation.TagEnd(s, node.tag) + 1, node.children);
      } else {
        NothingEndsApart(s);
      }
    }
  }

  lemma NothingEndsApart(s: string)
    ensures AllEndAlike(s, [])
  {
  }

  // ----- What kind of string each of them is -----

  datatype PartKind = NamePart | ValuePart | TextPart | CDataPart | CommentPart | DeclarationPart | UnknownPart

  datatype Part = Part(kind: PartKind, span: Span)

  function AttributeParts(attributes: seq<Attribute>): seq<Part> {
    if attributes == [] then []
    else
      var a := attributes[|attributes| - 1];
      AttributeParts(attributes[..|attributes| - 1]) + [Part(NamePart, a.name), Part(ValuePart, a.value)]
  }

  function TagParts(tag: Tag): seq<Part> {
    [Part(NamePart, tag.name)] + AttributeParts(tag.attributes)
  }

  function NodeParts(node: Node): seq<Part>
    decreases node, 0
  {
    match node
    case Element(tag, children, closing, _) =>
      TagParts(tag) + Parts(children) + (match closing case None => [] case Some(end) => TagParts(end))
    case Text(value, false, _) => [Part(TextPart, value)]
    case Text(value, true, _) => [Part(CDataPart, value)]
    case Comment(value, _) => [Part(CommentPart, value)]
    case Declaration(value, _) => [Part(DeclarationPart, value)]
    case Unknown(value, _) => [Part(UnknownPart, value)]
  }

  function Parts(nodes: seq<Node>): seq<Part>
    decreases nodes
  {
    if nodes == [] then [] else Parts(nodes[..|nodes| - 1]) + NodeParts(nodes[|nodes| - 1])
  }

  /** The parts of an accepted text, those of an end tag at document level included. */
  function PartsOf(s: string): seq<Part> {
    match ParseNodes(s, ContentStart(s), 0, true)
    case Ended(nodes) => Parts(nodes)
    case Closed(nodes, tag, _) => Parts(nodes) + TagParts(tag)
    case Failed(_, _) => []
  }

  /** `v` is `t` with its line ends normalised, if they are not mistaken. */
  ghost predicate MeansLines(t: string, v: string) {
    v == Intended.Normalised(t)
    <==> forall i: nat, j: nat :: Intended.MaximalRun(t, i, j) ==> !(t[i] == LF && t[j - 1] == CR)
  }

  /** `v` is what the characters of `t` mean, if they are not mistaken. */
  ghost predicate MeansCharacters(t: string, entities: bool, v: string) {
    if !entities then MeansLines(t, v)
    else
      var f := Flags(true, true, false);
      v == Intended.Meant(t, f, 0)
      <==> NoNul(Intended.Meant(t, f, 0)) && Intended.ReferencesMeant(t, f) && Intended.LineEndsMeant(t, f)
           && AmpersandsStay(t, f, 0, 0)
  }

  /** `v` is the string of its kind that `t` stands for. Entities and references are
      processed in text and attribute values only, white space is collapsed in text
      only, and names are taken as they are. */
  ghost predicate StandsFor(kind: PartKind, t: string, options: Options, v: string) {
    match kind
    case NamePart => v == t
    case ValuePart => MeansCharacters(t, options.processEntities, v)
    case TextPart =>
      if options.collapse then
        exists w :: MeansCharacters(t, options.processEntities, w) && Uncollapsed(t, options, w) && v == Whitespace.Collapsed(w)
      else MeansCharacters(t, options.processEntities, v)
    case _ => MeansLines(t, v)
  }

  /** What reading gives in the default mode. */
  predicate Uncollapsed(t: string, options: Options, w: string) {
    w == Value(t, Flags(options.processEntities, true, false))
  }

  /** The flags each kind of string asks for, with the span it lies in. */
  predicate Asks(part: Part, options: Options, str: Str) {
    && str.span == part.span
    && str.flags ==
       match part.kind
       case NamePart => Flags(false, false, false)
       case ValuePart => Flags(options.processEntities, true, false)
       case TextPart => Flags(options.processEntities, true, options.collapse)
       case _ => Flags(false, true, false)
  }

  predicate AllAsk(parts: seq<Part>, options: Options, strs: seq<Str>) {
    |parts| == |strs| && forall k :: 0 <= k < |parts| ==> Asks(parts[k], options, strs[k])
  }

  lemma AskConcat(p: seq<Part>, a: seq<Str>, q: seq<Part>, b: seq<Str>, options: Options)
    requires AllAsk(p, options, a) && AllAsk(q, options, b)
    ensures AllAsk(p + q, options, a + b)
  {
    hide Asks;
  }

  lemma {:induction false} AttributesAsk(attributes: seq<Attribute>, options: Options)
    ensures AllAsk(AttributeParts(attributes), options, AttributeStrs(attributes, options))
  {
    if attributes != [] {
      var n := |attributes| - 1;
      var a := attributes[n];
      AttributesAsk(attributes[..n], options);
      AskConcat(AttributeParts(attributes[..n]), AttributeStrs(attributes[..n], options),
        [Part(NamePart, a.name), Part(ValuePart, a.value)], [Str(a.name, NAME), Str(a.value, AttributeFlags(options))], options);
    }
  }

  lemma TagAsks(tag: Tag, options: Options)
    ensures AllAsk(TagParts(tag), options, TagStrs(tag, options))
  {
    AttributesAsk(tag.attributes, options);
    AskConcat([Part(NamePart, tag.name)], [Str(tag.name, NAME)], AttributeParts(tag.attributes),
      AttributeStrs(tag.attributes, options), options);
  }

  lemma {:induction false} NodeAsks(node: Node, options: Options)
    ensures AllAsk(NodeParts(node), options, NodeStrs(node, options))
    decreases node, 0
  {
    hide TagParts, TagStrs, Parts, Strs;
    if node.Element? {
      TagAsks(node.tag, options);
      NodesAsk(node.children, options);
      AskConcat(TagParts(node.tag), TagStrs(node.tag, options), Parts(node.children), Strs(node.children, options), options);
      var parts, strs := TagParts(node.tag) + Parts(node.children), TagStrs(node.tag, options) + Strs(node.children, options);
      if node.closing.Some? {
        TagAsks(node.closing.value, options);
        AskConcat(parts, strs, TagParts(node.closing.value), TagStrs(node.closing.value, options), options);
      } else {
        assert parts + [] == parts && strs + [] == strs;
      }
    }
  }

  lemma {:induction false} NodesAsk(nodes: seq<Node>, options: Options)
    ensures AllAsk(Parts(nodes), options, Strs(nodes, options))
    decreases nodes
  {
    hide NodeParts, NodeStrs;
    if nodes != [] {
      var n := |nodes| - 1;
      NodesAsk(nodes[..n], options);
      NodeAsks(nodes[n], options);
      AskConcat(Parts(nodes[..n]), Strs(nodes[..n], options), NodeParts(nodes[n]), NodeStrs(nodes[n], options), options);
    }
  }

  lemma StringsAsk(s: string, options: Options)
    ensures AllAsk(PartsOf(s), options, Strings(s, options))
  {
    hide TagParts, TagStrs, Parts, Strs, ParseNodes;
    match ParseNodes(s, ContentStart(s), 0, true)
    case Ended(nodes) => NodesAsk(nodes, options);
    case Closed(nodes, tag, _) =>
      NodesAsk(nodes, options);
      TagAsks(tag, options);
      AskConcat(Parts(nodes), Strs(nodes, options), TagParts(tag), TagStrs(tag, options), options);
    case Failed(_, _) =>
  }

  // ----- No string holds a NUL -----

  predicate CleanSpan(s: string, span: Span) {
    span.lo <= span.hi <= |s| && NoNul(s[span.lo..span.hi])
  }

  predicate CleanParts(s: string, parts: seq<Part>) {
    forall k :: 0 <= k < |parts| ==> CleanSpan(s, parts[k].span)
  }

  lemma NameIsClean(s: string, name: Span)
    requires NameRun(s, name)
    ensures CleanSpan(s, name)
  {
  }

  lemma DelimitedIsClean(s: string, span: Span, terminator: string)
    requires Derivation.Delimits(s, span, terminator)
    ensures CleanSpan(s, span)
  {
    hide StartsAt;
    InsideText(s, span.hi, terminator);
    forall k | 0 <= k < span.hi - span.lo
      ensures s[span.lo..span.hi][k] != NUL
    {
      assert At(s, span.lo + k) != NUL;
    }
  }

  lemma InsideText(s: string, i: nat, pattern: string)
    requires StartsAt(s, i, pattern)
    ensures i <= |s|
  {
  }

  lemma CleanConcat(s: string, a: seq<Part>, b: seq<Part>)
    requires CleanParts(s, a) && CleanParts(s, b)
    ensures CleanParts(s, a + b)
  {
    hide CleanSpan;
  }

  lemma {:induction false} AttributesAreClean(s: string, i: nat, attributes: seq<Attribute>)
    requires i <= |s| && Derivation.IsAttributes(s, i, attributes)
    ensures forall k :: 0 <= k < |attributes| ==> CleanSpan(s, attributes[k].name) && CleanSpan(s, attributes[k].value)
    decreases |attributes|
  {
    hide CleanSpan, Derivation.Delimits, NameRun;
    if attributes != [] {
      var a, later := attributes[0], attributes[1..];
      AttributesAreClean(s, a.value.hi + 1, later);
      NameIsClean(s, a.name);
      DelimitedIsClean(s, a.value, [s[SkipWs(s, SkipWs(s, a.name.hi) + 1)]]);
      assert forall k :: 0 < k < |attributes| ==> attributes[k] == later[k - 1];
    }
  }

  lemma {:induction false} AttributePartsAreClean(s: string, attributes: seq<Attribute>)
    requires forall k :: 0 <= k < |attributes| ==> CleanSpan(s, attributes[k].name) && CleanSpan(s, attributes[k].value)
    ensures CleanParts(s, AttributeParts(attributes))
  {
    hide CleanSpan;
    if attributes != [] {
      AttributePartsAreClean(s, attributes[..|attributes| - 1]);
    }
  }

  lemma TagIsClean(s: string, i: nat, tag: Tag)
    requires Derivation.IsTag(s, i, tag)
    ensures CleanParts(s, TagParts(tag))
  {
    hide CleanSpan, AttributeParts;
    NameIsClean(s, tag.name);
    AttributesAreClean(s, tag.name.hi, tag.attributes);
    AttributePartsAreClean(s, tag.attributes);
  }

  lemma EndTagIsClean(s: string, i: nat, tag: Tag)
    requires i <= |s| && Derivation.IsEndTag(s, i, tag)
    ensures CleanParts(s, TagParts(tag))
  {
    hide CleanParts, TagParts, Derivation.IsTag;
    TagIsClean(s, Derivation.NameStart(s, SkipWs(s, i)), tag);
  }

  lemma {:induction false} NodeIsClean(s: string, i: nat, node: Node)
    requires i <= |s| && Derivation.IsNode(s, i, node)
    ensures CleanParts(s, NodeParts(node))
    decreases node, 0
  {
    hide LineAt, Identify, TextOf, Derivation.IsTag, Derivation.TagEnd, Derivation.IsEndTag, Derivation.IsNodes,
      Derivation.NodesEnd, Derivation.NoDeclaration, Derivation.HasSlash, CleanSpan, TagParts, Parts, Derivation.Delimits;
    if node.Element? {
      var tag := node.tag;
      TagIsClean(s, Derivation.NameStart(s, SkipWs(s, i)), tag);
      var gt := Derivation.TagEnd(s, tag);
      if node.closing.Some? {
        NodesAreClean(s, gt + 1, node.children);
        EndTagIsClean(s, Derivation.NodesEnd(s, gt + 1, node.children), node.closing.value);
        CleanConcat(s, TagParts(tag), Parts(node.children));
        CleanConcat(s, TagParts(tag) + Parts(node.children), TagParts(node.closing.value));
      } else {
        NoParts();
        assert TagParts(tag) + [] + [] == TagParts(tag);
      }
    } else if node.Text? && !node.cdata {
      DelimitedIsClean(s, node.value, "<");
    } else {
      LeafIsClean(s, i, node);
    }
  }

  lemma NoParts()
    ensures Parts([]) == []
  {
  }

  lemma LeafIsClean(s: string, i: nat, node: Node)
    requires i <= |s| && Derivation.IsNode(s, i, node) && !node.Element? && (node.Text? ==> node.cdata)
    ensures CleanSpan(s, node.value)
  {
    hide LineAt, Identify, CleanSpan, Derivation.Delimits;
    var kind := match node
      case Comment(_, _) => CommentKind
      case Declaration(_, _) => DeclarationKind
      case Unknown(_, _) => UnknownKind
      case _ => CDataKind;
    DelimitedIsClean(s, node.value, Terminator(kind));
  }

  lemma {:induction false} NodesAreClean(s: string, i: nat, nodes: seq<Node>)
    requires i <= |s| && Derivation.IsNodes(s, i, nodes)
    ensures CleanParts(s, Parts(nodes))
    decreases nodes, 1
  {
    hide Derivation.IsNode, Derivation.NodeEnd, CleanParts, NodeParts, Parts;
    if nodes == [] {
      NoParts();
      NothingUnclean(s);
    } else {
      NodeIsClean(s, i, nodes[0]);
      NodesAreClean(s, Derivation.NodeEnd(s, nodes[0]), nodes[1..]);
      CleanConcat(s, NodeParts(nodes[0]), Parts(nodes[1..]));
      PartsCons(nodes[0], nodes[1..]);
      assert nodes == [nodes[0]] + nodes[1..];
    }
  }

  lemma NothingUnclean(s: string)
    ensures CleanParts(s, [])
  {
  }

  lemma {:induction false} PartsCons(node: Node, rest: seq<Node>)
    ensures Parts([node] + rest) == NodeParts(node) + Parts(rest)
    decreases |rest|
  {
    hide NodeParts;
    var n := |rest| - 1;
    if rest == [] {
      assert [node] + rest == [node] && [node][..0] == [];
      assert Parts([node]) == Parts([]) + NodeParts(node);
      assert [] + NodeParts(node) == NodeParts(node) + [];
    } else {
      assert ([node] + rest)[..|rest|] == [node] + rest[..n];
      PartsCons(node, rest[..n]);
      assert NodeParts(node) + Parts(rest[..n]) + NodeParts(rest[n]) == NodeParts(node) + (Parts(rest[..n]) + NodeParts(rest[n]));
    }
  }

  lemma AcceptedIsClean(s: string)
    requires ParseDocument(s).Parsed?
    ensures CleanParts(s, PartsOf(s)) && AllEndAlike(s, ParseDocument(s).nodes)
  {
    hide CleanParts, TagParts, Parts, AllEndAlike, NodeLoop, LineAt, Derivation.IsNodes, Derivation.NodesEnd, Derivation.Height,
      Derivation.IsEndTag, Derivation.TagEnd, Derivation.DeclarationsPlaced;
    var start := ContentStart(s);
    var r := NodeLoop(s, start, 1, true, []);
    Derivation.LoopSound(s, start, 1, true, []);
    assert r.nodes[0..] == r.nodes;
    NodesAreClean(s, start, r.nodes);
    DerivedEndAlike(s, start, r.nodes);
    if r.Closed? {
      EndTagIsClean(s, Derivation.NodesEnd(s, start, r.nodes), r.tag);
      CleanConcat(s, Parts(r.nodes), TagParts(r.tag));
    }
  }

  // ----- What each string is -----

  lemma {:induction false} NormalisedIsClean(t: string)
    requires NoNul(t)
    ensures NoNul(Intended.Normalised(t))
  {
    if t != [] {
      if t[0] == CR && |t| > 1 && t[1] == LF {
        NormalisedIsClean(t[2..]);
      } else {
        NormalisedIsClean(t[1..]);
      }
    }
  }

  lemma LinesRead(t: string)
    requires NoNul(t)
    ensures MeansLines(t, Value(t, Flags(false, true, false)))
  {
    var f := Flags(false, true, false);
    NormalisedIsClean(t);
    hide Intended.Meant, Intended.MaximalRun, Value, Intended.Normalised, AmpersandsStay, Intended.EndsLine;
    Intended.ReturnsMeaning(t, f);
    Intended.MeantIsNormalised(t, 0);
    assert t[0..] == t;
    Intended.NothingSkipped(t, 0, 0);
  }

  lemma CharactersRead(t: string, entities: bool)
    requires NoNul(t)
    ensures MeansCharacters(t, entities, Value(t, Flags(entities, true, false)))
  {
    hide Value, MeansLines, Intended.Meant, Intended.ReferencesMeant, Intended.LineEndsMeant, AmpersandsStay;
    if entities {
      Intended.ReturnsMeaning(t, Flags(true, true, false));
    } else {
      LinesRead(t);
    }
  }

  lemma CollapsedRead(t: string, entities: bool)
    ensures Value(t, Flags(entities, true, true)) == Whitespace.Collapsed(Value(t, Flags(entities, true, false)))
  {
    SameText(t, Flags(entities, true, true), Flags(entities, true, false), 0, []);
  }

  lemma {:induction false} SameText(t: string, f: Flags, g: Flags, p: nat, out: string)
    requires f.entities == g.entities && f.newlines == g.newlines && |out| <= p <= |t|
    ensures InPlace(t, f, p, out) == InPlace(t, g, p, out)
    decreases |t| - p
  {
    hide FindEntity;
    if p < |t| {
      SameText(t, f, g, NextPiece(t, f, p).next, out + Written(t, f, p, |out|));
    }
  }

  lemma NameReadAlone(t: string)
    requires NoNul(t)
    ensures Value(t, Flags(false, false, false)) == t
  {
    hide InPlace;
    NothingToDecode(t, Flags(false, false, false), 0);
    assert t[..0] == [] && t[..|t|] == t;
    CStringUnique(t, |t|);
  }

  lemma PartRead(part: Part, options: Options, str: Str, t: string)
    requires Asks(part, options, str) && NoNul(t)
    ensures StandsFor(part.kind, t, options, Value(t, str.flags))
  {
    hide Value, MeansLines, MeansCharacters;
    match part.kind
    case NamePart => NameReadAlone(t);
    case ValuePart => CharactersRead(t, options.processEntities);
    case TextPart =>
      CharactersRead(t, options.processEntities);
      CollapsedRead(t, options.processEntities);
      assert Uncollapsed(t, options, Value(t, Flags(options.processEntities, true, false)));
    case _ => LinesRead(t);
  }

  /** Every string of an accepted text is what a string of its kind stands for. */
  lemma EachStandsFor(s: string, options: Options, k: nat)
    requires ParseDocument(s).Parsed? && k < |PartsOf(s)|
    ensures |Strings(s, options)| == |PartsOf(s)| && Strings(s, options)[k].span == PartsOf(s)[k].span
    ensures StandsFor(PartsOf(s)[k].kind, TextOf(s, PartsOf(s)[k].span), options, Values(s, Strings(s, options))[k])
  {
    hide StandsFor, Value, Strings, PartsOf, ParseDocument;
    StringsAsk(s, options);
    AcceptedIsClean(s);
    var part, str := PartsOf(s)[k], Strings(s, options)[k];
    assert Asks(part, options, str) && CleanSpan(s, part.span);
    PartRead(part, options, str, TextOf(s, part.span));
  }

  // ----- Whole documents -----

  /** Those of the end tag at document level that ends the parse, if there is one. */
  function StrayTexts(s: string, options: Options): seq<string> {
    match ParseNodes(s, ContentStart(s), 0, true)
    case Closed(_, tag, _) =>
      [XmlTree.Read(s, Str(tag.name, NAME))] + AttributeTexts(ReadAttributes(s, tag.attributes, options))
    case _ => []
  }

  /** The strings of an accepted text are, in document order, the strings of the tree
      that the accessors show, and those of an end tag at document level. */
  lemma StringsOfTree(s: string, options: Options)
    requires ParseDocument(s).Parsed?
    ensures var nodes := ParseDocument(s).nodes;
      Values(s, Strings(s, options)) == NodesTexts(s, nodes, options) + StrayTexts(s, options)
  {
    hide Values, NodesTexts, AttributeTexts, ReadAttributes, TagStrs, Strs, XmlTree.Read, ParseNodes, ContentStart, AllEndAlike;
    AcceptedIsClean(s);
    var nodes := ParseDocument(s).nodes;
    NodesRead(s, nodes, options);
    var r := ParseNodes(s, ContentStart(s), 0, true);
    if r.Closed? {
      TagRead(s, r.tag, options);
      ValuesConcat(s, Strs(nodes, options), TagStrs(r.tag, options));
    } else {
      assert NodesTexts(s, nodes, options) + [] == NodesTexts(s, nodes, options);
    }
  }

  // ----- Printed documents -----

  /** The strings of a tree in document order: names, attributes and their values, bodies,
      and the name of an element again where its end tag stands. */
  function TreeTexts(x: Xml): seq<string>
    decreases x, 0
  {
    if x.ElementNode? then
      [x.name] + AttributeTexts(x.attributes) + AllTexts(x.children) + (if x.children == [] then [] else [x.name])
    else [x.text]
  }

  function AllTexts(xs: seq<Xml>): seq<string>
    decreases xs
  {
    if xs == [] then [] else TreeTexts(xs[0]) + AllTexts(xs[1..])
  }

  lemma {:induction false} NodesTextsCons(s: string, node: Node, rest: seq<Node>, options: Options)
    ensures NodesTexts(s, [node] + rest, options) == NodeTexts(s, node, options) + NodesTexts(s, rest, options)
    decreases |rest|
  {
    hide NodeTexts;
    var n := |rest| - 1;
    var first := NodeTexts(s, node, options);
    if rest == [] {
      assert [node] + rest == [node] && [node][..0] == [];
      assert NodesTexts(s, [node], options) == NodesTexts(s, [], options) + first;
      assert [] + first == first + [];
    } else {
      assert ([node] + rest)[..|rest|] == [node] + rest[..n];
      NodesTextsCons(s, node, rest[..n], options);
      assert first + NodesTexts(s, rest[..n], options) + NodeTexts(s, rest[n], options)
          == first + (NodesTexts(s, rest[..n], options) + NodeTexts(s, rest[n], options));
    }
  }

  lemma ElementParts(s: string, x: Xml, i: nat, options: Options)
    requires x.ElementNode? && ReadNode(s, RoundTrip.LayoutNode(s, x, i), options) == x
    ensures var node, start := RoundTrip.LayoutNode(s, x, i), RoundTrip.ChildrenStart(x, i);
      && node.Element? && node.children == RoundTrip.LayoutNodes(s, x.children, start)
      && ReadNodes(s, node.children, options) == x.children && (node.closing.Some? <==> x.children != [])
      && (node.closing.Some? ==> node.closing.value.attributes == [])
  {
    hide LineAt, XmlTree.Read, ReadAttributes, ReadNodes, RoundTrip.LayoutNodes;
  }

  lemma {:induction false} NodeTextsLaid(s: string, x: Xml, i: nat, options: Options)
    requires ReadNode(s, RoundTrip.LayoutNode(s, x, i), options) == x
    ensures NodeTexts(s, RoundTrip.LayoutNode(s, x, i), options) == TreeTexts(x)
    decreases x, 0
  {
    if x.ElementNode? {
      ElementParts(s, x, i, options);
      NodesTextsLaid(s, x.children, RoundTrip.ChildrenStart(x, i), options);
      var node := RoundTrip.LayoutNode(s, x, i);
      hide RoundTrip.LayoutNode, RoundTrip.LayoutNodes, ReadNode, AttributeTexts, NodesTexts, AllTexts;
      NoAttributeTexts(s, options);
      assert [x.name] + [] == [x.name];
    } else {
      hide XmlTree.Read, LineAt;
    }
  }

  lemma NoAttributeTexts(s: string, options: Options)
    ensures AttributeTexts(ReadAttributes(s, [], options)) == []
  {
  }

  lemma {:induction false} NodesTextsLaid(s: string, xs: seq<Xml>, i: nat, options: Options)
    requires ReadNodes(s, RoundTrip.LayoutNodes(s, xs, i), options) == xs
    ensures NodesTexts(s, RoundTrip.LayoutNodes(s, xs, i), options) == AllTexts(xs)
    decreases xs, 1
  {
    if xs != [] {
      hide ReadNode, RoundTrip.LayoutNode, NodeTexts, TreeTexts, PrintNode, NodesTexts;
      var x, rest, next := xs[0], xs[1..], i + |PrintNode(xs[0])|;
      var node, nodes := RoundTrip.LayoutNode(s, x, i), RoundTrip.LayoutNodes(s, rest, next);
      assert RoundTrip.LayoutNodes(s, xs, i) == [node] + nodes;
      assert ([node] + nodes)[1..] == nodes;
      assert ReadNodes(s, [node] + nodes, options)[1..] == ReadNodes(s, nodes, options);
      NodeTextsLaid(s, x, i, options);
      NodesTextsLaid(s, rest, next, options);
      NodesTextsCons(s, node, nodes, options);
    }
  }

  lemma PrintedRun(doc: seq<Xml>)
    requires PrintableDocument(doc)
    ensures var s, options := PrintNodes(doc), Options(true, false);
      var nodes := RoundTrip.LayoutNodes(s, doc, 0);
      && ParseNodes(s, ContentStart(s), 0, true) == Ended(nodes) && ParseDocument(s) == Parsed(nodes)
      && ReadNodes(s, nodes, options) == doc
  {
    var s, options := PrintNodes(doc), Options(true, false);
    var nodes := RoundTrip.LayoutNodes(s, doc, 0);
    RoundTrip.DocumentStart(s, doc);
    RoundTrip.DocumentParts(doc);
    hide *;
    RoundTrip.NodesDerive(s, 0, doc, options);
    RoundTrip.DocumentDerives(s, doc, nodes, options);
    Derivation.ParsesWhatIsDerived(s, nodes);
    RoundTrip.ReadsBack(s, doc, nodes, options);
    EndsAtEnd(s, nodes, doc, options);
  }

  lemma EndsAtEnd(s: string, nodes: seq<Node>, doc: seq<Xml>, options: Options)
    requires Derivation.Derivable(s, nodes) && RoundTrip.AllLaidOut(s, 0, nodes, doc, options) && s == PrintNodes(doc)
    requires ContentStart(s) == 0
    ensures ParseNodes(s, ContentStart(s), 0, true) == Ended(nodes)
  {
    hide NodeLoop, LineAt, Derivation.IsEndTag, Derivation.IsNodes, Derivation.Height, Derivation.NodesEnd, PrintNodes, ReadNodes,
      XmlTree.Height, ContentStart;
    Derivation.PlacedIsFirst(nodes);
    Derivation.LoopComplete(s, 0, 1, true, [], nodes);
    assert [] + nodes == nodes;
    assert At(s, SkipWs(s, |s|)) == NUL;
  }

  lemma StringsOfPrinted(doc: seq<Xml>)
    requires PrintableDocument(doc)
    ensures var s, options := PrintNodes(doc), Options(true, false);
      ParseDocument(s).Parsed? && Values(s, Strings(s, options)) == AllTexts(doc)
  {
    var s, options := PrintNodes(doc), Options(true, false);
    PrintedRun(doc);
    hide Values, Strings, AllTexts, NodesTexts, ReadNodes, PrintNodes, RoundTrip.LayoutNodes, ParseNodes, ContentStart, ParseDocument;
    StringsOfTree(s, options);
    NodesTextsLaid(s, doc, 0, options);
    assert NodesTexts(s, ParseDocument(s).nodes, options) + [] == NodesTexts(s, ParseDocument(s).nodes, options);
  }

  /** Printing, parsing and reading all strings in order gives the strings of the document. */
  method ReadPrinted(doc: seq<Xml>) returns (texts: seq<string>)
    requires PrintableDocument(doc)
    ensures texts == AllTexts(doc)
  {
    var xml, options := PrintNodes(doc), Options(true, false);
    StringsOfPrinted(doc);
    hide *;
    var strs := Strings(xml, options);
    var order := InOrder(|strs|);
    texts := ParseThenRead(xml, options, order);
    SameTexts(xml, strs, order, texts);
  }

  function InOrder(n: nat): (order: seq<nat>)
    ensures |order| == n && forall k :: 0 <= k < n ==> order[k] == k
  {
    seq(n, k requires 0 <= k < n => k)
  }

  lemma SameTexts(s: string, strs: seq<Str>, order: seq<nat>, texts: seq<string>)
    requires |order| == |strs| == |texts| && forall k :: 0 <= k < |strs| ==> order[k] == k
    requires forall k :: 0 <= k < |order| ==>
      order[k] < |strs| && texts[k] == Value(TextOf(s, strs[order[k]].span), strs[order[k]].flags)
    ensures texts == Values(s, strs)
  {
    hide Value, TextOf;
    forall k | 0 <= k < |strs|
      ensures texts[k] == Values(s, strs)[k]
    {
      assert order[k] == k;
    }
  }
}
