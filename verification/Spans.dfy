/** Where the strings of a parse lie in the buffer: the closed ranges of all
    StrPairs the parser sets are disjoint, so the order in which they are
    decoded cannot matter. */
module Spans {
  import opened XmlChars
  import opened Grammar
  import opened Decoding

  /** XMLDocument's constructor arguments. */
  datatype Options = Options(processEntities: bool, collapse: bool)

  /** A StrPair as the parser sets it. */
  datatype Str = Str(span: Span, flags: Flags)

  function TextFlags(options: Options): Flags {
    Flags(options.processEntities, true, options.collapse)
  }

  function AttributeFlags(options: Options): Flags {
    Flags(options.processEntities, true, false)
  }

  function AttributeStrs(attributes: seq<Attribute>, options: Options): seq<Str> {
    if attributes == [] then []
    else
      var a := attributes[|attributes| - 1];
      AttributeStrs(attributes[..|attributes| - 1], options)
      + [Str(a.name, NAME), Str(a.value, AttributeFlags(options))]
  }

  function TagStrs(tag: Tag, options: Options): seq<Str> {
    [Str(tag.name, NAME)] + AttributeStrs(tag.attributes, options)
  }

  /** All strings of a node in document order, those of its closing tag included. */
  function NodeStrs(node: Node, options: Options): seq<Str>
    decreases node, 0
  {
    match node
    case Element(tag, children, closing, _) =>
      TagStrs(tag, options) + Strs(children, options) +
      (match closing case None => [] case Some(end) => TagStrs(end, options))
    case Text(value, cdata, _) => [Str(value, if cdata then NEWLINES_ONLY else TextFlags(options))]
    case Comment(value, _) => [Str(value, NEWLINES_ONLY)]
    case Declaration(value, _) => [Str(value, NEWLINES_ONLY)]
    case Unknown(value, _) => [Str(value, NEWLINES_ONLY)]
  }

  function Strs(nodes: seq<Node>, options: Options): seq<Str>
    decreases nodes
  {
    if nodes == [] then []
    else Strs(nodes[..|nodes| - 1], options) + NodeStrs(nodes[|nodes| - 1], options)
  }

  /** The closed ranges lie in [lo, hi), in ascending order and apart. */
  ghost predicate Laid(strs: seq<Str>, lo: nat, hi: nat) {
    && (forall i :: 0 <= i < |strs| ==> lo <= strs[i].span.lo <= strs[i].span.hi < hi)
    && (forall i, j :: 0 <= i < j < |strs| ==> strs[i].span.hi < strs[j].span.lo)
  }

  lemma LaidConcat(a: seq<Str>, b: seq<Str>, lo: nat, mid: nat, hi: nat)
    requires Laid(a, lo, mid) && Laid(b, mid, hi) && lo <= mid <= hi
    ensures Laid(a + b, lo, hi)
  {
  }

  lemma LaidWiden(a: seq<Str>, lo: nat, hi: nat, lo': nat, hi': nat)
    requires Laid(a, lo, hi) && lo' <= lo && hi <= hi'
    ensures Laid(a, lo', hi')
  {
  }

  // ----- Tags -----

  lemma NameStopsBefore(s: string, i: nat)
    requires i <= |s|
    ensures !IsNameStartChar(At(s, NameEnd(s, i)))
  {
  }

  lemma AttributeLaid(s: string, i: nat, options: Options)
    requires i < |s| && IsNameStartChar(s[i])
    ensures match ParseAttribute(s, i)
      case NoAttribute => true
      case AttributeRead(a, next) => Laid([Str(a.name, NAME), Str(a.value, AttributeFlags(options))], i, next)
  {
  }

  lemma {:induction false} AttributesLaid(s: string, start: nat, i: nat, line: nat, read: seq<Attribute>, options: Options)
    requires i <= |s| && Laid(AttributeStrs(read, options), start, i)
    requires start <= i || (start == i + 1 && !IsNameStartChar(At(s, i)))
    ensures match ParseAttributes(s, i, line, read)
      case BadAttributes(_, _) => true
      case AttributesRead(attributes, _, next) => Laid(AttributeStrs(attributes, options), start, next - 1)
    decreases |s| - i
  {
    hide ParseAttribute, HasAttribute, TextOf, AttributeStrs, Laid;
    var j := SkipWs(s, i);
    if At(s, j) != NUL && IsNameStartChar(s[j]) {
      match ParseAttribute(s, j)
      case NoAttribute =>
      case AttributeRead(a, next) =>
        AttributeLaid(s, j, options);
        var strs := [Str(a.name, NAME), Str(a.value, AttributeFlags(options))];
        LaidWiden(AttributeStrs(read, options), start, i, start, j);
        LaidConcat(AttributeStrs(read, options), strs, start, j, next);
        AttributeStrsAppend(read, a, options);
        AttributesLaid(s, start, next, line, read + [a], options);
    } else {
      LaidWiden(AttributeStrs(read, options), start, i, start, j);
      LaidWiden(AttributeStrs(read, options), start, j, start, j + 1);
    }
  }

  lemma AttributeStrsAppend(read: seq<Attribute>, a: Attribute, options: Options)
    ensures AttributeStrs(read + [a], options)
         == AttributeStrs(read, options) + [Str(a.name, NAME), Str(a.value, AttributeFlags(options))]
  {
    assert (read + [a])[..|read|] == read;
  }

  // ----- Nodes -----

  /** The strings of what was read up to `next`: the last of them may end right
      at the cursor, but then a '<' stands there, which no string starts with. */
  ghost predicate Settled(s: string, strs: seq<Str>, lo: nat, next: nat) {
    Laid(strs, lo, next + 1) && (At(s, next) != '<' ==> Laid(strs, lo, next))
  }

  /** The first position a string of the next item can start at. */
  function FirstPosition(s: string, i: nat): nat {
    if At(s, i) == '<' then i + 1 else i
  }

  lemma SettledConcat(s: string, a: seq<Str>, b: seq<Str>, lo: nat, i: nat, next: nat)
    requires Settled(s, a, lo, i) && lo <= i < next
    ensures Settled(s, b, FirstPosition(s, i), next) ==> Settled(s, a + b, lo, next)
    ensures Laid(b, FirstPosition(s, i), next) ==> Laid(a + b, lo, next)
  {
  }

  lemma TagLaid(s: string, name: nat, line: nat, options: Options)
    requires name < |s| && IsNameStartChar(s[name])
    ensures var nameEnd := NameEnd(s, name + 1);
      var r := ParseAttributes(s, nameEnd, line, []);
      r.AttributesRead? ==> Laid(TagStrs(Tag(Span(name, nameEnd), r.attributes), options), name, r.next)
  {
    hide *;
    var nameEnd := NameEnd(s, name + 1);
    FirstAttributesLaid(s, name + 1, line, options);
    var r := ParseAttributes(s, nameEnd, line, []);
    if r.AttributesRead? {
      var strs := AttributeStrs(r.attributes, options);
      LaidOne(Span(name, nameEnd));
      LaidConcat([Str(Span(name, nameEnd), NAME)], strs, name, nameEnd + 1, r.next);
      TagStrsOf(Tag(Span(name, nameEnd), r.attributes), options);
    }
  }

  lemma FirstAttributesLaid(s: string, i: nat, line: nat, options: Options)
    requires i <= |s|
    ensures var r := ParseAttributes(s, NameEnd(s, i), line, []);
      r.AttributesRead? ==> Laid(AttributeStrs(r.attributes, options), NameEnd(s, i) + 1, r.next)
  {
    hide ParseAttributes, NameEnd;
    var nameEnd := NameEnd(s, i);
    NameStopsBefore(s, i);
    AttributesLaid(s, nameEnd + 1, nameEnd, line, [], options);
  }

  lemma TagStrsOf(tag: Tag, options: Options)
    ensures TagStrs(tag, options) == [Str(tag.name, NAME)] + AttributeStrs(tag.attributes, options)
  {
  }

  lemma LaidOne(span: Span)
    requires span.lo <= span.hi
    ensures Laid([Str(span, NAME)], span.lo, span.hi + 1)
  {
  }

  lemma {:induction false} ElementLaid(s: string, i: nat, line: nat, depth: nat, options: Options)
    requires i <= |s|
    ensures match ReadElement(s, i, line, depth)
      case ElementRead(tag, _, children, endTag, next) =>
        Laid(TagStrs(tag, options) + Strs(children, options) +
             (match endTag case None => [] case Some(end) => TagStrs(end, options)), i, next)
      case _ => true
    decreases |s| - i, 4
  {
    hide Laid, ParseAttributes, TagStrs, Strs, LineAt, NameEnd, SkipWs;
    var slash := SkipWs(s, i);
    var name := if At(s, slash) == '/' then slash + 1 else slash;
    if IsNameStartChar(At(s, name)) {
      TagLaid(s, name, line, options);
      var nameEnd := NameEnd(s, name + 1);
      match ParseAttributes(s, nameEnd, line, [])
      case BadAttributes(_, _) =>
      case AttributesRead(attributes, selfClosed, next) =>
        var tag := Tag(Span(name, nameEnd), attributes);
        LaidWiden(TagStrs(tag, options), name, next, i, next);
        NoStrs(options);
        assert TagStrs(tag, options) + [] + [] == TagStrs(tag, options);
        if !selfClosed && At(s, slash) != '/' && At(s, next) != NUL {
          NodesLaid(s, next, depth, false, options);
          match ParseNodes(s, next, depth, false)
          case Closed(children, endTag, after) =>
            var inner := Strs(children, options) + TagStrs(endTag, options);
            LaidConcat(TagStrs(tag, options), inner, i, next, after);
            assert TagStrs(tag, options) + Strs(children, options) + TagStrs(endTag, options) == TagStrs(tag, options) + inner;
          case _ =>
        }
    }
  }

  lemma NoStrs(options: Options)
    ensures Strs([], options) == []
  {
  }

  lemma StrsAppend(nodes: seq<Node>, node: Node, options: Options)
    ensures Strs(nodes + [node], options) == Strs(nodes, options) + NodeStrs(node, options)
  {
    assert (nodes + [node])[..|nodes|] == nodes;
  }

  lemma LeafLaid(s: string, kind: Kind, i: nat, line: nat, lo: nat, options: Options)
    requires IsLeaf(kind) && lo <= i
    ensures var r := ParseLeaf(s, kind, i, line);
      r.NodeItem? ==> Laid(NodeStrs(r.node, options), lo, r.next)
  {
  }

  lemma CharactersLaid(s: string, i: nat, line: nat, options: Options)
    requires i <= |s| && At(s, i) != '<'
    ensures var r := ParseText(s, i, line);
      r.NodeItem? ==> Settled(s, NodeStrs(r.node, options), i, r.next)
  {
  }

  /** A tag's node or end tag, whose strings start behind the '<' at `j`. */
  ghost predicate ItemSettled(s: string, r: Item, first: nat, options: Options) {
    && (r.NodeItem? ==> Settled(s, NodeStrs(r.node, options), first, r.next))
    && (r.EndItem? ==> Laid(TagStrs(r.tag, options), first, r.next))
  }

  lemma {:induction false} JudgedLaid(s: string, j: nat, line: nat, depth: nat, first: nat, options: Options)
    requires j < |s| && first <= j + 1
    ensures ItemSettled(s, ParseElement(s, j + 1, line, depth), first, options)
    decreases |s| - (j + 1), 5
  {
    hide Laid, ReadElement, TagStrs, Strs;
    ElementLaid(s, j + 1, line, depth, options);
    var r := ReadElement(s, j + 1, line, depth);
    if r.ElementRead? {
      var strs := TagStrs(r.tag, options) + Strs(r.children, options) +
        (match r.endTag case None => [] case Some(end) => TagStrs(end, options));
      LaidWiden(strs, j + 1, r.next, first, r.next);
      LaidWiden(strs, j + 1, r.next, first, r.next + 1);
      NoStrs(options);
      assert r.endTag.None? ==> strs == TagStrs(r.tag, options);
    }
  }

  lemma {:induction false} ItemLaid(s: string, i: nat, depth: nat, options: Options)
    requires i <= |s| && At(s, SkipWs(s, i)) != NUL
    ensures ItemSettled(s, ParseItem(s, i, depth), FirstPosition(s, i), options)
    decreases |s| - i, 1
  {
    hide Laid, ParseLeaf, ParseText, ParseElement, TagStrs, Strs, NodeStrs, LineAt, Identify, FirstPosition;
    var j := SkipWs(s, i);
    var line := LineAt(s, j);
    var kind := Identify(s, j);
    var first := FirstPosition(s, i);
    HeadersOpen(s, i);
    if kind == ElementKind {
      JudgedLaid(s, j, line, depth, first, options);
    } else if kind == TextKind {
      CharactersLaid(s, i, line, options);
    } else {
      var k := j + |Header(kind)|;
      LeafLaid(s, kind, k, line, first, options);
      var r := ParseLeaf(s, kind, k, line);
      if r.NodeItem? {
        LaidWiden(NodeStrs(r.node, options), first, r.next, first, r.next + 1);
      }
    }
  }

  /** Text does not start with '<', everything else consumes one first. */
  lemma HeadersOpen(s: string, i: nat)
    requires i <= |s|
    ensures var kind := Identify(s, SkipWs(s, i));
      if kind == TextKind then At(s, i) != '<' && FirstPosition(s, i) == i
      else FirstPosition(s, i) <= SkipWs(s, i) + |Header(kind)|
  {
    if At(s, i) == '<' {
      assert SkipWs(s, i) == i;
      assert StartsAt(s, i, "<");
    }
  }

  lemma {:induction false} NodesLaid(s: string, i: nat, depth: nat, top: bool, options: Options)
    requires i <= |s|
    ensures match ParseNodes(s, i, depth, top)
      case Failed(_, _) => true
      case Ended(nodes) => Laid(Strs(nodes, options), i, |s| + 1)
      case Closed(nodes, tag, next) => Laid(Strs(nodes, options) + TagStrs(tag, options), i, next)
    decreases |s| - i, 3
  {
    hide NodeLoop, LineAt;
    if depth + 1 < MAX_ELEMENT_DEPTH || depth + 1 > MAX_ELEMENT_DEPTH {
      LoopLaid(s, i, i, depth + 1, top, [], options);
    }
  }

  lemma {:induction false} LoopLaid(s: string, start: nat, i: nat, depth: nat, top: bool, nodes: seq<Node>, options: Options)
    requires start <= i <= |s| && Settled(s, Strs(nodes, options), start, i)
    ensures match NodeLoop(s, i, depth, top, nodes)
      case Failed(_, _) => true
      case Ended(found) => Laid(Strs(found, options), start, |s| + 1)
      case Closed(found, tag, next) => Laid(Strs(found, options) + TagStrs(tag, options), start, next)
    decreases |s| - i, 2
  {
    hide ParseItem, TagStrs, Strs, NodeStrs, Laid;
    if At(s, i) == NUL || At(s, SkipWs(s, i)) == NUL {
      LaidWiden(Strs(nodes, options), start, i + 1, start, |s| + 1);
    } else {
      ItemLaid(s, i, depth, options);
      var r := ParseItem(s, i, depth);
      if r.EndItem? {
        SettledConcat(s, Strs(nodes, options), TagStrs(r.tag, options), start, i, r.next);
      } else if r.NodeItem? && (!r.node.Declaration? || (top && AllDeclarations(nodes))) {
        SettledConcat(s, Strs(nodes, options), NodeStrs(r.node, options), start, i, r.next);
        StrsAppend(nodes, r.node, options);
        LoopLaid(s, start, r.next, depth, top, nodes + [r.node], options);
      }
    }
  }
}
