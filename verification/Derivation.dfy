/** The language the parser accepts, as a relation between a text and a tree,
    and the theorem that the parser accepts exactly that language and builds
    exactly that tree. */
module Derivation {
  import opened XmlChars
  import opened Grammar

  // ----- Tokens -----

  /** [lo, hi) runs up to the first `terminator` and holds no NUL. */
  predicate Delimits(s: string, span: Span, terminator: string) {
    && span.lo <= span.hi
    && StartsAt(s, span.hi, terminator)
    && forall k :: span.lo <= k < span.hi ==> At(s, k) != NUL && !StartsAt(s, k, terminator)
  }

  lemma {:induction false} DelimitsIsFirst(s: string, span: Span, terminator: string)
    requires terminator != "" && terminator[0] != NUL
    ensures Delimits(s, span, terminator) <==> FindTerminator(s, span.lo, terminator) == Some(span.hi)
    decreases |s| - span.lo
  {
    if StartsAt(s, span.lo, terminator) {
      assert s[span.lo..span.lo + |terminator|][0] == s[span.lo];
    } else if At(s, span.lo) != NUL {
      DelimitsIsFirst(s, Span(span.lo + 1, span.hi), terminator);
    } else if StartsAt(s, span.hi, terminator) {
      assert s[span.hi..span.hi + |terminator|][0] == s[span.hi];
    }
  }

  /** A name: a name start character and all name characters that follow. */
  predicate IsName(s: string, name: Span) {
    NameRun(s, name) && IsNameStartChar(s[name.lo])
  }

  lemma {:induction false} NameEndIs(s: string, i: nat, hi: nat)
    requires i <= hi <= |s| && !IsNameChar(At(s, hi))
    requires forall k :: i <= k < hi ==> IsNameChar(s[k])
    ensures NameEnd(s, i) == hi
    decreases hi - i
  {
    if i < hi {
      NameEndIs(s, i + 1, hi);
    }
  }

  /** White space, a name, an equals sign between white space, a quoted value. */
  predicate IsAttribute(s: string, i: nat, a: Attribute)
    requires i <= |s|
  {
    && a.name.lo == SkipWs(s, i) && IsName(s, a.name)
    && var equals := SkipWs(s, a.name.hi);
    && At(s, equals) == '='
    && var quote := SkipWs(s, equals + 1);
    && (At(s, quote) == '"' || At(s, quote) == '\'')
    && a.value.lo == quote + 1 && Delimits(s, a.value, [s[quote]])
    && a.line == LineAt(s, a.name.lo)
  }

  function AttributesEnd(i: nat, attributes: seq<Attribute>): nat {
    if attributes == [] then i else attributes[|attributes| - 1].value.hi + 1
  }

  predicate IsAttributes(s: string, i: nat, attributes: seq<Attribute>)
    requires i <= |s|
    decreases |attributes|
  {
    attributes == [] ||
    (&& IsAttribute(s, i, attributes[0]) && attributes[0].value.hi < |s|
     && IsAttributes(s, attributes[0].value.hi + 1, attributes[1..]))
  }

  predicate DistinctNames(s: string, attributes: seq<Attribute>) {
    forall i, j :: 0 <= i < j < |attributes| ==> TextOf(s, attributes[i].name) != TextOf(s, attributes[j].name)
  }

  /** A name at `i` and its attributes, no two of the same name. */
  predicate IsTag(s: string, i: nat, tag: Tag) {
    && tag.name.lo == i && IsName(s, tag.name)
    && IsAttributes(s, tag.name.hi, tag.attributes)
    && DistinctNames(s, tag.attributes)
  }

  /** Where the '>' or '/>' of a tag stands. */
  function TagEnd(s: string, tag: Tag): nat {
    var i := AttributesEnd(tag.name.hi, tag.attributes);
    if i <= |s| then SkipWs(s, i) else i
  }

  // ----- Nodes -----

  function NodeEnd(s: string, node: Node): nat {
    match node
    case Text(value, false, _) => value.hi
    case Text(value, true, _) => value.hi + 3
    case Comment(value, _) => value.hi + 3
    case Declaration(value, _) => value.hi + 2
    case Unknown(value, _) => value.hi + 1
    case Element(tag, _, closing, _) =>
      match closing
      case None => TagEnd(s, tag) + 2
      case Some(end) => TagEnd(s, end) + 1
  }

  function NodesEnd(s: string, i: nat, nodes: seq<Node>): nat {
    if nodes == [] then i else NodeEnd(s, nodes[|nodes| - 1])
  }

  predicate IsLeafNode(s: string, j: nat, kind: Kind, value: Span)
    requires IsLeaf(kind)
  {
    Identify(s, j) == kind && value.lo == j + |Header(kind)| && Delimits(s, value, Terminator(kind))
  }

  /** Where the name of a tag opened at `j` starts, behind white space and
      possibly a slash. */
  function NameStart(s: string, j: nat): nat
    requires j < |s|
  {
    var slash := SkipWs(s, j + 1);
    if At(s, slash) == '/' then slash + 1 else slash
  }

  predicate HasSlash(s: string, j: nat)
    requires j < |s|
  {
    At(s, SkipWs(s, j + 1)) == '/'
  }

  /** An end tag, which may carry attributes. */
  predicate IsEndTag(s: string, i: nat, tag: Tag)
    requires i <= |s|
  {
    var j := SkipWs(s, i);
    && j < |s| && Identify(s, j) == ElementKind && HasSlash(s, j)
    && IsTag(s, NameStart(s, j), tag) && At(s, TagEnd(s, tag)) == '>'
  }

  predicate NoDeclaration(nodes: seq<Node>) {
    forall k :: 0 <= k < |nodes| ==> !nodes[k].Declaration?
  }

  /** `node` is derived from the text at `i`. Every open element meets an end
      tag of its own name; a self-closed one has no children. */
  predicate IsNode(s: string, i: nat, node: Node)
    requires i <= |s|
    decreases node, 0
  {
    var j := SkipWs(s, i);
    && At(s, j) != NUL && node.line == LineAt(s, j)
    && match node
       case Text(value, false, _) =>
         && Identify(s, j) == TextKind && value.lo == i && Delimits(s, value, "<")
         && At(s, value.hi + 1) != NUL
       case Text(value, true, _) => IsLeafNode(s, j, CDataKind, value)
       case Comment(value, _) => IsLeafNode(s, j, CommentKind, value)
       case Declaration(value, _) => IsLeafNode(s, j, DeclarationKind, value)
       case Unknown(value, _) => IsLeafNode(s, j, UnknownKind, value)
       case Element(tag, children, closing, _) =>
         && Identify(s, j) == ElementKind && IsTag(s, NameStart(s, j), tag)
         && var gt := TagEnd(s, tag);
         match closing
         case None => children == [] && At(s, gt) == '/' && At(s, gt + 1) == '>'
         case Some(end) =>
           && !HasSlash(s, j) && At(s, gt) == '>' && At(s, gt + 1) != NUL
           && IsNodes(s, gt + 1, children) && NoDeclaration(children)
           && NodesEnd(s, gt + 1, children) <= |s|
           && IsEndTag(s, NodesEnd(s, gt + 1, children), end)
           && TextOf(s, end.name) == TextOf(s, tag.name)
  }

  predicate IsNodes(s: string, i: nat, nodes: seq<Node>)
    requires i <= |s|
    decreases nodes
  {
    nodes == [] ||
    (IsNode(s, i, nodes[0]) && NodeEnd(s, nodes[0]) <= |s| && IsNodes(s, NodeEnd(s, nodes[0]), nodes[1..]))
  }

  /** How many elements with an end tag are nested in one another. */
  function Height(nodes: seq<Node>): nat
    decreases nodes
  {
    if nodes == [] then 0
    else
      var rest := Height(nodes[1..]);
      var first := NodeHeight(nodes[0]);
      if first > rest then first else rest
  }

  function NodeHeight(node: Node): nat
    decreases node, 0
  {
    if node.Element? && node.closing.Some? then 1 + Height(node.children) else 0
  }

  /** Declarations come before everything else. */
  predicate DeclarationsFirst(nodes: seq<Node>) {
    forall k :: 0 <= k < |nodes| && nodes[k].Declaration? ==> AllDeclarations(nodes[..k])
  }

  /** Only white space is left, or an end tag at document level. */
  ghost predicate Stops(s: string, i: nat)
    requires i <= |s|
  {
    At(s, SkipWs(s, i)) == NUL || exists tag :: IsEndTag(s, i, tag)
  }

  ghost predicate Derivable(s: string, nodes: seq<Node>) {
    var start := ContentStart(s);
    && At(s, 0) != NUL && At(s, start) != NUL
    && IsNodes(s, start, nodes) && DeclarationsFirst(nodes)
    && Height(nodes) + 1 < MAX_ELEMENT_DEPTH
    && NodesEnd(s, start, nodes) <= |s| && Stops(s, NodesEnd(s, start, nodes))
  }

  // ----- Tags: the parser and the relation agree -----

  lemma AttributeSound(s: string, i: nat)
    requires i <= |s| && SkipWs(s, i) < |s| && IsNameStartChar(s[SkipWs(s, i)])
    ensures var r := ParseAttribute(s, SkipWs(s, i));
      r.AttributeRead? ==> IsAttribute(s, i, r.attribute) && r.next == r.attribute.value.hi + 1
  {
    hide LineAt, FindTerminator, Delimits;
    var j := SkipWs(s, i);
    var r := ParseAttribute(s, j);
    if r.AttributeRead? {
      var quote := SkipWs(s, SkipWs(s, NameEnd(s, j + 1)) + 1);
      DelimitsIsFirst(s, r.attribute.value, [s[quote]]);
    }
  }

  lemma NameComplete(s: string, name: Span)
    requires IsName(s, name)
    ensures name.lo < name.hi <= |s| && IsNameStartChar(s[name.lo]) && NameEnd(s, name.lo + 1) == name.hi
  {
    NameEndIs(s, name.lo + 1, name.hi);
  }

  lemma AttributeComplete(s: string, i: nat, a: Attribute)
    requires i <= |s| && IsAttribute(s, i, a)
    ensures SkipWs(s, i) < |s| && IsNameStartChar(s[SkipWs(s, i)])
    ensures ParseAttribute(s, SkipWs(s, i)) == AttributeRead(a, a.value.hi + 1)
  {
    hide LineAt, FindTerminator, Delimits, IsName, IsNameChar, IsNameStartChar, NameEnd, SkipWs;
    NameComplete(s, a.name);
    DelimitsIsFirst(s, a.value, [s[SkipWs(s, SkipWs(s, a.name.hi) + 1)]]);
  }

  /** How a tag ends at `gt`, and where reading goes on. */
  predicate TagCloses(s: string, gt: nat, selfClosed: bool, next: nat) {
    if selfClosed then At(s, gt) == '/' && At(s, gt + 1) == '>' && next == gt + 2
    else At(s, gt) == '>' && next == gt + 1
  }

  predicate NewNames(s: string, read: seq<Attribute>, rest: seq<Attribute>) {
    && DistinctNames(s, rest)
    && forall k :: 0 <= k < |rest| ==> !HasAttribute(s, read, TextOf(s, rest[k].name))
  }

  lemma NewNamesCons(s: string, read: seq<Attribute>, a: Attribute, rest: seq<Attribute>)
    ensures NewNames(s, read, [a] + rest)
       <==> !HasAttribute(s, read, TextOf(s, a.name)) && NewNames(s, read + [a], rest)
  {
    var all := [a] + rest;
    assert forall k :: 0 <= k < |rest| ==> all[k + 1] == rest[k];
    assert forall name :: HasAttribute(s, read + [a], name) <==> HasAttribute(s, read, name) || TextOf(s, a.name) == name by {
      forall name
        ensures HasAttribute(s, read + [a], name) <==> HasAttribute(s, read, name) || TextOf(s, a.name) == name
      {
        assert (read + [a])[|read|] == a;
        assert forall k :: 0 <= k < |read| ==> (read + [a])[k] == read[k];
      }
    }
    if NewNames(s, read, all) {
      assert all[0] == a;
    }
  }

  lemma AfterPrefix(read: seq<Attribute>, a: Attribute, all: seq<Attribute>)
    requires read + [a] <= all
    ensures read <= all && all[|read|..] == [a] + all[|read + [a]|..]
  {
  }

  lemma AttributesEndCons(i: nat, a: Attribute, rest: seq<Attribute>)
    ensures AttributesEnd(i, [a] + rest) == AttributesEnd(a.value.hi + 1, rest)
  {
  }

  lemma {:induction false} AttributesSound(s: string, i: nat, line: nat, read: seq<Attribute>)
    requires i <= |s|
    ensures var r := ParseAttributes(s, i, line, read);
      r.AttributesRead? ==>
        && read <= r.attributes
        && var rest := r.attributes[|read|..];
        && IsAttributes(s, i, rest) && NewNames(s, read, rest)
        && AttributesEnd(i, rest) <= |s| && TagCloses(s, SkipWs(s, AttributesEnd(i, rest)), r.selfClosed, r.next)
    decreases |s| - i
  {
    hide ParseAttribute, HasAttribute, IsAttribute, TextOf, LineAt;
    var j := SkipWs(s, i);
    var r := ParseAttributes(s, i, line, read);
    if r.AttributesRead? {
      if IsNameStartChar(At(s, j)) {
        var a := ParseAttribute(s, j).attribute;
        var next := ParseAttribute(s, j).next;
        AttributeSound(s, i);
        AttributesSound(s, next, line, read + [a]);
        var rest := r.attributes[|read + [a]|..];
        AfterPrefix(read, a, r.attributes);
        NewNamesCons(s, read, a, rest);
        AttributesEndCons(i, a, rest);
      } else {
        assert r.attributes[|read|..] == [];
      }
    }
  }

  lemma {:induction false} AttributesComplete(s: string, i: nat, line: nat, read: seq<Attribute>, rest: seq<Attribute>,
                                              selfClosed: bool, next: nat)
    requires i <= |s| && IsAttributes(s, i, rest) && NewNames(s, read, rest)
    requires AttributesEnd(i, rest) <= |s|
    requires TagCloses(s, SkipWs(s, AttributesEnd(i, rest)), selfClosed, next)
    ensures ParseAttributes(s, i, line, read) == AttributesRead(read + rest, selfClosed, next)
    decreases |rest|
  {
    hide ParseAttribute, HasAttribute, IsAttribute, TextOf, LineAt, NewNames;
    if rest == [] {
      assert read + [] == read;
    } else {
      var a, later := rest[0], rest[1..];
      AttributeComplete(s, i, a);
      assert rest == [a] + later;
      NewNamesCons(s, read, a, later);
      assert AttributesEnd(i, rest) == AttributesEnd(a.value.hi + 1, later);
      AttributesComplete(s, a.value.hi + 1, line, read + [a], later, selfClosed, next);
      assert read + [a] + later == read + rest;
    }
  }

  ghost predicate SoundTag(s: string, name: Span, r: AttributesResult) {
    r.AttributesRead? ==>
      var tag := Tag(name, r.attributes);
      IsTag(s, name.lo, tag) && TagEnd(s, tag) <= |s| && TagCloses(s, TagEnd(s, tag), r.selfClosed, r.next)
  }

  lemma TagSound(s: string, name: nat, line: nat)
    requires name < |s| && IsNameStartChar(s[name])
    ensures var nameEnd := NameEnd(s, name + 1);
      SoundTag(s, Span(name, nameEnd), ParseAttributes(s, nameEnd, line, []))
  {
    var nameEnd := NameEnd(s, name + 1);
    assert IsName(s, Span(name, nameEnd));
    hide IsNameStartChar, NameEnd;
    TagSoundBehindName(s, Span(name, nameEnd), line);
  }

  lemma TagSoundBehindName(s: string, name: Span, line: nat)
    requires IsName(s, name)
    ensures SoundTag(s, name, ParseAttributes(s, name.hi, line, []))
  {
    AttributesSound(s, name.hi, line, []);
    hide ParseAttributes, IsAttributes, TagCloses, LineAt, IsName, HasAttribute, TextOf;
    var r := ParseAttributes(s, name.hi, line, []);
    if r.AttributesRead? {
      assert r.attributes[0..] == r.attributes;
    }
  }

  lemma TagComplete(s: string, tag: Tag, line: nat, selfClosed: bool, next: nat)
    requires IsTag(s, tag.name.lo, tag) && TagEnd(s, tag) < |s|
    requires TagCloses(s, TagEnd(s, tag), selfClosed, next)
    ensures NameEnd(s, tag.name.lo + 1) == tag.name.hi
    ensures ParseAttributes(s, tag.name.hi, line, []) == AttributesRead(tag.attributes, selfClosed, next)
  {
    NameEndIs(s, tag.name.lo + 1, tag.name.hi);
    hide ParseAttributes, IsAttributes, TagCloses, LineAt, NameEnd;
    AttributesComplete(s, tag.name.hi, line, [], tag.attributes, selfClosed, next);
    assert [] + tag.attributes == tag.attributes;
  }

  // ----- Nodes: what is accepted is derived -----

  /** Declarations among `rest` stand where the node loop allows them when the
      nodes `read` are already linked. */
  predicate DeclarationsPlaced(top: bool, read: seq<Node>, rest: seq<Node>) {
    forall k :: 0 <= k < |rest| && rest[k].Declaration? ==> top && AllDeclarations(read + rest[..k])
  }

  lemma DeclarationsPlacedCons(top: bool, read: seq<Node>, node: Node, rest: seq<Node>)
    ensures DeclarationsPlaced(top, read, [node] + rest) <==>
      (node.Declaration? ==> top && AllDeclarations(read)) && DeclarationsPlaced(top, read + [node], rest)
  {
    hide AllDeclarations;
    var all := [node] + rest;
    FirstOfAll(read, node, rest);
    forall k | 0 <= k < |rest|
      ensures all[k + 1] == rest[k] && read + all[..k + 1] == read + [node] + rest[..k]
    {
      LaterOfAll(read, node, rest, k);
    }
    if DeclarationsPlaced(top, read, all) {
      forall k | 0 <= k < |rest| && rest[k].Declaration?
        ensures top && AllDeclarations(read + [node] + rest[..k])
      {
        assert all[k + 1].Declaration?;
      }
    }
    if (node.Declaration? ==> top && AllDeclarations(read)) && DeclarationsPlaced(top, read + [node], rest) {
      forall k | 0 <= k < |all| && all[k].Declaration?
        ensures top && AllDeclarations(read + all[..k])
      {
        assert k > 0 ==> rest[k - 1].Declaration? && all[k] == all[(k - 1) + 1];
      }
    }
  }

  lemma FirstOfAll(read: seq<Node>, node: Node, rest: seq<Node>)
    ensures ([node] + rest)[0] == node && read + ([node] + rest)[..0] == read
  {
  }

  lemma LaterOfAll(read: seq<Node>, node: Node, rest: seq<Node>, k: nat)
    requires k < |rest|
    ensures ([node] + rest)[k + 1] == rest[k] && read + ([node] + rest)[..k + 1] == read + [node] + rest[..k]
  {
    assert ([node] + rest)[..k + 1] == [node] + rest[..k];
  }

  ghost predicate SoundItem(s: string, i: nat, depth: nat, r: Item)
    requires i <= |s|
  {
    && (r.NodeItem? ==>
          IsNode(s, i, r.node) && r.next == NodeEnd(s, r.node) && depth + NodeHeight(r.node) < MAX_ELEMENT_DEPTH)
    && (r.EndItem? ==> IsEndTag(s, i, r.tag) && r.next == TagEnd(s, r.tag) + 1)
  }

  /** `nodes` continues `read` with nodes derived from `i` on; returns where. */
  ghost predicate SoundNodes(s: string, i: nat, depth: nat, top: bool, read: seq<Node>, nodes: seq<Node>)
    requires i <= |s|
  {
    && read <= nodes
    && var rest := nodes[|read|..];
    && IsNodes(s, i, rest) && NodesEnd(s, i, rest) <= |s|
    && DeclarationsPlaced(top, read, rest) && depth + Height(rest) < MAX_ELEMENT_DEPTH
  }

  ghost predicate SoundRun(s: string, i: nat, depth: nat, top: bool, read: seq<Node>, r: Run)
    requires i <= |s|
  {
    match r
    case Failed(_, _) => true
    case Ended(nodes) =>
      && SoundNodes(s, i, depth, top, read, nodes)
      && At(s, SkipWs(s, NodesEnd(s, i, nodes[|read|..]))) == NUL
    case Closed(nodes, tag, next) =>
      && SoundNodes(s, i, depth, top, read, nodes)
      && IsEndTag(s, NodesEnd(s, i, nodes[|read|..]), tag) && next == TagEnd(s, tag) + 1
  }

  lemma LeafSound(s: string, i: nat, kind: Kind, depth: nat)
    requires i <= |s| && At(s, SkipWs(s, i)) != NUL && kind == Identify(s, SkipWs(s, i)) && IsLeaf(kind)
    requires depth < MAX_ELEMENT_DEPTH
    ensures SoundItem(s, i, depth, ParseLeaf(s, kind, SkipWs(s, i) + |Header(kind)|, LineAt(s, SkipWs(s, i))))
  {
    hide Identify, LineAt, FindTerminator, Delimits;
    var k := SkipWs(s, i) + |Header(kind)|;
    var r := ParseLeaf(s, kind, k, LineAt(s, SkipWs(s, i)));
    if r.NodeItem? {
      var end := r.next - |Terminator(kind)|;
      DelimitsIsFirst(s, Span(k, end), Terminator(kind));
    }
  }

  lemma CharactersSound(s: string, i: nat, depth: nat)
    requires i <= |s| && At(s, SkipWs(s, i)) != NUL && Identify(s, SkipWs(s, i)) == TextKind
    requires depth < MAX_ELEMENT_DEPTH
    ensures SoundItem(s, i, depth, ParseText(s, i, LineAt(s, SkipWs(s, i))))
  {
    hide Identify, LineAt, FindTerminator, Delimits;
    var r := ParseText(s, i, LineAt(s, SkipWs(s, i)));
    if r.NodeItem? {
      DelimitsIsFirst(s, Span(i, r.next), "<");
    }
  }

  /** An element as XMLElement::ParseDeep leaves it, opened at `j`. */
  ghost predicate SoundElement(s: string, j: nat, depth: nat, r: ElementResult)
    requires j < |s|
  {
    r.ElementRead? ==>
      var gt := TagEnd(s, r.tag);
      && IsTag(s, NameStart(s, j), r.tag)
      && (r.closingType == CLOSING ==> HasSlash(s, j))
      && match r.endTag
         case None => r.children == [] && TagCloses(s, gt, r.closingType == CLOSED, r.next)
         case Some(end) =>
           && !HasSlash(s, j) && At(s, gt) == '>' && At(s, gt + 1) != NUL && gt < |s|
           && IsNodes(s, gt + 1, r.children) && NoDeclaration(r.children)
           && NodesEnd(s, gt + 1, r.children) <= |s| && IsEndTag(s, NodesEnd(s, gt + 1, r.children), end)
           && r.next == TagEnd(s, end) + 1 && depth + 1 + Height(r.children) < MAX_ELEMENT_DEPTH
  }

  lemma {:induction false} ElementReadSound(s: string, i: nat, depth: nat)
    requires i <= |s| && At(s, SkipWs(s, i)) != NUL && depth < MAX_ELEMENT_DEPTH
    ensures SoundElement(s, SkipWs(s, i), depth, ReadElement(s, SkipWs(s, i) + 1, LineAt(s, SkipWs(s, i)), depth))
    decreases |s| - i, 0
  {
    hide LineAt, ParseAttributes, NameEnd, IsTag, TagEnd, IsNodes, NodesEnd, Height, NoDeclaration, IsEndTag, ParseNodes;
    var j := SkipWs(s, i);
    var line := LineAt(s, j);
    var name := NameStart(s, j);
    if IsNameStartChar(At(s, name)) {
      TagSound(s, name, line);
      var nameEnd := NameEnd(s, name + 1);
      var r := ParseAttributes(s, nameEnd, line, []);
      if r.AttributesRead? && !r.selfClosed && !HasSlash(s, j) && At(s, r.next) != NUL {
        NestedSound(s, r.next, depth);
      }
    }
  }

  lemma {:induction false} NestedSound(s: string, i: nat, depth: nat)
    requires i <= |s| && depth < MAX_ELEMENT_DEPTH
    ensures var r := ParseNodes(s, i, depth, false);
      r.Closed? ==>
        && IsNodes(s, i, r.nodes) && NodesEnd(s, i, r.nodes) <= |s| && NoDeclaration(r.nodes)
        && IsEndTag(s, NodesEnd(s, i, r.nodes), r.tag) && r.next == TagEnd(s, r.tag) + 1
        && depth + 1 + Height(r.nodes) < MAX_ELEMENT_DEPTH
    decreases |s| - i, 5
  {
    hide *;
    NodesSound(s, i, depth);
    var r := ParseNodes(s, i, depth, false);
    if r.Closed? {
      WholeRun(s, i, depth + 1, r);
    }
  }

  lemma {:induction false} ElementSound(s: string, i: nat, depth: nat)
    requires i <= |s| && At(s, SkipWs(s, i)) != NUL && Identify(s, SkipWs(s, i)) == ElementKind
    requires depth < MAX_ELEMENT_DEPTH
    ensures SoundItem(s, i, depth, ParseElement(s, SkipWs(s, i) + 1, LineAt(s, SkipWs(s, i)), depth))
    decreases |s| - i, 1
  {
    hide Identify, LineAt, ReadElement, IsTag, TagEnd, TextOf, IsNodes, NodesEnd, Height, NoDeclaration, NameStart, HasSlash;
    ElementReadSound(s, i, depth);
  }

  /** A nested run that starts with nothing read. */
  lemma WholeRun(s: string, i: nat, depth: nat, r: Run)
    requires i <= |s| && r.Closed? && SoundRun(s, i, depth, false, [], r)
    ensures IsNodes(s, i, r.nodes) && NodesEnd(s, i, r.nodes) <= |s| && NoDeclaration(r.nodes)
    ensures IsEndTag(s, NodesEnd(s, i, r.nodes), r.tag) && r.next == TagEnd(s, r.tag) + 1
    ensures depth + Height(r.nodes) < MAX_ELEMENT_DEPTH
  {
    assert r.nodes[0..] == r.nodes;
  }

  lemma {:induction false} NodesSound(s: string, i: nat, depth: nat)
    requires i <= |s| && depth < MAX_ELEMENT_DEPTH
    ensures SoundRun(s, i, depth + 1, false, [], ParseNodes(s, i, depth, false))
    decreases |s| - i, 4
  {
    hide SoundRun, NodeLoop, LineAt;
    if depth + 1 < MAX_ELEMENT_DEPTH {
      LoopSound(s, i, depth + 1, false, []);
    } else {
      FailedIsSound(s, i, depth + 1, false, [], DepthExceeded, LineAt(s, i));
    }
  }

  lemma FailedIsSound(s: string, i: nat, depth: nat, top: bool, read: seq<Node>, error: Error, line: nat)
    requires i <= |s|
    ensures SoundRun(s, i, depth, top, read, Failed(error, line))
  {
  }

  lemma {:induction false} ItemSound(s: string, i: nat, depth: nat)
    requires i <= |s| && At(s, SkipWs(s, i)) != NUL && depth < MAX_ELEMENT_DEPTH
    ensures SoundItem(s, i, depth, ParseItem(s, i, depth))
    decreases |s| - i, 2
  {
    hide Identify, LineAt, SoundItem, ParseElement, ParseLeaf, ParseText;
    var kind := Identify(s, SkipWs(s, i));
    if kind == ElementKind {
      ElementSound(s, i, depth);
    } else if kind == TextKind {
      CharactersSound(s, i, depth);
    } else {
      LeafSound(s, i, kind, depth);
    }
  }

  lemma {:induction false} LoopSound(s: string, i: nat, depth: nat, top: bool, read: seq<Node>)
    requires i <= |s| && depth < MAX_ELEMENT_DEPTH
    ensures SoundRun(s, i, depth, top, read, NodeLoop(s, i, depth, top, read))
    decreases |s| - i, 3
  {
    hide ParseItem, SoundRun, IsEndTag, IsNode, TagEnd;
    if At(s, i) == NUL || At(s, SkipWs(s, i)) == NUL {
      NothingRead(s, i, depth, top, read);
    } else {
      ItemSound(s, i, depth);
      var r := ParseItem(s, i, depth);
      if r.EndItem? {
        NothingRead(s, i, depth, top, read);
      } else if r.NodeItem? && (!r.node.Declaration? || (top && AllDeclarations(read))) {
        LoopSound(s, r.next, depth, top, read + [r.node]);
        OneMore(s, i, depth, top, read, r.node, NodeLoop(s, r.next, depth, top, read + [r.node]));
      } else {
        var run := NodeLoop(s, i, depth, top, read);
        FailedIsSound(s, i, depth, top, read, run.error, run.line);
      }
    }
  }

  lemma NothingRead(s: string, i: nat, depth: nat, top: bool, read: seq<Node>)
    requires i <= |s| && depth < MAX_ELEMENT_DEPTH
    ensures At(s, SkipWs(s, i)) == NUL ==> SoundRun(s, i, depth, top, read, Ended(read))
    ensures forall tag :: IsEndTag(s, i, tag) ==> SoundRun(s, i, depth, top, read, Closed(read, tag, TagEnd(s, tag) + 1))
  {
    hide IsEndTag, TagEnd;
    assert read[|read|..] == [];
  }

  lemma OneMore(s: string, i: nat, depth: nat, top: bool, read: seq<Node>, node: Node, r: Run)
    requires i <= |s| && IsNode(s, i, node) && NodeEnd(s, node) <= |s|
    requires node.Declaration? ==> top && AllDeclarations(read)
    requires depth + NodeHeight(node) < MAX_ELEMENT_DEPTH
    requires SoundRun(s, NodeEnd(s, node), depth, top, read + [node], r)
    ensures SoundRun(s, i, depth, top, read, r)
  {
    hide IsNode, NodeEnd, IsEndTag, TagEnd, NodeHeight;
    if !r.Failed? {
      var rest := r.nodes[|read + [node]|..];
      assert r.nodes[|read|] == (read + [node])[|read|] == node;
      assert r.nodes[|read|..] == [node] + rest;
      DeclarationsPlacedCons(top, read, node, rest);
      assert ([node] + rest)[1..] == rest;
      assert NodesEnd(s, i, [node] + rest) == NodesEnd(s, NodeEnd(s, node), rest) by {
        assert rest != [] ==> ([node] + rest)[|rest|] == rest[|rest| - 1];
      }
    }
  }

  // ----- Nodes: what is derived is accepted -----

  lemma LeafComplete(s: string, j: nat, kind: Kind, value: Span, line: nat)
    requires IsLeaf(kind) && IsLeafNode(s, j, kind, value)
    ensures ParseLeaf(s, kind, j + |Header(kind)|, line)
         == NodeItem(Leaf(kind, value, line), value.hi + |Terminator(kind)|)
  {
    hide Identify, FindTerminator, Delimits;
    DelimitsIsFirst(s, value, Terminator(kind));
  }

  lemma CharactersComplete(s: string, value: Span, line: nat)
    requires Delimits(s, value, "<") && At(s, value.hi + 1) != NUL
    ensures ParseText(s, value.lo, line) == NodeItem(Text(value, false, line), value.hi)
  {
    hide FindTerminator, Delimits;
    DelimitsIsFirst(s, value, "<");
  }

  lemma EndTagComplete(s: string, i: nat, depth: nat, tag: Tag)
    requires i <= |s| && IsEndTag(s, i, tag) && TagEnd(s, tag) < |s|
    ensures At(s, SkipWs(s, i)) != NUL
    ensures ParseItem(s, i, depth) == EndItem(tag, TagEnd(s, tag) + 1)
  {
    hide ParseAttributes, NameEnd, IsAttributes, LineAt, Identify, ParseNodes, TagEnd;
    var j := SkipWs(s, i);
    ElementStart(s, j);
    TagComplete(s, tag, LineAt(s, j), false, TagEnd(s, tag) + 1);
    EndTagRead(s, j, depth, tag, TagEnd(s, tag) + 1, LineAt(s, j));
  }

  lemma ElementStart(s: string, j: nat)
    requires Identify(s, j) == ElementKind
    ensures At(s, j) == '<'
  {
    assert s[j..j + 1][0] == s[j];
  }

  lemma EndTagRead(s: string, j: nat, depth: nat, tag: Tag, next: nat, line: nat)
    requires j < |s| && HasSlash(s, j) && tag.name.lo == NameStart(s, j) && IsNameStartChar(At(s, tag.name.lo))
    requires NameEnd(s, tag.name.lo + 1) == tag.name.hi <= |s|
    requires ParseAttributes(s, tag.name.hi, line, []) == AttributesRead(tag.attributes, false, next)
    ensures ParseElement(s, j + 1, line, depth) == EndItem(tag, next)
  {
    hide ParseAttributes, NameEnd, ParseNodes;
  }

  /** The tag of an element, and its children when it has an end tag. */
  lemma {:induction false} ElementComplete(s: string, i: nat, depth: nat, node: Node)
    requires i <= |s| && node.Element? && IsNode(s, i, node) && NodeEnd(s, node) <= |s|
    requires depth + NodeHeight(node) < MAX_ELEMENT_DEPTH
    ensures ParseElement(s, SkipWs(s, i) + 1, node.line, depth) == NodeItem(node, NodeEnd(s, node))
    decreases node, 0
  {
    hide ParseAttributes, NameEnd, IsTag, LineAt, Identify, ParseNodes, TagEnd, IsNodes, IsEndTag, Height, NodesEnd, TextOf;
    var j, tag, gt := SkipWs(s, i), node.tag, TagEnd(s, node.tag);
    TagHasName(s, NameStart(s, j), tag);
    if node.closing.None? {
      TagComplete(s, tag, node.line, true, gt + 2);
      SelfClosedRead(s, j, depth, node, gt + 2);
    } else {
      TagComplete(s, tag, node.line, false, gt + 1);
      EndTagInside(s, NodesEnd(s, gt + 1, node.children), node.closing.value);
      ChildrenComplete(s, gt + 1, depth, node.children, node.closing.value);
      OpenRead(s, j, depth, node, gt + 1, TagEnd(s, node.closing.value) + 1);
    }
  }

  lemma TagHasName(s: string, i: nat, tag: Tag)
    requires IsTag(s, i, tag)
    ensures tag.name.lo == i && tag.name.hi <= |s| && IsNameStartChar(At(s, i))
  {
  }

  lemma EndTagInside(s: string, i: nat, tag: Tag)
    requires i <= |s| && IsEndTag(s, i, tag)
    ensures TagEnd(s, tag) < |s|
  {
  }

  lemma SelfClosedRead(s: string, j: nat, depth: nat, node: Node, next: nat)
    requires j < |s| && node.Element? && node.closing.None? && node.children == []
    requires node.tag.name.lo == NameStart(s, j) && IsNameStartChar(At(s, node.tag.name.lo))
    requires NameEnd(s, node.tag.name.lo + 1) == node.tag.name.hi <= |s|
    requires ParseAttributes(s, node.tag.name.hi, node.line, []) == AttributesRead(node.tag.attributes, true, next)
    ensures ParseElement(s, j + 1, node.line, depth) == NodeItem(node, next)
  {
    hide ParseAttributes, NameEnd, ParseNodes;
  }

  lemma OpenRead(s: string, j: nat, depth: nat, node: Node, start: nat, next: nat)
    requires j < |s| && node.Element? && node.closing.Some? && !HasSlash(s, j)
    requires node.tag.name.lo == NameStart(s, j) && IsNameStartChar(At(s, node.tag.name.lo))
    requires NameEnd(s, node.tag.name.lo + 1) == node.tag.name.hi <= |s|
    requires ParseAttributes(s, node.tag.name.hi, node.line, []) == AttributesRead(node.tag.attributes, false, start)
    requires At(s, start) != NUL
    requires ParseNodes(s, start, depth, false) == Closed(node.children, node.closing.value, next)
    requires TextOf(s, node.closing.value.name) == TextOf(s, node.tag.name)
    ensures ParseElement(s, j + 1, node.line, depth) == NodeItem(node, next)
  {
    hide ParseAttributes, NameEnd, ParseNodes, TextOf;
  }

  lemma {:induction false} ChildrenComplete(s: string, i: nat, depth: nat, children: seq<Node>, end: Tag)
    requires i <= |s| && IsNodes(s, i, children) && NoDeclaration(children) && NodesEnd(s, i, children) <= |s|
    requires IsEndTag(s, NodesEnd(s, i, children), end) && TagEnd(s, end) < |s|
    requires depth + 1 + Height(children) < MAX_ELEMENT_DEPTH
    ensures ParseNodes(s, i, depth, false) == Closed(children, end, TagEnd(s, end) + 1)
    decreases children, 1
  {
    hide NodeLoop, IsNodes, IsEndTag, TagEnd, Height, NodesEnd;
    LoopComplete(s, i, depth + 1, false, [], children);
    assert [] + children == children;
  }

  lemma {:induction false} ItemComplete(s: string, i: nat, depth: nat, node: Node)
    requires i <= |s| && IsNode(s, i, node) && NodeEnd(s, node) <= |s|
    requires depth + NodeHeight(node) < MAX_ELEMENT_DEPTH
    ensures ParseItem(s, i, depth) == NodeItem(node, NodeEnd(s, node))
    decreases node, 1
  {
    hide IsNode, LineAt, Identify, ParseLeaf, ParseText, ParseElement, NodeEnd, NodeHeight;
    if node.Element? {
      ElementComplete(s, i, depth, node);
      KindOfNode(s, i, node);
    } else {
      CharacterDataComplete(s, i, depth, node);
    }
  }

  lemma KindOfNode(s: string, i: nat, node: Node)
    requires i <= |s| && IsNode(s, i, node) && node.Element?
    ensures At(s, SkipWs(s, i)) != NUL && Identify(s, SkipWs(s, i)) == ElementKind
    ensures LineAt(s, SkipWs(s, i)) == node.line
  {
  }

  lemma CharacterDataComplete(s: string, i: nat, depth: nat, node: Node)
    requires i <= |s| && IsNode(s, i, node) && NodeEnd(s, node) <= |s| && !node.Element?
    ensures ParseItem(s, i, depth) == NodeItem(node, NodeEnd(s, node))
  {
    hide LineAt, Identify, ParseLeaf, ParseText, ParseElement, IsLeafNode, Delimits;
    var j := SkipWs(s, i);
    if node.Text? && !node.cdata {
      CharactersComplete(s, node.value, node.line);
    } else if node.Text? {
      LeafComplete(s, j, CDataKind, node.value, node.line);
      LeafIdentified(s, j, CDataKind, node.value);
    } else if node.Comment? {
      LeafComplete(s, j, CommentKind, node.value, node.line);
      LeafIdentified(s, j, CommentKind, node.value);
    } else if node.Declaration? {
      LeafComplete(s, j, DeclarationKind, node.value, node.line);
      LeafIdentified(s, j, DeclarationKind, node.value);
    } else {
      LeafComplete(s, j, UnknownKind, node.value, node.line);
      LeafIdentified(s, j, UnknownKind, node.value);
    }
  }

  lemma LeafIdentified(s: string, j: nat, kind: Kind, value: Span)
    requires IsLeaf(kind) && IsLeafNode(s, j, kind, value)
    ensures Identify(s, j) == kind
  {
  }

  lemma {:induction false} LoopComplete(s: string, i: nat, depth: nat, top: bool, read: seq<Node>, rest: seq<Node>)
    requires i <= |s| && IsNodes(s, i, rest) && DeclarationsPlaced(top, read, rest)
    requires depth + Height(rest) < MAX_ELEMENT_DEPTH && NodesEnd(s, i, rest) <= |s|
    ensures var e := NodesEnd(s, i, rest);
      && (At(s, SkipWs(s, e)) == NUL ==> NodeLoop(s, i, depth, top, read) == Ended(read + rest))
      && forall tag :: IsEndTag(s, e, tag) ==>
           NodeLoop(s, i, depth, top, read) == Closed(read + rest, tag, TagEnd(s, tag) + 1)
    decreases rest, 0
  {
    hide IsEndTag, TagEnd, ParseItem, IsNode, NodeEnd, NodeHeight, DeclarationsPlaced;
    if rest == [] {
      assert read + [] == read;
      forall tag | IsEndTag(s, i, tag)
        ensures NodeLoop(s, i, depth, top, read) == Closed(read + rest, tag, TagEnd(s, tag) + 1)
      {
        EndTagInside(s, i, tag);
        EndTagComplete(s, i, depth, tag);
      }
    } else {
      var node, later := rest[0], rest[1..];
      assert rest == [node] + later;
      ItemComplete(s, i, depth, node);
      NodeNotBlank(s, i, node);
      DeclarationsPlacedCons(top, read, node, later);
      LoopComplete(s, NodeEnd(s, node), depth, top, read + [node], later);
      assert read + [node] + later == read + rest;
      assert NodesEnd(s, i, rest) == NodesEnd(s, NodeEnd(s, node), later);
    }
  }

  lemma NodeNotBlank(s: string, i: nat, node: Node)
    requires i <= |s| && IsNode(s, i, node)
    ensures At(s, i) != NUL && At(s, SkipWs(s, i)) != NUL
  {
  }

  // ----- Documents -----

  /** The parser accepts exactly the derivable texts and builds exactly the tree
      of the derivation. */
  lemma ParsesWhatIsDerived(s: string, nodes: seq<Node>)
    ensures ParseDocument(s) == Parsed(nodes) <==> Derivable(s, nodes)
  {
    var start := ContentStart(s);
    if ParseDocument(s) == Parsed(nodes) {
      Sound(s, start, nodes);
    }
    if Derivable(s, nodes) {
      Complete(s, start, nodes);
    }
  }

  lemma Sound(s: string, start: nat, nodes: seq<Node>)
    requires start == ContentStart(s) && ParseDocument(s) == Parsed(nodes)
    ensures Derivable(s, nodes)
  {
    hide NodeLoop, LineAt, IsEndTag, IsNodes, Height, NodesEnd;
    LoopSound(s, start, 1, true, []);
    assert nodes[0..] == nodes;
    PlacedIsFirst(nodes);
  }

  lemma PlacedIsFirst(nodes: seq<Node>)
    ensures DeclarationsPlaced(true, [], nodes) <==> DeclarationsFirst(nodes)
  {
    assert forall k :: 0 <= k < |nodes| ==> [] + nodes[..k] == nodes[..k];
  }

  lemma Complete(s: string, start: nat, nodes: seq<Node>)
    requires start == ContentStart(s) && Derivable(s, nodes)
    ensures ParseDocument(s) == Parsed(nodes)
  {
    hide NodeLoop, LineAt, IsEndTag, IsNodes, Height, NodesEnd;
    PlacedIsFirst(nodes);
    LoopComplete(s, start, 1, true, [], nodes);
    assert [] + nodes == nodes;
  }

  /** A text has at most one derivation. */
  lemma DerivationIsUnique(s: string, a: seq<Node>, b: seq<Node>)
    requires Derivable(s, a) && Derivable(s, b)
    ensures a == b
  {
    hide ParseDocument, Derivable;
    ParsesWhatIsDerived(s, a);
    ParsesWhatIsDerived(s, b);
  }
}
