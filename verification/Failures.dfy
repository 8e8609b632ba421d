/** Why a text is refused: a relation between a text and the error and line the
    parser reports, and the theorem that it reports exactly those. */
module Failures {
  import opened XmlChars
  import opened Grammar
  import opened Derivation

  /** What is wrong behind the nodes that could be derived. */
  datatype Flaw =
    | UnterminatedComment
    | UnterminatedCData
    | UnterminatedDeclaration
    | UnterminatedUnknown
    | UnterminatedText
    | NothingBehindText(value: Span)
    | MisplacedDeclaration(node: Node)
    | NoName
    | BadAttribute(name: Span, attributes: seq<Attribute>)
    | NothingBehindTag(tag: Tag)
    | TooDeep(tag: Tag)
    | NoEndTag(tag: Tag, children: seq<Node>)
    | OtherEndTag(tag: Tag, children: seq<Node>, end: Tag)
    | Inside(tag: Tag, inner: Failure)

  datatype Failure = Failure(before: seq<Node>, flaw: Flaw)

  /** The text ends before the terminator starts. */
  ghost predicate Unterminated(s: string, i: nat, terminator: string) {
    exists e :: i <= e && At(s, e) == NUL && Undelimited(s, i, e, terminator)
  }

  /** Neither a declaration nor anything that starts with an exclamation mark. */
  predicate OpensTag(s: string, j: nat) {
    At(s, j) == '<' && At(s, j + 1) != '?' && At(s, j + 1) != '!'
  }

  /** What stands behind the attributes read so far ends no tag and is no attribute of
      a new name. The first is an error of the element, the second one of its own. */
  ghost predicate StopsBadly(s: string, e: nat, attributes: seq<Attribute>, tagLine: nat, error: Error, line: nat)
    requires e <= |s|
  {
    var k := SkipWs(s, e);
    if IsNameStartChar(At(s, k)) then
      && error == ParsingAttribute && line == LineAt(s, k)
      && forall a :: IsAttribute(s, e, a) ==>
           exists m :: 0 <= m < |attributes| && TextOf(s, attributes[m].name) == TextOf(s, a.name)
    else
      && error == ParsingElement && line == tagLine
      && At(s, k) != '>' && !(At(s, k) == '/' && At(s, k + 1) == '>')
  }

  /** A start tag that is not closed by itself. */
  predicate IsStartTag(s: string, j: nat, tag: Tag)
    requires j < |s|
  {
    && OpensTag(s, j) && !HasSlash(s, j)
    && IsTag(s, NameStart(s, j), tag) && TagEnd(s, tag) < |s| && s[TagEnd(s, tag)] == '>'
  }

  /** The children of an element whose start tag ends at `gt`, in a frame of depth `depth`. */
  predicate AreChildren(s: string, gt: nat, depth: nat, children: seq<Node>)
    requires gt < |s|
  {
    && At(s, gt + 1) != NUL && IsNodes(s, gt + 1, children) && NoDeclaration(children)
    && depth + 1 + Height(children) < 100 && NodesEnd(s, gt + 1, children) <= |s|
  }

  /** Markup opens at `j` and is not terminated. */
  ghost predicate UnterminatedAt(s: string, j: nat, opening: string, terminator: string) {
    StartsAt(s, j, opening) && Unterminated(s, j + |opening|, terminator)
  }

  /** A tag with the name and the attributes so far, and nothing that may follow them. */
  ghost predicate BadAttributeAt(s: string, j: nat, name: Span, attributes: seq<Attribute>, error: Error, line: nat)
    requires j < |s|
  {
    && OpensTag(s, j) && name.lo == NameStart(s, j) && IsName(s, name)
    && IsAttributes(s, name.hi, attributes) && DistinctNames(s, attributes)
    && AttributesEnd(name.hi, attributes) <= |s|
    && StopsBadly(s, AttributesEnd(name.hi, attributes), attributes, LineAt(s, j), error, line)
  }

  /** What can be wrong behind a start tag that is not closed by itself. */
  predicate OpenFlaw(flaw: Flaw) {
    flaw.NothingBehindTag? || flaw.TooDeep? || flaw.NoEndTag? || flaw.OtherEndTag? || flaw.Inside?
  }

  ghost predicate OpenFlawAt(s: string, j: nat, depth: nat, flaw: Flaw, error: Error, line: nat)
    requires j < |s|
    decreases flaw, 0
  {
    && OpenFlaw(flaw) && IsStartTag(s, j, flaw.tag)
    && var gt := TagEnd(s, flaw.tag);
    && (flaw.NothingBehindTag? <==> At(s, gt + 1) == NUL)
    && match flaw
       case NothingBehindTag(_) => error == MismatchedElement && line == LineAt(s, j)
       case TooDeep(_) => depth + 1 == 100 && error == DepthExceeded && line == LineAt(s, gt + 1)
       case NoEndTag(_, children) =>
         && AreChildren(s, gt, depth, children) && At(s, SkipWs(s, NodesEnd(s, gt + 1, children))) == NUL
         && error == Parsing && line == LineAt(s, j)
       case OtherEndTag(tag, children, end) =>
         && AreChildren(s, gt, depth, children) && IsEndTag(s, NodesEnd(s, gt + 1, children), end)
         && TextOf(s, end.name) != TextOf(s, tag.name)
         && error == MismatchedElement && line == LineAt(s, j)
       case Inside(_, inner) => depth + 1 < 100 && FailsFrom(s, gt + 1, depth + 1, false, [], inner, error, line)
  }

  /** With the nodes `read` linked in a frame of depth `depth`, the flaw is what is met
      at `i`, and the error and line are those of its kind. */
  ghost predicate FlawAt(s: string, i: nat, depth: nat, top: bool, read: seq<Node>, flaw: Flaw, error: Error, line: nat)
    requires i <= |s|
    decreases flaw, 1
  {
    var j := SkipWs(s, i);
    && At(s, j) != NUL
    && match flaw
       case UnterminatedComment =>
         UnterminatedAt(s, j, "<!--", "-->") && error == ParsingComment && line == LineAt(s, j)
       case UnterminatedCData =>
         UnterminatedAt(s, j, "<![CDATA[", "]]>") && error == ParsingCData && line == LineAt(s, j)
       case UnterminatedDeclaration =>
         UnterminatedAt(s, j, "<?", "?>") && error == ParsingDeclaration && line == LineAt(s, j)
       case UnterminatedUnknown =>
         && !StartsAt(s, j, "<!--") && !StartsAt(s, j, "<![CDATA[")
         && UnterminatedAt(s, j, "<!", ">") && error == ParsingUnknown && line == LineAt(s, j)
       case UnterminatedText =>
         s[j] != '<' && Unterminated(s, i, "<") && error == ParsingText && line == LineAt(s, j)
       case NothingBehindText(value) =>
         && s[j] != '<' && value.lo == i && Delimits(s, value, "<") && At(s, value.hi + 1) == NUL
         && error == Parsing && line == LineAt(s, j)
       case MisplacedDeclaration(node) =>
         && node.Declaration? && IsNode(s, i, node) && NodeEnd(s, node) <= |s| && !(top && AllDeclarations(read))
         && error == ParsingDeclaration && line == LineAt(s, j)
       case NoName =>
         OpensTag(s, j) && !IsNameStartChar(At(s, NameStart(s, j))) && error == Parsing && line == LineAt(s, j)
       case BadAttribute(name, attributes) => BadAttributeAt(s, j, name, attributes, error, line)
       case _ => OpenFlawAt(s, j, depth, flaw, error, line)
  }

  /** Derived nodes, and then a flaw. */
  ghost predicate FailsFrom(s: string, i: nat, depth: nat, top: bool, read: seq<Node>, f: Failure, error: Error, line: nat)
    requires i <= |s|
    decreases f, 2
  {
    && IsNodes(s, i, f.before) && DeclarationsPlaced(top, read, f.before)
    && depth + Height(f.before) < 100 && NodesEnd(s, i, f.before) <= |s|
    && FlawAt(s, NodesEnd(s, i, f.before), depth, top, read + f.before, f.flaw, error, line)
  }

  /** The text is empty, or fails behind a byte order mark. */
  ghost predicate Fails(s: string, error: Error, line: nat) {
    if At(s, 0) == NUL || At(s, ContentStart(s)) == NUL then error == EmptyDocument && line == 0
    else exists f :: FailsFrom(s, ContentStart(s), 1, true, [], f, error, line)
  }

  // ----- Openings and terminators -----

  lemma FirstTwo(s: string, j: nat, opening: string)
    requires |opening| >= 2 && StartsAt(s, j, opening)
    ensures At(s, j) == opening[0] && At(s, j + 1) == opening[1]
  {
    assert s[j..j + |opening|][0] == s[j] && s[j..j + |opening|][1] == s[j + 1];
  }

  lemma SecondMark(s: string, j: nat, mark: char)
    requires mark != NUL
    ensures StartsAt(s, j, ['<', mark]) <==> At(s, j) == '<' && At(s, j + 1) == mark
  {
    if j + 2 <= |s| {
      assert s[j..j + 2] == [s[j], s[j + 1]];
    }
  }

  lemma ThirdMark(s: string, j: nat)
    ensures StartsAt(s, j, "<!--") ==> At(s, j + 2) == '-'
    ensures StartsAt(s, j, "<![CDATA[") ==> At(s, j + 2) == '['
  {
    if StartsAt(s, j, "<!--") {
      assert s[j..j + 4][2] == s[j + 2];
    }
    if StartsAt(s, j, "<![CDATA[") {
      assert s[j..j + 9][2] == s[j + 2];
    }
  }

  /** How each kind of node opens. */
  lemma Openings(s: string, j: nat)
    requires j < |s|
    ensures Identify(s, j) == DeclarationKind <==> StartsAt(s, j, "<?")
    ensures Identify(s, j) == CommentKind <==> StartsAt(s, j, "<!--")
    ensures Identify(s, j) == CDataKind <==> StartsAt(s, j, "<![CDATA[")
    ensures Identify(s, j) == UnknownKind <==>
      StartsAt(s, j, "<!") && !StartsAt(s, j, "<!--") && !StartsAt(s, j, "<![CDATA[")
    ensures Identify(s, j) == ElementKind <==> OpensTag(s, j)
    ensures Identify(s, j) == TextKind <==> s[j] != '<'
    ensures OpensTag(s, j) ==> s[j] == '<'
  {
    SecondMark(s, j, '?');
    SecondMark(s, j, '!');
    StartsAtChar(s, j, '<');
    ThirdMark(s, j);
    if StartsAt(s, j, "<!--") {
      FirstTwo(s, j, "<!--");
    }
    if StartsAt(s, j, "<![CDATA[") {
      FirstTwo(s, j, "<![CDATA[");
    }
    hide StartsAt;
  }

  lemma {:induction false} NotFound(s: string, i: nat, terminator: string, e: nat)
    requires i <= e && At(s, e) == NUL && Undelimited(s, i, e, terminator)
    ensures FindTerminator(s, i, terminator).None?
    decreases e - i
  {
    if i < e {
      NotFound(s, i + 1, terminator, e);
    }
  }

  lemma UnterminatedIs(s: string, i: nat, terminator: string)
    ensures Unterminated(s, i, terminator) <==> FindTerminator(s, i, terminator).None?
  {
    FindsFirst(s, i, terminator);
    hide FindTerminator, Undelimited;
    if Unterminated(s, i, terminator) {
      var e :| i <= e && At(s, e) == NUL && Undelimited(s, i, e, terminator);
      NotFound(s, i, terminator, e);
    }
  }

  // ----- Attributes -----

  lemma {:induction false} AttributesFail(s: string, i: nat, tagLine: nat, read: seq<Attribute>) returns (rest: seq<Attribute>)
    requires i <= |s| && ParseAttributes(s, i, tagLine, read).BadAttributes?
    ensures IsAttributes(s, i, rest) && NewNames(s, read, rest) && AttributesEnd(i, rest) <= |s|
    ensures var r := ParseAttributes(s, i, tagLine, read);
      StopsBadly(s, AttributesEnd(i, rest), read + rest, tagLine, r.error, r.line)
    decreases |s| - i
  {
    hide ParseAttribute, HasAttribute, IsAttribute, TextOf, LineAt, NewNames, StopsBadly;
    var j := SkipWs(s, i);
    if AttributeGoesOn(s, i, read) {
      AttributeSound(s, i);
      var a, next := ParseAttribute(s, j).attribute, ParseAttribute(s, j).next;
      var later := AttributesFail(s, next, tagLine, read + [a]);
      rest := [a] + later;
      NewNamesCons(s, read, a, later);
      AttributesEndCons(i, a, later);
      assert read + [a] + later == read + rest;
      assert rest[1..] == later;
    } else {
      rest := [];
      assert read + [] == read;
      NoNewNames(s, read);
      AttributesStop(s, i, tagLine, read);
    }
  }

  predicate AttributeGoesOn(s: string, i: nat, read: seq<Attribute>)
    requires i <= |s|
  {
    var j := SkipWs(s, i);
    && IsNameStartChar(At(s, j)) && ParseAttribute(s, j).AttributeRead?
    && !HasAttribute(s, read, TextOf(s, ParseAttribute(s, j).attribute.name))
  }

  lemma NoNewNames(s: string, read: seq<Attribute>)
    ensures NewNames(s, read, [])
  {
  }

  lemma AttributesStop(s: string, i: nat, tagLine: nat, read: seq<Attribute>)
    requires i <= |s| && ParseAttributes(s, i, tagLine, read).BadAttributes? && !AttributeGoesOn(s, i, read)
    ensures var r := ParseAttributes(s, i, tagLine, read);
      StopsBadly(s, i, read, tagLine, r.error, r.line)
  {
    hide ParseAttribute, TextOf, LineAt, IsAttribute;
    forall a | IsAttribute(s, i, a)
      ensures SkipWs(s, i) < |s| && IsNameStartChar(s[SkipWs(s, i)])
      ensures ParseAttribute(s, SkipWs(s, i)) == AttributeRead(a, a.value.hi + 1)
    {
      AttributeComplete(s, i, a);
    }
  }

  lemma StoppedAttributes(s: string, i: nat, tagLine: nat, read: seq<Attribute>, error: Error, line: nat)
    requires i <= |s| && StopsBadly(s, i, read, tagLine, error, line)
    ensures ParseAttributes(s, i, tagLine, read) == BadAttributes(error, line)
  {
    hide ParseAttribute, TextOf, LineAt, IsAttribute;
    var j := SkipWs(s, i);
    if IsNameStartChar(At(s, j)) && ParseAttribute(s, j).AttributeRead? {
      AttributeSound(s, i);
      assert IsAttribute(s, i, ParseAttribute(s, j).attribute);
    }
  }

  lemma {:induction false} FailedAttributes(s: string, i: nat, tagLine: nat, read: seq<Attribute>, rest: seq<Attribute>,
                                            error: Error, line: nat)
    requires i <= |s| && IsAttributes(s, i, rest) && NewNames(s, read, rest) && AttributesEnd(i, rest) <= |s|
    requires StopsBadly(s, AttributesEnd(i, rest), read + rest, tagLine, error, line)
    ensures ParseAttributes(s, i, tagLine, read) == BadAttributes(error, line)
    decreases |rest|
  {
    hide ParseAttribute, HasAttribute, IsAttribute, TextOf, LineAt, NewNames, StopsBadly;
    if rest == [] {
      assert read + [] == read;
      StoppedAttributes(s, i, tagLine, read, error, line);
    } else {
      var a, later := rest[0], rest[1..];
      AttributeComplete(s, i, a);
      assert rest == [a] + later;
      NewNamesCons(s, read, a, later);
      AttributesEndCons(i, a, later);
      assert read + [a] + later == read + rest;
      FailedAttributes(s, a.value.hi + 1, tagLine, read + [a], later, error, line);
    }
  }

  // ----- What is reported is so -----

  lemma LeafFails(s: string, i: nat, depth: nat, top: bool, read: seq<Node>) returns (flaw: Flaw)
    requires i <= |s| && At(s, SkipWs(s, i)) != NUL && IsLeaf(Identify(s, SkipWs(s, i)))
    requires ParseItem(s, i, depth).BadItem?
    ensures FlawAt(s, i, depth, top, read, flaw, ParseItem(s, i, depth).error, ParseItem(s, i, depth).line)
  {
    NotBlank(s, i);
    var j := SkipWs(s, i);
    var kind := Identify(s, j);
    Openings(s, j);
    BadLeaf(s, i, depth);
    hide Identify, LineAt, UnterminatedAt, StartsAt, ParseItem;
    flaw := match kind
      case DeclarationKind => UnterminatedDeclaration
      case CommentKind => UnterminatedComment
      case CDataKind => UnterminatedCData
      case _ => UnterminatedUnknown;
  }

  lemma BadLeaf(s: string, i: nat, depth: nat)
    requires i <= |s| && At(s, SkipWs(s, i)) != NUL && IsLeaf(Identify(s, SkipWs(s, i)))
    requires ParseItem(s, i, depth).BadItem?
    ensures var j := SkipWs(s, i);
      var kind := Identify(s, j);
      && UnterminatedAt(s, j, Header(kind), Terminator(kind))
      && ParseItem(s, i, depth) == BadItem(LeafError(kind), LineAt(s, j))
  {
    var j := SkipWs(s, i);
    var kind := Identify(s, j);
    UnterminatedIs(s, j + |Header(kind)|, Terminator(kind));
    IdentifiedStarts(s, j);
    hide Identify, LineAt, FindTerminator, Unterminated, StartsAt, LeafError, Header, Terminator;
  }

  lemma IdentifiedStarts(s: string, j: nat)
    ensures Identify(s, j) != TextKind ==> StartsAt(s, j, Header(Identify(s, j)))
  {
    hide StartsAt, Header;
  }

  lemma TextFails(s: string, i: nat, depth: nat, top: bool, read: seq<Node>) returns (flaw: Flaw)
    requires i <= |s| && At(s, SkipWs(s, i)) != NUL && Identify(s, SkipWs(s, i)) == TextKind
    requires ParseItem(s, i, depth).BadItem?
    ensures FlawAt(s, i, depth, top, read, flaw, ParseItem(s, i, depth).error, ParseItem(s, i, depth).line)
  {
    NotBlank(s, i);
    Openings(s, SkipWs(s, i));
    BadText(s, i, depth);
    hide Identify, LineAt, Unterminated, StartsAt, Delimits, ParseItem;
    match FindTerminator(s, i, "<")
    case None => flaw := UnterminatedText;
    case Some(end) => flaw := NothingBehindText(Span(i, end));
  }

  lemma BadText(s: string, i: nat, depth: nat)
    requires i <= |s| && At(s, SkipWs(s, i)) != NUL && Identify(s, SkipWs(s, i)) == TextKind
    requires ParseItem(s, i, depth).BadItem?
    ensures var found := FindTerminator(s, i, "<");
      && (found.None? ==>
            Unterminated(s, i, "<") && ParseItem(s, i, depth) == BadItem(ParsingText, LineAt(s, SkipWs(s, i))))
      && (found.Some? ==>
            && Delimits(s, Span(i, found.value), "<") && At(s, found.value + 1) == NUL
            && ParseItem(s, i, depth) == BadItem(Parsing, LineAt(s, SkipWs(s, i))))
  {
    UnterminatedIs(s, i, "<");
    var found := FindTerminator(s, i, "<");
    if found.Some? {
      DelimitsIsFirst(s, Span(i, found.value), "<");
    }
    hide Identify, LineAt, FindTerminator, Unterminated, StartsAt, Delimits;
  }

  lemma NameRead(s: string, name: nat)
    requires name < |s| && IsNameStartChar(s[name])
    ensures IsName(s, Span(name, NameEnd(s, name + 1)))
  {
  }

  lemma StartTagIntro(s: string, j: nat, name: Span, r: AttributesResult)
    requires j < |s| && OpensTag(s, j) && name.lo == NameStart(s, j) && !HasSlash(s, j)
    requires SoundTag(s, name, r) && r.AttributesRead? && !r.selfClosed
    ensures IsStartTag(s, j, Tag(name, r.attributes)) && r.next == TagEnd(s, Tag(name, r.attributes)) + 1
  {
    hide IsTag, TagEnd, NameStart, HasSlash;
  }

  /** A start tag as it is read. */
  lemma StartTagRead(s: string, j: nat, line: nat)
    requires j < |s| && OpensTag(s, j) && IsNameStartChar(At(s, NameStart(s, j)))
    ensures var name := NameStart(s, j);
      var nameEnd := NameEnd(s, name + 1);
      var r := ParseAttributes(s, nameEnd, line, []);
      && IsName(s, Span(name, nameEnd))
      && (r.AttributesRead? && !r.selfClosed && !HasSlash(s, j) ==>
            var tag := Tag(Span(name, nameEnd), r.attributes);
            IsStartTag(s, j, tag) && r.next == TagEnd(s, tag) + 1)
  {
    NulStartsNoName();
    hide *;
    var name := NameStart(s, j);
    InsideText(s, name);
    var nameEnd := NameEnd(s, name + 1);
    TagSound(s, name, line);
    NameRead(s, name);
    var r := ParseAttributes(s, nameEnd, line, []);
    if r.AttributesRead? && !r.selfClosed && !HasSlash(s, j) {
      StartTagIntro(s, j, Span(name, nameEnd), r);
    }
  }

  lemma NulStartsNoName()
    ensures !IsNameStartChar(NUL)
  {
  }

  lemma InsideText(s: string, i: nat)
    ensures At(s, i) != NUL ==> i < |s| && At(s, i) == s[i]
  {
  }

  lemma NestedEnds(s: string, i: nat, depth: nat)
    requires i <= |s| && depth < MAX_ELEMENT_DEPTH
    ensures var r := ParseNodes(s, i, depth, false);
      r.Ended? ==>
        && IsNodes(s, i, r.nodes) && NodesEnd(s, i, r.nodes) <= |s| && NoDeclaration(r.nodes)
        && At(s, SkipWs(s, NodesEnd(s, i, r.nodes))) == NUL && depth + 1 + Height(r.nodes) < MAX_ELEMENT_DEPTH
  {
    hide *;
    NodesSound(s, i, depth);
    var r := ParseNodes(s, i, depth, false);
    if r.Ended? {
      WholeEndedRun(s, i, depth + 1, r);
    }
  }

  lemma WholeEndedRun(s: string, i: nat, depth: nat, r: Run)
    requires i <= |s| && r.Ended? && SoundRun(s, i, depth, false, [], r)
    ensures IsNodes(s, i, r.nodes) && NodesEnd(s, i, r.nodes) <= |s| && NoDeclaration(r.nodes)
    ensures At(s, SkipWs(s, NodesEnd(s, i, r.nodes))) == NUL && depth + Height(r.nodes) < MAX_ELEMENT_DEPTH
  {
    assert r.nodes[0..] == r.nodes;
  }

  lemma {:induction false} ElementFails(s: string, i: nat, depth: nat, top: bool, read: seq<Node>) returns (flaw: Flaw)
    requires i <= |s| && At(s, SkipWs(s, i)) != NUL && Identify(s, SkipWs(s, i)) == ElementKind
    requires depth < MAX_ELEMENT_DEPTH
    requires ParseElement(s, SkipWs(s, i) + 1, LineAt(s, SkipWs(s, i)), depth).BadItem?
    ensures var r := ParseElement(s, SkipWs(s, i) + 1, LineAt(s, SkipWs(s, i)), depth);
      FlawAt(s, i, depth, top, read, flaw, r.error, r.line)
    decreases |s| - i, 1
  {
    hide *;
    var j := SkipWs(s, i);
    var line := LineAt(s, j);
    InsideText(s, j);
    Openings(s, j);
    var name := NameStart(s, j);
    if !IsNameStartChar(At(s, name)) {
      NoNameFails(s, i, depth, top, read);
      return NoName;
    }
    NulStartsNoName();
    InsideText(s, name);
    var nameEnd := NameEnd(s, name + 1);
    StartTagRead(s, j, line);
    var r := ParseAttributes(s, nameEnd, line, []);
    if r.BadAttributes? {
      var rest := AttributesFail(s, nameEnd, line, []);
      AllNew(s, rest);
      flaw := BadAttribute(Span(name, nameEnd), rest);
      BadAttributesRead(s, j, line, depth);
      NameInside(s, Span(name, nameEnd));
      BadAttributeIntro(s, i, depth, top, read, Span(name, nameEnd), rest, r.error, r.line);
    } else {
      flaw := OpenFails(s, i, depth, top, read, Tag(Span(name, nameEnd), r.attributes));
    }
  }

  lemma NoNameFails(s: string, i: nat, depth: nat, top: bool, read: seq<Node>)
    requires i <= |s| && At(s, SkipWs(s, i)) != NUL && OpensTag(s, SkipWs(s, i))
    requires !IsNameStartChar(At(s, NameStart(s, SkipWs(s, i))))
    ensures var line := LineAt(s, SkipWs(s, i));
      && ParseElement(s, SkipWs(s, i) + 1, line, depth) == BadItem(Parsing, line)
      && FlawAt(s, i, depth, top, read, NoName, Parsing, line)
  {
    hide *;
    NotBlank(s, i);
    NamelessElement(s, SkipWs(s, i), LineAt(s, SkipWs(s, i)), depth);
    NoNameIntro(s, i, depth, top, read);
  }

  lemma NoNameIntro(s: string, i: nat, depth: nat, top: bool, read: seq<Node>)
    requires i <= |s| && At(s, SkipWs(s, i)) != NUL && SkipWs(s, i) < |s| && OpensTag(s, SkipWs(s, i))
    requires !IsNameStartChar(At(s, NameStart(s, SkipWs(s, i))))
    ensures FlawAt(s, i, depth, top, read, NoName, Parsing, LineAt(s, SkipWs(s, i)))
  {
    hide LineAt, IsNameStartChar, NameStart, OpensTag, StartsAt, Unterminated, UnterminatedAt, Delimits, IsNode,
      BadAttributeAt, OpenFlawAt;
  }

  lemma NamelessElement(s: string, j: nat, line: nat, depth: nat)
    requires j < |s| && !IsNameStartChar(At(s, NameStart(s, j)))
    ensures ParseElement(s, j + 1, line, depth) == BadItem(Parsing, line)
  {
    hide IsNameStartChar, ParseAttributes, NameEnd, ParseNodes;
  }

  lemma BadAttributesRead(s: string, j: nat, line: nat, depth: nat)
    requires j < |s| && IsNameStartChar(At(s, NameStart(s, j)))
    requires ParseAttributes(s, NameEnd(s, NameStart(s, j) + 1), line, []).BadAttributes?
    ensures var r := ParseAttributes(s, NameEnd(s, NameStart(s, j) + 1), line, []);
      ParseElement(s, j + 1, line, depth) == BadItem(r.error, r.line)
  {
    hide LineAt, ParseAttributes, NameEnd, ParseNodes, IsNameStartChar;
  }

  lemma BadAttributeIntro(s: string, i: nat, depth: nat, top: bool, read: seq<Node>, name: Span, rest: seq<Attribute>,
                          error: Error, line: nat)
    requires i <= |s| && At(s, SkipWs(s, i)) != NUL && SkipWs(s, i) < |s| && OpensTag(s, SkipWs(s, i))
    requires name.lo == NameStart(s, SkipWs(s, i)) && IsName(s, name) && name.hi <= |s|
    requires IsAttributes(s, name.hi, rest) && DistinctNames(s, rest) && AttributesEnd(name.hi, rest) <= |s|
    requires StopsBadly(s, AttributesEnd(name.hi, rest), rest, LineAt(s, SkipWs(s, i)), error, line)
    ensures FlawAt(s, i, depth, top, read, BadAttribute(name, rest), error, line)
  {
    hide LineAt, IsName, IsAttributes, DistinctNames, AttributesEnd, StopsBadly, OpensTag, NameStart;
  }

  /** What ParseElement makes of a start tag, by what follows it. */
  lemma OpenElement(s: string, j: nat, line: nat, depth: nat, tag: Tag)
    requires j < |s| && OpensTag(s, j) && !HasSlash(s, j) && IsNameStartChar(At(s, NameStart(s, j)))
    requires tag.name == Span(NameStart(s, j), NameEnd(s, NameStart(s, j) + 1)) && tag.name.hi <= |s|
    requires ParseAttributes(s, tag.name.hi, line, []) == AttributesRead(tag.attributes, false, TagEnd(s, tag) + 1)
    ensures var r := ParseElement(s, j + 1, line, depth);
      var next := TagEnd(s, tag) + 1;
      if At(s, next) == NUL then r == BadItem(MismatchedElement, line)
      else
        match ParseNodes(s, next, depth, false)
        case Failed(error, errorLine) => r == BadItem(error, errorLine)
        case Ended(_) => r == BadItem(Parsing, line)
        case Closed(children, end, _) =>
          if TextOf(s, end.name) != TextOf(s, tag.name) then r == BadItem(MismatchedElement, line) else r.NodeItem?
  {
    hide ParseAttributes, NameEnd, ParseNodes, TextOf, TagEnd, IsNameStartChar, LineAt;
  }

  lemma ClosedIsFine(s: string, j: nat, line: nat, depth: nat)
    requires j < |s| && IsNameStartChar(At(s, NameStart(s, j)))
    requires var r := ParseAttributes(s, NameEnd(s, NameStart(s, j) + 1), line, []);
      r.AttributesRead? && (r.selfClosed || HasSlash(s, j))
    ensures !ParseElement(s, j + 1, line, depth).BadItem?
  {
    hide ParseAttributes, NameEnd, ParseNodes, TextOf, IsNameStartChar, LineAt;
  }

  lemma {:induction false} OpenFails(s: string, i: nat, depth: nat, top: bool, read: seq<Node>, tag: Tag) returns (flaw: Flaw)
    requires i <= |s| && At(s, SkipWs(s, i)) != NUL && OpensTag(s, SkipWs(s, i)) && depth < MAX_ELEMENT_DEPTH
    requires var j := SkipWs(s, i);
      && j < |s| && IsNameStartChar(At(s, NameStart(s, j)))
      && tag.name == Span(NameStart(s, j), NameEnd(s, NameStart(s, j) + 1)) && IsName(s, tag.name)
      && var r := ParseAttributes(s, tag.name.hi, LineAt(s, j), []);
      && r.AttributesRead? && tag.attributes == r.attributes
      && (!r.selfClosed && !HasSlash(s, j) ==> IsStartTag(s, j, tag) && r.next == TagEnd(s, tag) + 1)
      && ParseElement(s, j + 1, LineAt(s, j), depth).BadItem?
    ensures var r := ParseElement(s, SkipWs(s, i) + 1, LineAt(s, SkipWs(s, i)), depth);
      FlawAt(s, i, depth, top, read, flaw, r.error, r.line)
    decreases |s| - i, 0
  {
    hide *;
    var j := SkipWs(s, i);
    var line, next := LineAt(s, j), TagEnd(s, tag) + 1;
    NameInside(s, tag.name);
    var attributes := ParseAttributes(s, tag.name.hi, line, []);
    if attributes.selfClosed || HasSlash(s, j) {
      ClosedIsFine(s, j, line, depth);
    }
    OpenElement(s, j, line, depth, tag);
    TagInside(s, j, tag);
    if At(s, next) == NUL {
      BareTagFails(s, i, depth, top, read, tag);
      return NothingBehindTag(tag);
    }
    NestedEnds(s, next, depth);
    NestedSound(s, next, depth);
    var r := ParseNodes(s, next, depth, false);
    if r.Failed? && depth + 1 == MAX_ELEMENT_DEPTH {
      TooManyFrames(s, next, depth);
      DeepFails(s, i, depth, top, read, tag);
      flaw := TooDeep(tag);
    } else if r.Failed? {
      FrameEntered(s, next, depth);
      var inner := LoopFails(s, next, depth + 1, false, []);
      InnerFails(s, i, depth, top, read, tag, inner, r.error, r.line);
      flaw := Inside(tag, inner);
    } else if r.Ended? {
      ChildrenIntro(s, TagEnd(s, tag), depth, r.nodes);
      EndlessFails(s, i, depth, top, read, tag, r.nodes);
      flaw := NoEndTag(tag, r.nodes);
    } else {
      ChildrenIntro(s, TagEnd(s, tag), depth, r.nodes);
      OtherEndFails(s, i, depth, top, read, tag, r.nodes, r.tag);
      flaw := OtherEndTag(tag, r.nodes, r.tag);
    }
  }

  lemma NameInside(s: string, name: Span)
    requires IsName(s, name)
    ensures name.lo < name.hi <= |s|
  {
  }

  lemma TagInside(s: string, j: nat, tag: Tag)
    requires j < |s| && IsStartTag(s, j, tag)
    ensures j < TagEnd(s, tag) < |s|
  {
    hide IsNameStartChar;
    TagEndBehind(s, tag);
  }

  lemma TagEndBehind(s: string, tag: Tag)
    requires IsTag(s, tag.name.lo, tag)
    ensures TagEnd(s, tag) > tag.name.lo
  {
    AttributesBehind(s, tag.name.hi, tag.attributes);
    hide IsAttributes;
  }

  lemma {:induction false} AttributesBehind(s: string, i: nat, attributes: seq<Attribute>)
    requires i <= |s| && IsAttributes(s, i, attributes)
    ensures AttributesEnd(i, attributes) >= i
    decreases |attributes|
  {
    if attributes != [] {
      var a, later := attributes[0], attributes[1..];
      AttributeBehind(s, i, a);
      AttributesBehind(s, a.value.hi + 1, later);
      assert attributes == [a] + later;
      AttributesEndCons(i, a, later);
    }
  }

  lemma AttributeBehind(s: string, i: nat, a: Attribute)
    requires i <= |s| && IsAttribute(s, i, a)
    ensures a.value.hi + 1 > i
  {
    hide LineAt, IsNameStartChar;
  }

  lemma BareTagFails(s: string, i: nat, depth: nat, top: bool, read: seq<Node>, tag: Tag)
    requires i <= |s| && At(s, SkipWs(s, i)) != NUL && IsStartTag(s, SkipWs(s, i), tag) && At(s, TagEnd(s, tag) + 1) == NUL
    ensures FlawAt(s, i, depth, top, read, NothingBehindTag(tag), MismatchedElement, LineAt(s, SkipWs(s, i)))
  {
    hide IsStartTag, TagEnd, LineAt;
  }

  lemma DeepFails(s: string, i: nat, depth: nat, top: bool, read: seq<Node>, tag: Tag)
    requires i <= |s| && At(s, SkipWs(s, i)) != NUL && IsStartTag(s, SkipWs(s, i), tag) && At(s, TagEnd(s, tag) + 1) != NUL
    requires depth + 1 == MAX_ELEMENT_DEPTH
    ensures FlawAt(s, i, depth, top, read, TooDeep(tag), DepthExceeded, LineAt(s, TagEnd(s, tag) + 1))
  {
    hide IsStartTag, TagEnd, LineAt;
  }

  lemma InnerFails(s: string, i: nat, depth: nat, top: bool, read: seq<Node>, tag: Tag, inner: Failure, error: Error, line: nat)
    requires i <= |s| && At(s, SkipWs(s, i)) != NUL && IsStartTag(s, SkipWs(s, i), tag) && At(s, TagEnd(s, tag) + 1) != NUL
    requires depth + 1 < MAX_ELEMENT_DEPTH && TagEnd(s, tag) < |s|
    requires FailsFrom(s, TagEnd(s, tag) + 1, depth + 1, false, [], inner, error, line)
    ensures FlawAt(s, i, depth, top, read, Inside(tag, inner), error, line)
  {
    hide IsStartTag, TagEnd, FailsFrom;
  }

  lemma EndlessFails(s: string, i: nat, depth: nat, top: bool, read: seq<Node>, tag: Tag, children: seq<Node>)
    requires i <= |s| && At(s, SkipWs(s, i)) != NUL && IsStartTag(s, SkipWs(s, i), tag) && TagEnd(s, tag) < |s|
    requires At(s, TagEnd(s, tag) + 1) != NUL
    requires AreChildren(s, TagEnd(s, tag), depth, children) && NodesEnd(s, TagEnd(s, tag) + 1, children) <= |s|
    requires At(s, SkipWs(s, NodesEnd(s, TagEnd(s, tag) + 1, children))) == NUL
    ensures FlawAt(s, i, depth, top, read, NoEndTag(tag, children), Parsing, LineAt(s, SkipWs(s, i)))
  {
    hide IsStartTag, TagEnd, LineAt, AreChildren, NodesEnd;
  }

  lemma OtherEndFails(s: string, i: nat, depth: nat, top: bool, read: seq<Node>, tag: Tag, children: seq<Node>, end: Tag)
    requires i <= |s| && At(s, SkipWs(s, i)) != NUL && IsStartTag(s, SkipWs(s, i), tag) && TagEnd(s, tag) < |s|
    requires At(s, TagEnd(s, tag) + 1) != NUL
    requires AreChildren(s, TagEnd(s, tag), depth, children) && NodesEnd(s, TagEnd(s, tag) + 1, children) <= |s|
    requires IsEndTag(s, NodesEnd(s, TagEnd(s, tag) + 1, children), end) && TextOf(s, end.name) != TextOf(s, tag.name)
    ensures FlawAt(s, i, depth, top, read, OtherEndTag(tag, children, end), MismatchedElement, LineAt(s, SkipWs(s, i)))
  {
    hide IsStartTag, TagEnd, LineAt, AreChildren, NodesEnd, IsEndTag, TextOf;
  }

  lemma AllNew(s: string, rest: seq<Attribute>)
    requires NewNames(s, [], rest)
    ensures DistinctNames(s, rest) && [] + rest == rest
  {
  }

  lemma TooManyFrames(s: string, i: nat, depth: nat)
    requires i <= |s| && depth + 1 == MAX_ELEMENT_DEPTH
    ensures ParseNodes(s, i, depth, false) == Failed(DepthExceeded, LineAt(s, i))
  {
  }

  lemma FrameEntered(s: string, i: nat, depth: nat)
    requires i <= |s| && depth + 1 != MAX_ELEMENT_DEPTH
    ensures ParseNodes(s, i, depth, false) == NodeLoop(s, i, depth + 1, false, [])
  {
    hide NodeLoop;
  }

  lemma ChildrenIntro(s: string, gt: nat, depth: nat, children: seq<Node>)
    requires gt < |s| && At(s, gt + 1) != NUL && IsNodes(s, gt + 1, children) && NoDeclaration(children)
    requires depth + 1 + Height(children) < MAX_ELEMENT_DEPTH && NodesEnd(s, gt + 1, children) <= |s|
    ensures AreChildren(s, gt, depth, children)
  {
    hide IsNodes, Height, NodesEnd, NoDeclaration;
  }

  lemma {:induction false} ItemFails(s: string, i: nat, depth: nat, top: bool, read: seq<Node>) returns (flaw: Flaw)
    requires i <= |s| && At(s, SkipWs(s, i)) != NUL && depth < MAX_ELEMENT_DEPTH
    requires ParseItem(s, i, depth).BadItem?
    ensures FlawAt(s, i, depth, top, read, flaw, ParseItem(s, i, depth).error, ParseItem(s, i, depth).line)
    decreases |s| - i, 2
  {
    hide Identify, LineAt, ParseElement, ParseLeaf, ParseText, FlawAt;
    var kind := Identify(s, SkipWs(s, i));
    if kind == ElementKind {
      flaw := ElementFails(s, i, depth, top, read);
    } else if kind == TextKind {
      flaw := TextFails(s, i, depth, top, read);
    } else {
      flaw := LeafFails(s, i, depth, top, read);
    }
  }

  /** A derived node in front of a failure. */
  lemma FailsLater(s: string, i: nat, depth: nat, top: bool, read: seq<Node>, node: Node, f: Failure, error: Error, line: nat)
    requires i <= |s| && IsNode(s, i, node) && NodeEnd(s, node) <= |s| && depth + NodeHeight(node) < MAX_ELEMENT_DEPTH
    requires node.Declaration? ==> top && AllDeclarations(read)
    requires FailsFrom(s, NodeEnd(s, node), depth, top, read + [node], f, error, line)
    ensures FailsFrom(s, i, depth, top, read, Failure([node] + f.before, f.flaw), error, line)
  {
    hide IsNode, NodeEnd, NodeHeight, FlawAt, DeclarationsPlaced;
    var all := [node] + f.before;
    assert all[1..] == f.before;
    DeclarationsPlacedCons(top, read, node, f.before);
    assert read + [node] + f.before == read + all;
    assert f.before != [] ==> all[|all| - 1] == f.before[|f.before| - 1];
  }

  lemma FailsNow(s: string, i: nat, depth: nat, top: bool, read: seq<Node>, flaw: Flaw, error: Error, line: nat)
    requires i <= |s| && depth < MAX_ELEMENT_DEPTH && FlawAt(s, i, depth, top, read, flaw, error, line)
    ensures FailsFrom(s, i, depth, top, read, Failure([], flaw), error, line)
  {
    hide FlawAt;
    assert read + [] == read;
  }

  lemma {:induction false} LoopFails(s: string, i: nat, depth: nat, top: bool, read: seq<Node>) returns (f: Failure)
    requires i <= |s| && depth < MAX_ELEMENT_DEPTH && NodeLoop(s, i, depth, top, read).Failed?
    ensures var r := NodeLoop(s, i, depth, top, read);
      FailsFrom(s, i, depth, top, read, f, r.error, r.line)
    decreases |s| - i, 3
  {
    hide ParseItem, FlawAt, FailsFrom, IsNode, NodeEnd, NodeHeight;
    var r := NodeLoop(s, i, depth, top, read);
    ItemSound(s, i, depth);
    match ParseItem(s, i, depth)
    case BadItem(error, line) =>
      var flaw := ItemFails(s, i, depth, top, read);
      FailsNow(s, i, depth, top, read, flaw, error, line);
      f := Failure([], flaw);
    case NodeItem(node, next) =>
      if node.Declaration? && !(top && AllDeclarations(read)) {
        DeclarationFails(s, i, depth, top, read, node);
        FailsNow(s, i, depth, top, read, MisplacedDeclaration(node), ParsingDeclaration, node.line);
        f := Failure([], MisplacedDeclaration(node));
      } else {
        var later := LoopFails(s, next, depth, top, read + [node]);
        FailsLater(s, i, depth, top, read, node, later, r.error, r.line);
        f := Failure([node] + later.before, later.flaw);
      }
  }

  lemma DeclarationFails(s: string, i: nat, depth: nat, top: bool, read: seq<Node>, node: Node)
    requires i <= |s| && IsNode(s, i, node) && NodeEnd(s, node) <= |s| && node.Declaration?
    requires !(top && AllDeclarations(read))
    ensures FlawAt(s, i, depth, top, read, MisplacedDeclaration(node), ParsingDeclaration, node.line)
  {
    hide IsLeafNode, NodeEnd, LineAt;
  }

  // ----- What is so is reported -----

  lemma {:induction false} LoopPasses(s: string, i: nat, depth: nat, top: bool, read: seq<Node>, rest: seq<Node>)
    requires i <= |s| && IsNodes(s, i, rest) && DeclarationsPlaced(top, read, rest)
    requires depth + Height(rest) < MAX_ELEMENT_DEPTH && NodesEnd(s, i, rest) <= |s|
    ensures NodeLoop(s, i, depth, top, read) == NodeLoop(s, NodesEnd(s, i, rest), depth, top, read + rest)
    decreases rest
  {
    hide ParseItem, IsNode, NodeEnd, NodeHeight, DeclarationsPlaced;
    if rest == [] {
      assert read + [] == read;
    } else {
      var node, later := rest[0], rest[1..];
      assert rest == [node] + later;
      ItemComplete(s, i, depth, node);
      NodeNotBlank(s, i, node);
      DeclarationsPlacedCons(top, read, node, later);
      LoopPasses(s, NodeEnd(s, node), depth, top, read + [node], later);
      assert read + [node] + later == read + rest;
      assert NodesEnd(s, i, rest) == NodesEnd(s, NodeEnd(s, node), later);
    }
  }

  lemma BadItemFails(s: string, i: nat, depth: nat, top: bool, read: seq<Node>, error: Error, line: nat)
    requires i <= |s| && At(s, SkipWs(s, i)) != NUL && ParseItem(s, i, depth) == BadItem(error, line)
    ensures NodeLoop(s, i, depth, top, read) == Failed(error, line)
  {
    hide ParseItem;
    NotBlank(s, i);
  }

  lemma NotBlank(s: string, i: nat)
    requires i <= |s| && At(s, SkipWs(s, i)) != NUL
    ensures At(s, i) != NUL && SkipWs(s, i) < |s|
  {
  }

  predicate LeafFlaw(flaw: Flaw) {
    flaw.UnterminatedComment? || flaw.UnterminatedCData? || flaw.UnterminatedDeclaration? || flaw.UnterminatedUnknown?
  }

  lemma LeafReported(s: string, i: nat, depth: nat, top: bool, read: seq<Node>, flaw: Flaw, error: Error, line: nat)
    requires i <= |s| && FlawAt(s, i, depth, top, read, flaw, error, line) && LeafFlaw(flaw)
    ensures At(s, SkipWs(s, i)) != NUL && ParseItem(s, i, depth) == BadItem(error, line)
  {
    NotBlank(s, i);
    var j := SkipWs(s, i);
    Openings(s, j);
    hide UnterminatedAt, Identify, LineAt, StartsAt, ParseItem;
    if flaw.UnterminatedComment? {
      LeafItem(s, i, depth, CommentKind, "<!--", "-->");
    } else if flaw.UnterminatedCData? {
      LeafItem(s, i, depth, CDataKind, "<![CDATA[", "]]>");
    } else if flaw.UnterminatedDeclaration? {
      LeafItem(s, i, depth, DeclarationKind, "<?", "?>");
    } else {
      LeafItem(s, i, depth, UnknownKind, "<!", ">");
    }
  }

  lemma LeafItem(s: string, i: nat, depth: nat, kind: Kind, opening: string, terminator: string)
    requires i <= |s| && At(s, SkipWs(s, i)) != NUL && IsLeaf(kind) && UnterminatedAt(s, SkipWs(s, i), opening, terminator)
    requires opening == Header(kind) && terminator == Terminator(kind)
    requires StartsAt(s, SkipWs(s, i), opening) ==> Identify(s, SkipWs(s, i)) == kind
    ensures ParseItem(s, i, depth) == BadItem(LeafError(kind), LineAt(s, SkipWs(s, i)))
    ensures StartsAt(s, SkipWs(s, i), opening)
  {
    UnterminatedIs(s, SkipWs(s, i) + |opening|, terminator);
    hide Identify, LineAt, StartsAt, FindTerminator, Unterminated, LeafError;
  }

  lemma TextReported(s: string, i: nat, depth: nat, top: bool, read: seq<Node>, flaw: Flaw, error: Error, line: nat)
    requires i <= |s| && FlawAt(s, i, depth, top, read, flaw, error, line)
    requires flaw.UnterminatedText? || flaw.NothingBehindText?
    ensures At(s, SkipWs(s, i)) != NUL && ParseItem(s, i, depth) == BadItem(error, line)
  {
    Openings(s, SkipWs(s, i));
    UnterminatedIs(s, i, "<");
    if flaw.NothingBehindText? {
      DelimitsIsFirst(s, flaw.value, "<");
    }
    hide Identify, LineAt, FindTerminator, Unterminated, StartsAt, Delimits;
  }

  lemma ElementItem(s: string, i: nat, depth: nat, error: Error, line: nat)
    requires i <= |s| && At(s, SkipWs(s, i)) != NUL && SkipWs(s, i) < |s| && OpensTag(s, SkipWs(s, i))
    requires ParseElement(s, SkipWs(s, i) + 1, LineAt(s, SkipWs(s, i)), depth) == BadItem(error, line)
    ensures ParseItem(s, i, depth) == BadItem(error, line)
  {
    Openings(s, SkipWs(s, i));
    hide Identify, LineAt, ParseElement, OpensTag, StartsAt;
  }

  lemma NamelessReported(s: string, i: nat, depth: nat, top: bool, read: seq<Node>, error: Error, line: nat)
    requires i <= |s| && FlawAt(s, i, depth, top, read, NoName, error, line)
    ensures At(s, SkipWs(s, i)) != NUL && ParseItem(s, i, depth) == BadItem(error, line)
  {
    NotBlank(s, i);
    NoNameFails(s, i, depth, top, read);
    ElementItem(s, i, depth, error, line);
  }

  lemma AttributeReported(s: string, i: nat, depth: nat, top: bool, read: seq<Node>, flaw: Flaw, error: Error, line: nat)
    requires i <= |s| && FlawAt(s, i, depth, top, read, flaw, error, line) && flaw.BadAttribute?
    ensures At(s, SkipWs(s, i)) != NUL && ParseItem(s, i, depth) == BadItem(error, line)
  {
    hide *;
    BadAttributeByFlaw(s, i, depth, top, read, flaw, error, line);
    BadTagReported(s, SkipWs(s, i), depth, flaw.name, flaw.attributes, error, line);
    ElementItem(s, i, depth, error, line);
  }

  lemma BadAttributeByFlaw(s: string, i: nat, depth: nat, top: bool, read: seq<Node>, flaw: Flaw, error: Error, line: nat)
    requires i <= |s| && FlawAt(s, i, depth, top, read, flaw, error, line) && flaw.BadAttribute?
    ensures At(s, SkipWs(s, i)) != NUL && SkipWs(s, i) < |s|
    ensures BadAttributeAt(s, SkipWs(s, i), flaw.name, flaw.attributes, error, line)
  {
    hide BadAttributeAt;
    NotBlank(s, i);
  }

  lemma BadTagParts(s: string, j: nat, name: Span, attributes: seq<Attribute>, error: Error, line: nat)
    requires j < |s| && BadAttributeAt(s, j, name, attributes, error, line)
    ensures OpensTag(s, j) && name.lo == NameStart(s, j) && IsName(s, name) && name.hi <= |s| && name.lo < |s|
    ensures IsNameStartChar(At(s, NameStart(s, j)))
    ensures IsAttributes(s, name.hi, attributes) && DistinctNames(s, attributes)
    ensures AttributesEnd(name.hi, attributes) <= |s|
    ensures StopsBadly(s, AttributesEnd(name.hi, attributes), attributes, LineAt(s, j), error, line)
  {
    hide OpensTag, IsAttributes, DistinctNames, AttributesEnd, StopsBadly, LineAt, NameStart, IsNameStartChar;
  }

  lemma BadTagReported(s: string, j: nat, depth: nat, name: Span, attributes: seq<Attribute>, error: Error, line: nat)
    requires j < |s| && BadAttributeAt(s, j, name, attributes, error, line)
    ensures OpensTag(s, j) && ParseElement(s, j + 1, LineAt(s, j), depth) == BadItem(error, line)
  {
    hide *;
    BadTagParts(s, j, name, attributes, error, line);
    NameComplete(s, name);
    EveryNew(s, attributes);
    FailedAttributes(s, name.hi, LineAt(s, j), [], attributes, error, line);
    BadAttributesRead(s, j, LineAt(s, j), depth);
  }

  lemma EveryNew(s: string, rest: seq<Attribute>)
    requires DistinctNames(s, rest)
    ensures NewNames(s, [], rest) && [] + rest == rest
  {
  }

  /** What comes of a start tag, by what follows it. */
  lemma StartTagReported(s: string, j: nat, line: nat, depth: nat, tag: Tag)
    requires j < |s| && IsStartTag(s, j, tag)
    ensures var r := ParseElement(s, j + 1, line, depth);
      var next := TagEnd(s, tag) + 1;
      && j + 1 < next <= |s|
      && if At(s, next) == NUL then r == BadItem(MismatchedElement, line)
         else
           match ParseNodes(s, next, depth, false)
           case Failed(error, errorLine) => r == BadItem(error, errorLine)
           case Ended(_) => r == BadItem(Parsing, line)
           case Closed(children, end, _) =>
             if TextOf(s, end.name) != TextOf(s, tag.name) then r == BadItem(MismatchedElement, line) else r.NodeItem?
  {
    TagInside(s, j, tag);
    StartTagParts(s, j, tag);
    hide *;
    ClosesOpen(s, tag);
    TagComplete(s, tag, line, false, TagEnd(s, tag) + 1);
    TagHasName(s, NameStart(s, j), tag);
    OpenElement(s, j, line, depth, tag);
  }

  lemma StartTagParts(s: string, j: nat, tag: Tag)
    requires j < |s| && IsStartTag(s, j, tag)
    ensures OpensTag(s, j) && !HasSlash(s, j) && tag.name.lo == NameStart(s, j) && IsTag(s, NameStart(s, j), tag)
    ensures TagEnd(s, tag) < |s| && s[TagEnd(s, tag)] == '>' && NameStart(s, j) > j
    ensures tag.name == Span(tag.name.lo, tag.name.hi)
  {
    hide IsAttributes, DistinctNames, IsName, TagEnd;
  }

  lemma ClosesOpen(s: string, tag: Tag)
    requires TagEnd(s, tag) < |s| && s[TagEnd(s, tag)] == '>'
    ensures TagCloses(s, TagEnd(s, tag), false, TagEnd(s, tag) + 1)
  {
    hide TagEnd;
  }

  lemma ChildrenEnd(s: string, gt: nat, depth: nat, children: seq<Node>)
    requires gt < |s| && AreChildren(s, gt, depth, children)
    requires At(s, SkipWs(s, NodesEnd(s, gt + 1, children))) == NUL
    ensures ParseNodes(s, gt + 1, depth, false) == Ended(children)
  {
    NoneMisplaced(children);
    hide NodeLoop, IsNodes, IsEndTag, TagEnd, Height, NodesEnd, DeclarationsPlaced, NoDeclaration;
    LoopComplete(s, gt + 1, depth + 1, false, [], children);
    assert [] + children == children;
  }

  lemma NoneMisplaced(children: seq<Node>)
    ensures NoDeclaration(children) ==> DeclarationsPlaced(false, [], children)
  {
  }

  lemma ChildrenMeetEnd(s: string, gt: nat, depth: nat, children: seq<Node>, end: Tag)
    requires gt < |s| && AreChildren(s, gt, depth, children) && IsEndTag(s, NodesEnd(s, gt + 1, children), end)
    ensures ParseNodes(s, gt + 1, depth, false) == Closed(children, end, TagEnd(s, end) + 1)
  {
    hide IsNodes, IsEndTag, TagEnd, Height, NodesEnd, NoDeclaration;
    EndTagInside(s, NodesEnd(s, gt + 1, children), end);
    ChildrenComplete(s, gt + 1, depth, children, end);
  }

  lemma {:induction false} OpenReported(s: string, i: nat, depth: nat, top: bool, read: seq<Node>, flaw: Flaw,
                                        error: Error, line: nat)
    requires i <= |s| && FlawAt(s, i, depth, top, read, flaw, error, line) && OpenFlaw(flaw) && depth < MAX_ELEMENT_DEPTH
    ensures At(s, SkipWs(s, i)) != NUL && ParseItem(s, i, depth) == BadItem(error, line)
    decreases flaw, 0
  {
    hide *;
    OpenByFlaw(s, i, depth, top, read, flaw, error, line);
    var j := SkipWs(s, i);
    OpenParts(s, j, depth, flaw, error, line);
    var tag := flaw.tag;
    StartTagReported(s, j, LineAt(s, j), depth, tag);
    if flaw.TooDeep? {
      TooManyFrames(s, TagEnd(s, tag) + 1, depth);
    } else if flaw.NoEndTag? {
      ChildrenEnd(s, TagEnd(s, tag), depth, flaw.children);
    } else if flaw.OtherEndTag? {
      ChildrenMeetEnd(s, TagEnd(s, tag), depth, flaw.children, flaw.end);
    } else if flaw.Inside? {
      FrameEntered(s, TagEnd(s, tag) + 1, depth);
      FailureReported(s, TagEnd(s, tag) + 1, depth + 1, false, [], flaw.inner, error, line);
    }
    OpensByTag(s, j, tag);
    ElementItem(s, i, depth, error, line);
  }

  lemma OpenByFlaw(s: string, i: nat, depth: nat, top: bool, read: seq<Node>, flaw: Flaw, error: Error, line: nat)
    requires i <= |s| && FlawAt(s, i, depth, top, read, flaw, error, line) && OpenFlaw(flaw)
    ensures At(s, SkipWs(s, i)) != NUL && SkipWs(s, i) < |s| && OpenFlawAt(s, SkipWs(s, i), depth, flaw, error, line)
  {
    NotBlank(s, i);
    hide OpenFlawAt;
  }

  lemma OpenParts(s: string, j: nat, depth: nat, flaw: Flaw, error: Error, line: nat)
    requires j < |s| && OpenFlawAt(s, j, depth, flaw, error, line)
    ensures flaw.NothingBehindTag? || flaw.TooDeep? || flaw.NoEndTag? || flaw.OtherEndTag? || flaw.Inside?
    ensures IsStartTag(s, j, flaw.tag) && TagEnd(s, flaw.tag) < |s|
    ensures flaw.NothingBehindTag? <==> At(s, TagEnd(s, flaw.tag) + 1) == NUL
    ensures flaw.NothingBehindTag? || flaw.OtherEndTag? ==> error == MismatchedElement && line == LineAt(s, j)
    ensures flaw.NoEndTag? ==> error == Parsing && line == LineAt(s, j)
    ensures flaw.TooDeep? ==>
      depth + 1 == MAX_ELEMENT_DEPTH && error == DepthExceeded && line == LineAt(s, TagEnd(s, flaw.tag) + 1)
    ensures flaw.NoEndTag? || flaw.OtherEndTag? ==>
      && AreChildren(s, TagEnd(s, flaw.tag), depth, flaw.children)
      && NodesEnd(s, TagEnd(s, flaw.tag) + 1, flaw.children) <= |s|
    ensures flaw.NoEndTag? ==> At(s, SkipWs(s, NodesEnd(s, TagEnd(s, flaw.tag) + 1, flaw.children))) == NUL
    ensures flaw.OtherEndTag? ==>
      && IsEndTag(s, NodesEnd(s, TagEnd(s, flaw.tag) + 1, flaw.children), flaw.end)
      && TextOf(s, flaw.end.name) != TextOf(s, flaw.tag.name)
    ensures flaw.Inside? ==>
      && depth + 1 < MAX_ELEMENT_DEPTH
      && FailsFrom(s, TagEnd(s, flaw.tag) + 1, depth + 1, false, [], flaw.inner, error, line)
  {
    hide IsTag, TagEnd, IsNodes, Height, NoDeclaration, IsEndTag, NodesEnd, TextOf, LineAt, FailsFrom, OpensTag, NameStart,
      HasSlash;
  }

  lemma OpensByTag(s: string, j: nat, tag: Tag)
    requires j < |s| && IsStartTag(s, j, tag)
    ensures OpensTag(s, j)
  {
    hide IsTag, TagEnd, HasSlash, NameStart;
  }

  lemma {:induction false} FlawReported(s: string, i: nat, depth: nat, top: bool, read: seq<Node>, flaw: Flaw,
                                        error: Error, line: nat)
    requires i <= |s| && FlawAt(s, i, depth, top, read, flaw, error, line) && depth < MAX_ELEMENT_DEPTH
    ensures NodeLoop(s, i, depth, top, read) == Failed(error, line)
    decreases flaw, 1
  {
    if flaw.MisplacedDeclaration? {
      MisplacedReported(s, i, depth, top, read, flaw.node, error, line);
    } else {
      hide FlawAt, ParseItem, NodeLoop;
      if LeafFlaw(flaw) {
        LeafReported(s, i, depth, top, read, flaw, error, line);
      } else if flaw.UnterminatedText? || flaw.NothingBehindText? {
        TextReported(s, i, depth, top, read, flaw, error, line);
      } else if flaw.NoName? {
        NamelessReported(s, i, depth, top, read, error, line);
      } else if flaw.BadAttribute? {
        AttributeReported(s, i, depth, top, read, flaw, error, line);
      } else {
        OpenReported(s, i, depth, top, read, flaw, error, line);
      }
      BadItemFails(s, i, depth, top, read, error, line);
    }
  }

  lemma MisplacedReported(s: string, i: nat, depth: nat, top: bool, read: seq<Node>, node: Node, error: Error, line: nat)
    requires i <= |s| && FlawAt(s, i, depth, top, read, MisplacedDeclaration(node), error, line) && depth < MAX_ELEMENT_DEPTH
    ensures NodeLoop(s, i, depth, top, read) == Failed(error, line)
  {
    hide ParseItem, IsLeafNode, NodeEnd, LineAt;
    NotBlank(s, i);
    ItemComplete(s, i, depth, node);
  }

  lemma {:induction false} FailureReported(s: string, i: nat, depth: nat, top: bool, read: seq<Node>, f: Failure,
                                           error: Error, line: nat)
    requires i <= |s| && FailsFrom(s, i, depth, top, read, f, error, line)
    ensures NodeLoop(s, i, depth, top, read) == Failed(error, line)
    decreases f, 2
  {
    hide FlawAt, IsNodes, Height, NodesEnd, DeclarationsPlaced, NodeLoop;
    LoopPasses(s, i, depth, top, read, f.before);
    FlawReported(s, NodesEnd(s, i, f.before), depth, top, read + f.before, f.flaw, error, line);
  }

  // ----- Documents -----

  /** The parser reports an error and a line for a text if and only if the text fails
      with that error on that line. */
  lemma RejectsWhatFails(s: string, error: Error, line: nat)
    ensures ParseDocument(s) == Rejected(error, line) <==> Fails(s, error, line)
  {
    hide FailsFrom, NodeLoop, LineAt;
    var start := ContentStart(s);
    if At(s, 0) != NUL && At(s, start) != NUL {
      if NodeLoop(s, start, 1, true, []).Failed? {
        var f := LoopFails(s, start, 1, true, []);
      }
      if f :| FailsFrom(s, start, 1, true, [], f, error, line) {
        FailureReported(s, start, 1, true, [], f, error, line);
      }
    }
  }

  /** Every text is derivable or fails, not both, and fails in one way only. */
  lemma DerivedOrFails(s: string)
    ensures (exists nodes :: Derivable(s, nodes)) <==> !(exists error, line :: Fails(s, error, line))
    ensures forall e1, l1, e2, l2 :: Fails(s, e1, l1) && Fails(s, e2, l2) ==> e1 == e2 && l1 == l2
  {
    hide Fails, Derivable, ParseDocument;
    forall nodes
      ensures ParseDocument(s) == Parsed(nodes) <==> Derivable(s, nodes)
    {
      ParsesWhatIsDerived(s, nodes);
    }
    forall error, line
      ensures ParseDocument(s) == Rejected(error, line) <==> Fails(s, error, line)
    {
      RejectsWhatFails(s, error, line);
    }
    var r := ParseDocument(s);
    if r.Parsed? {
      assert Derivable(s, r.nodes);
    } else {
      assert Fails(s, r.error, r.line);
    }
  }
}
