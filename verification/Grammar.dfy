/** What the parser of server/tinyxml2.cpp recognises, as functions of the
    original text and a position in it. Positions lie in 0..|s|; the text ends
    at its first NUL. Lines are read off the text (`LineAt`), so nothing is
    threaded through the backtracking. */
module Grammar {
  import opened XmlChars

  /** The closed byte range a StrPair refers to is [lo, hi]; its text is s[lo..hi]. */
  datatype Span = Span(lo: nat, hi: nat)

  datatype Attribute = Attribute(name: Span, value: Span, line: nat)

  /** A start or end tag: its name and the attributes read with it. */
  datatype Tag = Tag(name: Span, attributes: seq<Attribute>)

  /** The derivation of one node. `closing` is None for a self-closed element. */
  datatype Node =
    | Element(tag: Tag, children: seq<Node>, closing: Option<Tag>, line: nat)
    | Text(value: Span, cdata: bool, line: nat)
    | Comment(value: Span, line: nat)
    | Declaration(value: Span, line: nat)
    | Unknown(value: Span, line: nat)

  datatype Error =
    | EmptyDocument
    | ParsingElement
    | ParsingAttribute
    | ParsingText
    | ParsingCData
    | ParsingComment
    | ParsingDeclaration
    | ParsingUnknown
    | MismatchedElement
    | Parsing
    | DepthExceeded

  const MAX_ELEMENT_DEPTH: nat := 100

  function TextOf(s: string, span: Span): string {
    if span.lo <= span.hi <= |s| then s[span.lo..span.hi] else ""
  }

  // ----- Tokens -----

  /** StrPair::ParseText: where the terminator is first met before the end. */
  function FindTerminator(s: string, i: nat, terminator: string): (r: Option<nat>)
    ensures r.Some? ==> i <= r.value && StartsAt(s, r.value, terminator)
    decreases |s| - i
  {
    if At(s, i) == NUL then None
    else if StartsAt(s, i, terminator) then Some(i)
    else FindTerminator(s, i + 1, terminator)
  }

  /** No terminator starts, and the text does not end, at `i` or later before `e`. */
  predicate Undelimited(s: string, i: nat, e: nat, terminator: string) {
    forall k :: i <= k < e ==> At(s, k) != NUL && !StartsAt(s, k, terminator)
  }

  /** It is found where it first starts, unless the text ends before that. */
  lemma {:induction false} FindsFirst(s: string, i: nat, terminator: string)
    ensures var r := FindTerminator(s, i, terminator);
      && (r.Some? ==>
           i <= r.value < |s| && StartsAt(s, r.value, terminator) && Undelimited(s, i, r.value, terminator))
      && (r.None? ==> exists e :: i <= e && At(s, e) == NUL && Undelimited(s, i, e, terminator))
    decreases |s| - i
  {
    if At(s, i) != NUL && !StartsAt(s, i, terminator) {
      FindsFirst(s, i + 1, terminator);
      if FindTerminator(s, i, terminator).None? {
        var e :| i + 1 <= e && At(s, e) == NUL && Undelimited(s, i + 1, e, terminator);
        assert Undelimited(s, i, e, terminator);
      }
    }
  }

  /** StrPair::ParseName, past the first character. */
  function NameEnd(s: string, i: nat): (j: nat)
    requires i <= |s|
    ensures i <= j <= |s| && !IsNameChar(At(s, j))
    ensures forall k :: i <= k < j ==> IsNameChar(s[k])
    decreases |s| - i
  {
    if i < |s| && IsNameChar(s[i]) then NameEnd(s, i + 1) else i
  }

  /** A maximal run of name characters. */
  predicate NameRun(s: string, name: Span) {
    && name.lo < name.hi <= |s| && !IsNameChar(At(s, name.hi))
    && forall k :: name.lo <= k < name.hi ==> IsNameChar(s[k])
  }

  datatype AttributeResult = AttributeRead(attribute: Attribute, next: nat) | NoAttribute

  /** XMLAttribute::ParseDeep at a name start character. */
  function ParseAttribute(s: string, i: nat): (r: AttributeResult)
    requires i < |s| && IsNameStartChar(s[i])
    ensures r.AttributeRead? ==> i < r.next <= |s|
  {
    var nameEnd := NameEnd(s, i + 1);
    var equals := SkipWs(s, nameEnd);
    if At(s, equals) != '=' then NoAttribute else
    var quote := SkipWs(s, equals + 1);
    if At(s, quote) != '"' && At(s, quote) != '\'' then NoAttribute else
    match FindTerminator(s, quote + 1, [s[quote]])
    case None => NoAttribute
    case Some(end) => AttributeRead(Attribute(Span(i, nameEnd), Span(quote + 1, end), LineAt(s, i)), end + 1)
  }

  predicate HasAttribute(s: string, attributes: seq<Attribute>, name: string) {
    exists k :: 0 <= k < |attributes| && TextOf(s, attributes[k].name) == name
  }

  datatype AttributesResult =
    | AttributesRead(attributes: seq<Attribute>, selfClosed: bool, next: nat)
    | BadAttributes(error: Error, line: nat)

  /** XMLElement::ParseAttributes, with `read` the attributes already linked. */
  function ParseAttributes(s: string, i: nat, line: nat, read: seq<Attribute>): (r: AttributesResult)
    requires i <= |s|
    ensures r.AttributesRead? ==> i < r.next <= |s|
    decreases |s| - i
  {
    var j := SkipWs(s, i);
    if At(s, j) == NUL then BadAttributes(ParsingElement, line)
    else if IsNameStartChar(s[j]) then
      match ParseAttribute(s, j)
      case NoAttribute => BadAttributes(ParsingAttribute, LineAt(s, j))
      case AttributeRead(a, next) =>
        if HasAttribute(s, read, TextOf(s, a.name)) then BadAttributes(ParsingAttribute, LineAt(s, j))
        else ParseAttributes(s, next, line, read + [a])
    else if s[j] == '>' then AttributesRead(read, false, j + 1)
    else if s[j] == '/' && At(s, j + 1) == '>' then AttributesRead(read, true, j + 2)
    else BadAttributes(ParsingElement, line)
  }

  // ----- Nodes -----

  /** What one turn of the node loop meets: a node, an end tag for the loop's
      own element, or an error. */
  datatype Item =
    | NodeItem(node: Node, next: nat)
    | EndItem(tag: Tag, next: nat)
    | BadItem(error: Error, line: nat)

  /** How a run of the node loop ends: at an end tag, at the end of the text, or
      with the document's error set. */
  datatype Run =
    | Closed(nodes: seq<Node>, tag: Tag, next: nat)
    | Ended(nodes: seq<Node>)
    | Failed(error: Error, line: nat)

  predicate AllDeclarations(nodes: seq<Node>) {
    forall k :: 0 <= k < |nodes| ==> nodes[k].Declaration?
  }

  /** XMLText::ParseDeep outside CDATA: the terminating '<' is not consumed, and
      something must follow it. */
  function ParseText(s: string, i: nat, line: nat): (r: Item)
    ensures r.NodeItem? ==> i <= r.next < |s| && s[r.next] == '<' && r.node.Text?
    ensures !r.EndItem?
  {
    match FindTerminator(s, i, "<")
    case None => BadItem(ParsingText, line)
    case Some(end) =>
      if At(s, end + 1) == NUL then BadItem(Parsing, line) else NodeItem(Text(Span(i, end), false, line), end)
  }

  datatype Kind = DeclarationKind | CommentKind | CDataKind | UnknownKind | ElementKind | TextKind

  /** XMLDocument::Identify at the first character that is not white space. */
  function Identify(s: string, j: nat): Kind {
    if StartsAt(s, j, Header(DeclarationKind)) then DeclarationKind
    else if StartsAt(s, j, Header(CommentKind)) then CommentKind
    else if StartsAt(s, j, Header(CDataKind)) then CDataKind
    else if StartsAt(s, j, Header(UnknownKind)) then UnknownKind
    else if StartsAt(s, j, Header(ElementKind)) then ElementKind
    else TextKind
  }

  function Header(kind: Kind): string {
    match kind
    case DeclarationKind => "<?"
    case CommentKind => "<!--"
    case CDataKind => "<![CDATA["
    case UnknownKind => "<!"
    case ElementKind => "<"
    case TextKind => ""
  }

  predicate IsLeaf(kind: Kind) {
    kind != ElementKind && kind != TextKind
  }

  /** The ParseDeep of declarations, comments, CDATA sections and unknowns. */
  function ParseLeaf(s: string, kind: Kind, i: nat, line: nat): (r: Item)
    requires IsLeaf(kind)
    ensures r.NodeItem? ==> i <= r.next <= |s| && !r.node.Element?
    ensures !r.EndItem?
  {
    match FindTerminator(s, i, Terminator(kind))
    case None => BadItem(LeafError(kind), line)
    case Some(end) => NodeItem(Leaf(kind, Span(i, end), line), end + |Terminator(kind)|)
  }

  function Terminator(kind: Kind): string
    requires IsLeaf(kind)
  {
    match kind
    case DeclarationKind => "?>"
    case CommentKind => "-->"
    case CDataKind => "]]>"
    case UnknownKind => ">"
  }

  function LeafError(kind: Kind): Error
    requires IsLeaf(kind)
  {
    match kind
    case DeclarationKind => ParsingDeclaration
    case CommentKind => ParsingComment
    case CDataKind => ParsingCData
    case UnknownKind => ParsingUnknown
  }

  function Leaf(kind: Kind, value: Span, line: nat): Node
    requires IsLeaf(kind)
  {
    match kind
    case DeclarationKind => Declaration(value, line)
    case CommentKind => Comment(value, line)
    case CDataKind => Text(value, true, line)
    case UnknownKind => Unknown(value, line)
  }

  /** The ParseDeep of one node, whose first character other than white space
      is at `j`, inside a frame of depth `depth`. Text starts at `i`: its leading
      white space counts. */
  function ParseItem(s: string, i: nat, depth: nat): (r: Item)
    requires i <= |s| && At(s, SkipWs(s, i)) != NUL
    ensures !r.BadItem? ==> i < r.next <= |s|
    decreases |s| - i, 1
  {
    var j := SkipWs(s, i);
    var line := LineAt(s, j);
    match Identify(s, j)
    case ElementKind =>
      ParseElement(s, j + 1, line, depth)
    case TextKind =>
      var r := ParseText(s, i, line);
      TextAdvances(s, i, j);
      r
    case kind =>
      ParseLeaf(s, kind, j + |Header(kind)|, line)
  }

  lemma TextAdvances(s: string, i: nat, j: nat)
    requires i <= j < |s| && !StartsAt(s, j, "<") && j == SkipWs(s, i)
    ensures match FindTerminator(s, i, "<") case None => true case Some(end) => end > i
  {
    if i < j {
      assert IsWhiteSpace(s[i]);
    }
  }

  datatype ClosingType = OPEN | CLOSED | CLOSING

  /** What XMLElement::ParseDeep leaves in the element it is called on; NoElement
      is a null return without an error of its own. */
  datatype ElementResult =
    | ElementRead(tag: Tag, closingType: ClosingType, children: seq<Node>, endTag: Option<Tag>, next: nat)
    | NoElement
    | BadElement(error: Error, line: nat)

  /** XMLElement::ParseDeep, behind the '<'. */
  function ReadElement(s: string, i: nat, line: nat, depth: nat): (r: ElementResult)
    requires i <= |s|
    ensures r.ElementRead? ==> i < r.next <= |s|
    ensures r.ElementRead? && r.endTag.None? ==> r.children == []
    ensures r.ElementRead? && r.endTag.Some? ==> r.closingType == OPEN
    decreases |s| - i, 4
  {
    var slash := SkipWs(s, i);
    var name := if At(s, slash) == '/' then slash + 1 else slash;
    if !IsNameStartChar(At(s, name)) then NoElement else
    var nameEnd := NameEnd(s, name + 1);
    match ParseAttributes(s, nameEnd, line, [])
    case BadAttributes(error, errorLine) => BadElement(error, errorLine)
    case AttributesRead(attributes, selfClosed, next) =>
      var tag := Tag(Span(name, nameEnd), attributes);
      var closingType := if selfClosed then CLOSED else if At(s, slash) == '/' then CLOSING else OPEN;
      if closingType != OPEN || At(s, next) == NUL then ElementRead(tag, closingType, [], None, next) else
      match ParseNodes(s, next, depth, false)
      case Failed(error, errorLine) => BadElement(error, errorLine)
      case Ended(_) => NoElement
      case Closed(children, endTag, after) => ElementRead(tag, OPEN, children, Some(endTag), after)
  }

  /** An open element must have met an end tag of its own name, and no other
      element may have met one. */
  predicate Mismatch(s: string, tag: Tag, closingType: ClosingType, endTag: Option<Tag>) {
    match endTag
    case None => closingType == OPEN
    case Some(end) => closingType != OPEN || TextOf(s, end.name) != TextOf(s, tag.name)
  }

  /** The part of the node loop that judges an element just read. */
  function ParseElement(s: string, i: nat, line: nat, depth: nat): (r: Item)
    requires i <= |s|
    ensures !r.BadItem? ==> i < r.next <= |s|
    decreases |s| - i, 5
  {
    match ReadElement(s, i, line, depth)
    case NoElement => BadItem(Parsing, line)
    case BadElement(error, errorLine) => BadItem(error, errorLine)
    case ElementRead(tag, closingType, children, endTag, next) =>
      if closingType == CLOSING then EndItem(tag, next)
      else if Mismatch(s, tag, closingType, endTag) then BadItem(MismatchedElement, line)
      else NodeItem(Element(tag, children, endTag, line), next)
  }

  /** XMLNode::ParseDeep entered with `depth` frames active. */
  function ParseNodes(s: string, i: nat, depth: nat, top: bool): (r: Run)
    requires i <= |s|
    ensures r.Closed? ==> i < r.next <= |s|
    decreases |s| - i, 3
  {
    if depth + 1 == MAX_ELEMENT_DEPTH then Failed(DepthExceeded, LineAt(s, i))
    else NodeLoop(s, i, depth + 1, top, [])
  }

  /** The loop of XMLNode::ParseDeep, with `nodes` the children linked so far. */
  function NodeLoop(s: string, i: nat, depth: nat, top: bool, nodes: seq<Node>): (r: Run)
    requires i <= |s|
    ensures r.Closed? ==> i < r.next <= |s|
    decreases |s| - i, 2
  {
    if At(s, i) == NUL || At(s, SkipWs(s, i)) == NUL then Ended(nodes) else
    match ParseItem(s, i, depth)
    case BadItem(error, line) => Failed(error, line)
    case EndItem(tag, next) => Closed(nodes, tag, next)
    case NodeItem(node, next) =>
      if node.Declaration? && !(top && AllDeclarations(nodes)) then Failed(ParsingDeclaration, node.line)
      else NodeLoop(s, next, depth, top, nodes + [node])
  }

  // ----- Documents -----

  const BOM: string := [0xEF as char, 0xBB as char, 0xBF as char]

  function ContentStart(s: string): (i: nat)
    ensures i <= |s|
  {
    var j := SkipWs(s, 0);
    if StartsAt(s, j, BOM) then j + 3 else j
  }

  /** Leading white space is skipped, and then a byte order mark as UTF-8 has it. */
  lemma MarkIsSkipped(blank: string, text: string)
    requires forall k :: 0 <= k < |blank| ==> IsWhiteSpace(blank[k])
    requires !IsWhiteSpace(At(text, 0))
    ensures ContentStart(blank + ([239 as char, 187 as char, 191 as char] + text)) == |blank| + 3
    ensures text[..if |text| < 3 then |text| else 3] != [239 as char, 187 as char, 191 as char] ==>
      ContentStart(blank + text) == |blank|
  {
    var mark := [239 as char, 187 as char, 191 as char];
    SkipsBlank(blank, mark + text, 0);
    SkipsBlank(blank, text, 0);
    var s := blank + (mark + text);
    assert s[|blank|..|blank| + 3] == mark;
    if |text| >= 3 {
      assert (blank + text)[|blank|..|blank| + 3] == text[..3];
    }
  }

  lemma {:induction false} SkipsBlank(blank: string, text: string, i: nat)
    requires i <= |blank| && forall k :: 0 <= k < |blank| ==> IsWhiteSpace(blank[k])
    requires !IsWhiteSpace(At(text, 0))
    ensures SkipWs(blank + text, i) == |blank|
    decreases |blank| - i
  {
    if i < |blank| {
      SkipsBlank(blank, text, i + 1);
    }
  }

  datatype Document = Parsed(nodes: seq<Node>) | Rejected(error: Error, line: nat)

  /** XMLDocument::Parse. A closing tag at document level ends the parse. */
  function ParseDocument(s: string): Document {
    if At(s, 0) == NUL || At(s, ContentStart(s)) == NUL then Rejected(EmptyDocument, 0) else
    match ParseNodes(s, ContentStart(s), 0, true)
    case Failed(error, line) => Rejected(error, line)
    case Ended(nodes) => Parsed(nodes)
    case Closed(nodes, _, _) => Parsed(nodes)
  }
}
