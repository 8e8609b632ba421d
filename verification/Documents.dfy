/** The parser of server/tinyxml2.cpp as it runs: a cursor into a buffer that
    reading a name overwrites, a line counter, a depth counter and an error. */
module Documents {
  import opened XmlChars
  import opened Grammar
  import StrPairs
  import Whitespace

  // ----- Bytes the parser overwrites -----

  /** The ends of the attribute names, which the duplicate test flushes. */
  function AttributeEnds(attributes: seq<Attribute>): set<nat> {
    set a | a in attributes :: a.name.hi
  }

  /** The ends of all names read through GetStr while `node` was parsed: its
      attributes' names and, if it was open, the two names compared at its end tag. */
  function NodeEnds(node: Node): set<nat>
    decreases node, 0
  {
    match node
    case Element(tag, children, closing, _) =>
      AttributeEnds(tag.attributes) + Ends(children) +
      (match closing case None => {} case Some(end) => {tag.name.hi, end.name.hi} + AttributeEnds(end.attributes))
    case _ => {}
  }

  function Ends(nodes: seq<Node>): set<nat>
    decreases nodes
  {
    if nodes == [] then {} else Ends(nodes[..|nodes| - 1]) + NodeEnds(nodes[|nodes| - 1])
  }

  /** The ends of the attribute and child names of an element that was read. */
  function ElementEnds(r: ElementResult): set<nat>
    requires r.ElementRead?
  {
    AttributeEnds(r.tag.attributes) + Ends(r.children) +
    (match r.endTag case None => {} case Some(end) => AttributeEnds(end.attributes))
  }

  function ItemEnds(item: Item): set<nat>
    requires !item.BadItem?
  {
    match item
    case NodeItem(node, _) => NodeEnds(node)
    case EndItem(tag, _) => AttributeEnds(tag.attributes)
  }

  lemma EndsOfNone()
    ensures Ends([]) == {}
  {
  }

  /** Without an end tag only the attributes' names were read. */
  lemma BareEnds(r: ElementResult)
    requires r.ElementRead? && r.endTag.None? && r.children == []
    ensures ElementEnds(r) == AttributeEnds(r.tag.attributes)
  {
  }

  /** The judgement adds the two names it compares. */
  lemma JudgedEnds(r: ElementResult, line: nat)
    requires r.ElementRead?
    ensures NodeEnds(Element(r.tag, r.children, r.endTag, line)) == ElementEnds(r) +
      (match r.endTag case None => {} case Some(end) => {end.name.hi, r.tag.name.hi})
  {
  }

  /** The ends of all names read while a document was parsed, those in a closing
      tag at document level included. */
  function FlushedNames(s: string): set<nat> {
    match ParseNodes(s, ContentStart(s), 0, true)
    case Ended(nodes) => Ends(nodes)
    case Closed(nodes, tag, _) => Ends(nodes) + AttributeEnds(tag.attributes)
    case Failed(_, _) => {}
  }

  lemma HeaderIsOneLine(kind: Kind)
    ensures LF !in Header(kind)
  {
  }

  lemma LeafTerminator(kind: Kind)
    requires IsLeaf(kind)
    ensures Terminator(kind) != "" && NoNul(Terminator(kind)) && LF !in Terminator(kind)
  {
  }

  lemma EndsAppend(nodes: seq<Node>, node: Node)
    ensures Ends(nodes + [node]) == Ends(nodes) + NodeEnds(node)
  {
    assert (nodes + [node])[..|nodes|] == nodes;
  }

  ghost predicate NamesKnown(s: string, attributes: seq<Attribute>) {
    forall k :: 0 <= k < |attributes| ==> NameRun(s, attributes[k].name)
  }

  /** `after` is `before` with a terminator at exactly the positions in `ends`. */
  ghost predicate Terminated(before: string, after: string, ends: set<nat>) {
    && |before| == |after|
    && forall k :: 0 <= k < |before| ==> after[k] == if k in ends then NUL else before[k]
  }

  lemma TerminatedAgain(before: string, middle: string, after: string, a: set<nat>, b: set<nat>)
    requires Terminated(before, middle, a) && Terminated(middle, after, b)
    ensures Terminated(before, after, a + b)
  {
  }

  /** The C string at a terminated name is the name. */
  lemma NameIsRead(s: string, content: string, name: Span)
    requires |content| == |s| + 1 && NameRun(s, name) && content[name.hi] == NUL
    requires forall k :: name.lo <= k < name.hi ==> content[k] == s[k]
    ensures CString(content[name.lo..]) == TextOf(s, name)
  {
    var rest, n := content[name.lo..], name.hi - name.lo;
    assert rest[n] == content[name.hi];
    assert rest[..n] == s[name.lo..name.hi];
    forall k | 0 <= k < n
      ensures rest[..n][k] != NUL
    {
      assert IsNameChar(s[name.lo + k]);
    }
    CStringUnique(rest, n);
  }

  class XMLDocument {
    const charBuffer: array<char>
    ghost const text: string
    var parseCurLineNum: nat
    var parsingDepth: nat
    var errorID: Option<Error>
    var errorLineNum: nat

    /** The buffer still holds the text, except that a terminator may stand
        where the text has no name character. */
    ghost predicate Valid()
      reads charBuffer
    {
      && charBuffer.Length == |text| + 1
      && charBuffer[|text|] == NUL
      && forall k :: 0 <= k < |text| && charBuffer[k] != text[k] ==> charBuffer[k] == NUL && !IsNameChar(text[k])
    }

    /** The cursor `p`: nothing from it on has been overwritten, and the line
        counter is right. */
    ghost predicate Cursor(p: nat)
      reads `parseCurLineNum, charBuffer
      ensures Cursor(p) ==> p <= |text| && charBuffer.Length == |text| + 1
    {
      && Valid() && p <= |text|
      && Whitespace.Unread(charBuffer, 0, p, text)
      && parseCurLineNum == LineAt(text, p)
    }

    lemma Peek(p: nat)
      requires Cursor(p)
      ensures p < charBuffer.Length && charBuffer[p] == At(text, p)
      ensures p < |text| ==> p + 1 < charBuffer.Length && charBuffer[p + 1] == At(text, p + 1)
    {
      assert At(text, p) == charBuffer[0 + p];
      assert p < |text| ==> At(text, p + 1) == charBuffer[0 + p + 1];
    }

    lemma PassChar(p: nat)
      requires Cursor(p) && p < |text| && text[p] != LF
      ensures Cursor(p + 1)
    {
      SameLine(text, p, p + 1);
    }

    method SetError(error: Error, line: nat)
      modifies `errorID, `errorLineNum
      ensures errorID == Some(error) && errorLineNum == line
    {
      errorID, errorLineNum := Some(error), line;
    }

    // ----- Tokens -----

    /** One byte forward, counting line feeds. */
    method Advance(p: nat)
      requires Cursor(p) && p < |text|
      modifies `parseCurLineNum
      ensures Cursor(p + 1)
    {
      Peek(p);
      if charBuffer[p] == LF {
        parseCurLineNum := parseCurLineNum + 1;
      }
    }

    method SkipWhiteSpace(p: nat) returns (j: nat)
      requires Cursor(p)
      modifies `parseCurLineNum
      ensures j == SkipWs(text, p) && Cursor(j)
    {
      hide Cursor, Valid;
      j := p;
      Peek(j);
      while IsWhiteSpace(charBuffer[j])
        invariant Cursor(j) && SkipWs(text, p) == SkipWs(text, j)
        invariant charBuffer[j] == At(text, j)
        decreases |text| - j
      {
        Advance(j);
        j := j + 1;
        Peek(j);
      }
    }

    /** `next` is -1 if the terminator is not met before the end of the text. */
    method ParseText(p: nat, terminator: string) returns (end: nat, next: int)
      requires Cursor(p) && terminator != "" && NoNul(terminator) && LF !in terminator
      modifies `parseCurLineNum
      ensures match FindTerminator(text, p, terminator)
        case None => next == -1
        case Some(e) => end == e && next == e + |terminator| && Cursor(next)
    {
      hide Cursor, Valid;
      end := p;
      Peek(end);
      while charBuffer[end] != NUL
        invariant Cursor(end) && FindTerminator(text, p, terminator) == FindTerminator(text, end, terminator)
        invariant charBuffer[end] == At(text, end)
        decreases |text| - end
      {
        var matches := StringEqual(end, terminator);
        if matches {
          PassPattern(end, terminator);
          return end, end + |terminator|;
        }
        Advance(end);
        end := end + 1;
        Peek(end);
      }
      next := -1;
    }

    /** strncmp at the cursor. */
    method StringEqual(p: nat, pattern: string) returns (equal: bool)
      requires Cursor(p) && NoNul(pattern)
      ensures equal == StartsAt(text, p, pattern)
    {
      equal := StrPairs.Spells(charBuffer, 0, p, pattern, text);
    }

    lemma PassPattern(p: nat, pattern: string)
      requires Cursor(p) && StartsAt(text, p, pattern) && LF !in pattern
      ensures Cursor(p + |pattern|)
    {
      PassTerminator(text, p, pattern);
    }

    /** XMLUtil::IsNameStartChar and the run after it; -1 if there is no name. */
    method ParseName(p: nat) returns (end: int)
      requires Cursor(p)
      modifies `parseCurLineNum
      ensures end == if IsNameStartChar(At(text, p)) then NameEnd(text, p + 1) else -1
      ensures end >= 0 ==> Cursor(end) && NameRun(text, Span(p, end))
      ensures end < 0 ==> parseCurLineNum == old(parseCurLineNum)
    {
      assert At(text, p) == charBuffer[0 + p];
      if !IsNameStartChar(charBuffer[p]) {
        return -1;
      }
      var q := p + 1;
      assert At(text, q) == charBuffer[0 + q];
      while IsNameChar(charBuffer[q])
        invariant p < q <= |text| && NameEnd(text, p + 1) == NameEnd(text, q)
        invariant forall k :: p <= k < q ==> IsNameChar(text[k])
        invariant At(text, q) == charBuffer[0 + q]
        decreases |text| - q
      {
        q := q + 1;
        assert At(text, q) == charBuffer[0 + q];
      }
      SameLine(text, p, q);
      end := q;
    }

    // ----- Names and attributes -----

    /** GetStr on a name: terminates it and reads it. */
    method ReadName(name: Span, ghost p: nat) returns (str: string)
      requires Cursor(p) && NameRun(text, name) && name.hi < p
      modifies charBuffer
      ensures Cursor(p)
      ensures str == TextOf(text, name)
      ensures Terminated(old(charBuffer[..]), charBuffer[..], {name.hi})
    {
      charBuffer[name.hi] := NUL;
      str := CString(charBuffer[name.lo..]);
      assert charBuffer[name.lo..] == charBuffer[..][name.lo..];
      NameIsRead(text, charBuffer[..], name);
    }

    /** XMLElement::FindAttribute among the attributes linked so far, whose names
        are already terminated. */
    method FindAttribute(read: seq<Attribute>, name: string, ghost p: nat) returns (found: bool)
      requires Cursor(p) && NamesFlushed(text, charBuffer[..], read, p)
      ensures found == HasAttribute(text, read, name)
    {
      for k := 0 to |read|
        invariant forall j :: 0 <= j < k ==> TextOf(text, read[j].name) != name
      {
        var span := read[k].name;
        assert charBuffer[span.lo..] == charBuffer[..][span.lo..];
        NameIsRead(text, charBuffer[..], span);
        if CString(charBuffer[span.lo..]) == name {
          return true;
        }
      }
      found := false;
    }

    /** XMLAttribute::ParseDeep; `next` is -1 for null. */
    method ParseAttribute(p: nat) returns (attribute: Attribute, next: int)
      requires Cursor(p) && p < |text| && IsNameStartChar(text[p])
      modifies `parseCurLineNum
      ensures match Grammar.ParseAttribute(text, p)
        case NoAttribute => next == -1
        case AttributeRead(a, n) =>
          && attribute.name == a.name && attribute.value == a.value && next == n && Cursor(n)
          && NameRun(text, a.name) && a.name.hi < n
    {
      hide Cursor, Valid, NameRun, SkipWs, NameEnd, FindTerminator, LineAt, IsNameStartChar;
      attribute := Attribute(Span(0, 0), Span(0, 0), 0);
      next := -1;
      var nameEnd := ParseName(p);
      var equals := SkipWhiteSpace(nameEnd);
      Peek(equals);
      if charBuffer[equals] == '=' {
        PassChar(equals);
        var quote := SkipWhiteSpace(equals + 1);
        Peek(quote);
        if charBuffer[quote] == '"' || charBuffer[quote] == '\'' {
          PassChar(quote);
          var end;
          end, next := ParseText(quote + 1, [charBuffer[quote]]);
          attribute := Attribute(Span(p, nameEnd), Span(quote + 1, end), 0);
        }
      }
    }

    /** One attribute of the list: read, its name flushed, and compared with the
        names before it; -1 if it is malformed or a duplicate. */
    method ReadAttribute(p: nat, read: seq<Attribute>) returns (attribute: Attribute, next: int)
      requires Cursor(p) && p < |text| && IsNameStartChar(text[p])
      requires NamesFlushed(text, charBuffer[..], read, p)
      modifies `parseCurLineNum, charBuffer
      ensures match Grammar.ParseAttribute(text, p)
        case NoAttribute => next == -1
        case AttributeRead(a, n) =>
          if HasAttribute(text, read, TextOf(text, a.name)) then next == -1
          else
            && attribute == a && next == n && Cursor(n) && NameRun(text, a.name) && a.name.hi < n
            && Terminated(old(charBuffer[..]), charBuffer[..], {a.name.hi})
    {
      hide Cursor, Valid, NameRun, HasAttribute, NamesFlushed, Terminated;
      var attrLineNum := LineNumber(p);
      attribute, next := ParseAttribute(p);
      if next != -1 {
        ghost var after, before := next, charBuffer[..];
        attribute := attribute.(line := attrLineNum);
        var name := ReadName(attribute.name, after);
        StillFlushed(text, before, charBuffer[..], read, attribute.name.hi, p, after);
        var duplicate := FindAttribute(read, name, after);
        if duplicate {
          next := -1;
        }
      }
    }

    method LineNumber(ghost p: nat) returns (line: nat)
      requires Cursor(p)
      ensures p <= |text| && line == LineAt(text, p) == parseCurLineNum
    {
      line := parseCurLineNum;
    }

    /** XMLElement::ParseAttributes for an element on line `line`. */
    method ParseAttributes(p: nat, line: nat) returns (attributes: seq<Attribute>, selfClosed: bool, next: int)
      requires Cursor(p)
      modifies `parseCurLineNum, `errorID, `errorLineNum, charBuffer
      ensures match Grammar.ParseAttributes(text, p, line, [])
        case BadAttributes(e, l) => next == -1 && errorID == Some(e) && errorLineNum == l
        case AttributesRead(read, closed, n) =>
          && attributes == read && selfClosed == closed && next == n && Cursor(n)
          && errorID == old(errorID) && errorLineNum == old(errorLineNum)
          && Terminated(old(charBuffer[..]), charBuffer[..], AttributeEnds(read))
    {
      hide Cursor, Valid, NameRun, HasAttribute, SkipWs, LineAt, IsNameStartChar, Grammar.ParseAttribute, Terminated,
        NamesFlushed, AttributeEnds, TextOf;
      var q := p;
      attributes, selfClosed, next := [], false, -1;
      NothingTerminated(charBuffer[..]);
      NoneFlushed(text, charBuffer[..], q);
      while next == -1
        invariant next == -1 ==> Cursor(q) && NamesFlushed(text, charBuffer[..], attributes, q) && !selfClosed
        invariant next == -1 ==>
          Grammar.ParseAttributes(text, p, line, []) == Grammar.ParseAttributes(text, q, line, attributes)
        invariant next != -1 ==> next >= 0 && Cursor(next)
        invariant next != -1 ==>
          Grammar.ParseAttributes(text, p, line, []) == AttributesRead(attributes, selfClosed, next)
        invariant Terminated(old(charBuffer[..]), charBuffer[..], AttributeEnds(attributes))
        invariant errorID == old(errorID) && errorLineNum == old(errorLineNum)
        decreases if next == -1 then |text| - q + 1 else 0
      {
        var j := SkipWhiteSpace(q);
        FlushedLater(text, charBuffer[..], attributes, q, j);
        q := j;
        Peek(q);
        var c := charBuffer[q];
        if c == NUL {
          SetError(ParsingElement, line);
          return attributes, false, -1;
        } else if IsNameStartChar(c) {
          var attrLineNum := LineNumber(q);
          ghost var before := charBuffer[..];
          var attribute, after := ReadAttribute(q, attributes);
          if after == -1 {
            SetError(ParsingAttribute, attrLineNum);
            return attributes, false, -1;
          }
          AddAttribute(old(charBuffer[..]), before, charBuffer[..], attributes, attribute);
          StillFlushed(text, before, charBuffer[..], attributes, attribute.name.hi, q, after);
          FlushedMore(text, before, charBuffer[..], attributes, attribute, after);
          attributes := attributes + [attribute];
          q := after;
        } else if c == '>' {
          PassChar(q);
          next := q + 1;
        } else if c == '/' && charBuffer[q + 1] == '>' {
          PassChar(q);
          PassChar(q + 1);
          selfClosed, next := true, q + 2;
        } else {
          SetError(ParsingElement, line);
          return attributes, false, -1;
        }
      }
    }

    // ----- Nodes -----

    /** None at the end of the text. The cursor ends up behind the header, or
        back at `p` for text, whose white space counts. */
    method Identify(p: nat) returns (kind: Option<Kind>, q: nat, line: nat)
      requires Cursor(p)
      modifies `parseCurLineNum
      ensures kind.None? <==> At(text, SkipWs(text, p)) == NUL
      ensures kind.None? ==> q == SkipWs(text, p) && Cursor(q)
      ensures kind.Some? ==>
        var j := SkipWs(text, p);
        && kind.value == Grammar.Identify(text, j) && line == LineAt(text, j)
        && q == (if kind.value == TextKind then p else j + |Header(kind.value)|) && Cursor(q)
    {
      hide Cursor, Valid, SkipWs, LineAt, Whitespace.Unread;
      var startLine := LineNumber(p);
      StillUnread(p);
      q := SkipWhiteSpace(p);
      line := LineNumber(q);
      Peek(q);
      if charBuffer[q] == NUL {
        return None, q, line;
      }
      HeadersRead(q);
      var found :=
        if Reads(q, Header(DeclarationKind)) then DeclarationKind
        else if Reads(q, Header(CommentKind)) then CommentKind
        else if Reads(q, Header(CDataKind)) then CDataKind
        else if Reads(q, Header(UnknownKind)) then UnknownKind
        else if Reads(q, Header(ElementKind)) then ElementKind
        else TextKind;
      kind := Some(found);
      if found == TextKind {
        q := Rewind(p, q, startLine);
      } else {
        HeaderIsOneLine(found);
        PassPattern(q, Header(found));
        q := q + |Header(found)|;
      }
    }

    /** strncmp at the cursor, before the terminator of the buffer. */
    predicate Reads(q: nat, pattern: string)
      reads charBuffer
    {
      q + |pattern| < charBuffer.Length && charBuffer[q..q + |pattern|] == pattern
    }

    lemma ReadsPattern(q: nat, pattern: string)
      requires Cursor(q)
      ensures Reads(q, pattern) == StartsAt(text, q, pattern)
    {
      if q + |pattern| <= |text| {
        forall k | q <= k < q + |pattern|
          ensures charBuffer[k] == text[k]
        {
          assert At(text, k) == charBuffer[0 + k];
        }
        assert charBuffer[q..q + |pattern|] == text[q..q + |pattern|];
      }
    }

    lemma StillUnread(p: nat)
      requires Cursor(p)
      ensures Whitespace.Unread(charBuffer, 0, p, text)
    {
    }

    /** The line counter is that of an end of the text. */
    ghost predicate AtEnd()
      reads `parseCurLineNum, charBuffer
    {
      exists p :: Cursor(p) && At(text, p) == NUL
    }

    lemma EndReached(p: nat)
      requires Cursor(p) && At(text, p) == NUL
      ensures Valid() && AtEnd()
    {
    }

    lemma HeadersRead(q: nat)
      requires Cursor(q)
      ensures forall kind: Kind :: Reads(q, Header(kind)) == StartsAt(text, q, Header(kind))
    {
      forall kind: Kind
        ensures Reads(q, Header(kind)) == StartsAt(text, q, Header(kind))
      {
        ReadsPattern(q, Header(kind));
      }
    }

    /** Backs up to the white space in front of a text. */
    method Rewind(start: nat, ghost q: nat, startLine: nat) returns (p: nat)
      requires Cursor(q) && start <= |text| && startLine == LineAt(text, start)
      requires Whitespace.Unread(charBuffer, 0, start, text)
      modifies `parseCurLineNum
      ensures p == start && Cursor(p)
    {
      parseCurLineNum := startLine;
      p := start;
    }

    method ParseLeaf(kind: Kind, p: nat, line: nat) returns (item: Item)
      requires IsLeaf(kind) && Cursor(p) && errorID == None
      modifies this
      ensures item == Grammar.ParseLeaf(text, kind, p, line) && Outcome(item)
      ensures parsingDepth == old(parsingDepth)
    {
      hide Cursor, FindTerminator;
      LeafTerminator(kind);
      var end, next := ParseText(p, Terminator(kind));
      if next == -1 {
        SetError(LeafError(kind), line);
        item := BadItem(LeafError(kind), line);
      } else {
        item := NodeItem(Leaf(kind, Span(p, end), line), next);
      }
    }

    /** Either the item is bad and its error is the document's, or the cursor
        stands behind it and there is no error. */
    ghost predicate Outcome(item: Item)
      reads this, charBuffer
    {
      match item
      case BadItem(error, line) => errorID == Some(error) && errorLineNum == line
      case _ => errorID == None && Cursor(item.next)
    }

    /** XMLText::ParseDeep outside CDATA, with the error the node loop adds to a
        null return that has none. */
    method ParseCharacters(p: nat, line: nat) returns (item: Item)
      requires Cursor(p) && errorID == None
      modifies this
      ensures item == Grammar.ParseText(text, p, line) && Outcome(item)
      ensures parsingDepth == old(parsingDepth)
    {
      hide Cursor, Valid, FindTerminator, LineAt;
      StillUnread(p);
      var end, next := ParseText(p, "<");
      if next == -1 {
        SetError(ParsingText, line);
        item := BadItem(ParsingText, line);
      } else {
        Peek(next);
        StartsAtChar(text, end, '<');
        if charBuffer[next] == NUL {
          SetError(Parsing, line);
          item := BadItem(Parsing, line);
        } else {
          item := NodeItem(Text(Span(p, end), false, line), end);
          BackUp(p, end);
        }
      }
    }

    /** Stepping back over a character that is not a line feed. */
    lemma BackUp(p: nat, q: nat)
      requires p <= q < |text| && Cursor(q + 1) && text[q] != LF
      requires Whitespace.Unread(charBuffer, 0, p, text)
      ensures Cursor(q)
    {
      SameLine(text, q, q + 1);
    }

    // ----- Elements and the node loop -----

    /** XMLElement::ParseDeep; no error is set when it returns NoElement. */
    method ReadElement(p: nat, line: nat) returns (r: ElementResult)
      requires Cursor(p) && errorID == None && parsingDepth < MAX_ELEMENT_DEPTH
      modifies this, charBuffer
      ensures r == Grammar.ReadElement(text, p, line, parsingDepth)
      ensures parsingDepth == old(parsingDepth)
      ensures match r
        case BadElement(error, errorLine) => errorID == Some(error) && errorLineNum == errorLine
        case NoElement => errorID == None
        case ElementRead(tag, _, _, endTag, next) =>
          && errorID == None && Cursor(next)
          && NameRun(text, tag.name) && tag.name.hi < next
          && (endTag.Some? ==> NameRun(text, endTag.value.name) && endTag.value.name.hi < next)
          && Terminated(old(charBuffer[..]), charBuffer[..], ElementEnds(r))
      decreases |text| - p, 4
    {
      hide Cursor, Valid, NameRun, SkipWs, NameEnd, LineAt, IsNameStartChar, Grammar.ParseAttributes, Terminated, Ends;
      var slash := SkipWhiteSpace(p);
      Peek(slash);
      var closing := charBuffer[slash] == '/';
      var start := slash;
      if closing {
        PassChar(slash);
        start := slash + 1;
      }
      var nameEnd := ParseName(start);
      if nameEnd == -1 {
        return NoElement;
      }
      ghost var before := charBuffer[..];
      var attributes, selfClosed, next := ParseAttributes(nameEnd, line);
      if next == -1 {
        return BadElement(errorID.value, errorLineNum);
      }
      var tag := Tag(Span(start, nameEnd), attributes);
      var closingType := if selfClosed then CLOSED else if closing then CLOSING else OPEN;
      Peek(next);
      if closingType != OPEN || charBuffer[next] == NUL {
        r := ElementRead(tag, closingType, [], None, next);
        BareEnds(r);
        return;
      }
      ghost var middle := charBuffer[..];
      var children, endTag, after := ParseDeep(next, false);
      if after == -1 {
        return if errorID.Some? then BadElement(errorID.value, errorLineNum) else NoElement;
      }
      r := ElementRead(tag, OPEN, children, endTag, after);
      TerminatedAgain(before, middle, charBuffer[..], AttributeEnds(attributes), Ends(children) + AttributeEnds(endTag.value.attributes));
      assert ElementEnds(r) == AttributeEnds(attributes) + (Ends(children) + AttributeEnds(endTag.value.attributes));
    }

    /** Reads the two names and compares them, as the node loop does. */
    method NamesDiffer(tag: Tag, endTag: Tag, ghost p: nat) returns (differ: bool)
      requires Cursor(p)
      requires NameRun(text, tag.name) && tag.name.hi < p && NameRun(text, endTag.name) && endTag.name.hi < p
      modifies charBuffer
      ensures Cursor(p) && differ == (TextOf(text, endTag.name) != TextOf(text, tag.name))
      ensures Terminated(old(charBuffer[..]), charBuffer[..], {endTag.name.hi, tag.name.hi})
    {
      hide Cursor, Valid, NameRun, Terminated;
      ghost var before := charBuffer[..];
      var endName := ReadName(endTag.name, p);
      ghost var middle := charBuffer[..];
      var name := ReadName(tag.name, p);
      TerminatedAgain(before, middle, charBuffer[..], {endTag.name.hi}, {tag.name.hi});
      assert {endTag.name.hi} + {tag.name.hi} == {endTag.name.hi, tag.name.hi};
      differ := endName != name;
    }

    /** An element and the node loop's judgement of it. */
    method ParseElement(p: nat, line: nat) returns (item: Item)
      requires Cursor(p) && errorID == None && parsingDepth < MAX_ELEMENT_DEPTH
      modifies this, charBuffer
      ensures item == Grammar.ParseElement(text, p, line, parsingDepth) && Outcome(item)
      ensures parsingDepth == old(parsingDepth)
      ensures !item.BadItem? ==> Terminated(old(charBuffer[..]), charBuffer[..], ItemEnds(item))
      ensures item.EndItem? ==> NameRun(text, item.tag.name) && item.tag.name.hi < item.next
      decreases |text| - p, 5
    {
      hide Cursor, Valid, NameRun, Terminated, Ends, Grammar.ReadElement;
      ghost var before := charBuffer[..];
      var r := ReadElement(p, line);
      ghost var middle := charBuffer[..];
      match r
      case NoElement =>
        SetError(Parsing, line);
        item := BadItem(Parsing, line);
      case BadElement(error, errorLine) =>
        item := BadItem(error, errorLine);
      case ElementRead(tag, closingType, children, endTag, next) =>
        if closingType == CLOSING {
          BareEnds(r);
          return EndItem(tag, next);
        }
        var mismatch := false;
        if endTag.None? {
          mismatch := closingType == OPEN;
        } else if closingType != OPEN {
          mismatch := true;
        } else {
          mismatch := NamesDiffer(tag, endTag.value, next);
          TerminatedAgain(before, middle, charBuffer[..], ElementEnds(r), {endTag.value.name.hi, tag.name.hi});
        }
        if mismatch {
          SetError(MismatchedElement, line);
          item := BadItem(MismatchedElement, line);
        } else {
          item := NodeItem(Element(tag, children, endTag, line), next);
          JudgedEnds(r, line);
        }
    }

    method ParseItem(p: nat, kind: Kind, q: nat, line: nat) returns (item: Item)
      requires p <= |text| && At(text, SkipWs(text, p)) != NUL
      requires kind == Grammar.Identify(text, SkipWs(text, p)) && line == LineAt(text, SkipWs(text, p))
      requires q == (if kind == TextKind then p else SkipWs(text, p) + |Header(kind)|) && Cursor(q)
      requires errorID == None && parsingDepth < MAX_ELEMENT_DEPTH
      modifies this, charBuffer
      ensures item == Grammar.ParseItem(text, p, parsingDepth) && Outcome(item)
      ensures parsingDepth == old(parsingDepth)
      ensures !item.BadItem? ==> Terminated(old(charBuffer[..]), charBuffer[..], ItemEnds(item))
      ensures item.EndItem? ==> NameRun(text, item.tag.name) && item.tag.name.hi < item.next
      decreases |text| - p, 1
    {
      hide Cursor, Valid, NameRun, SkipWs, LineAt, Ends, Grammar.ParseElement, Grammar.ParseLeaf, Grammar.ParseText, Grammar.Identify;
      NothingTerminated(charBuffer[..]);
      match kind
      case ElementKind => item := ParseElement(q, line);
      case TextKind => item := ParseCharacters(q, line);
      case _ => item := ParseLeaf(kind, q, line);
    }

    /** The depth never exceeds the limit. */
    method PushDepth()
      requires parsingDepth < MAX_ELEMENT_DEPTH
      modifies `parsingDepth, `errorID, `errorLineNum
      ensures parsingDepth == old(parsingDepth) + 1
      ensures if parsingDepth == MAX_ELEMENT_DEPTH
        then errorID == Some(DepthExceeded) && errorLineNum == parseCurLineNum
        else errorID == old(errorID) && errorLineNum == old(errorLineNum)
    {
      parsingDepth := parsingDepth + 1;
      if parsingDepth == MAX_ELEMENT_DEPTH {
        SetError(DepthExceeded, parseCurLineNum);
      }
    }

    method PopDepth()
      requires parsingDepth > 0
      modifies `parsingDepth
      ensures parsingDepth == old(parsingDepth) - 1
    {
      parsingDepth := parsingDepth - 1;
    }

    /** XMLNode::ParseDeep. A null return without an error is the end of the text. */
    method ParseDeep(p: nat, top: bool) returns (nodes: seq<Node>, endTag: Option<Tag>, next: int)
      requires Cursor(p) && errorID == None && parsingDepth < MAX_ELEMENT_DEPTH
      modifies this, charBuffer
      ensures parsingDepth == old(parsingDepth)
      ensures match Grammar.ParseNodes(text, p, parsingDepth, top)
        case Failed(error, line) => next == -1 && errorID == Some(error) && errorLineNum == line
        case Ended(found) =>
          && next == -1 && errorID == None && nodes == found && Valid() && AtEnd()
          && Terminated(old(charBuffer[..]), charBuffer[..], Ends(found))
        case Closed(found, tag, after) =>
          && next == after && errorID == None && nodes == found && endTag == Some(tag) && Cursor(after)
          && NameRun(text, tag.name) && tag.name.hi < after
          && Terminated(old(charBuffer[..]), charBuffer[..], Ends(found) + AttributeEnds(tag.attributes))
      decreases |text| - p, 3
    {
      hide Cursor, NameRun, Terminated, Ends, NodeLoop, LineAt;
      var line := LineNumber(p);
      PushDepth();
      if errorID.Some? {
        PopDepth();
        return [], None, -1;
      }
      nodes, endTag, next := ParseLoop(p, top);
      PopDepth();
    }

    method ParseLoop(p: nat, top: bool) returns (nodes: seq<Node>, endTag: Option<Tag>, next: int)
      requires Cursor(p) && errorID == None && parsingDepth < MAX_ELEMENT_DEPTH
      modifies this, charBuffer
      ensures parsingDepth == old(parsingDepth)
      ensures match NodeLoop(text, p, parsingDepth, top, [])
        case Failed(error, line) => next == -1 && errorID == Some(error) && errorLineNum == line
        case Ended(found) =>
          && next == -1 && errorID == None && nodes == found && Valid() && AtEnd()
          && Terminated(old(charBuffer[..]), charBuffer[..], Ends(found))
        case Closed(found, tag, after) =>
          && next == after && errorID == None && nodes == found && endTag == Some(tag) && Cursor(after)
          && NameRun(text, tag.name) && tag.name.hi < after
          && Terminated(old(charBuffer[..]), charBuffer[..], Ends(found) + AttributeEnds(tag.attributes))
      decreases |text| - p, 2
    {
      hide Cursor, Valid, NameRun, SkipWs, LineAt, Terminated, Ends, Grammar.ParseItem, Grammar.Identify;
      var q := p;
      nodes, endTag, next := [], None, -1;
      NothingTerminated(charBuffer[..]);
      EndsOfNone();
      Peek(q);
      while charBuffer[q] != NUL
        invariant p <= q && Cursor(q) && errorID == None && parsingDepth == old(parsingDepth)
        invariant charBuffer[q] == At(text, q)
        invariant NodeLoop(text, p, parsingDepth, top, []) == NodeLoop(text, q, parsingDepth, top, nodes)
        invariant Terminated(old(charBuffer[..]), charBuffer[..], Ends(nodes))
        invariant next == -1
        decreases |text| - q
      {
        ghost var before := charBuffer[..];
        var kind, r, line := Identify(q);
        if kind.None? {
          EndReached(r);
          return;
        }
        var item := ParseItem(q, kind.value, r, line);
        match item
        case BadItem(_, _) =>
          return;
        case EndItem(tag, after) =>
          TerminatedAgain(old(charBuffer[..]), before, charBuffer[..], Ends(nodes), AttributeEnds(tag.attributes));
          return nodes, Some(tag), after;
        case NodeItem(node, after) =>
          if node.Declaration? && !(top && AllDeclarations(nodes)) {
            SetError(ParsingDeclaration, node.line);
            return;
          }
          TerminatedAgain(old(charBuffer[..]), before, charBuffer[..], Ends(nodes), NodeEnds(node));
          EndsAppend(nodes, node);
          nodes := nodes + [node];
          q := after;
          Peek(q);
      }
      EndReached(q);
    }

    // ----- The document -----

    /** XMLDocument::Parse(const char*, size_t), up to the call of Parse(): the
        input is copied and terminated. */
    constructor (xml: string)
      ensures text == xml && Valid() && fresh(charBuffer) && charBuffer[..|xml|] == xml
      ensures errorID == None && parsingDepth == 0
    {
      text := xml;
      parseCurLineNum, parsingDepth, errorID, errorLineNum := 0, 0, None, 0;
      var copy := new char[|xml| + 1](i => if 0 <= i < |xml| then xml[i] else NUL);
      charBuffer := copy;
    }

    /** XMLDocument::Parse. On success exactly the ends of the names that were
        compared are overwritten, and the line counter is that of the position
        reached, behind an end tag or at the end of the text; in every case the
        depth is back at 0. */
    method Parse() returns (nodes: seq<Node>)
      requires Valid() && charBuffer[..|text|] == text
      requires errorID == None && parsingDepth == 0
      modifies this, charBuffer
      ensures parsingDepth == 0
      ensures match ParseDocument(text)
        case Rejected(error, line) => errorID == Some(error) && errorLineNum == line
        case Parsed(found) =>
          && errorID == None && nodes == found
          && Terminated(old(charBuffer[..]), charBuffer[..], FlushedNames(text))
      ensures match ParseNodes(text, ContentStart(text), 0, true)
        case Closed(_, _, after) => ParseDocument(text).Parsed? ==> Cursor(after)
        case Ended(_) => ParseDocument(text).Parsed? ==> AtEnd()
        case Failed(_, _) => true
    {
      nodes := [];
      if charBuffer[0] == NUL {
        SetError(EmptyDocument, 0);
        return;
      }
      parseCurLineNum := 1;
      FreshCursor();
      var p := SkipWhiteSpace(0);
      ReadsPattern(p, BOM);
      if Reads(p, BOM) {
        PassPattern(p, BOM);
        p := p + 3;
      }
      Peek(p);
      if charBuffer[p] == NUL {
        SetError(EmptyDocument, 0);
        return;
      }
      ghost var before := charBuffer[..];
      var endTag, next;
      nodes, endTag, next := ParseDeep(p, true);
    }

    lemma FreshCursor()
      requires Valid() && charBuffer[..|text|] == text && parseCurLineNum == 1
      ensures Cursor(0)
    {
      forall k | 0 <= k <= |text|
        ensures charBuffer[0 + k] == At(text, k)
      {
        assert k < |text| ==> charBuffer[..|text|][k] == charBuffer[k];
      }
    }
  }

  /** The attributes linked so far: their names lie behind the cursor and are
      terminated in the buffer. */
  ghost predicate NamesFlushed(s: string, content: string, read: seq<Attribute>, p: nat) {
    && |content| == |s| + 1
    && NamesKnown(s, read)
    && forall k :: 0 <= k < |read| ==> read[k].name.hi < p && content[read[k].name.hi] == NUL
  }

  lemma NoneFlushed(s: string, content: string, p: nat)
    requires |content| == |s| + 1
    ensures NamesFlushed(s, content, [], p)
  {
  }

  lemma FlushedLater(s: string, content: string, read: seq<Attribute>, p: nat, q: nat)
    requires NamesFlushed(s, content, read, p) && p <= q
    ensures NamesFlushed(s, content, read, q)
  {
  }

  lemma StillFlushed(s: string, before: string, after: string, read: seq<Attribute>, end: nat, p: nat, q: nat)
    requires NamesFlushed(s, before, read, p) && p <= q
    requires Terminated(before, after, {end})
    ensures NamesFlushed(s, after, read, q)
  {
  }

  lemma FlushedMore(s: string, before: string, after: string, read: seq<Attribute>, a: Attribute, q: nat)
    requires NamesFlushed(s, after, read, q) && NameRun(s, a.name) && a.name.hi < q
    requires Terminated(before, after, {a.name.hi})
    ensures NamesFlushed(s, after, read + [a], q)
  {
  }

  lemma NothingTerminated(content: string)
    ensures Terminated(content, content, AttributeEnds([]))
    ensures Terminated(content, content, {})
  {
  }

  lemma AddAttribute(before: string, middle: string, after: string, read: seq<Attribute>, a: Attribute)
    requires Terminated(before, middle, AttributeEnds(read)) && Terminated(middle, after, {a.name.hi})
    ensures Terminated(before, after, AttributeEnds(read + [a]))
  {
    TerminatedAgain(before, middle, after, AttributeEnds(read), {a.name.hi});
    assert AttributeEnds(read + [a]) == AttributeEnds(read) + {a.name.hi};
  }

  lemma PassTerminator(s: string, i: nat, terminator: string)
    requires StartsAt(s, i, terminator) && LF !in terminator
    ensures LineAt(s, i + |terminator|) == LineAt(s, i)
  {
    forall k | i <= k < i + |terminator|
      ensures s[k] != LF
    {
      assert s[i..i + |terminator|][k - i] == s[k];
    }
    SameLine(s, i, i + |terminator|);
  }
}
