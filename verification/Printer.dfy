/** XMLPrinter printing to memory in compact mode. */
module Printer {
  import opened XmlChars
  import opened Escape
  import opened XmlTree
  import opened DynArrays
  import Decoding

  const ENTITY_RANGE: nat := 64

  /** The flag arrays cover the characters below 64 only; no entity lies above. */
  predicate Flagged(c: char, restricted: bool) {
    0 < c as int < ENTITY_RANGE && IsEscaped(c, restricted)
  }

  lemma FlaggedIsEscaped(c: char, restricted: bool)
    ensures Flagged(c, restricted) == IsEscaped(c, restricted)
  {
  }

  lemma NotEscaped(c: char, restricted: bool)
    requires !IsEscaped(c, restricted)
    ensures EscapeChar(c, restricted) == [c]
  {
  }

  lemma EscapedNext(s: string, q: nat, restricted: bool)
    requires q < |s|
    ensures Escaped(s[q..], restricted) == EscapeChar(s[q], restricted) + Escaped(s[q + 1..], restricted)
  {
    assert s[q..][0] == s[q] && s[q..][1..] == s[q + 1..];
  }

  lemma EscapedNothing(s: string, restricted: bool)
    ensures Escaped(s[|s|..], restricted) == ""
  {
  }

  /** The output once the bytes from `p` on are flushed: those up to `q` are
      known to need no escape. */
  function Pending(text: string, s: string, p: nat, q: nat, restricted: bool): string
    requires p <= q <= |s|
  {
    text + s[p..q] + Escaped(s[q..], restricted)
  }

  lemma PendingStart(text: string, s: string, restricted: bool)
    ensures Pending(text, s, 0, 0, restricted) == text + Escaped(s, restricted)
  {
    assert s[0..] == s && text + s[0..0] == text;
  }

  lemma PendingLength(text: string, s: string, p: nat, q: nat, restricted: bool)
    requires p <= q < |s|
    ensures |text| + (q - p) + |EscapeChar(s[q], restricted)| <= |Pending(text, s, p, q, restricted)|
  {
    EscapedNext(s, q, restricted);
  }

  lemma PendingEntity(text: string, s: string, p: nat, q: nat, restricted: bool)
    requires p <= q < |s|
    ensures Pending(text + s[p..q] + EscapeChar(s[q], restricted), s, q + 1, q + 1, restricted)
         == Pending(text, s, p, q, restricted)
  {
    hide Escaped, EscapeChar;
    EscapedNext(s, q, restricted);
    var written, entity, rest := text + s[p..q], EscapeChar(s[q], restricted), Escaped(s[q + 1..], restricted);
    assert written + entity + s[q + 1..q + 1] == written + entity;
    assert written + entity + rest == written + (entity + rest);
  }

  lemma PendingPlain(text: string, s: string, p: nat, q: nat, restricted: bool)
    requires p <= q < |s| && !IsEscaped(s[q], restricted)
    ensures Pending(text, s, p, q + 1, restricted) == Pending(text, s, p, q, restricted)
  {
    EscapedNext(s, q, restricted);
    NotEscaped(s[q], restricted);
    hide Escaped, EscapeChar;
    var rest := Escaped(s[q + 1..], restricted);
    assert s[p..q + 1] == s[p..q] + [s[q]];
    assert text + (s[p..q] + [s[q]]) + rest == text + s[p..q] + ([s[q]] + rest);
  }

  lemma PendingEnd(text: string, s: string, p: nat, restricted: bool)
    requires p <= |s|
    ensures Pending(text, s, p, |s|, restricted) == text + s[p..]
    ensures p == |s| ==> text + s[p..] == text
    ensures s[p..] == s[p..|s|]
  {
    EscapedNothing(s, restricted);
    assert text + s[p..] + "" == text + s[p..];
  }

  /** What CloseElement writes. */
  function ClosingText(justOpened: bool, name: string): string {
    if justOpened then "/>" else "</" + (name + ">")
  }

  /** C strings: what the accessors of a node return. */
  predicate WithoutNul(x: Xml) {
    match x
    case ElementNode(_, attributes, children) =>
      && (forall k :: 0 <= k < |attributes| ==> NoNul(attributes[k].value))
      && forall k :: 0 <= k < |children| ==> WithoutNul(children[k])
    case _ => NoNul(x.text)
  }

  lemma AttributeText(text: string, a: Attr, entities: bool)
    ensures text + [' '] + a.name + "=\"" + Printed(a.value, false, entities) + ['"']
         == text + PrintAttribute(a, entities)
    ensures INT_MAX / 2 == 0x3FFF_FFFF
  {
    hide Printed;
    var value := Printed(a.value, false, entities);
    assert text + [' '] + a.name + "=\"" + value + ['"'] == text + (" " + (a.name + ("=\"" + (value + "\""))));
  }

  lemma ClosingIs(justOpened: bool, name: string)
    ensures ClosingText(justOpened, name) == if justOpened then "/>" else "</" + (name + ">")
    ensures INT_MAX / 2 == 0x3FFF_FFFF
  {
  }

  lemma OpeningIs(text: string, name: string)
    ensures text + "<" + name == text + ("<" + name)
    ensures INT_MAX / 2 == 0x3FFF_FFFF
  {
  }

  /** What is still to come after `n` of the nodes. */
  function NodesPending(text: string, xs: seq<Xml>, n: nat, entities: bool): string
    requires n <= |xs|
  {
    text + PrintNodes(xs[n..], entities)
  }

  lemma WithoutNulLeaf(x: Xml)
    requires WithoutNul(x) && !x.ElementNode?
    ensures NoNul(x.text)
  {
  }

  lemma WithoutNulParts(x: Xml)
    requires WithoutNul(x) && x.ElementNode?
    ensures forall k :: 0 <= k < |x.attributes| ==> NoNul(x.attributes[k].value)
    ensures forall k :: 0 <= k < |x.children| ==> WithoutNul(x.children[k])
  {
  }

  lemma AttributesStart(text: string, attributes: seq<Attr>, entities: bool)
    ensures text + PrintAttributes(attributes[0..], entities) == text + PrintAttributes(attributes, entities)
  {
    assert attributes[0..] == attributes;
  }

  lemma AttributesNext(text: string, attributes: seq<Attr>, n: nat, entities: bool)
    requires n < |attributes|
    ensures text + PrintAttributes(attributes[n..], entities)
         == text + PrintAttribute(attributes[n], entities) + PrintAttributes(attributes[n + 1..], entities)
  {
    assert attributes[n..][0] == attributes[n] && attributes[n..][1..] == attributes[n + 1..];
    var rest := PrintAttributes(attributes[n + 1..], entities);
    assert text + (PrintAttribute(attributes[n], entities) + rest)
        == text + PrintAttribute(attributes[n], entities) + rest;
  }

  lemma AttributesEnd(text: string, attributes: seq<Attr>, entities: bool)
    ensures text + PrintAttributes(attributes[|attributes|..], entities) == text
  {
  }

  lemma NodesStart(text: string, xs: seq<Xml>, entities: bool)
    ensures NodesPending(text, xs, 0, entities) == text + PrintNodes(xs, entities)
  {
    assert xs[0..] == xs;
  }

  lemma NodesNext(text: string, xs: seq<Xml>, n: nat, entities: bool)
    requires n < |xs|
    ensures NodesPending(text + PrintNode(xs[n], entities), xs, n + 1, entities) == NodesPending(text, xs, n, entities)
    ensures |text| + |PrintNode(xs[n], entities)| <= |NodesPending(text, xs, n, entities)|
  {
    hide PrintNode;
    assert xs[n..][0] == xs[n] && xs[n..][1..] == xs[n + 1..];
    var rest := PrintNodes(xs[n + 1..], entities);
    assert text + (PrintNode(xs[n], entities) + rest) == text + PrintNode(xs[n], entities) + rest;
  }

  lemma NothingElse(xs: seq<Xml>, entities: bool)
    ensures PrintNodes([], entities) == "" && "" + PrintNodes(xs, entities) == PrintNodes(xs, entities)
  {
  }

  lemma NodesEnd(text: string, xs: seq<Xml>, entities: bool)
    ensures NodesPending(text, xs, |xs|, entities) == text
  {
  }

  /** What an element prints, in the order it is written behind `text`. */
  lemma ElementText(text: string, x: Xml, entities: bool)
    requires x.ElementNode?
    ensures var tag := text + ("<" + x.name) + PrintAttributes(x.attributes, entities);
      text + PrintNode(x, entities) ==
      if x.children == [] then tag + ClosingText(true, x.name)
      else tag + ">" + PrintNodes(x.children, entities) + ClosingText(false, x.name)
    ensures |text + ("<" + x.name) + PrintAttributes(x.attributes, entities)| + 1 + |PrintNodes(x.children, entities)|
         <= |text + PrintNode(x, entities)|
    ensures |text| + 1 + |x.name| + |PrintAttributes(x.attributes, entities)| <= |text| + |PrintNode(x, entities)|
    ensures x.children == [] ==> PrintNodes(x.children, entities) == ""
  {
    hide *;
    var attributes, body := PrintAttributes(x.attributes, entities), PrintNodes(x.children, entities);
    if x.children == [] {
      EmptyElement(x, entities);
      EmptyJoined(text, x.name, attributes);
    } else {
      FullElement(x, entities);
      FullJoined(text, x.name, attributes, body, "</" + (x.name + ">"));
    }
  }

  lemma EmptyJoined(text: string, name: string, attributes: string)
    ensures text + ("<" + (name + (attributes + "/>"))) == text + ("<" + name) + attributes + "/>"
  {
  }

  lemma FullJoined(text: string, name: string, attributes: string, body: string, close: string)
    ensures text + ("<" + (name + (attributes + (">" + (body + close)))))
         == text + ("<" + name) + attributes + ">" + body + close
  {
  }

  lemma EmptyElement(x: Xml, entities: bool)
    requires x.ElementNode? && x.children == []
    ensures PrintNode(x, entities) == "<" + (x.name + (PrintAttributes(x.attributes, entities) + "/>"))
    ensures PrintNodes(x.children, entities) == "" && ClosingText(true, x.name) == "/>"
  {
    hide PrintAttributes;
  }

  lemma FullElement(x: Xml, entities: bool)
    requires x.ElementNode? && x.children != []
    ensures PrintNode(x, entities)
         == "<" + (x.name + (PrintAttributes(x.attributes, entities)
              + (">" + (PrintNodes(x.children, entities) + ("</" + (x.name + ">"))))))
    ensures ClosingText(false, x.name) == "</" + (x.name + ">")
  {
    hide PrintAttributes, PrintNodes;
  }

  /** Searches the entity table for the value `c`. */
  method PatternOf(c: char, restricted: bool) returns (pattern: string)
    requires IsEscaped(c, restricted)
    ensures pattern == EntityOf(c).pattern
  {
    assert EntityOf(c) in Decoding.ENTITIES;
    var i := 0;
    while Decoding.ENTITIES[i].value != c
      invariant 0 <= i < |Decoding.ENTITIES|
      invariant forall j :: 0 <= j < i ==> Decoding.ENTITIES[j].value != c
    {
      i := i + 1;
    }
    pattern := Decoding.ENTITIES[i].pattern;
  }

  class XMLPrinter {
    const buffer: DynArray<char>
    const processEntities: bool
    var elementJustOpened: bool
    var stack: seq<string>

    /** The buffer holds the text written so far and one final NUL. */
    ghost predicate Valid()
      reads buffer, buffer.mem
    {
      buffer.Valid() && buffer.size > 0 && buffer.Contents()[buffer.size - 1] == NUL
    }

    ghost function Text(): (text: string)
      reads buffer, buffer.mem
      requires Valid()
      ensures |text| == buffer.size - 1
    {
      buffer.Contents()[..buffer.size - 1]
    }

    constructor (processEntities: bool)
      ensures Valid() && Text() == "" && stack == [] && !elementJustOpened
      ensures fresh(buffer) && fresh(buffer.mem) && this.processEntities == processEntities
    {
      var chars := new DynArray<char>(20);
      chars.Push(NUL);
      buffer, stack, elementJustOpened := chars, [], false;
      this.processEntities := processEntities;
    }

    /** Overwrites the terminator with the data and a new terminator. */
    method Write(data: string)
      requires Valid() && |Text()| + |data| < INT_MAX / 2
      modifies buffer, buffer.mem
      ensures Valid() && Text() == old(Text()) + data
      ensures buffer.mem == old(buffer.mem) || fresh(buffer.mem)
    {
      ghost var text := Text();
      var at := buffer.PushArr(|data|);
      var p := at - 1;
      var mem := buffer.mem;
      forall k | 0 <= k < |data| {
        mem[p + k] := data[k];
      }
      mem[p + |data|] := NUL;
      assert mem[..p] == text;
      forall k | 0 <= k < |data|
        ensures mem[p..p + |data|][k] == data[k]
      {
        assert mem[p + k] == data[k];
      }
      assert mem[p..p + |data|] == data;
      assert Text() == buffer.mem[..p] + buffer.mem[p..p + |data|];
    }

    /** The first table entry whose value is `c`, between '&' and ';'. */
    method PrintEntity(c: char, restricted: bool)
      requires Valid() && IsEscaped(c, restricted) && |Text()| + |EscapeChar(c, restricted)| < INT_MAX / 2
      modifies buffer, buffer.mem
      ensures Valid() && Text() == old(Text()) + EscapeChar(c, restricted)
      ensures buffer.mem == old(buffer.mem) || fresh(buffer.mem)
    {
      EscapeFromTable(c, restricted);
      hide *;
      var pattern := PatternOf(c, restricted);
      ghost var text := Text();
      Putc('&');
      Write(pattern);
      Putc(';');
      assert text + ['&'] + pattern + [';'] == text + ("&" + pattern + ";");
    }

    /** The bytes since the last entity, and the entity for `s[q]`. */
    method PrintRun(s: string, p: nat, q: nat, restricted: bool)
      requires Valid() && p <= q < |s| && IsEscaped(s[q], restricted)
      requires |Text()| + (q - p) + |EscapeChar(s[q], restricted)| < INT_MAX / 2
      modifies buffer, buffer.mem
      ensures Valid() && Text() == old(Text()) + s[p..q] + EscapeChar(s[q], restricted)
      ensures buffer.mem == old(buffer.mem) || fresh(buffer.mem)
    {
      hide *;
      if p < q {
        Write(s[p..q]);
      }
      PrintEntity(s[q], restricted);
    }

    method Putc(c: char)
      requires Valid() && |Text()| + 1 < INT_MAX / 2
      modifies buffer, buffer.mem
      ensures Valid() && Text() == old(Text()) + [c]
      ensures buffer.mem == old(buffer.mem) || fresh(buffer.mem)
    {
      Write([c]);
    }

    /** One turn of the loop: an entity is written, with the run before it. */
    method PrintNext(s: string, p: nat, q: nat, restricted: bool, ghost total: string) returns (r: nat)
      requires Valid() && p <= q < |s| && Pending(Text(), s, p, q, restricted) == total && |total| < INT_MAX / 2
      modifies buffer, buffer.mem
      ensures Valid() && r <= q + 1 && Pending(Text(), s, r, q + 1, restricted) == total
      ensures buffer.mem == old(buffer.mem) || fresh(buffer.mem)
    {
      hide *;
      PendingLength(Text(), s, p, q, restricted);
      FlaggedIsEscaped(s[q], restricted);
      if Flagged(s[q], restricted) {
        PendingEntity(Text(), s, p, q, restricted);
        PrintRun(s, p, q, restricted);
        r := q + 1;
      } else {
        PendingPlain(Text(), s, p, q, restricted);
        r := p;
      }
    }

    /** The loop of PrintString: writes all entities and the runs of bytes before
        them, and returns where the run still to be written starts. */
    method PrintRuns(s: string, restricted: bool) returns (p: nat)
      requires Valid() && NoNul(s) && |Text()| + |Escaped(s, restricted)| < INT_MAX / 2
      modifies buffer, buffer.mem
      ensures p <= |s| && Valid() && Text() + s[p..] == old(Text()) + Escaped(s, restricted)
      ensures buffer.mem == old(buffer.mem) || fresh(buffer.mem)
    {
      PendingStart(Text(), s, restricted);
      assert INT_MAX / 2 == 0x3FFF_FFFF;
      hide *;
      ghost var total := Pending(Text(), s, 0, 0, restricted);
      var q := 0;
      p := 0;
      while q < |s|
        invariant 0 <= p <= q <= |s| && Valid()
        invariant buffer.mem == old(buffer.mem) || fresh(buffer.mem)
        invariant Pending(Text(), s, p, q, restricted) == total
      {
        p := PrintNext(s, p, q, restricted, total);
        q := q + 1;
      }
      PendingEnd(Text(), s, p, restricted);
    }

    /** Bytes between entities are written in one piece. */
    method PrintString(s: string, restricted: bool)
      requires Valid() && NoNul(s)
      requires |Text()| + |Printed(s, restricted, processEntities)| < INT_MAX / 2
      modifies buffer, buffer.mem
      ensures Valid() && Text() == old(Text()) + Printed(s, restricted, processEntities)
      ensures buffer.mem == old(buffer.mem) || fresh(buffer.mem)
    {
      assert INT_MAX / 2 == 0x3FFF_FFFF;
      hide Valid, Text, Escaped;
      if processEntities {
        var p := PrintRuns(s, restricted);
        if p < |s| {
          Write(s[p..]);
        } else {
          assert Text() + s[p..] == Text();
        }
      } else {
        Write(s);
      }
    }

    // ----- Elements and leaves -----

    /** The text once a tag that was just opened is sealed. */
    ghost function Sealed(): string
      reads `elementJustOpened, buffer, buffer.mem
      requires Valid()
    {
      if elementJustOpened then Text() + ">" else Text()
    }

    method SealElementIfJustOpened()
      requires Valid() && |Sealed()| < INT_MAX / 2
      modifies `elementJustOpened, buffer, buffer.mem
      ensures Valid() && Text() == old(Sealed()) && !elementJustOpened
      ensures buffer.mem == old(buffer.mem) || fresh(buffer.mem)
    {
      if elementJustOpened {
        elementJustOpened := false;
        Putc('>');
      }
    }

    method OpenElement(name: string)
      requires Valid() && |Sealed()| + 1 + |name| < INT_MAX / 2
      modifies this, buffer, buffer.mem
      ensures Valid() && Text() == old(Sealed()) + ("<" + name) && elementJustOpened
      ensures stack == old(stack) + [name]
      ensures buffer.mem == old(buffer.mem) || fresh(buffer.mem)
    {
      OpeningIs(Sealed(), name);
      hide *;
      SealElementIfJustOpened();
      stack := stack + [name];
      Write("<");
      Write(name);
      elementJustOpened := true;
    }

    method PushAttribute(a: Attr)
      requires Valid() && elementJustOpened && NoNul(a.value)
      requires |Text()| + |PrintAttribute(a, processEntities)| < INT_MAX / 2
      modifies buffer, buffer.mem
      ensures Valid() && Text() == old(Text()) + PrintAttribute(a, processEntities)
      ensures buffer.mem == old(buffer.mem) || fresh(buffer.mem)
    {
      AttributeText(Text(), a, processEntities);
      hide *;
      Putc(' ');
      Write(a.name);
      Write("=\"");
      PrintString(a.value, false);
      Putc('"');
    }

    method PushAttributes(attributes: seq<Attr>)
      requires Valid() && elementJustOpened
      requires forall k :: 0 <= k < |attributes| ==> NoNul(attributes[k].value)
      requires |Text()| + |PrintAttributes(attributes, processEntities)| < INT_MAX / 2
      modifies buffer, buffer.mem
      ensures Valid() && Text() == old(Text()) + PrintAttributes(attributes, processEntities)
      ensures buffer.mem == old(buffer.mem) || fresh(buffer.mem)
    {
      AttributesStart(Text(), attributes, processEntities);
      ghost var total := Text() + PrintAttributes(attributes, processEntities);
      assert INT_MAX / 2 == 0x3FFF_FFFF;
      hide *;
      for n := 0 to |attributes|
        invariant Valid() && (buffer.mem == old(buffer.mem) || fresh(buffer.mem))
        invariant Text() + PrintAttributes(attributes[n..], processEntities) == total
      {
        AttributesNext(Text(), attributes, n, processEntities);
        PushAttribute(attributes[n]);
      }
      AttributesEnd(Text(), attributes, processEntities);
    }

    method CloseElement()
      requires Valid() && stack != []
      requires |Text()| + |ClosingText(elementJustOpened, stack[|stack| - 1])| < INT_MAX / 2
      modifies this, buffer, buffer.mem
      ensures Valid() && !elementJustOpened && stack == old(stack)[..|old(stack)| - 1]
      ensures Text() == old(Text()) + old(ClosingText(elementJustOpened, stack[|stack| - 1]))
      ensures buffer.mem == old(buffer.mem) || fresh(buffer.mem)
    {
      var name := stack[|stack| - 1];
      ClosingIs(elementJustOpened, name);
      hide *;
      stack := stack[..|stack| - 1];
      if elementJustOpened {
        Write("/>");
      } else {
        WriteBody("</", name, ">");
      }
      elementJustOpened := false;
    }

    /** PushText, PushComment, PushDeclaration and PushUnknown. */
    method PushLeaf(x: Xml)
      requires Valid() && !x.ElementNode? && NoNul(x.text)
      requires |Sealed()| + |PrintNode(x, processEntities)| < INT_MAX / 2
      modifies `elementJustOpened, buffer, buffer.mem
      ensures Valid() && Text() == old(Sealed()) + PrintNode(x, processEntities) && !elementJustOpened
      ensures buffer.mem == old(buffer.mem) || fresh(buffer.mem)
    {
      SealElementIfJustOpened();
      match x
      case TextNode(text, cdata) =>
        if cdata {
          WriteBody("<![CDATA[", text, "]]>");
        } else {
          PrintString(text, true);
        }
      case CommentNode(text) => WriteBody("<!--", text, "-->");
      case DeclarationNode(text) => WriteBody("<?", text, "?>");
      case UnknownNode(text) => WriteBody("<!", text, ">");
    }

    method WriteBody(opening: string, body: string, closing: string)
      requires Valid() && |Text()| + |opening| + |body| + |closing| < INT_MAX / 2
      modifies buffer, buffer.mem
      ensures Valid() && Text() == old(Text()) + (opening + (body + closing))
      ensures buffer.mem == old(buffer.mem) || fresh(buffer.mem)
    {
      ghost var text := Text();
      assert INT_MAX / 2 == 0x3FFF_FFFF;
      hide *;
      Write(opening);
      Write(body);
      Write(closing);
      assert text + opening + body + closing == text + (opening + (body + closing));
    }

    // ----- The visit -----

    /** XMLElement::Accept and the leaves' Accept: writes the node after sealing
        the tag it stands in, and leaves the element stack as it was. */
    method Accept(x: Xml)
      requires Valid() && WithoutNul(x)
      requires |Sealed()| + |PrintNode(x, processEntities)| < INT_MAX / 2
      modifies this, buffer, buffer.mem
      ensures Valid() && Text() == old(Sealed()) + PrintNode(x, processEntities)
      ensures !elementJustOpened && stack == old(stack)
      ensures buffer.mem == old(buffer.mem) || fresh(buffer.mem)
      decreases x, 1
    {
      assert INT_MAX / 2 == 0x3FFF_FFFF;
      hide *;
      if x.ElementNode? {
        VisitElement(x);
      } else {
        WithoutNulLeaf(x);
        PushLeaf(x);
      }
    }

    /** VisitEnter, the children, VisitExit. */
    method VisitElement(x: Xml)
      requires Valid() && WithoutNul(x) && x.ElementNode?
      requires |Sealed()| + |PrintNode(x, processEntities)| < INT_MAX / 2
      modifies this, buffer, buffer.mem
      ensures Valid() && Text() == old(Sealed()) + PrintNode(x, processEntities)
      ensures !elementJustOpened && stack == old(stack)
      ensures buffer.mem == old(buffer.mem) || fresh(buffer.mem)
      decreases x, 0
    {
      assert INT_MAX / 2 == 0x3FFF_FFFF;
      ElementText(Sealed(), x, processEntities);
      WithoutNulParts(x);
      hide *;
      VisitEnter(x);
      SealedIs();
      AcceptAll(x.children);
      CloseElement();
    }

    /** The start tag, still to be sealed. */
    method VisitEnter(x: Xml)
      requires Valid() && x.ElementNode? && forall k :: 0 <= k < |x.attributes| ==> NoNul(x.attributes[k].value)
      requires |Sealed()| + 1 + |x.name| + |PrintAttributes(x.attributes, processEntities)| < INT_MAX / 2
      modifies this, buffer, buffer.mem
      ensures Valid() && elementJustOpened && stack == old(stack) + [x.name]
      ensures Text() == old(Sealed()) + ("<" + x.name) + PrintAttributes(x.attributes, processEntities)
      ensures buffer.mem == old(buffer.mem) || fresh(buffer.mem)
    {
      assert INT_MAX / 2 == 0x3FFF_FFFF;
      hide *;
      OpenElement(x.name);
      PushAttributes(x.attributes);
    }

    lemma SealedIs()
      requires Valid()
      ensures Sealed() == if elementJustOpened then Text() + ">" else Text()
    {
    }

    /** The loop over the children of an element or document. */
    method AcceptAll(xs: seq<Xml>)
      requires Valid() && forall k :: 0 <= k < |xs| ==> WithoutNul(xs[k])
      requires |Sealed()| + |PrintNodes(xs, processEntities)| < INT_MAX / 2
      modifies this, buffer, buffer.mem
      ensures Valid() && stack == old(stack)
      ensures buffer.mem == old(buffer.mem) || fresh(buffer.mem)
      ensures if xs == [] then Text() == old(Text()) && elementJustOpened == old(elementJustOpened)
              else Text() == old(Sealed()) + PrintNodes(xs, processEntities) && !elementJustOpened
      decreases xs, 0
    {
      NodesStart(Sealed(), xs, processEntities);
      ghost var total := Sealed() + PrintNodes(xs, processEntities);
      assert INT_MAX / 2 == 0x3FFF_FFFF;
      hide *;
      for n := 0 to |xs|
        invariant Valid() && stack == old(stack)
        invariant buffer.mem == old(buffer.mem) || fresh(buffer.mem)
        invariant NodesPending(Sealed(), xs, n, processEntities) == total
        invariant n == 0 ==> Text() == old(Text()) && elementJustOpened == old(elementJustOpened)
        invariant n > 0 ==> !elementJustOpened
      {
        NodesNext(Sealed(), xs, n, processEntities);
        Accept(xs[n]);
        SealedIs();
      }
      NodesEnd(Sealed(), xs, processEntities);
      SealedIs();
    }

    /** XMLDocument::Print: the buffer ends up as the printed document and one NUL. */
    method PrintDocument(doc: seq<Xml>)
      requires Valid() && Text() == "" && !elementJustOpened
      requires forall k :: 0 <= k < |doc| ==> WithoutNul(doc[k])
      requires |PrintNodes(doc, processEntities)| < INT_MAX / 2
      modifies this, buffer, buffer.mem
      ensures Valid() && Text() == PrintNodes(doc, processEntities)
      ensures buffer.Contents() == PrintNodes(doc, processEntities) + [NUL]
    {
      NothingElse(doc, processEntities);
      SealedIs();
      hide *;
      AcceptAll(doc);
      EndsWithNul();
    }

    lemma EndsWithNul()
      requires Valid()
      ensures buffer.Contents() == Text() + [NUL]
    {
    }
  }
}
