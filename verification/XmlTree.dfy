/** Documents as trees, what XMLPrinter writes for them in compact mode, and the
    reading of a parse as a tree. */
module XmlTree {
  import opened XmlChars
  import opened Escape
  import Decoding
  import Grammar
  import Spans

  datatype Attr = Attr(name: string, value: string)

  datatype Xml =
    | ElementNode(name: string, attributes: seq<Attr>, children: seq<Xml>)
    | TextNode(text: string, cdata: bool)
    | CommentNode(text: string)
    | DeclarationNode(text: string)
    | UnknownNode(text: string)

  // ----- Printing -----

  /** By default entities are processed, as they are by the default printer. */
  function PrintAttribute(a: Attr, entities: bool := true): string {
    " " + (a.name + ("=\"" + (Printed(a.value, false, entities) + "\"")))
  }

  function PrintAttributes(attributes: seq<Attr>, entities: bool := true): string {
    if attributes == [] then "" else PrintAttribute(attributes[0], entities) + PrintAttributes(attributes[1..], entities)
  }

  function PrintNode(x: Xml, entities: bool := true): string
    decreases x, 0
  {
    match x
    case ElementNode(name, attributes, children) =>
      "<" + (name + (PrintAttributes(attributes, entities) +
        (if children == [] then "/>" else ">" + (PrintNodes(children, entities) + ("</" + (name + ">"))))))
    case TextNode(text, cdata) => if cdata then "<![CDATA[" + (text + "]]>") else Printed(text, true, entities)
    case CommentNode(text) => "<!--" + (text + "-->")
    case DeclarationNode(text) => "<?" + (text + "?>")
    case UnknownNode(text) => "<!" + (text + ">")
  }

  function PrintNodes(xs: seq<Xml>, entities: bool := true): string
    decreases xs
  {
    if xs == [] then "" else PrintNode(xs[0], entities) + PrintNodes(xs[1..], entities)
  }

  /** Each kind of node, character by character. */
  lemma PrintedLeaves()
    ensures PrintNode(CommentNode("5")) == "<!--5-->" && PrintNode(DeclarationNode("8")) == "<?8?>"
    ensures PrintNode(UnknownNode("7")) == "<!7>" && PrintNode(TextNode("6", true)) == "<![CDATA[6]]>"
    ensures PrintNode(TextNode("&", false)) == "&amp;" && PrintNode(TextNode("&", false), false) == "&"
  {
    EscapedOne('&', true);
    hide Escaped;
  }

  lemma PrintedEmptyElement()
    ensures PrintNode(ElementNode("a", [], [])) == "<a/>"
  {
  }

  lemma PrintedElement()
    ensures PrintNode(ElementNode("a", [], [CommentNode("5")])) == "<a><!--5--></a>"
  {
    var c := CommentNode("5");
    PrintedLeaves();
    assert PrintNodes([c]) == PrintNode(c) + PrintNodes([]);
    var x := ElementNode("a", [], [c]);
    assert PrintNode(x) == "<" + ("a" + (PrintAttributes([]) + (">" + (PrintNodes([c]) + ("</" + ("a" + ">"))))));
    hide PrintNodes, PrintNode;
  }

  lemma PrintedAttributes()
    ensures PrintAttributes([Attr("b", ">"), Attr("c", "\"")]) == " b=\"&gt;\" c=\"&quot;\""
  {
    var b, c := Attr("b", ">"), Attr("c", "\"");
    EscapedOne('>', false);
    EscapedOne('"', false);
    assert PrintAttribute(b) == " b=\"&gt;\"" && PrintAttribute(c) == " c=\"&quot;\"";
    assert [b, c][1..] == [c] && [c][1..] == [];
    assert PrintAttributes([c]) == PrintAttribute(c) + PrintAttributes([]);
  }

  /** Nodes are printed one behind the other. */
  lemma {:induction false} PrintConcat(xs: seq<Xml>, ys: seq<Xml>)
    ensures PrintNodes(xs + ys) == PrintNodes(xs) + PrintNodes(ys)
  {
    hide PrintNode;
    if xs == [] {
      assert xs + ys == ys;
    } else {
      assert (xs + ys)[0] == xs[0] && (xs + ys)[1..] == xs[1..] + ys;
      PrintConcat(xs[1..], ys);
    }
  }

  // ----- Reading a parse -----

  function Read(s: string, str: Spans.Str): string {
    Decoding.Value(Grammar.TextOf(s, str.span), str.flags)
  }

  function ReadAttributes(s: string, attributes: seq<Grammar.Attribute>, options: Spans.Options): seq<Attr> {
    if attributes == [] then []
    else
      var a := attributes[0];
      [Attr(Read(s, Spans.Str(a.name, Decoding.NAME)), Read(s, Spans.Str(a.value, Spans.AttributeFlags(options))))]
      + ReadAttributes(s, attributes[1..], options)
  }

  /** What the accessors of the DOM return for a parsed node. */
  function ReadNode(s: string, node: Grammar.Node, options: Spans.Options): Xml
    decreases node, 0
  {
    match node
    case Element(tag, children, _, _) =>
      ElementNode(Read(s, Spans.Str(tag.name, Decoding.NAME)), ReadAttributes(s, tag.attributes, options),
                  ReadNodes(s, children, options))
    case Text(value, cdata, _) =>
      TextNode(Read(s, Spans.Str(value, if cdata then Decoding.NEWLINES_ONLY else Spans.TextFlags(options))), cdata)
    case Comment(value, _) => CommentNode(Read(s, Spans.Str(value, Decoding.NEWLINES_ONLY)))
    case Declaration(value, _) => DeclarationNode(Read(s, Spans.Str(value, Decoding.NEWLINES_ONLY)))
    case Unknown(value, _) => UnknownNode(Read(s, Spans.Str(value, Decoding.NEWLINES_ONLY)))
  }

  function ReadNodes(s: string, nodes: seq<Grammar.Node>, options: Spans.Options): seq<Xml>
    decreases nodes
  {
    if nodes == [] then [] else [ReadNode(s, nodes[0], options)] + ReadNodes(s, nodes[1..], options)
  }

  // ----- Trees that survive the trip -----

  predicate ValidName(name: string) {
    name != "" && IsNameStartChar(name[0]) && forall k :: 0 <= k < |name| ==> IsNameChar(name[k])
  }

  predicate Clean(s: string) {
    NoNul(s) && NoCr(s)
  }

  predicate FreeOf(s: string, pattern: string) {
    forall k :: 0 <= k < |s| ==> !StartsAt(s, k, pattern)
  }

  predicate Blank(s: string) {
    forall k :: 0 <= k < |s| ==> IsWhiteSpace(s[k])
  }

  predicate PlainText(x: Xml) {
    x.TextNode? && !x.cdata
  }

  predicate PrintableAttributes(attributes: seq<Attr>) {
    && (forall k :: 0 <= k < |attributes| ==> ValidName(attributes[k].name) && Clean(attributes[k].value))
    && forall i, j :: 0 <= i < j < |attributes| ==> attributes[i].name != attributes[j].name
  }

  /** Valid and distinct names, no NUL or CR, bodies free of what ends them,
      texts that are not blank, no declarations inside elements. */
  predicate PrintableNode(x: Xml)
    decreases x, 0
  {
    match x
    case ElementNode(name, attributes, children) =>
      && ValidName(name) && PrintableAttributes(attributes)
      && PrintableNodes(children) && forall k :: 0 <= k < |children| ==> !children[k].DeclarationNode?
    case TextNode(text, cdata) => Clean(text) && (if cdata then FreeOf(text, "]]>") else !Blank(text))
    case CommentNode(text) => Clean(text) && FreeOf(text, "-->")
    case DeclarationNode(text) => Clean(text) && FreeOf(text, "?>")
    case UnknownNode(text) =>
      Clean(text) && FreeOf(text, ">") && !StartsAt(text, 0, "--") && !StartsAt(text, 0, "[CDATA[")
  }

  /** No two texts are adjacent: they would be read back as one. */
  predicate PrintableNodes(xs: seq<Xml>)
    decreases xs
  {
    && (forall k :: 0 <= k < |xs| ==> PrintableNode(xs[k]))
    && TextsApart(xs)
  }

  predicate TextsApart(xs: seq<Xml>) {
    forall k :: 0 < k < |xs| ==> !(PlainText(xs[k - 1]) && PlainText(xs[k]))
  }

  /** The nodes that can be printed: any bodies without NUL, CR or what ends them, any
      text that is not blank, any attribute values without NUL or CR. */
  lemma WhatIsPrintable(text: string, attributes: seq<Attr>, children: seq<Xml>)
    ensures var clean := '\0' !in text && '\r' !in text;
      && (PrintableNode(CommentNode(text)) <==> clean && FreeOf(text, "-->"))
      && (PrintableNode(DeclarationNode(text)) <==> clean && FreeOf(text, "?>"))
      && (PrintableNode(TextNode(text, true)) <==> clean && FreeOf(text, "]]>"))
      && (PrintableNode(TextNode(text, false)) <==> clean && exists c :: c in text && !IsWhiteSpace(c))
      && (PrintableNode(UnknownNode(text)) <==>
           clean && '>' !in text && !StartsAt(text, 0, "--") && !StartsAt(text, 0, "[CDATA["))
    ensures PrintableNode(ElementNode(text, attributes, children)) <==>
      && text != "" && IsNameStartChar(text[0]) && (forall c :: c in text ==> IsNameChar(c))
      && (forall a :: a in attributes ==> ValidName(a.name) && '\0' !in a.value && '\r' !in a.value)
      && (forall i, j :: 0 <= i < j < |attributes| ==> attributes[i].name != attributes[j].name)
      && PrintableNodes(children) && forall x :: x in children ==> !x.DeclarationNode?
  {
    CleanIs(text);
    FreeOfChar(text, '>');
    forall a | a in attributes
      ensures Clean(a.value) <==> '\0' !in a.value && '\r' !in a.value
    {
      CleanIs(a.value);
    }
    hide Clean, FreeOf, StartsAt;
  }

  lemma CleanIs(s: string)
    ensures Clean(s) <==> '\0' !in s && '\r' !in s
  {
  }

  lemma FreeOfChar(s: string, c: char)
    ensures FreeOf(s, [c]) <==> c !in s
  {
    forall k | 0 <= k < |s|
      ensures StartsAt(s, k, [c]) <==> s[k] == c
    {
      StartsAtChar(s, k, c);
    }
  }

  function Height(xs: seq<Xml>): nat
    decreases xs
  {
    if xs == [] then 0
    else
      var rest := Height(xs[1..]);
      var first := NodeHeight(xs[0]);
      if first > rest then first else rest
  }

  function NodeHeight(x: Xml): nat
    decreases x, 0
  {
    if x.ElementNode? && x.children != [] then 1 + Height(x.children) else 0
  }

  /** Declarations first, texts inside elements only, nesting within the limit. */
  predicate PrintableDocument(doc: seq<Xml>) {
    && doc != [] && PrintableNodes(doc)
    && (forall k :: 0 <= k < |doc| ==> !PlainText(doc[k]))
    && (forall j, k :: 0 <= j < k < |doc| && doc[k].DeclarationNode? ==> doc[j].DeclarationNode?)
    && Height(doc) + 1 < Grammar.MAX_ELEMENT_DEPTH
  }

  /** And the lists of children and the documents: no text stands behind another, in a
      document none at all; declarations come first; fewer than 99 elements with children
      are nested. */
  lemma WhichDocuments(xs: seq<Xml>)
    ensures PrintableNodes(xs) <==>
      && (forall x :: x in xs ==> PrintableNode(x))
      && forall k :: 0 <= k < |xs| - 1 && PlainText(xs[k]) ==> !PlainText(xs[k + 1])
    ensures PrintableDocument(xs) <==>
      && xs != [] && (forall x :: x in xs ==> PrintableNode(x) && !(x.TextNode? && !x.cdata))
      && (forall k :: 0 <= k < |xs| - 1 && xs[k + 1].DeclarationNode? ==> xs[k].DeclarationNode?)
      && Height(xs) < 99
  {
    AllPrintable(xs);
    NeighbouringTexts(xs);
    DeclarationsChain(xs);
    hide PrintableNode, PrintableNodes, Height, TextsApart;
  }

  lemma AllPrintable(xs: seq<Xml>)
    ensures PrintableNodes(xs) <==> (forall x :: x in xs ==> PrintableNode(x)) && TextsApart(xs)
  {
    hide PrintableNode, TextsApart;
    if PrintableNodes(xs) {
      forall x | x in xs
        ensures PrintableNode(x)
      {
        var k :| 0 <= k < |xs| && xs[k] == x;
        assert PrintableNode(xs[k]);
      }
    }
    assert forall k :: 0 <= k < |xs| ==> xs[k] in xs;
  }

  lemma NeighbouringTexts(xs: seq<Xml>)
    ensures TextsApart(xs) <==> forall k :: 0 <= k < |xs| - 1 && PlainText(xs[k]) ==> !PlainText(xs[k + 1])
  {
    hide PlainText;
    if TextsApart(xs) {
      forall k | 0 <= k < |xs| - 1 && PlainText(xs[k])
        ensures !PlainText(xs[k + 1])
      {
        assert !(PlainText(xs[(k + 1) - 1]) && PlainText(xs[k + 1]));
      }
    }
    if forall k :: 0 <= k < |xs| - 1 && PlainText(xs[k]) ==> !PlainText(xs[k + 1]) {
      forall k | 0 < k < |xs|
        ensures !(PlainText(xs[k - 1]) && PlainText(xs[k]))
      {
        assert PlainText(xs[k - 1]) ==> !PlainText(xs[(k - 1) + 1]);
      }
    }
  }

  lemma {:induction false} DeclarationsBefore(xs: seq<Xml>, j: nat, k: nat)
    requires j < k < |xs| && xs[k].DeclarationNode?
    requires forall k :: 0 <= k < |xs| - 1 && xs[k + 1].DeclarationNode? ==> xs[k].DeclarationNode?
    ensures xs[j].DeclarationNode?
    decreases k
  {
    assert xs[(k - 1) + 1].DeclarationNode?;
    if j < k - 1 {
      DeclarationsBefore(xs, j, k - 1);
    }
  }

  lemma DeclarationsChain(xs: seq<Xml>)
    ensures (forall j, k :: 0 <= j < k < |xs| && xs[k].DeclarationNode? ==> xs[j].DeclarationNode?)
       <==> forall k :: 0 <= k < |xs| - 1 && xs[k + 1].DeclarationNode? ==> xs[k].DeclarationNode?
  {
    if forall k :: 0 <= k < |xs| - 1 && xs[k + 1].DeclarationNode? ==> xs[k].DeclarationNode? {
      forall j, k | 0 <= j < k < |xs| && xs[k].DeclarationNode?
        ensures xs[j].DeclarationNode?
      {
        DeclarationsBefore(xs, j, k);
      }
    }
  }
}
