/** Parsing followed by reads: the flushes made while parsing and the in-place
    decoding of any strings, in any order, never disturb one another. */
module LazyReads {
  import opened XmlChars
  import opened Grammar
  import opened Decoding
  import opened Documents
  import opened Spans
  import opened StrPairs

  /** Every StrPair set while `s` was parsed, in document order. */
  function Strings(s: string, options: Options): seq<Str> {
    match ParseNodes(s, ContentStart(s), 0, true)
    case Ended(nodes) => Strs(nodes, options)
    case Closed(nodes, tag, _) => Strs(nodes, options) + TagStrs(tag, options)
    case Failed(_, _) => []
  }

  lemma StringsLaid(s: string, options: Options)
    ensures Laid(Strings(s, options), 0, |s| + 1)
  {
    var i := ContentStart(s);
    NodesLaid(s, i, 0, true, options);
    match ParseNodes(s, i, 0, true)
    case Ended(nodes) => LaidWiden(Strs(nodes, options), i, |s| + 1, 0, |s| + 1);
    case Closed(nodes, tag, next) =>
      LaidWiden(Strs(nodes, options) + TagStrs(tag, options), i, next, 0, |s| + 1);
    case Failed(_, _) =>
  }

  // ----- What parsing overwrote -----

  ghost predicate EndsOne(strs: seq<Str>, e: nat) {
    exists k :: 0 <= k < |strs| && strs[k].span.hi == e
  }

  ghost predicate AllEnd(ends: set<nat>, strs: seq<Str>) {
    forall e :: e in ends ==> EndsOne(strs, e)
  }

  lemma AllEndConcat(x: set<nat>, y: set<nat>, a: seq<Str>, b: seq<Str>)
    requires AllEnd(x, a) && AllEnd(y, b)
    ensures AllEnd(x + y, a + b)
  {
    forall e | e in x + y
      ensures EndsOne(a + b, e)
    {
      if e in x {
        var k :| 0 <= k < |a| && a[k].span.hi == e;
        assert (a + b)[k] == a[k];
      } else {
        var k :| 0 <= k < |b| && b[k].span.hi == e;
        assert (a + b)[|a| + k] == b[k];
      }
    }
  }

  lemma {:induction false} AttributeEndsCovered(attributes: seq<Attribute>, options: Options)
    ensures AllEnd(AttributeEnds(attributes), AttributeStrs(attributes, options))
  {
    if attributes != [] {
      var n := |attributes| - 1;
      var a := attributes[n];
      AttributeEndsCovered(attributes[..n], options);
      var strs := [Str(a.name, NAME), Str(a.value, AttributeFlags(options))];
      assert strs[0].span.hi == a.name.hi;
      AllEndConcat(AttributeEnds(attributes[..n]), {a.name.hi}, AttributeStrs(attributes[..n], options), strs);
      assert attributes == attributes[..n] + [a];
      assert AttributeEnds(attributes) == AttributeEnds(attributes[..n]) + {a.name.hi};
    }
  }

  lemma TagEndsCovered(tag: Tag, options: Options)
    ensures AllEnd({tag.name.hi} + AttributeEnds(tag.attributes), TagStrs(tag, options))
  {
    assert [Str(tag.name, NAME)][0].span.hi == tag.name.hi;
    AttributeEndsCovered(tag.attributes, options);
    AllEndConcat({tag.name.hi}, AttributeEnds(tag.attributes), [Str(tag.name, NAME)], AttributeStrs(tag.attributes, options));
  }

  lemma {:induction false} NodeEndsCovered(node: Node, options: Options)
    ensures AllEnd(NodeEnds(node), NodeStrs(node, options))
    decreases node, 0
  {
    if node.Element? {
      TagEndsCovered(node.tag, options);
      EndsCovered(node.children, options);
      var start, inner := {node.tag.name.hi} + AttributeEnds(node.tag.attributes), Ends(node.children);
      AllEndConcat(start, inner, TagStrs(node.tag, options), Strs(node.children, options));
      var strs := TagStrs(node.tag, options) + Strs(node.children, options);
      if node.closing.Some? {
        var end := node.closing.value;
        TagEndsCovered(end, options);
        AllEndConcat(start + inner, {end.name.hi} + AttributeEnds(end.attributes), strs, TagStrs(end, options));
        assert NodeEnds(node) <= start + inner + ({end.name.hi} + AttributeEnds(end.attributes));
      } else {
        assert NodeStrs(node, options) == strs;
        assert NodeEnds(node) <= start + inner;
      }
    }
  }

  lemma {:induction false} EndsCovered(nodes: seq<Node>, options: Options)
    ensures AllEnd(Ends(nodes), Strs(nodes, options))
    decreases nodes
  {
    if nodes != [] {
      var n := |nodes| - 1;
      EndsCovered(nodes[..n], options);
      NodeEndsCovered(nodes[n], options);
      AllEndConcat(Ends(nodes[..n]), NodeEnds(nodes[n]), Strs(nodes[..n], options), NodeStrs(nodes[n], options));
    }
  }

  /** Only ends of strings are overwritten while parsing... */
  lemma FlushedEnds(s: string, options: Options)
    ensures AllEnd(FlushedNames(s), Strings(s, options))
  {
    match ParseNodes(s, ContentStart(s), 0, true)
    case Ended(nodes) => EndsCovered(nodes, options);
    case Closed(nodes, tag, _) =>
      EndsCovered(nodes, options);
      TagEndsCovered(tag, options);
      AllEndConcat(Ends(nodes), {tag.name.hi} + AttributeEnds(tag.attributes), Strs(nodes, options), TagStrs(tag, options));
    case Failed(_, _) =>
  }

  lemma NoEndInside(strs: seq<Str>, hi: nat, i: nat, e: nat)
    requires Laid(strs, 0, hi) && i < |strs| && strs[i].span.lo <= e < strs[i].span.hi
    ensures !EndsOne(strs, e)
  {
    forall j | 0 <= j < |strs|
      ensures strs[j].span.hi != e
    {
      assert i < j ==> strs[i].span.hi < strs[j].span.lo <= strs[j].span.hi;
    }
  }

  /** ...so the text of every string is still what was parsed. */
  lemma TextsIntact(s: string, content: string, options: Options)
    requires Terminated(s + [NUL], content, FlushedNames(s))
    ensures forall str :: str in Strings(s, options) ==>
      str.span.lo <= str.span.hi <= |s| && content[str.span.lo..str.span.hi] == TextOf(s, str.span)
  {
    var strs := Strings(s, options);
    StringsLaid(s, options);
    FlushedEnds(s, options);
    forall i | 0 <= i < |strs|
      ensures content[strs[i].span.lo..strs[i].span.hi] == TextOf(s, strs[i].span)
    {
      forall k | strs[i].span.lo <= k < strs[i].span.hi
        ensures content[k] == s[k]
      {
        NoEndInside(strs, |s| + 1, i, k);
      }
      assert content[strs[i].span.lo..strs[i].span.hi] == s[strs[i].span.lo..strs[i].span.hi];
    }
  }

  // ----- Reading -----

  /** A StrPair for each string. A name the parser has terminated already is
      treated as pending too: terminating it again changes nothing. */
  method MakePairs(buffer: array<char>, strs: seq<Str>) returns (pairs: seq<StrPair>)
    requires Laid(strs, 0, buffer.Length)
    ensures fresh(pairs) && |pairs| == |strs| && Apart(pairs, buffer)
    ensures forall i :: 0 <= i < |strs| ==>
      Texts(pairs, buffer)[i] == Value(buffer[strs[i].span.lo..strs[i].span.hi], strs[i].flags)
  {
    hide Value, CString;
    pairs := [];
    for n := 0 to |strs|
      invariant |pairs| == n && fresh(pairs) && Apart(pairs, buffer)
      invariant forall i :: 0 <= i < n ==>
        && pairs[i].start == strs[i].span.lo && pairs[i].end == strs[i].span.hi
        && pairs[i].needsFlush && pairs[i].flags == strs[i].flags
    {
      var pair := new StrPair.Set(buffer, strs[n].span.lo, strs[n].span.hi, strs[n].flags);
      pairs := pairs + [pair];
    }
    forall i | 0 <= i < |strs|
      ensures Texts(pairs, buffer)[i] == Value(buffer[strs[i].span.lo..strs[i].span.hi], strs[i].flags)
    {
      var range := pairs[i].Range();
      assert range[..|range| - 1] == buffer[strs[i].span.lo..strs[i].span.hi];
    }
  }

  /** After a successful parse any sequence of reads, with repetitions, returns
      for each string the decoding of what stood between its pointers in the
      original text. */
  method ParseThenRead(xml: string, options: Options, order: seq<nat>) returns (texts: seq<string>)
    requires ParseDocument(xml).Parsed?
    requires forall k :: 0 <= k < |order| ==> order[k] < |Strings(xml, options)|
    ensures |texts| == |order|
    ensures forall k :: 0 <= k < |order| ==>
      var str := Strings(xml, options)[order[k]];
      texts[k] == Value(TextOf(xml, str.span), str.flags)
  {
    hide Value, Strings, Laid, ParseDocument, Terminated;
    var doc := new XMLDocument(xml);
    assert doc.charBuffer[..] == xml + [NUL];
    var nodes := doc.Parse();
    var strs := Strings(xml, options);
    TextsIntact(xml, doc.charBuffer[..], options);
    StringsLaid(xml, options);
    var pairs := MakePairs(doc.charBuffer, strs);
    forall i | 0 <= i < |strs|
      ensures Texts(pairs, doc.charBuffer)[i] == Value(TextOf(xml, strs[i].span), strs[i].flags)
    {
      assert strs[i] in strs;
      assert doc.charBuffer[strs[i].span.lo..strs[i].span.hi] == doc.charBuffer[..][strs[i].span.lo..strs[i].span.hi];
    }
    texts := GetInOrder(pairs, doc.charBuffer, order);
  }
}
