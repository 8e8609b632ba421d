/** What the node loop of the parser does to the document (server/tinyxml2.cpp):
    nodes are made, filled and linked in the order of the derivation, and the
    node of an end tag is made and deleted at once. */
module DomParse {
  import opened Dom
  import opened DomCopy
  import opened XmlTree
  import Grammar
  import Spans
  import RoundTrip

  // ----- What a node of the heap shows -----

  function ChildrenOf(x: Xml): seq<Xml> {
    if x.ElementNode? then x.children else []
  }

  function KindOf(x: Xml): Kind {
    match x
    case ElementNode(_, _, _) => ElementKind
    case TextNode(_, _) => TextKind
    case CommentNode(_) => CommentKind
    case DeclarationNode(_) => DeclarationKind
    case UnknownNode(_) => UnknownKind
  }

  function ValueOf(x: Xml): string {
    if x.ElementNode? then x.name else x.text
  }

  function Pairs(attributes: seq<Attr>): seq<(string, string)> {
    seq(|attributes|, i requires 0 <= i < |attributes| => (attributes[i].name, attributes[i].value))
  }

  function AttributesOf(x: Xml): seq<(string, string)> {
    if x.ElementNode? then Pairs(x.attributes) else []
  }

  ghost predicate ShowsContent(n: XMLNode, x: Xml)
    reads n`value, n`isCData, n`attributes
  {
    && n.kind == KindOf(x) && n.value == ValueOf(x) && n.attributes == AttributesOf(x)
    && n.isCData == (x.TextNode? && x.cdata)
  }

  /** What the accessors of the node return. */
  lemma ContentReads(n: XMLNode, x: Xml)
    requires ShowsContent(n, x)
    ensures n.kind == ElementKind <==> x.ElementNode?
    ensures n.kind == TextKind <==> x.TextNode?
    ensures n.kind == CommentKind <==> x.CommentNode?
    ensures n.kind == DeclarationKind <==> x.DeclarationNode?
    ensures n.kind == UnknownKind <==> x.UnknownNode?
    ensures n.kind == ElementKind ==>
      && n.value == x.name && |n.attributes| == |x.attributes|
      && forall i :: 0 <= i < |n.attributes| ==>
           n.attributes[i].0 == x.attributes[i].name && n.attributes[i].1 == x.attributes[i].value
    ensures n.kind != ElementKind ==> n.value == x.text
    ensures n.kind == TextKind ==> n.isCData == x.cdata
  {
  }

  /** The nodes `kids` stand for the trees `xs`, in order. */
  predicate ShowsKids(tree: map<XMLNode, Xml>, kids: seq<XMLNode>, xs: seq<Xml>) {
    |kids| == |xs| && forall j :: 0 <= j < |xs| ==> kids[j] in tree && tree[kids[j]] == xs[j]
  }

  ghost predicate Contents(tree: map<XMLNode, Xml>)
    reads tree.Keys`value, tree.Keys`isCData, tree.Keys`attributes
  {
    forall n :: n in tree ==> ShowsContent(n, tree[n])
  }

  /** Each node has the content and the children of the tree it stands for. */
  ghost predicate AllShown(tree: map<XMLNode, Xml>)
    reads tree.Keys`value, tree.Keys`isCData, tree.Keys`attributes, tree.Keys`kids
  {
    Contents(tree) && forall n :: n in tree ==> ShowsKids(tree, n.kids, ChildrenOf(tree[n]))
  }

  // ----- How many nodes come from a pool -----

  function CountNode(doc: XMLDocument, pool: NodePool, x: Xml): nat
    decreases x, 0
  {
    (if doc.PoolFor(KindOf(x)) == pool then 1 else 0) + (if x.ElementNode? then Count(doc, pool, x.children) else 0)
  }

  function Count(doc: XMLDocument, pool: NodePool, xs: seq<Xml>): nat
    decreases xs
  {
    if xs == [] then 0 else CountNode(doc, pool, xs[0]) + Count(doc, pool, xs[1..])
  }

  lemma {:induction false} CountAppend(doc: XMLDocument, pool: NodePool, xs: seq<Xml>, x: Xml)
    ensures Count(doc, pool, xs + [x]) == Count(doc, pool, xs) + CountNode(doc, pool, x)
  {
    if xs != [] {
      assert (xs + [x])[1..] == xs[1..] + [x];
      CountAppend(doc, pool, xs[1..], x);
    }
  }

  /** The nodes `made` are as many from each pool as `xs` takes. */
  ghost predicate Counts(doc: XMLDocument, made: set<XMLNode>, xs: seq<Xml>) {
    forall pool :: pool in doc.Counters() ==> |InPool(made, pool)| == Count(doc, pool, xs)
  }

  lemma NothingMade(doc: XMLDocument)
    ensures Counts(doc, {}, [])
  {
    assert forall pool :: InPool({}, pool) == {};
  }

  lemma InPoolUnion(a: set<XMLNode>, b: set<XMLNode>, pool: NodePool)
    requires a !! b
    ensures |InPool(a + b, pool)| == |InPool(a, pool)| + |InPool(b, pool)|
  {
    assert InPool(a + b, pool) == InPool(a, pool) + InPool(b, pool);
    assert InPool(a, pool) !! InPool(b, pool);
  }

  lemma CountsJoin(doc: XMLDocument, a: set<XMLNode>, xs: seq<Xml>, b: set<XMLNode>, x: Xml)
    requires Counts(doc, a, xs) && Counts(doc, b, [x]) && a !! b
    ensures Counts(doc, a + b, xs + [x])
  {
    forall pool | pool in doc.Counters()
      ensures |InPool(a + b, pool)| == Count(doc, pool, xs + [x])
    {
      InPoolUnion(a, b, pool);
      CountAppend(doc, pool, xs, x);
      CountAppend(doc, pool, [], x);
      assert [] + [x] == [x];
    }
  }

  lemma CountsTop(doc: XMLDocument, n: XMLNode, below: set<XMLNode>, x: Xml)
    requires Counts(doc, below, ChildrenOf(x)) && n !in below && n.memPool == doc.PoolFor(KindOf(x))
    ensures Counts(doc, below + {n}, [x])
  {
    forall pool | pool in doc.Counters()
      ensures |InPool(below + {n}, pool)| == Count(doc, pool, [x])
    {
      InPoolWith(below, n, pool);
      CountAppend(doc, pool, [], x);
      assert [] + [x] == [x];
    }
  }

  /** How many nodes the parser makes on the way: one for each node of the tree and one
      for each end tag. */
  function MadeFor(node: Grammar.Node): nat
    decreases node, 0
  {
    1 + (if node.Element? then MadeForAll(node.children) + (if node.closing.Some? then 1 else 0) else 0)
  }

  function MadeForAll(nodes: seq<Grammar.Node>): nat
    decreases nodes
  {
    if nodes == [] then 0 else MadeForAll(nodes[..|nodes| - 1]) + MadeFor(nodes[|nodes| - 1])
  }

  lemma MadeForNext(nodes: seq<Grammar.Node>, i: nat)
    requires i < |nodes|
    ensures MadeForAll(nodes[..i + 1]) == MadeForAll(nodes[..i]) + MadeFor(nodes[i])
  {
    assert nodes[..i + 1][..i] == nodes[..i];
  }

  // ----- Joining -----

  lemma JoinTrees(a: map<XMLNode, Xml>, b: map<XMLNode, Xml>)
    requires a.Keys !! b.Keys && AllShown(a) && AllShown(b)
    ensures AllShown(a + b) && (a + b).Keys == a.Keys + b.Keys
  {
    hide ShowsContent;
  }

  lemma KidsJoin(a: map<XMLNode, Xml>, b: map<XMLNode, Xml>, kids: seq<XMLNode>, xs: seq<Xml>, n: XMLNode, x: Xml)
    requires a.Keys !! b.Keys && ShowsKids(a, kids, xs) && n in b && b[n] == x
    ensures ShowsKids(a + b, kids + [n], xs + [x])
  {
  }

  /** A node over the trees of its children. */
  lemma TopShown(below: map<XMLNode, Xml>, n: XMLNode, x: Xml)
    requires n !in below && AllShown(below) && ShowsContent(n, x) && ShowsKids(below, n.kids, ChildrenOf(x))
    ensures AllShown(below[n := x]) && below[n := x].Keys == below.Keys + {n}
  {
    hide ShowsContent, ChildrenOf;
    var whole := below[n := x];
    forall m | m in whole
      ensures ShowsKids(whole, m.kids, ChildrenOf(whole[m]))
    {
      if m != n {
        assert ShowsKids(below, m.kids, ChildrenOf(below[m]));
      }
    }
  }

  // ----- The state of the loop -----

  /** `parent`, the top of its tree so far, has nodes for children that stand for the
      trees `xs`; the nodes of `t` are where they were. */
  ghost predicate Grown(doc: XMLDocument, parent: XMLNode, tree: map<XMLNode, Xml>, xs: seq<Xml>, t: Snapshot)
    reads doc, doc.Counters(), doc.nodes, parent, tree.Keys
  {
    && doc.Valid() && Since(doc, t) && parent in doc.nodes && parent !in t.nodes
    && parent.parent == null && parent.path == [] && parent !in tree && tree.Keys <= doc.nodes
    && AllShown(tree) && ShowsKids(tree, parent.kids, xs) && Counts(doc, tree.Keys, xs)
  }

  lemma GrownParts(doc: XMLDocument, parent: XMLNode, tree: map<XMLNode, Xml>, xs: seq<Xml>, t: Snapshot)
    requires Grown(doc, parent, tree, xs, t)
    ensures doc.Valid() && Since(doc, t) && parent in doc.nodes && parent !in t.nodes
    ensures parent.parent == null && parent.path == [] && parent !in tree && tree.Keys <= doc.nodes
    ensures AllShown(tree) && ShowsKids(tree, parent.kids, xs) && Counts(doc, tree.Keys, xs)
  {
    hide XMLDocument.Valid, Since, AllShown, ShowsKids, Counts;
  }

  lemma GrownIntro(doc: XMLDocument, parent: XMLNode, tree: map<XMLNode, Xml>, xs: seq<Xml>, t: Snapshot)
    requires doc.Valid() && Since(doc, t) && parent in doc.nodes && parent !in t.nodes
    requires parent.parent == null && parent.path == [] && parent !in tree && tree.Keys <= doc.nodes
    requires AllShown(tree) && ShowsKids(tree, parent.kids, xs) && Counts(doc, tree.Keys, xs)
    ensures Grown(doc, parent, tree, xs, t)
  {
    hide XMLDocument.Valid, Since, AllShown, ShowsKids, Counts;
  }

  lemma GrownStart(doc: XMLDocument, parent: XMLNode, t: Snapshot)
    requires doc.Valid() && Since(doc, t) && parent in doc.nodes && parent !in t.nodes
    requires parent.parent == null && parent.path == [] && parent.kids == []
    ensures Grown(doc, parent, map[], [], t)
  {
    hide XMLDocument.Valid, Since, Counts;
    NothingMade(doc);
    var none: map<XMLNode, Xml> := map[];
    assert none.Keys == {} && AllShown(none);
    GrownIntro(doc, parent, none, [], t);
  }

  /** What the snapshot `v`, taken without `parent`, says of the nodes linked so far. */
  predicate Frozen(tree: map<XMLNode, Xml>, t: Snapshot, v: Snapshot) {
    && Within(t, v) && tree.Keys <= v.nodes
    && forall n :: n in tree ==> ShowsKids(tree, v.kids[n], ChildrenOf(tree[n]))
  }

  lemma Freeze(doc: XMLDocument, parent: XMLNode, tree: map<XMLNode, Xml>, xs: seq<Xml>, t: Snapshot)
    requires Grown(doc, parent, tree, xs, t)
    ensures Frozen(tree, t, Except(Snap(doc), parent)) && Contents(tree) && Since(doc, Except(Snap(doc), parent))
    ensures parent !in Except(Snap(doc), parent).nodes
  {
    hide ShowsKids, Since, Within, XMLDocument.Valid, Counts, ChildrenOf, Snap, Except, ShowsContent;
    WithinExcept(doc, t, parent);
    ExceptParts(doc, parent);
  }

  lemma Thaw(doc: XMLDocument, tree: map<XMLNode, Xml>, t: Snapshot, v: Snapshot)
    requires Frozen(tree, t, v) && Contents(tree) && Since(doc, v)
    ensures AllShown(tree) && Since(doc, t) && tree.Keys <= doc.nodes
  {
    hide ShowsKids, ChildrenOf, ShowsContent;
    SinceWithin(doc, t, v);
  }

  // ----- Making and linking -----

  /** Sets what XMLNode::Value and the attributes of an element will return. */
  method Fill(node: XMLNode, x: Xml)
    requires node.kind == KindOf(x) && !node.isCData && node.attributes == []
    modifies node`value, node`isCData, node`attributes
    ensures ShowsContent(node, x)
  {
    node.value := ValueOf(x);
    if x.TextNode? {
      node.isCData := x.cdata;
    } else if x.ElementNode? {
      node.attributes := Pairs(x.attributes);
    }
  }

  /** A new node for `x`, in no tree yet; every other node is where it was. */
  method Make(doc: XMLDocument, x: Xml, ghost u: Snapshot) returns (n: XMLNode)
    requires doc.Valid() && Since(doc, u)
    modifies doc`nodes, doc`made, doc`unlinked, doc.Counters()`currentAllocs, doc.Counters()`untracked
    ensures doc.Valid() && Since(doc, u) && fresh(n) && ShowsContent(n, x) && n.memPool == doc.PoolFor(KindOf(x))
    ensures doc.made == old(doc.made) + 1
    ensures n.parent == null && n.path == [] && n.kids == []
    ensures doc.nodes == old(doc.nodes) + {n} && Elements(doc.unlinked) == Elements(old(doc.unlinked)) + {n}
  {
    hide XMLDocument.Valid, ShowsContent, Elements;
    n := doc.NewNode(KindOf(x));
    ElementsWith(old(doc.unlinked), n);
    Fill(n, x);
  }

  lemma AloneInDocument(doc: XMLDocument, node: XMLNode)
    requires doc.Valid() && node in doc.nodes && node.parent == null && node.kids == []
    ensures doc.Subtree(node) == {node}
    ensures forall n :: n in doc.nodes ==> Without(n.kids, node) == n.kids
  {
    hide XMLDocument.Shape, XMLDocument.Paths, XMLDocument.Owned, XMLDocument.Counted, Without;
    doc.ChildlessSubtree(node);
    doc.OthersWithout(node);
  }

  /** The node of an end tag is made, and deleted at once. */
  method MakeAndDelete(doc: XMLDocument, ghost u: Snapshot)
    requires doc.Valid() && Since(doc, u) && u.nodes == doc.nodes
    modifies doc`nodes, doc`made, doc`unlinked, doc.Counters()`currentAllocs, doc.Counters()`untracked
    modifies doc.nodes`firstChild, doc.nodes`lastChild, doc.nodes`next, doc.nodes`prev
    modifies doc.nodes`parent, doc.nodes`kids, doc.nodes`path
    ensures doc.Valid() && Since(doc, u) && doc.nodes == old(doc.nodes)
    ensures doc.made == old(doc.made) + 1
    ensures Elements(doc.unlinked) == Elements(old(doc.unlinked))
  {
    hide XMLDocument.Valid, Elements, XMLDocument.Subtree, Without;
    Loose(doc);
    var node := doc.NewNode(ElementKind);
    ElementsWith(old(doc.unlinked), node);
    AloneInDocument(doc, node);
    doc.DeleteNode(node);
  }

  lemma Loose(doc: XMLDocument)
    requires doc.Valid()
    ensures Elements(doc.unlinked) <= doc.nodes && doc.root in doc.nodes
  {
    hide XMLDocument.Paths, XMLDocument.Counted;
    doc.RootIsTop();
    UnlinkedInside(doc);
  }

  /** The last turn of the loop, at an end tag. */
  method EndTag(doc: XMLDocument, ghost parent: XMLNode, ghost tree: map<XMLNode, Xml>, ghost xs: seq<Xml>,
                ghost t: Snapshot, ghost before: set<XMLNode>, ghost loose: set<XMLNode>)
    requires Grown(doc, parent, tree, xs, t) && Holds(doc, before, tree.Keys, loose)
    modifies doc`nodes, doc`made, doc`unlinked, doc.Counters()`currentAllocs, doc.Counters()`untracked
    modifies doc.nodes`firstChild, doc.nodes`lastChild, doc.nodes`next, doc.nodes`prev
    modifies doc.nodes`parent, doc.nodes`kids, doc.nodes`path
    ensures Grown(doc, parent, tree, xs, t) && Holds(doc, before, tree.Keys, loose)
    ensures doc.made == old(doc.made) + 1
  {
    hide *;
    ghost var u, v := Snap(doc), Except(Snap(doc), parent);
    GrownParts(doc, parent, tree, xs, t);
    Freeze(doc, parent, tree, xs, t);
    SnapParts(doc);
    SinceNow(doc);
    WithinSnap(doc, v);
    HoldsParts(doc, before, tree.Keys, loose);
    MakeAndDelete(doc, u);
    SinceWithin(doc, v, u);
    StillThere(doc, u, parent);
    Thaw(doc, tree, t, v);
    GrownIntro(doc, parent, tree, xs, t);
    HoldsIntro(doc, before, tree.Keys, loose);
  }

  lemma MadeParts(node: Grammar.Node)
    ensures node.Element? ==> MadeFor(node) == 1 + MadeForAll(node.children) + (if node.closing.Some? then 1 else 0)
    ensures !node.Element? ==> MadeFor(node) == 1
  {
  }

  lemma ReadParts(s: string, node: Grammar.Node, options: Spans.Options)
    ensures node.Element? ==>
      ChildrenOf(ReadNode(s, node, options)) == ReadNodes(s, node.children, options)
    ensures !node.Element? ==> ChildrenOf(ReadNode(s, node, options)) == []
  {
  }

  lemma {:induction false} ReadAppend(s: string, nodes: seq<Grammar.Node>, node: Grammar.Node, options: Spans.Options)
    ensures ReadNodes(s, nodes + [node], options) == ReadNodes(s, nodes, options) + [ReadNode(s, node, options)]
  {
    hide ReadNode;
    if nodes != [] {
      assert (nodes + [node])[1..] == nodes[1..] + [node];
      ReadAppend(s, nodes[1..], node, options);
    }
  }

  /** InsertEndChild of a node whose own children are all linked. */
  method Hang(doc: XMLDocument, parent: XMLNode, n: XMLNode, ghost below: map<XMLNode, Xml>, ghost x: Xml, ghost t: Snapshot)
    requires doc.Valid() && Since(doc, t) && parent in doc.nodes && parent.path == [] && parent !in t.nodes
    requires n in doc.nodes && n.parent == null && n != doc.root && n != parent && n !in t.nodes
    requires forall m :: m in t.nodes ==> n !in t.paths[m]
    requires below.Keys <= doc.nodes && n !in below && parent !in below
    requires AllShown(below) && ShowsContent(n, x) && ShowsKids(below, n.kids, ChildrenOf(x))
    modifies doc`unlinked, doc.Counters()`untracked
    modifies doc.nodes`firstChild, doc.nodes`lastChild, doc.nodes`next, doc.nodes`prev
    modifies doc.nodes`parent, doc.nodes`kids, doc.nodes`path
    ensures doc.Valid() && Since(doc, t)
    ensures parent.kids == old(parent.kids) + [n] && parent.parent == old(parent.parent) && parent.path == []
    ensures Elements(doc.unlinked) == Elements(old(doc.unlinked)) - {n}
    ensures AllShown(below[n := x]) && below[n := x].Keys == below.Keys + {n}
  {
    hide XMLDocument.Valid, Elements, ShowsContent, ShowsKids, ChildrenOf, Since;
    Insert(doc, doc, parent, n, t, t);
    forall m | m in below
      ensures ShowsKids(below, m.kids, ChildrenOf(below[m]))
    {
      assert m in doc.nodes && m != parent;
    }
    TopShown(below, n, x);
  }

  /** Identify and the ParseDeep of a node: it is made, and what is below it linked. */
  method MakeWhole(doc: XMLDocument, s: string, node: Grammar.Node, options: Spans.Options, ghost u: Snapshot)
    returns (n: XMLNode, ghost below: map<XMLNode, Xml>)
    requires doc.Valid() && Since(doc, u) && u.nodes == doc.nodes
    modifies doc`nodes, doc`made, doc`unlinked, doc.Counters()`currentAllocs, doc.Counters()`untracked
    modifies doc.nodes`firstChild, doc.nodes`lastChild, doc.nodes`next, doc.nodes`prev
    modifies doc.nodes`parent, doc.nodes`kids, doc.nodes`path
    ensures fresh(n) && fresh(below.Keys)
    ensures ShowsContent(n, ReadNode(s, node, options))
    ensures n.memPool == doc.PoolFor(KindOf(ReadNode(s, node, options)))
    ensures Grown(doc, n, below, ChildrenOf(ReadNode(s, node, options)), u)
    ensures Holds(doc, old(doc.nodes) + {n}, below.Keys, Elements(old(doc.unlinked)) + {n})
    ensures doc.made == old(doc.made) + MadeFor(node)
    decreases node, 0
  {
    hide *;
    ReadParts(s, node, options);
    MadeParts(node);
    n := Make(doc, ReadNode(s, node, options), u);
    if node.Element? {
      below := LinkAll(doc, n, s, node.children, node.closing.Some?, options, u);
    } else {
      below := map[];
      GrownStart(doc, n, u);
      NoKeys(below);
      HoldsIntro(doc, doc.nodes, below.Keys, Elements(doc.unlinked));
    }
  }

  /** One turn of the loop: a node with everything below it becomes the last child of
      `parent`; the nodes of `t` stay where they are. */
  method LinkNode(doc: XMLDocument, parent: XMLNode, s: string, node: Grammar.Node, options: Spans.Options, ghost t: Snapshot)
    returns (n: XMLNode, ghost tree: map<XMLNode, Xml>)
    requires doc.Valid() && Since(doc, t) && parent in doc.nodes && parent !in t.nodes
    requires parent.parent == null && parent.path == []
    modifies doc`nodes, doc`made, doc`unlinked, doc.Counters()`currentAllocs, doc.Counters()`untracked
    modifies doc.nodes`firstChild, doc.nodes`lastChild, doc.nodes`next, doc.nodes`prev
    modifies doc.nodes`parent, doc.nodes`kids, doc.nodes`path
    ensures doc.Valid() && Since(doc, t) && parent in doc.nodes && parent.parent == null && parent.path == []
    ensures parent.kids == old(parent.kids) + [n] && n in tree && tree[n] == ReadNode(s, node, options)
    ensures fresh(tree.Keys) && AllShown(tree) && Counts(doc, tree.Keys, [ReadNode(s, node, options)])
    ensures Holds(doc, old(doc.nodes), tree.Keys, Elements(old(doc.unlinked)))
    ensures doc.made == old(doc.made) + MadeFor(node)
    decreases node, 1
  {
    hide *;
    ghost var u, x, made, loose := Snap(doc), ReadNode(s, node, options), doc.nodes, Elements(doc.unlinked);
    SnapParts(doc);
    SinceNow(doc);
    WithinSnap(doc, t);
    Before(doc, parent, doc, t, t);
    ghost var below;
    n, below := MakeWhole(doc, s, node, options, u);
    GrownParts(doc, n, below, ChildrenOf(x), u);
    HoldsParts(doc, made + {n}, below.Keys, loose + {n});
    StillThere(doc, u, parent);
    SinceWithin(doc, t, u);
    Hang(doc, parent, n, below, x, t);
    tree := below[n := x];
    CountsTop(doc, n, below.Keys, x);
    AddedAndHung(doc, made, n, below.Keys, loose);
  }

  lemma AddedAndHung(doc: XMLDocument, made: set<XMLNode>, n: XMLNode, below: set<XMLNode>, loose: set<XMLNode>)
    requires doc.nodes == made + {n} + below && Elements(doc.unlinked) == loose + {n} - {n} && n !in loose
    ensures Holds(doc, made, below + {n}, loose)
  {
    hide Elements;
  }

  method LinkNext(doc: XMLDocument, parent: XMLNode, s: string, node: Grammar.Node, options: Spans.Options,
                  ghost tree: map<XMLNode, Xml>, ghost xs: seq<Xml>, ghost t: Snapshot,
                  ghost before: set<XMLNode>, ghost loose: set<XMLNode>)
    returns (ghost more: map<XMLNode, Xml>)
    requires Grown(doc, parent, tree, xs, t) && Holds(doc, before, tree.Keys, loose)
    modifies doc`nodes, doc`made, doc`unlinked, doc.Counters()`currentAllocs, doc.Counters()`untracked
    modifies doc.nodes`firstChild, doc.nodes`lastChild, doc.nodes`next, doc.nodes`prev
    modifies doc.nodes`parent, doc.nodes`kids, doc.nodes`path
    ensures Grown(doc, parent, more, xs + [ReadNode(s, node, options)], t) && Holds(doc, before, more.Keys, loose)
    ensures tree.Keys <= more.Keys && fresh(more.Keys - tree.Keys)
    ensures doc.made == old(doc.made) + MadeFor(node)
    decreases node, 2
  {
    hide *;
    ghost var v, made := Except(Snap(doc), parent), parent.kids;
    GrownParts(doc, parent, tree, xs, t);
    Freeze(doc, parent, tree, xs, t);
    HoldsParts(doc, before, tree.Keys, loose);
    var n, sub := LinkNode(doc, parent, s, node, options, v);
    Thaw(doc, tree, t, v);
    HoldsParts(doc, before + tree.Keys, sub.Keys, loose);
    JoinTrees(tree, sub);
    KidsJoin(tree, sub, made, xs, n, ReadNode(s, node, options));
    CountsJoin(doc, tree.Keys, xs, sub.Keys, ReadNode(s, node, options));
    more := tree + sub;
    GrownIntro(doc, parent, more, xs + [ReadNode(s, node, options)], t);
    HoldsIntro(doc, before, more.Keys, loose);
  }

  /** The node loop for an element or document without children. */
  method LinkAll(doc: XMLDocument, parent: XMLNode, s: string, nodes: seq<Grammar.Node>, endTag: bool,
                 options: Spans.Options, ghost t: Snapshot)
    returns (ghost tree: map<XMLNode, Xml>)
    requires doc.Valid() && Since(doc, t) && parent in doc.nodes && parent !in t.nodes
    requires parent.parent == null && parent.path == [] && parent.kids == []
    modifies doc`nodes, doc`made, doc`unlinked, doc.Counters()`currentAllocs, doc.Counters()`untracked
    modifies doc.nodes`firstChild, doc.nodes`lastChild, doc.nodes`next, doc.nodes`prev
    modifies doc.nodes`parent, doc.nodes`kids, doc.nodes`path
    ensures Grown(doc, parent, tree, ReadNodes(s, nodes, options), t) && fresh(tree.Keys)
    ensures Holds(doc, old(doc.nodes), tree.Keys, Elements(old(doc.unlinked)))
    ensures doc.made == old(doc.made) + MadeForAll(nodes) + (if endTag then 1 else 0)
    decreases nodes, 3
  {
    hide *;
    ghost var before, loose := doc.nodes, Elements(doc.unlinked);
    tree := map[];
    GrownStart(doc, parent, t);
    NothingRead(s, nodes, options);
    NoneMade(nodes);
    NoKeys(tree);
    HoldsIntro(doc, before, {}, loose);
    var i := 0;
    while i < |nodes|
      invariant 0 <= i <= |nodes|
      invariant Grown(doc, parent, tree, ReadNodes(s, nodes[..i], options), t)
      invariant Holds(doc, before, tree.Keys, loose) && fresh(tree.Keys)
      invariant doc.made == old(doc.made) + MadeForAll(nodes[..i])
    {
      ReadNext(s, nodes, i, options);
      MadeForNext(nodes, i);
      HoldsParts(doc, before, tree.Keys, loose);
      tree := LinkNext(doc, parent, s, nodes[i], options, tree, ReadNodes(s, nodes[..i], options), t, before, loose);
      i := i + 1;
    }
    assert nodes[..i] == nodes;
    HoldsParts(doc, before, tree.Keys, loose);
    if endTag {
      EndTag(doc, parent, tree, ReadNodes(s, nodes, options), t, before, loose);
    }
  }

  lemma NoneMade(nodes: seq<Grammar.Node>)
    ensures MadeForAll(nodes[..0]) == 0
  {
  }

  lemma NothingRead(s: string, nodes: seq<Grammar.Node>, options: Spans.Options)
    ensures ReadNodes(s, nodes[..0], options) == []
  {
  }

  lemma ReadNext(s: string, nodes: seq<Grammar.Node>, i: nat, options: Spans.Options)
    requires i < |nodes|
    ensures ReadNodes(s, nodes[..i + 1], options) == ReadNodes(s, nodes[..i], options) + [ReadNode(s, nodes[i], options)]
  {
    hide ReadNode, ReadNodes;
    ReadAppend(s, nodes[..i], nodes[i], options);
    assert nodes[..i + 1] == nodes[..i] + [nodes[i]];
  }

  lemma NoKeys(tree: map<XMLNode, Xml>)
    requires tree == map[]
    ensures tree.Keys == {}
  {
  }

  // ----- Documents -----

  /** A node stands for one tree only. */
  lemma {:induction false} ShownOnce(a: map<XMLNode, Xml>, b: map<XMLNode, Xml>, n: XMLNode)
    requires AllShown(a) && AllShown(b) && n in a && n in b
    ensures a[n] == b[n]
    decreases a[n]
  {
    var x, y := a[n], b[n];
    assert ShowsContent(n, x) && ShowsContent(n, y);
    if x.ElementNode? {
      PairsOnce(x.attributes, y.attributes);
      forall j | 0 <= j < |x.children|
        ensures x.children[j] == y.children[j]
      {
        ShownOnce(a, b, n.kids[j]);
      }
      assert x.children == y.children;
    }
  }

  lemma PairsOnce(a: seq<Attr>, b: seq<Attr>)
    requires Pairs(a) == Pairs(b)
    ensures a == b
  {
    assert |Pairs(a)| == |a| && |Pairs(b)| == |b|;
    forall i | 0 <= i < |a|
      ensures a[i] == b[i]
    {
      assert Pairs(a)[i] == Pairs(b)[i];
    }
  }

  /** The derivation of an accepted text, and whether an end tag stands behind it. */
  function Derived(xml: string): (r: (seq<Grammar.Node>, bool))
    requires Grammar.ParseDocument(xml).Parsed?
    ensures r.0 == Grammar.ParseDocument(xml).nodes
    ensures r.1 <==> Grammar.ParseNodes(xml, Grammar.ContentStart(xml), 0, true).Closed?
  {
    match Grammar.ParseNodes(xml, Grammar.ContentStart(xml), 0, true)
    case Closed(nodes, _, _) => (nodes, true)
    case Ended(nodes) => (nodes, false)
  }

  /** Parse, for a text without errors: whatever the document held before, its children
      become the nodes of the derivation, in order and with everything below them; no
      node is left unlinked, and each pool counts the nodes of its kinds. */
  method Parse(doc: XMLDocument, xml: string, options: Spans.Options) returns (ghost tree: map<XMLNode, Xml>)
    requires doc.Valid() && Grammar.ParseDocument(xml).Parsed?
    modifies doc`nodes, doc`made, doc`unlinked, doc.Counters()`currentAllocs, doc.Counters()`untracked
    modifies doc.nodes`firstChild, doc.nodes`lastChild, doc.nodes`next, doc.nodes`prev
    modifies doc.nodes`parent, doc.nodes`kids, doc.nodes`path
    ensures doc.Valid() && fresh(tree.Keys) && doc.nodes == {doc.root} + tree.Keys && doc.unlinked == []
    ensures AllShown(tree)
    ensures ShowsKids(tree, doc.root.kids, ReadNodes(xml, Grammar.ParseDocument(xml).nodes, options))
    ensures forall pool :: pool in doc.Counters() ==>
      && pool.untracked == 0
      && pool.currentAllocs == Count(doc, pool, ReadNodes(xml, Grammar.ParseDocument(xml).nodes, options))
    ensures doc.made == old(doc.made) + MadeForAll(Grammar.ParseDocument(xml).nodes)
      + (if Grammar.ParseNodes(xml, Grammar.ContentStart(xml), 0, true).Closed? then 1 else 0)
  {
    hide *;
    ValidParts(doc);
    doc.RootIsTop();
    doc.Clear();
    Cleared(doc);
    var (nodes, endTag) := Derived(xml);
    tree := LinkAll(doc, doc.root, xml, nodes, endTag, options, NO_NODES);
    GrownParts(doc, doc.root, tree, ReadNodes(xml, nodes, options), NO_NODES);
    HoldsParts(doc, {doc.root}, tree.Keys, {});
    AllLinked(doc, tree, ReadNodes(xml, nodes, options));
  }

  lemma Cleared(doc: XMLDocument)
    requires doc.Valid() && doc.nodes == {doc.root} && doc.unlinked == []
    ensures Since(doc, NO_NODES) && doc.root !in NO_NODES.nodes && Elements(doc.unlinked) == {}
    ensures doc.root.parent == null && doc.root.path == []
  {
    hide XMLDocument.Counted;
    NothingSince(doc);
    doc.RootIsTop();
  }

  lemma AllLinked(doc: XMLDocument, tree: map<XMLNode, Xml>, xs: seq<Xml>)
    requires doc.Valid() && doc.nodes == {doc.root} + tree.Keys && doc.root !in tree && Elements(doc.unlinked) == {}
    requires Counts(doc, tree.Keys, xs)
    ensures doc.unlinked == []
    ensures forall pool :: pool in doc.Counters() ==> pool.untracked == 0 && pool.currentAllocs == Count(doc, pool, xs)
  {
    hide XMLDocument.Shape, XMLDocument.Paths, Count;
    SetOf(doc.unlinked);
    forall pool | pool in doc.Counters()
      ensures pool.untracked == 0 && pool.currentAllocs == Count(doc, pool, xs)
    {
      assert doc.PoolCounts(pool, {});
      assert InPool({}, pool) == {};
      InPoolWith(tree.Keys, doc.root, pool);
      assert tree.Keys + {doc.root} == doc.nodes;
    }
  }

  /** Parsing the compact print of a printable document gives a document that shows it. */
  method ParsePrinted(doc: XMLDocument, xs: seq<Xml>) returns (ghost tree: map<XMLNode, Xml>)
    requires doc.Valid() && PrintableDocument(xs)
    modifies doc`nodes, doc`made, doc`unlinked, doc.Counters()`currentAllocs, doc.Counters()`untracked
    modifies doc.nodes`firstChild, doc.nodes`lastChild, doc.nodes`next, doc.nodes`prev
    modifies doc.nodes`parent, doc.nodes`kids, doc.nodes`path
    ensures doc.Valid() && fresh(tree.Keys) && doc.nodes == {doc.root} + tree.Keys && doc.unlinked == []
    ensures AllShown(tree) && ShowsKids(tree, doc.root.kids, xs)
  {
    hide *;
    RoundTrip.PrintThenParse(xs);
    tree := Parse(doc, PrintNodes(xs), Spans.Options(true, false));
  }
}
