/** Shallow and deep copies of nodes (server/tinyxml2.cpp), within a document or
    into another one. */
module DomCopy {
  import opened Dom
  import opened Lists

  // ----- Attributes -----

  predicate DistinctNames(attributes: seq<(string, string)>) {
    forall i, j :: 0 <= i < j < |attributes| ==> attributes[i].0 != attributes[j].0
  }

  predicate HasName(attributes: seq<(string, string)>, name: string) {
    exists i :: 0 <= i < |attributes| && attributes[i].0 == name
  }

  /** Sets an attribute, at the end of the list if it is new. */
  method SetAttribute(element: XMLNode, name: string, value: string)
    modifies element`attributes
    ensures old(DistinctNames(element.attributes)) ==> DistinctNames(element.attributes)
    ensures old(!HasName(element.attributes, name)) ==>
      element.attributes == old(element.attributes) + [(name, value)]
    ensures old(HasName(element.attributes, name)) ==>
      && |element.attributes| == |old(element.attributes)|
      && exists i :: 0 <= i < |element.attributes| && old(element.attributes)[i].0 == name
           && element.attributes == old(element.attributes)[i := (name, value)]
  {
    var i := 0;
    while i < |element.attributes| && element.attributes[i].0 != name
      invariant 0 <= i <= |element.attributes|
      invariant forall j :: 0 <= j < i ==> element.attributes[j].0 != name
    {
      i := i + 1;
    }
    if i == |element.attributes| {
      element.attributes := element.attributes + [(name, value)];
    } else {
      element.attributes := element.attributes[i := (name, value)];
    }
  }

  ghost predicate SameContent(a: XMLNode, b: XMLNode)
    reads a`value, a`isCData, a`attributes, b`value, b`isCData, b`attributes
  {
    && a.kind == b.kind && (a.kind != DocumentKind ==> a.value == b.value)
    && (a.kind == TextKind ==> a.isCData == b.isCData)
    && (a.kind == ElementKind ==> a.attributes == b.attributes)
  }

  // ----- Shallow copies -----

  /** A new node of the target with the same content; null for a document. */
  method ShallowClone(node: XMLNode, target: XMLDocument) returns (clone: XMLNode?)
    requires target.Valid() && DistinctNames(node.attributes)
    modifies target`nodes, target`made, target`unlinked, target.Counters()`currentAllocs, target.Counters()`untracked
    ensures target.Valid()
    ensures node.kind == DocumentKind ==>
      clone == null && target.nodes == old(target.nodes) && target.unlinked == old(target.unlinked)
    ensures node.kind != DocumentKind ==>
      && clone != null && fresh(clone) && SameContent(clone, node)
      && clone.document == target && clone.parent == null && clone.kids == [] && clone.path == []
      && target.nodes == old(target.nodes) + {clone} && target.unlinked == old(target.unlinked) + [clone]
  {
    hide XMLDocument.Valid;
    if node.kind == DocumentKind {
      return null;
    }
    var r: XMLNode := target.NewNode(node.kind);
    r.value := node.value;
    if node.kind == TextKind {
      r.isCData := node.isCData;
    } else if node.kind == ElementKind {
      var i := 0;
      while i < |node.attributes|
        invariant 0 <= i <= |node.attributes| && r.attributes == node.attributes[..i]
        invariant target.Valid() && fresh(r)
        modifies r`attributes
      {
        SetAttribute(r, node.attributes[i].0, node.attributes[i].1);
        i := i + 1;
      }
    }
    clone := r;
  }

  // ----- What a deep copy is -----

  /** `copy` takes `n` to a node with the same content, whose children are the copies
      of the children of `n`, in order. */
  ghost predicate Copied(copy: map<XMLNode, XMLNode>, n: XMLNode)
    reads n`value, n`isCData, n`attributes, n`kids
    reads Image(copy, n)`value, Image(copy, n)`isCData, Image(copy, n)`attributes, Image(copy, n)`kids
  {
    n in copy && SameContent(copy[n], n) && CopiedKids(copy, copy[n].kids, n.kids)
  }

  predicate CopiedKids(copy: map<XMLNode, XMLNode>, made: seq<XMLNode>, kids: seq<XMLNode>) {
    |made| == |kids| && forall i :: 0 <= i < |kids| ==> kids[i] in copy && made[i] == copy[kids[i]]
  }

  function Image(copy: map<XMLNode, XMLNode>, n: XMLNode): set<XMLNode> {
    if n in copy then {copy[n]} else {}
  }

  predicate Injective(copy: map<XMLNode, XMLNode>) {
    forall a, b :: a in copy && b in copy && a != b ==> copy[a] != copy[b]
  }

  /** `copy` is an isomorphism on the nodes `all`. */
  ghost predicate IsCopy(copy: map<XMLNode, XMLNode>, all: set<XMLNode>)
    reads all`value, all`isCData, all`attributes, all`kids
    reads copy.Values`value, copy.Values`isCData, copy.Values`attributes, copy.Values`kids
  {
    copy.Keys == all && Injective(copy) && forall n :: n in all ==> Copied(copy, n)
  }

  function Union(sets: seq<set<XMLNode>>): set<XMLNode> {
    if sets == [] then {} else Union(sets[..|sets| - 1]) + sets[|sets| - 1]
  }

  lemma UnionAppend(sets: seq<set<XMLNode>>, s: set<XMLNode>)
    ensures Union(sets + [s]) == Union(sets) + s
  {
    assert (sets + [s])[..|sets|] == sets;
  }

  lemma UnionOfNone(sets: seq<set<XMLNode>>)
    ensures Union(sets[..0]) == {}
  {
  }

  lemma ElementsWith(list: seq<XMLNode>, x: XMLNode)
    ensures Elements(list + [x]) == Elements(list) + {x}
  {
  }

  lemma {:induction false} InUnion(sets: seq<set<XMLNode>>, n: XMLNode)
    ensures n in Union(sets) <==> exists j :: 0 <= j < |sets| && n in sets[j]
  {
    if sets != [] {
      var last := |sets| - 1;
      InUnion(sets[..last], n);
      if n in Union(sets[..last]) {
        var j :| 0 <= j < last && n in sets[..last][j];
        assert n in sets[j];
      }
      if j :| 0 <= j < |sets| && n in sets[j] {
        assert j < last ==> n in sets[..last][j];
      }
    }
  }

  /** Two copies with nothing in common make one. */
  lemma JoinCopies(a: map<XMLNode, XMLNode>, b: map<XMLNode, XMLNode>)
    requires Injective(a) && Injective(b) && a.Keys !! b.Keys && a.Values !! b.Values
    ensures Injective(a + b) && (a + b).Keys == a.Keys + b.Keys && (a + b).Values == a.Values + b.Values
    ensures forall n :: n in a ==> (a + b)[n] == a[n]
    ensures forall n :: n in b ==> (a + b)[n] == b[n]
  {
    var c := a + b;
    assert forall n :: n in c ==> c[n] in a.Values || c[n] in b.Values;
    forall v | v in a.Values + b.Values
      ensures v in c.Values
    {
      if v in a.Values {
        var n :| n in a && a[n] == v;
        assert c[n] == v;
      } else {
        var n :| n in b && b[n] == v;
        assert c[n] == v;
      }
    }
    forall m, n | m in c && n in c && m != n
      ensures c[m] != c[n]
    {
      assert c[m] in (if m in a then a.Values else b.Values);
      assert c[n] in (if n in a then a.Values else b.Values);
    }
  }

  lemma CopiedInLarger(small: map<XMLNode, XMLNode>, large: map<XMLNode, XMLNode>, n: XMLNode)
    requires Copied(small, n) && forall m :: m in small ==> m in large && large[m] == small[m]
    ensures Copied(large, n)
  {
  }

  // ----- Subtrees while nodes are added elsewhere -----

  function SubtreeBy(all: set<XMLNode>, paths: map<XMLNode, seq<XMLNode>>, x: XMLNode): set<XMLNode>
    requires all <= paths.Keys
  {
    set n | n in all && (n == x || x in paths[n])
  }

  lemma {:induction false} NothingAbove(doc: XMLDocument, all: set<XMLNode>, x: XMLNode, n: XMLNode)
    requires doc.Shape() && doc.Paths() && all <= doc.nodes && x in all && n in doc.nodes && n !in all
    requires forall m, c :: m in all && c in m.kids ==> c in all
    ensures x !in n.path
    decreases |n.path|
  {
    if n.parent != null {
      doc.Member(n);
      NothingAbove(doc, all, x, n.parent);
    }
  }

  /** Nodes added to a document, but to the children of none of `all`, leave the
      subtrees of these as they were. */
  lemma SubtreesKept(doc: XMLDocument, all: set<XMLNode>, paths: map<XMLNode, seq<XMLNode>>)
    requires doc.Shape() && doc.Paths() && all <= doc.nodes && all <= paths.Keys
    requires forall m, c :: m in all && c in m.kids ==> c in all
    requires forall n :: n in all ==> n.path == paths[n]
    ensures forall x :: x in all ==> doc.Subtree(x) == SubtreeBy(all, paths, x)
  {
    forall x | x in all
      ensures doc.Subtree(x) == SubtreeBy(all, paths, x)
    {
      forall n | n in doc.nodes && n !in all
        ensures x !in n.path
      {
        NothingAbove(doc, all, x, n);
      }
    }
  }

  /** The ancestor of `n` at depth `d`, or `n` itself when it is not deeper. */
  ghost function AtDepth(n: XMLNode, d: nat): XMLNode
    reads n`path
  {
    if d < |n.path| then n.path[d] else n
  }

  lemma SiblingsApart(doc: XMLDocument, a: XMLNode, b: XMLNode)
    requires doc.Paths() && a in doc.nodes && b in doc.nodes && a != b && a.parent != null && a.parent == b.parent
    ensures doc.Subtree(a) !! doc.Subtree(b)
  {
    assert a.path == b.path;
    Branch(doc, a);
    Branch(doc, b);
  }

  lemma Branch(doc: XMLDocument, a: XMLNode)
    requires doc.Paths() && a in doc.nodes
    ensures forall n :: n in doc.Subtree(a) ==> AtDepth(n, |a.path|) == a
  {
    forall n | n in doc.Subtree(a)
      ensures AtDepth(n, |a.path|) == a
    {
      if a in n.path {
        doc.BelowIsDeeper(n, a);
      }
    }
  }

  /** Below a node: itself, and what is below its children. */
  lemma {:induction false} BelowChildren(doc: XMLDocument, x: XMLNode, n: XMLNode)
    requires doc.Shape() && doc.Paths() && x in doc.nodes && n in doc.nodes && x in n.path
    ensures exists i :: 0 <= i < |x.kids| && n in doc.Subtree(x.kids[i])
    decreases |n.path|
  {
    doc.Member(n);
    if n.parent == x {
      assert x.kids[IndexOf(x.kids, n)] == n;
    } else {
      BelowChildren(doc, x, n.parent);
      var i :| 0 <= i < |x.kids| && n.parent in doc.Subtree(x.kids[i]);
      assert n in doc.Subtree(x.kids[i]);
    }
  }

  // ----- Deep copies -----

  lemma DocumentsApart(source: XMLDocument, target: XMLDocument)
    requires source.Owned({}) && target.Owned({}) && source != target
    ensures source.nodes !! target.nodes
  {
    assert forall n :: n in source.nodes ==> n.document == source;
    assert forall n :: n in target.nodes ==> n.document == target;
  }

  lemma CountersApart(source: XMLDocument, target: XMLDocument, a: set<XMLNode>, b: set<XMLNode>)
    requires source.Counted(a) && target.Counted(b) && source != target
    ensures source.Counters() !! target.Counters()
  {
    assert forall p :: p in source.Counters() ==> p.owner == source;
    assert forall p :: p in target.Counters() ==> p.owner == target;
  }

  /** Where some nodes of a document stood at some time. */
  datatype Snapshot = Snapshot(nodes: set<XMLNode>, kids: map<XMLNode, seq<XMLNode>>,
                               parents: map<XMLNode, XMLNode?>, paths: map<XMLNode, seq<XMLNode>>)

  ghost function Snap(doc: XMLDocument): Snapshot
    reads doc`nodes, doc.nodes`kids, doc.nodes`parent, doc.nodes`path
  {
    Snapshot(doc.nodes, map n | n in doc.nodes :: n.kids, map n | n in doc.nodes :: n.parent,
             map n | n in doc.nodes :: n.path)
  }

  /** Those nodes still stand there. */
  ghost predicate Since(doc: XMLDocument, s: Snapshot)
    reads doc`nodes, doc.nodes`kids, doc.nodes`parent, doc.nodes`path
  {
    && s.nodes <= doc.nodes && s.nodes == s.kids.Keys == s.parents.Keys == s.paths.Keys
    && forall n :: n in s.nodes ==> n.kids == s.kids[n] && n.parent == s.parents[n] && n.path == s.paths[n]
  }

  /** What `s` says of its nodes, `later` says too. */
  predicate Within(s: Snapshot, later: Snapshot) {
    && s.nodes <= later.nodes && s.nodes == s.kids.Keys == s.parents.Keys == s.paths.Keys
    && later.nodes == later.kids.Keys == later.parents.Keys == later.paths.Keys
    && forall n :: n in s.nodes ==>
         s.kids[n] == later.kids[n] && s.parents[n] == later.parents[n] && s.paths[n] == later.paths[n]
  }

  lemma SinceWithin(doc: XMLDocument, s: Snapshot, later: Snapshot)
    requires Since(doc, later) && Within(s, later)
    ensures Since(doc, s)
  {
  }

  /** The snapshot without one of its nodes. */
  function Except(s: Snapshot, x: XMLNode): Snapshot {
    Snapshot(s.nodes - {x}, s.kids - {x}, s.parents - {x}, s.paths - {x})
  }

  lemma SnapParts(doc: XMLDocument)
    ensures var s := Snap(doc);
      && s.nodes == s.kids.Keys == s.parents.Keys == s.paths.Keys == doc.nodes
      && forall n :: n in doc.nodes ==> s.kids[n] == n.kids && s.parents[n] == n.parent && s.paths[n] == n.path
  {
  }

  lemma WithinSnap(doc: XMLDocument, s: Snapshot)
    requires Since(doc, s)
    ensures Within(s, Snap(doc))
  {
  }

  lemma WithinExcept(doc: XMLDocument, s: Snapshot, x: XMLNode)
    requires Since(doc, s) && x !in s.nodes
    ensures Within(s, Except(Snap(doc), x)) && Since(doc, Except(Snap(doc), x))
  {
  }

  lemma SinceNow(doc: XMLDocument)
    ensures Since(doc, Snap(doc))
  {
  }

  /** InsertEndChild, for a node in no tree; the nodes of `s` and `t` stay in place. */
  method Insert(source: XMLDocument, target: XMLDocument, clone: XMLNode, r: XMLNode, ghost s: Snapshot, ghost t: Snapshot)
    requires source.Valid() && target.Valid() && clone in target.nodes && clone.path == []
    requires r in target.nodes && r.parent == null && r != target.root && r != clone
    requires Since(source, s) && Since(target, t) && r !in s.nodes && r !in t.nodes && clone !in s.nodes && clone !in t.nodes
    requires forall n :: n in s.nodes ==> r !in s.paths[n]
    requires forall n :: n in t.nodes ==> r !in t.paths[n]
    modifies target`unlinked, target.Counters()`untracked
    modifies target.nodes`firstChild, target.nodes`lastChild, target.nodes`next, target.nodes`prev
    modifies target.nodes`parent, target.nodes`kids, target.nodes`path
    ensures source.Valid() && target.Valid() && Since(source, s) && Since(target, t)
    ensures clone.kids == old(clone.kids) + [r] && clone.parent == old(clone.parent) && clone.path == []
    ensures forall n :: n in target.nodes + source.nodes && n != clone ==> n.kids == old(n.kids)
    ensures Elements(target.unlinked) == Elements(old(target.unlinked)) - {r}
  {
    hide XMLDocument.Shape, XMLDocument.Paths, XMLDocument.Owned, XMLDocument.Counted, XMLDocument.MayInsert, Without;
    hide Elements;
    Apart(source, target);
    ReadyForInsert(target, clone, r);
    target.OthersWithout(r);
    var inserted := target.InsertEndChild(clone, r);
  }

  /** Puts the copy of a subtree in its place; the nodes of `s` and `t` stay in theirs. */
  method Hang(source: XMLDocument, target: XMLDocument, clone: XMLNode, r: XMLNode,
              ghost copy: map<XMLNode, XMLNode>, ghost all: set<XMLNode>, ghost s: Snapshot, ghost t: Snapshot)
    requires source.Valid() && target.Valid() && clone in target.nodes && clone.path == []
    requires r in target.nodes && r.parent == null && r != target.root && r != clone
    requires all <= source.nodes && clone !in all && copy.Values <= target.nodes && clone !in copy.Values
    requires IsCopy(copy, all)
    requires Since(source, s) && Since(target, t) && r !in s.nodes && r !in t.nodes && clone !in s.nodes && clone !in t.nodes
    requires forall n :: n in s.nodes ==> r !in s.paths[n]
    requires forall n :: n in t.nodes ==> r !in t.paths[n]
    modifies target`unlinked, target.Counters()`untracked
    modifies target.nodes`firstChild, target.nodes`lastChild, target.nodes`next, target.nodes`prev
    modifies target.nodes`parent, target.nodes`kids, target.nodes`path
    ensures source.Valid() && target.Valid() && IsCopy(copy, all) && target.nodes == old(target.nodes)
    ensures clone.kids == old(clone.kids) + [r] && clone.parent == old(clone.parent) && clone.path == []
    ensures Elements(target.unlinked) == Elements(old(target.unlinked)) - {r}
    ensures Since(source, s) && Since(target, t)
  {
    hide XMLDocument.Valid, Elements, Injective, CopiedKids, SameContent, Since;
    Insert(source, target, clone, r, s, t);
    forall n | n in all
      ensures Copied(copy, n)
    {
      assert old(Copied(copy, n)) && n.kids == old(n.kids) && copy[n].kids == old(copy[n].kids);
    }
  }

  /** Adds a copy of `child` and of what is below it as the last child of `clone`. */
  method CloneChild(source: XMLDocument, child: XMLNode, target: XMLDocument, clone: XMLNode,
                    ghost s: Snapshot, ghost t: Snapshot)
    returns (ghost copy: map<XMLNode, XMLNode>)
    requires source.Valid() && target.Valid() && child in source.nodes && child != source.root
    requires forall n :: n in source.Subtree(child) ==> DistinctNames(n.attributes)
    requires clone in target.nodes && clone.parent == null && clone.path == [] && clone !in source.Subtree(child)
    requires Since(source, s) && Since(target, t) && clone !in s.nodes && clone !in t.nodes
    modifies target`nodes, target`made, target`unlinked, target.Counters()`currentAllocs, target.Counters()`untracked
    modifies target.nodes`firstChild, target.nodes`lastChild, target.nodes`next, target.nodes`prev
    modifies target.nodes`parent, target.nodes`kids, target.nodes`path
    ensures child in copy && clone.kids == old(clone.kids) + [copy[child]]
    ensures clone.parent == null && clone.path == []
    ensures fresh(copy.Values) && target.nodes == old(target.nodes) + copy.Values
    ensures Elements(target.unlinked) == Elements(old(target.unlinked))
    ensures IsCopy(copy, old(source.Subtree(child)))
    ensures Since(source, s) && Since(target, t)
    ensures source.Valid() && target.Valid()
    decreases source.Subtree(child), 2
  {
    hide XMLDocument.Shape, XMLDocument.Paths, XMLDocument.Owned, XMLDocument.Counted, Since, Within, IsCopy, Snap;
    hide Elements, XMLDocument.Subtree;
    ghost var all := source.Subtree(child);
    Before(source, child, target, s, t);
    WithinSnap(source, s);
    WithinSnap(target, t);
    SnapParts(target);
    var r, c := DeepClone(source, child, target);
    copy := c;
    SinceWithin(source, s, old(Snap(source)));
    SinceWithin(target, t, old(Snap(target)));
    StillThere(target, old(Snap(target)), clone);
    Hang(source, target, clone, r, c, all, s, t);
  }

  /** What a snapshot says of one of its nodes. */
  lemma StillThere(doc: XMLDocument, s: Snapshot, n: XMLNode)
    requires Since(doc, s) && n in s.nodes
    ensures n in doc.nodes && n.kids == s.kids[n] && n.parent == s.parents[n] && n.path == s.paths[n]
  {
  }

  /** What is known of the documents, and of the snapshots, before new nodes are made. */
  lemma Before(source: XMLDocument, child: XMLNode, target: XMLDocument, s: Snapshot, t: Snapshot)
    requires source.Valid() && target.Valid() && child in source.nodes && Since(source, s) && Since(target, t)
    ensures forall n, x :: n in s.nodes && n in s.paths && x in s.paths[n] ==> x in source.nodes
    ensures forall n, x :: n in t.nodes && n in t.paths && x in t.paths[n] ==> x in target.nodes
    ensures s.nodes <= source.nodes && t.nodes <= target.nodes
    ensures s.nodes == s.paths.Keys && t.nodes == t.paths.Keys
    ensures target.root in target.nodes && Elements(target.unlinked) <= target.nodes
    ensures source.Subtree(child) <= source.nodes && child in source.Subtree(child)
  {
    hide XMLDocument.Shape, XMLDocument.Paths, XMLDocument.Owned, XMLDocument.Counted;
    PathsInside(source);
    PathsInside(target);
    UnlinkedInside(target);
    target.RootIsTop();
  }

  lemma Apart(source: XMLDocument, target: XMLDocument)
    requires source.Valid() && target.Valid()
    ensures source != target ==> source.nodes !! target.nodes && source.Counters() !! target.Counters()
  {
    hide XMLDocument.Shape, XMLDocument.Paths, XMLDocument.Owned, XMLDocument.Counted;
    if source != target {
      DocumentsApart(source, target);
      CountersApart(source, target, Elements(source.unlinked), Elements(target.unlinked));
    }
  }

  lemma KidsInside(doc: XMLDocument)
    requires doc.Shape()
    ensures forall m, c :: m in doc.nodes && c in m.kids ==> c in doc.nodes
  {
  }

  lemma UnlinkedInside(doc: XMLDocument)
    requires doc.Owned({})
    ensures Elements(doc.unlinked) <= doc.nodes
  {
  }

  lemma PathsInside(doc: XMLDocument)
    requires doc.Paths()
    ensures forall n, x :: n in doc.nodes && x in n.path ==> x in doc.nodes
  {
    forall n, x | n in doc.nodes && x in n.path
      ensures x in doc.nodes
    {
      doc.BelowIsDeeper(n, x);
    }
  }

  lemma ReadyForInsert(doc: XMLDocument, parent: XMLNode, x: XMLNode)
    requires doc.Owned({}) && parent in doc.nodes && parent.path == [] && x in doc.nodes && x != doc.root && x != parent
    ensures doc.MayInsert(parent, x) && x.document == doc
  {
  }

  /** `copy` is a copy of `node` and of what is below the first of its children, so far. */
  ghost predicate Partial(copy: map<XMLNode, XMLNode>, node: XMLNode, done: seq<XMLNode>)
    reads copy.Keys`value, copy.Keys`isCData, copy.Keys`attributes, copy.Keys`kids
    reads copy.Values`value, copy.Values`isCData, copy.Values`attributes, copy.Values`kids
  {
    && node in copy && SameContent(copy[node], node) && CopiedKids(copy, copy[node].kids, done)
    && Injective(copy) && forall n :: n in copy && n != node ==> Copied(copy, n)
  }

  lemma ValidParts(doc: XMLDocument)
    requires doc.Valid()
    ensures doc.Shape() && doc.Paths() && doc.Owned({}) && doc.Counted(Elements(doc.unlinked))
  {
  }

  lemma Single(node: XMLNode, clone: XMLNode)
    ensures map[node := clone].Keys == {node} && map[node := clone].Values == {clone}
  {
    var m := map[node := clone];
    assert m[node] == clone;
  }

  lemma PartialStart(node: XMLNode, clone: XMLNode)
    requires SameContent(clone, node) && clone.kids == []
    ensures Partial(map[node := clone], node, [])
  {
  }

  lemma PartialDone(copy: map<XMLNode, XMLNode>, node: XMLNode)
    requires Partial(copy, node, node.kids)
    ensures IsCopy(copy, copy.Keys)
  {
  }

  lemma PartialJoin(copy: map<XMLNode, XMLNode>, c: map<XMLNode, XMLNode>, node: XMLNode,
                    done: seq<XMLNode>, made: seq<XMLNode>, child: XMLNode)
    requires node in copy && SameContent(copy[node], node) && CopiedKids(copy, made, done)
    requires Injective(copy) && forall n :: n in copy && n != node ==> Copied(copy, n)
    requires IsCopy(c, c.Keys) && child in c && copy.Keys !! c.Keys && copy.Values !! c.Values
    requires copy[node].kids == made + [c[child]]
    ensures Partial(copy + c, node, done + [child])
    ensures (copy + c).Keys == copy.Keys + c.Keys && (copy + c).Values == copy.Values + c.Values
  {
    hide Copied, SameContent, Injective;
    JoinCopies(copy, c);
    var joined := copy + c;
    forall n | n in joined && n != node
      ensures Copied(joined, n)
    {
      if n in copy {
        CopiedInLarger(copy, joined, n);
      } else {
        CopiedInLarger(c, joined, n);
      }
    }
  }

  lemma KidFacts(source: XMLDocument, node: XMLNode)
    requires source.Shape() && node in source.nodes
    ensures forall j :: 0 <= j < |node.kids| ==> node.kids[j] in source.nodes && node.kids[j].parent == node
    ensures NoDuplicates(node.kids) && node.firstChild == At(node.kids, 0)
    ensures forall j :: 0 <= j < |node.kids| ==> node.kids[j] != source.root
  {
    hide XMLNode.Linked;
    source.ChainOf(node);
    source.RootIsTop();
  }

  /** The subtree of a node, cut up into those of its children. */
  lemma Branches(source: XMLDocument, node: XMLNode, subs: seq<set<XMLNode>>)
    requires source.Shape() && source.Paths() && node in source.nodes && |subs| == |node.kids|
    requires forall j :: 0 <= j < |subs| && node.kids[j] in source.nodes ==> subs[j] == source.Subtree(node.kids[j])
    ensures forall j :: 0 <= j < |subs| ==> node !in subs[j] && subs[j] <= source.Subtree(node)
    ensures forall j, k :: 0 <= j < k < |subs| ==> subs[j] !! subs[k]
    ensures source.Subtree(node) == {node} + Union(subs)
  {
    hide XMLDocument.Paths, XMLDocument.Shape, XMLDocument.Subtree;
    KidFacts(source, node);
    forall j | 0 <= j < |subs|
      ensures node !in subs[j] && subs[j] <= source.Subtree(node) && node.kids[j] in source.nodes
    {
      source.ChildSubtree(node, node.kids[j]);
    }
    forall j, k | 0 <= j < k < |subs|
      ensures subs[j] !! subs[k]
    {
      SiblingsApart(source, node.kids[j], node.kids[k]);
    }
    InOwnSubtree(source, node);
    forall n | n in Union(subs)
      ensures n in source.Subtree(node)
    {
      InUnion(subs, n);
    }
    forall n | n in source.Subtree(node) && n != node
      ensures n in Union(subs)
    {
      InSubtree(source, node, n);
      BelowChildren(source, node, n);
      InUnion(subs, n);
    }
  }

  lemma NextKid(source: XMLDocument, node: XMLNode, i: nat)
    requires source.Shape() && node in source.nodes && i < |node.kids|
    ensures node.kids[i].next == At(node.kids, i + 1)
  {
    hide XMLNode.Linked;
    source.ChainOf(node);
  }

  /** The next branch has nothing in common with the node and the branches before. */
  lemma BeforeNext(subs: seq<set<XMLNode>>, i: nat, node: XMLNode, all: set<XMLNode>)
    requires i < |subs| && node in all
    requires forall j :: 0 <= j < |subs| ==> node !in subs[j] && subs[j] <= all
    requires forall j, k :: 0 <= j < k < |subs| ==> subs[j] !! subs[k]
    ensures ({node} + Union(subs[..i])) !! subs[i] && {node} + Union(subs[..i]) <= all
  {
    forall n | n in Union(subs[..i])
      ensures n !in subs[i] && n in all
    {
      InUnion(subs[..i], n);
      var j :| 0 <= j < i && n in subs[..i][j];
      assert n in subs[j];
    }
  }

  /** `subs` are the subtrees of the children of `node`, as things stood in `s`. */
  predicate Cut(s: Snapshot, node: XMLNode, kids: seq<XMLNode>, subs: seq<set<XMLNode>>) {
    && s.nodes == s.kids.Keys == s.parents.Keys == s.paths.Keys && node in s.nodes && s.kids[node] == kids
    && (forall n, c :: n in s.nodes && c in s.kids[n] ==> c in s.nodes)
    && |subs| == |kids|
    && (forall j :: 0 <= j < |kids| ==> kids[j] in s.nodes && s.parents[kids[j]] == node)
    && (forall j :: 0 <= j < |kids| ==> subs[j] == SubtreeBy(s.nodes, s.paths, kids[j]))
    && (forall j :: 0 <= j < |subs| ==> node !in subs[j] && subs[j] <= s.nodes)
    && (forall j, k :: 0 <= j < k < |subs| ==> subs[j] !! subs[k])
  }

  lemma SubtreeNow(doc: XMLDocument, s: Snapshot, x: XMLNode)
    requires s == Snap(doc) && x in s.nodes
    ensures doc.Subtree(x) == SubtreeBy(s.nodes, s.paths, x)
  {
  }

  lemma Divided(source: XMLDocument, node: XMLNode, s: Snapshot, subs: seq<set<XMLNode>>)
    requires source.Valid() && node in source.nodes && s == Snap(source) && |subs| == |node.kids|
    requires forall j :: 0 <= j < |subs| ==> subs[j] == SubtreeBy(s.nodes, s.paths, node.kids[j])
    ensures Cut(s, node, node.kids, subs) && source.Subtree(node) == {node} + Union(subs)
    ensures node.firstChild == At(node.kids, 0)
    ensures node == source.root <==> node.kind == DocumentKind
  {
    hide XMLDocument.Paths, XMLDocument.Shape, XMLDocument.Subtree, XMLDocument.Owned, XMLDocument.Counted, SubtreeBy;
    RootIsDocument(source, node);
    KidFacts(source, node);
    KidsInside(source);
    forall j | 0 <= j < |subs|
      ensures subs[j] == source.Subtree(node.kids[j]) && subs[j] <= s.nodes
    {
      SubtreeNow(source, s, node.kids[j]);
      SubtreeInside(source, node.kids[j]);
    }
    Branches(source, node, subs);
  }

  lemma SubtreeInside(doc: XMLDocument, x: XMLNode)
    ensures doc.Subtree(x) <= doc.nodes
  {
  }

  /** The next branch is what it was, and nothing in it has been copied yet. */
  lemma NowDivided(source: XMLDocument, node: XMLNode, s: Snapshot, kids: seq<XMLNode>, subs: seq<set<XMLNode>>, i: nat)
    requires source.Shape() && source.Paths() && Since(source, s) && Cut(s, node, kids, subs) && i < |subs|
    ensures node in source.nodes && node.kids == kids && s.nodes <= source.nodes && node in s.kids && s.kids[node] == kids
    ensures kids[i] in source.nodes && kids[i] != source.root && source.Subtree(kids[i]) == subs[i]
    ensures ({node} + Union(subs[..i])) !! subs[i] && {node} + Union(subs[..i]) <= s.nodes && subs[i] <= s.nodes
    ensures subs[i] < {node} + Union(subs) && subs[i] <= Union(subs) && Union(subs[..i + 1]) == Union(subs[..i]) + subs[i]
    ensures kids[..i + 1] == kids[..i] + [kids[i]]
  {
    hide *;
    source.RootIsTop();
    CutNode(s, node, kids, subs);
    CutKid(s, node, kids, subs, i);
    SinceNodes(source, s);
    StillThere(source, s, node);
    StillThere(source, s, kids[i]);
    StillClosed(source, s, node, kids, subs);
    SubtreesKept(source, s.nodes, s.paths);
    BeforeNext(subs, i, node, s.nodes);
    NextUnion(subs, i);
    OneMoreKid(kids, i);
    assert node in {node} + Union(subs);
  }

  lemma CutNode(s: Snapshot, node: XMLNode, kids: seq<XMLNode>, subs: seq<set<XMLNode>>)
    requires Cut(s, node, kids, subs)
    ensures s.nodes == s.paths.Keys && |subs| == |kids| && node in s.nodes && node in s.kids && s.kids[node] == kids
    ensures forall j :: 0 <= j < |subs| ==> node !in subs[j] && subs[j] <= s.nodes
    ensures forall j, k :: 0 <= j < k < |subs| ==> subs[j] !! subs[k]
  {
  }

  lemma CutKid(s: Snapshot, node: XMLNode, kids: seq<XMLNode>, subs: seq<set<XMLNode>>, i: nat)
    requires Cut(s, node, kids, subs) && i < |subs|
    ensures s.nodes == s.paths.Keys == s.parents.Keys && |subs| == |kids|
    ensures kids[i] in s.nodes && s.parents[kids[i]] == node && subs[i] == SubtreeBy(s.nodes, s.paths, kids[i])
  {
    hide SubtreeBy;
  }

  lemma StillClosed(doc: XMLDocument, s: Snapshot, node: XMLNode, kids: seq<XMLNode>, subs: seq<set<XMLNode>>)
    requires Since(doc, s) && Cut(s, node, kids, subs)
    ensures s.nodes == s.paths.Keys && forall n :: n in s.nodes ==> n.path == s.paths[n]
    ensures forall m, c :: m in s.nodes && c in m.kids ==> c in s.nodes
  {
    hide SubtreeBy;
  }

  lemma NextUnion(subs: seq<set<XMLNode>>, i: nat)
    requires i < |subs|
    ensures Union(subs[..i + 1]) == Union(subs[..i]) + subs[i] && subs[i] <= Union(subs)
  {
    UnionAppend(subs[..i], subs[i]);
    assert subs[..i + 1] == subs[..i] + [subs[i]];
    forall n | n in subs[i]
      ensures n in Union(subs)
    {
      InUnion(subs, n);
    }
  }

  lemma OneMoreKid(kids: seq<XMLNode>, i: nat)
    requires i < |kids|
    ensures kids[..i + 1] == kids[..i] + [kids[i]]
  {
  }

  lemma InOwnSubtree(doc: XMLDocument, n: XMLNode)
    requires n in doc.nodes
    ensures n in doc.Subtree(n)
  {
  }

  lemma InSubtree(doc: XMLDocument, x: XMLNode, n: XMLNode)
    requires n in doc.Subtree(x) && n != x
    ensures n in doc.nodes && x in n.path
  {
  }

  lemma RootIsDocument(doc: XMLDocument, n: XMLNode)
    requires doc.Valid() && n in doc.nodes
    ensures n == doc.root <==> n.kind == DocumentKind
  {
  }

  /** The state of the loop of DeepClone, with the copies of the children `done` in place;
      the nodes of `s` and `t` are where they were. */
  ghost predicate Stage(source: XMLDocument, node: XMLNode, target: XMLDocument, clone: XMLNode,
                        copy: map<XMLNode, XMLNode>, done: seq<XMLNode>, s: Snapshot, t: Snapshot)
    reads source, source.Counters(), source.nodes, target, target.Counters(), target.nodes
    reads clone, copy.Keys, copy.Values
  {
    && source.Valid() && target.Valid() && Since(source, s) && Since(target, t)
    && clone in target.nodes && clone !in s.nodes && clone !in t.nodes && clone.parent == null && clone.path == []
    && node in copy && copy[node] == clone && Partial(copy, node, done)
    && copy.Keys <= s.nodes && copy.Values <= target.nodes
  }

  lemma StageParts(source: XMLDocument, node: XMLNode, target: XMLDocument, clone: XMLNode,
                   copy: map<XMLNode, XMLNode>, done: seq<XMLNode>, s: Snapshot, t: Snapshot)
    requires Stage(source, node, target, clone, copy, done, s, t)
    ensures source.Valid() && target.Valid() && Since(source, s) && Since(target, t)
    ensures source.Shape() && source.Paths() && s.nodes <= source.nodes
    ensures clone in target.nodes && clone !in s.nodes && clone !in t.nodes && clone.parent == null && clone.path == []
    ensures node in copy && copy[node] == clone && Partial(copy, node, done)
    ensures copy.Keys <= s.nodes && copy.Values <= target.nodes
  {
    hide Partial, XMLDocument.Shape, XMLDocument.Paths, XMLDocument.Owned, XMLDocument.Counted;
  }

  lemma StageIntro(source: XMLDocument, node: XMLNode, target: XMLDocument, clone: XMLNode,
                   copy: map<XMLNode, XMLNode>, done: seq<XMLNode>, s: Snapshot, t: Snapshot)
    requires source.Valid() && target.Valid() && Since(source, s) && Since(target, t)
    requires clone in target.nodes && clone !in s.nodes && clone !in t.nodes && clone.parent == null && clone.path == []
    requires node in copy && copy[node] == clone && Partial(copy, node, done)
    requires copy.Keys <= s.nodes && copy.Values <= target.nodes
    ensures Stage(source, node, target, clone, copy, done, s, t)
  {
  }

  ghost predicate Started(source: XMLDocument, node: XMLNode, target: XMLDocument, clone: XMLNode, s: Snapshot, t: Snapshot)
    reads source, source.Counters(), source.nodes, target, target.Counters(), target.nodes, clone, node
  {
    Single(node, clone);
    Stage(source, node, target, clone, map[node := clone], [], s, t)
  }

  lemma StartedStage(source: XMLDocument, node: XMLNode, target: XMLDocument, clone: XMLNode, s: Snapshot, t: Snapshot)
    requires Started(source, node, target, clone, s, t)
    ensures Stage(source, node, target, clone, map[node := clone], [], s, t)
    ensures map[node := clone].Keys == {node} && map[node := clone].Values == {clone}
  {
    hide Stage;
    Single(node, clone);
  }

  /** The target has `before` and `extra` for nodes, and `loose` unlinked. */
  ghost predicate Holds(target: XMLDocument, before: set<XMLNode>, extra: set<XMLNode>, loose: set<XMLNode>)
    reads target`nodes, target`unlinked
  {
    target.nodes == before + extra && Elements(target.unlinked) == loose
  }

  lemma HoldsParts(target: XMLDocument, before: set<XMLNode>, extra: set<XMLNode>, loose: set<XMLNode>)
    requires Holds(target, before, extra, loose)
    ensures target.nodes == before + extra && Elements(target.unlinked) == loose
  {
  }

  lemma HoldsIntro(target: XMLDocument, before: set<XMLNode>, extra: set<XMLNode>, loose: set<XMLNode>)
    requires target.nodes == before + extra && Elements(target.unlinked) == loose
    ensures Holds(target, before, extra, loose)
  {
  }

  /** The first step of DeepClone: copies the node alone. */
  method Begin(source: XMLDocument, node: XMLNode, target: XMLDocument, ghost s: Snapshot, ghost t: Snapshot)
    returns (clone: XMLNode?)
    requires source.Valid() && target.Valid() && node in source.nodes && DistinctNames(node.attributes)
    requires Since(source, s) && Since(target, t) && node in s.nodes
    modifies target`nodes, target`made, target`unlinked, target.Counters()`currentAllocs, target.Counters()`untracked
    ensures source.Valid() && target.Valid() && Since(source, s) && Since(target, t)
    ensures node == source.root ==>
      clone == null && target.nodes == old(target.nodes) && target.unlinked == old(target.unlinked)
    ensures node != source.root ==>
      && clone != null && fresh(clone) && target.nodes == old(target.nodes) + {clone}
      && Elements(target.unlinked) == Elements(old(target.unlinked)) + {clone}
      && Started(source, node, target, clone, s, t)
  {
    hide XMLDocument.Valid, Elements, SameContent, Partial, Stage, Started, Snap;
    RootIsDocument(source, node);
    SinceNodes(target, t);
    SinceNodes(source, s);
    assert node.kind == DocumentKind <==> node == source.root;
    clone := AloneSince(source, node, target, s, t);
    if clone != null {
      hide Since;
      StartedIntro(source, node, target, clone, s, t);
    }
  }

  lemma StartedIntro(source: XMLDocument, node: XMLNode, target: XMLDocument, clone: XMLNode, s: Snapshot, t: Snapshot)
    requires source.Valid() && target.Valid() && Since(source, s) && Since(target, t) && node in s.nodes
    requires clone in target.nodes && clone !in s.nodes && clone !in t.nodes && clone.parent == null && clone.path == []
    requires Partial(map[node := clone], node, [])
    ensures Started(source, node, target, clone, s, t)
  {
    hide XMLDocument.Valid, Since, Partial, Stage;
    Single(node, clone);
    StageIntro(source, node, target, clone, map[node := clone], [], s, t);
  }

  /** Alone, which leaves the nodes of both documents where they are. */
  method AloneSince(source: XMLDocument, node: XMLNode, target: XMLDocument, ghost s: Snapshot, ghost t: Snapshot)
    returns (clone: XMLNode?)
    requires source.Valid() && target.Valid() && DistinctNames(node.attributes) && Since(source, s) && Since(target, t)
    modifies target`nodes, target`made, target`unlinked, target.Counters()`currentAllocs, target.Counters()`untracked
    ensures source.Valid() && target.Valid() && Since(source, s) && Since(target, t)
    ensures node.kind == DocumentKind ==>
      clone == null && target.nodes == old(target.nodes) && target.unlinked == old(target.unlinked)
    ensures node.kind != DocumentKind ==>
      && clone != null && fresh(clone) && clone.parent == null && clone.path == []
      && target.nodes == old(target.nodes) + {clone}
      && Elements(target.unlinked) == Elements(old(target.unlinked)) + {clone}
      && Partial(map[node := clone], node, [])
  {
    hide XMLDocument.Valid, Elements, SameContent, Partial;
    Apart(source, target);
    clone := Alone(node, target);
  }

  method Alone(node: XMLNode, target: XMLDocument) returns (clone: XMLNode?)
    requires target.Valid() && DistinctNames(node.attributes)
    modifies target`nodes, target`made, target`unlinked, target.Counters()`currentAllocs, target.Counters()`untracked
    ensures target.Valid()
    ensures node.kind == DocumentKind ==>
      clone == null && target.nodes == old(target.nodes) && target.unlinked == old(target.unlinked)
    ensures node.kind != DocumentKind ==>
      && clone != null && fresh(clone) && clone.parent == null && clone.path == []
      && target.nodes == old(target.nodes) + {clone}
      && Elements(target.unlinked) == Elements(old(target.unlinked)) + {clone}
      && Partial(map[node := clone], node, [])
  {
    hide XMLDocument.Valid, Elements, SameContent, Partial;
    clone := ShallowClone(node, target);
    if clone != null {
      PartialStart(node, clone);
      ElementsWith(old(target.unlinked), clone);
    }
  }

  /** One turn of the loop of DeepClone: extends the copy by that of `child`. */
  method CopyNext(source: XMLDocument, node: XMLNode, child: XMLNode, target: XMLDocument, clone: XMLNode,
                  ghost copy: map<XMLNode, XMLNode>, ghost done: seq<XMLNode>, ghost s: Snapshot, ghost t: Snapshot,
                  ghost before: set<XMLNode>, ghost extra: set<XMLNode>, ghost loose: set<XMLNode>)
    returns (ghost more: map<XMLNode, XMLNode>, ghost added: set<XMLNode>)
    requires Holds(target, before, extra, loose)
    requires Stage(source, node, target, clone, copy, done, s, t)
    requires child in source.nodes && child != source.root && source.Subtree(child) <= s.nodes
    requires copy.Keys !! source.Subtree(child)
    requires forall n :: n in source.Subtree(child) ==> DistinctNames(n.attributes)
    modifies target`nodes, target`made, target`unlinked, target.Counters()`currentAllocs, target.Counters()`untracked
    modifies target.nodes`firstChild, target.nodes`lastChild, target.nodes`next, target.nodes`prev
    modifies target.nodes`parent, target.nodes`kids, target.nodes`path
    ensures Stage(source, node, target, clone, more, done + [child], s, t)
    ensures more.Keys == copy.Keys + old(source.Subtree(child))
    ensures more.Values == copy.Values + added && fresh(added) && Holds(target, before, extra + added, loose)
    decreases source.Subtree(child), 3
  {
    hide *;
    ghost var made, u, v := clone.kids, Except(Snap(source), clone), Except(Snap(target), clone);
    Prepare(source, node, target, clone, copy, done, s, t, u, v);
    HoldsParts(target, before, extra, loose);
    ghost var c := CloneChild(source, child, target, clone, u, v);
    more, added := copy + c, c.Values;
    CopyKeys(c, old(source.Subtree(child)));
    Advance(source, node, target, clone, copy, done, s, t, u, v, made, c, child);
    HoldsIntro(target, before, extra + added, loose);
  }

  /** What the snapshots `u` and `v`, taken without `clone`, and the children `made` of
      `clone` say of the copy. */
  predicate Frozen(node: XMLNode, clone: XMLNode, copy: map<XMLNode, XMLNode>, done: seq<XMLNode>,
                   made: seq<XMLNode>, s: Snapshot, t: Snapshot, u: Snapshot, v: Snapshot) {
    && Within(s, u) && Within(t, v) && clone !in s.nodes && clone !in t.nodes
    && node in copy && copy[node] == clone && copy.Keys <= s.nodes && copy.Values <= v.nodes + {clone}
    && Injective(copy) && CopiedKids(copy, made, done) && Links(copy, node, u, v)
  }

  lemma Prepare(source: XMLDocument, node: XMLNode, target: XMLDocument, clone: XMLNode, copy: map<XMLNode, XMLNode>,
                done: seq<XMLNode>, s: Snapshot, t: Snapshot, u: Snapshot, v: Snapshot)
    requires Stage(source, node, target, clone, copy, done, s, t)
    requires u == Except(Snap(source), clone) && v == Except(Snap(target), clone)
    ensures Frozen(node, clone, copy, done, clone.kids, s, t, u, v) && Contents(copy)
    ensures source.Valid() && target.Valid() && Since(source, u) && Since(target, v)
    ensures clone in target.nodes && clone !in s.nodes && clone !in u.nodes && clone !in v.nodes
    ensures clone.parent == null && clone.path == [] && v.nodes + {clone} == target.nodes
  {
    hide *;
    StageParts(source, node, target, clone, copy, done, s, t);
    WithinExcept(source, s, clone);
    WithinExcept(target, t, clone);
    ExceptParts(source, clone);
    ExceptParts(target, clone);
    Freeze(source, target, clone, node, copy, done);
    FrozenIntro(node, clone, copy, done, clone.kids, s, t, u, v);
  }

  lemma FrozenIntro(node: XMLNode, clone: XMLNode, copy: map<XMLNode, XMLNode>, done: seq<XMLNode>,
                    made: seq<XMLNode>, s: Snapshot, t: Snapshot, u: Snapshot, v: Snapshot)
    requires Within(s, u) && Within(t, v) && clone !in s.nodes && clone !in t.nodes
    requires node in copy && copy[node] == clone && copy.Keys <= s.nodes && copy.Values <= v.nodes + {clone}
    requires Injective(copy) && CopiedKids(copy, made, done) && Links(copy, node, u, v)
    ensures Frozen(node, clone, copy, done, made, s, t, u, v)
  {
  }

  lemma Advance(source: XMLDocument, node: XMLNode, target: XMLDocument, clone: XMLNode, copy: map<XMLNode, XMLNode>,
                done: seq<XMLNode>, s: Snapshot, t: Snapshot, u: Snapshot, v: Snapshot,
                made: seq<XMLNode>, c: map<XMLNode, XMLNode>, child: XMLNode)
    requires Frozen(node, clone, copy, done, made, s, t, u, v) && Contents(copy)
    requires source.Valid() && target.Valid() && Since(source, u) && Since(target, v)
    requires IsCopy(c, c.Keys) && child in c && c.Keys !! copy.Keys && c.Keys <= s.nodes
    requires c.Values !! v.nodes + {clone} && c.Values <= target.nodes
    requires clone in target.nodes && clone.parent == null && clone.path == [] && clone.kids == made + [c[child]]
    ensures Stage(source, node, target, clone, copy + c, done + [child], s, t)
    ensures (copy + c).Keys == copy.Keys + c.Keys && (copy + c).Values == copy.Values + c.Values
  {
    hide Partial, Since, Within, Links, Contents, Injective, CopiedKids, IsCopy, Stage, XMLDocument.Valid;
    SinceWithin(source, s, u);
    SinceWithin(target, t, v);
    assert copy.Values !! c.Values;
    Thaw(source, target, node, copy, c, child, done, made, u, v);
    SinceNodes(target, v);
    StageIntro(source, node, target, clone, copy + c, done + [child], s, t);
  }

  lemma SinceNodes(doc: XMLDocument, s: Snapshot)
    requires Since(doc, s)
    ensures s.nodes <= doc.nodes
  {
  }

  ghost predicate Contents(copy: map<XMLNode, XMLNode>)
    reads copy.Keys`value, copy.Keys`isCData, copy.Keys`attributes
    reads copy.Values`value, copy.Values`isCData, copy.Values`attributes
  {
    forall n :: n in copy ==> SameContent(copy[n], n)
  }

  /** The copy is right, but for `node` itself, as things stood in `u` and `v`. */
  predicate Links(copy: map<XMLNode, XMLNode>, node: XMLNode, u: Snapshot, v: Snapshot) {
    forall n :: n in copy && n != node ==>
      n in u.nodes && n in u.kids && copy[n] in v.nodes && copy[n] in v.kids && CopiedKids(copy, v.kids[copy[n]], u.kids[n])
  }

  lemma Freeze(source: XMLDocument, target: XMLDocument, clone: XMLNode, node: XMLNode,
               copy: map<XMLNode, XMLNode>, done: seq<XMLNode>)
    requires node in copy && copy[node] == clone && Partial(copy, node, done)
    requires copy.Keys <= source.nodes && copy.Values <= target.nodes && clone !in copy.Keys
    ensures Contents(copy) && Injective(copy) && CopiedKids(copy, clone.kids, done)
    ensures Links(copy, node, Except(Snap(source), clone), Except(Snap(target), clone))
    ensures clone !in Except(Snap(source), clone).nodes && clone !in Except(Snap(target), clone).nodes
  {
    hide Except, Snap, CopiedKids, SameContent;
    ExceptParts(source, clone);
    ExceptParts(target, clone);
  }

  lemma Thaw(source: XMLDocument, target: XMLDocument, node: XMLNode, copy: map<XMLNode, XMLNode>,
             c: map<XMLNode, XMLNode>, child: XMLNode, done: seq<XMLNode>, made: seq<XMLNode>, u: Snapshot, v: Snapshot)
    requires Contents(copy) && Injective(copy) && Links(copy, node, u, v)
    requires Since(source, u) && Since(target, v)
    requires node in copy && CopiedKids(copy, made, done)
    requires IsCopy(c, c.Keys) && child in c && copy.Keys !! c.Keys && copy.Values !! c.Values
    requires copy[node].kids == made + [c[child]]
    ensures Partial(copy + c, node, done + [child])
    ensures (copy + c).Keys == copy.Keys + c.Keys && (copy + c).Values == copy.Values + c.Values
  {
    hide Injective, CopiedKids, SameContent, IsCopy, Partial;
    forall n | n in copy && n != node
      ensures Copied(copy, n)
    {
    }
    PartialJoin(copy, c, node, done, made, child);
  }

  lemma ExceptParts(doc: XMLDocument, x: XMLNode)
    ensures var s := Except(Snap(doc), x);
      && s.nodes == s.kids.Keys == doc.nodes - {x}
      && forall n :: n in doc.nodes && n != x ==> s.kids[n] == n.kids
  {
  }

  lemma CopyKeys(copy: map<XMLNode, XMLNode>, all: set<XMLNode>)
    requires IsCopy(copy, all)
    ensures copy.Keys == all && IsCopy(copy, copy.Keys)
  {
  }

  function KidTrees(s: Snapshot, kids: seq<XMLNode>): seq<set<XMLNode>>
    requires s.nodes <= s.paths.Keys
  {
    seq(|kids|, j requires 0 <= j < |kids| => SubtreeBy(s.nodes, s.paths, kids[j]))
  }

  /** How the work of a deep copy divides, as seen before it starts. */
  lemma Planned(source: XMLDocument, node: XMLNode, s: Snapshot)
    requires source.Valid() && node in source.nodes && s == Snap(source)
    ensures s.nodes == s.paths.Keys == source.nodes && Since(source, s)
    ensures var subs := KidTrees(s, node.kids);
      && |subs| == |node.kids| && Cut(s, node, node.kids, subs)
      && source.Subtree(node) == {node} + Union(subs) && Union(subs) <= source.nodes
    ensures Cursor(node.firstChild, node.kids, 0) && source.root in source.nodes
    ensures node in s.kids && s.kids[node] == node.kids
  {
    hide *;
    SnapParts(source);
    SinceNow(source);
    ValidParts(source);
    source.RootIsTop();
    TreesByDefinition(s, node.kids);
    Divided(source, node, s, KidTrees(s, node.kids));
    SubtreeInside(source, node);
    CutNode(s, node, node.kids, KidTrees(s, node.kids));
    CursorStart(node.firstChild, node.kids);
  }

  lemma CursorStart(child: XMLNode?, kids: seq<XMLNode>)
    requires child == At(kids, 0)
    ensures Cursor(child, kids, 0)
  {
  }

  lemma TreesByDefinition(s: Snapshot, kids: seq<XMLNode>)
    requires s.nodes <= s.paths.Keys
    ensures |KidTrees(s, kids)| == |kids|
    ensures forall j :: 0 <= j < |kids| ==> KidTrees(s, kids)[j] == SubtreeBy(s.nodes, s.paths, kids[j])
  {
  }

  /** What there is at the end of the loop. */
  lemma Finished(source: XMLDocument, node: XMLNode, target: XMLDocument, clone: XMLNode, copy: map<XMLNode, XMLNode>,
                 kids: seq<XMLNode>, subs: seq<set<XMLNode>>, s: Snapshot, t: Snapshot,
                 before: set<XMLNode>, extra: set<XMLNode>, loose: set<XMLNode>)
    requires Stage(source, node, target, clone, copy, kids, s, t) && Covers(copy, node, subs, |subs|)
    requires Made(copy, clone, extra) && Holds(target, before, extra, loose)
    requires node in s.nodes && node in s.kids && s.kids[node] == kids && clone in before
    ensures source.Valid() && target.Valid() && Since(source, s) && Since(target, t)
    ensures IsCopy(copy, {node} + Union(subs)) && node in copy && copy[node] == clone
    ensures clone.parent == null && clone.path == []
    ensures copy.Values == {clone} + extra && target.nodes == before + copy.Values && Elements(target.unlinked) == loose
  {
    hide *;
    StageParts(source, node, target, clone, copy, kids, s, t);
    AllCovered(copy, node, clone, subs, extra);
    HoldsParts(target, before, extra, loose);
    StillThere(source, s, node);
    PartialDone(copy, node);
  }

  /** Adds to the target a copy of `node` and of everything below it, in no tree. */
  method DeepClone(source: XMLDocument, node: XMLNode, target: XMLDocument)
    returns (clone: XMLNode?, ghost copy: map<XMLNode, XMLNode>)
    requires source.Valid() && target.Valid() && node in source.nodes
    requires forall n :: n in source.Subtree(node) ==> DistinctNames(n.attributes)
    modifies target`nodes, target`made, target`unlinked, target.Counters()`currentAllocs, target.Counters()`untracked
    modifies target.nodes`firstChild, target.nodes`lastChild, target.nodes`next, target.nodes`prev
    modifies target.nodes`parent, target.nodes`kids, target.nodes`path
    ensures source.Valid() && target.Valid() && Since(source, old(Snap(source))) && Since(target, old(Snap(target)))
    ensures fresh(copy.Values) && target.nodes == old(target.nodes) + copy.Values
    ensures node == source.root ==> clone == null && copy == map[] && target.unlinked == old(target.unlinked)
    ensures node != source.root ==>
      && IsCopy(copy, old(source.Subtree(node))) && node in copy && clone == copy[node]
      && clone.parent == null && clone.path == []
      && Elements(target.unlinked) == Elements(old(target.unlinked)) + {clone}
    decreases source.Subtree(node), 1
  {
    hide *;
    ghost var s, t, kids := Snap(source), Snap(target), node.kids;
    Planned(source, node, s);
    ghost var subs, below := KidTrees(s, kids), source.Subtree(node);
    SnapParts(target);
    SinceNow(target);
    clone := Begin(source, node, target, s, t);
    if clone == null {
      copy := map[];
      return;
    }
    forall n | n in Union(subs)
      ensures DistinctNames(n.attributes)
    {
      assert n in below && n in old(source.nodes);
    }
    var made: XMLNode := clone;
    ghost var before, loose := target.nodes, Elements(target.unlinked);
    HoldsIntro(target, before, {}, loose);
    ghost var extra;
    copy, extra := CloneKids(source, node, target, made, kids, subs, s, t, before, loose);
    Finished(source, node, target, made, copy, kids, subs, s, t, before, extra, loose);
    assert before + copy.Values == t.nodes + copy.Values;
    assert forall n :: n in copy.Values ==> n == made || n in extra;
  }

  lemma AllCovered(copy: map<XMLNode, XMLNode>, node: XMLNode, clone: XMLNode, subs: seq<set<XMLNode>>, extra: set<XMLNode>)
    requires Covers(copy, node, subs, |subs|) && Made(copy, clone, extra)
    ensures copy.Keys == {node} + Union(subs) && copy.Values == {clone} + extra
  {
    assert subs[..|subs|] == subs;
  }

  /** What is copied once the first `i` children are. */
  predicate Covers(copy: map<XMLNode, XMLNode>, node: XMLNode, subs: seq<set<XMLNode>>, i: nat)
    requires i <= |subs|
  {
    copy.Keys == {node} + Union(subs[..i])
  }

  predicate Made(copy: map<XMLNode, XMLNode>, clone: XMLNode, extra: set<XMLNode>) {
    copy.Values == {clone} + extra
  }

  lemma LoopStart(node: XMLNode, clone: XMLNode, kids: seq<XMLNode>, subs: seq<set<XMLNode>>)
    ensures Covers(map[node := clone], node, subs, 0) && Made(map[node := clone], clone, {}) && kids[..0] == []
  {
    Single(node, clone);
    UnionOfNone(subs);
  }

  /** `child` is the i-th of the children, or null after the last. */
  predicate Cursor(child: XMLNode?, kids: seq<XMLNode>, i: nat) {
    i <= |kids| && child == At(kids, i)
  }

  lemma CursorEnds(child: XMLNode?, kids: seq<XMLNode>, i: nat)
    requires Cursor(child, kids, i)
    ensures child == null ==> i == |kids| && kids[..i] == kids
    ensures child != null ==> i < |kids| && child == kids[i]
  {
  }

  lemma TurnReady(source: XMLDocument, node: XMLNode, target: XMLDocument, clone: XMLNode, copy: map<XMLNode, XMLNode>,
                  kids: seq<XMLNode>, subs: seq<set<XMLNode>>, s: Snapshot, t: Snapshot, i: nat)
    requires i < |subs| == |kids| && Stage(source, node, target, clone, copy, kids[..i], s, t)
    requires Cut(s, node, kids, subs) && Covers(copy, node, subs, i)
    ensures kids[i] in source.nodes && kids[i] != source.root && source.Subtree(kids[i]) == subs[i]
    ensures subs[i] <= s.nodes && copy.Keys !! subs[i] && subs[i] <= Union(subs) && subs[i] < {node} + Union(subs)
  {
    hide Stage, Cut, Union, XMLDocument.Subtree;
    StageParts(source, node, target, clone, copy, kids[..i], s, t);
    NowDivided(source, node, s, kids, subs, i);
  }

  lemma TurnDone(node: XMLNode, clone: XMLNode, copy: map<XMLNode, XMLNode>, more: map<XMLNode, XMLNode>,
                 kids: seq<XMLNode>, subs: seq<set<XMLNode>>, i: nat, extra: set<XMLNode>, added: set<XMLNode>)
    requires i < |subs| == |kids| && Covers(copy, node, subs, i) && Made(copy, clone, extra)
    requires more.Keys == copy.Keys + subs[i] && more.Values == copy.Values + added
    ensures Covers(more, node, subs, i + 1) && Made(more, clone, extra + added)
    ensures kids[..i] + [kids[i]] == kids[..i + 1]
  {
    NextUnion(subs, i);
  }

  lemma NextChild(source: XMLDocument, node: XMLNode, target: XMLDocument, clone: XMLNode, copy: map<XMLNode, XMLNode>,
                  done: seq<XMLNode>, kids: seq<XMLNode>, subs: seq<set<XMLNode>>, s: Snapshot, t: Snapshot, i: nat)
    requires i < |kids| && Stage(source, node, target, clone, copy, done, s, t) && Cut(s, node, kids, subs)
    ensures Cursor(kids[i].next, kids, i + 1)
  {
    hide Stage, Cut, At;
    StageParts(source, node, target, clone, copy, done, s, t);
    CutNode(s, node, kids, subs);
    StillThere(source, s, node);
    NextKid(source, node, i);
  }

  /** The loop of DeepClone over the children, first to last. */
  method CloneKids(source: XMLDocument, node: XMLNode, target: XMLDocument, clone: XMLNode,
                   ghost kids: seq<XMLNode>, ghost subs: seq<set<XMLNode>>, ghost s: Snapshot, ghost t: Snapshot,
                   ghost before: set<XMLNode>, ghost loose: set<XMLNode>)
    returns (ghost copy: map<XMLNode, XMLNode>, ghost extra: set<XMLNode>)
    requires Holds(target, before, {}, loose) && Started(source, node, target, clone, s, t)
    requires Cut(s, node, kids, subs) && |subs| == |kids| && Cursor(node.firstChild, kids, 0)
    requires forall n :: n in Union(subs) ==> DistinctNames(n.attributes)
    modifies target`nodes, target`made, target`unlinked, target.Counters()`currentAllocs, target.Counters()`untracked
    modifies target.nodes`firstChild, target.nodes`lastChild, target.nodes`next, target.nodes`prev
    modifies target.nodes`parent, target.nodes`kids, target.nodes`path
    ensures Stage(source, node, target, clone, copy, kids, s, t) && Covers(copy, node, subs, |subs|)
    ensures Made(copy, clone, extra) && fresh(extra) && Holds(target, before, extra, loose)
    decreases {node} + Union(subs), 0
  {
    hide *;
    StartedStage(source, node, target, clone, s, t);
    LoopStart(node, clone, kids, subs);
    HoldsParts(target, before, {}, loose);
    copy, extra := map[node := clone], {};
    var child := node.firstChild;
    ghost var i := 0;
    while child != null
      invariant i <= |kids| && Cursor(child, kids, i)
      invariant Stage(source, node, target, clone, copy, kids[..i], s, t) && Covers(copy, node, subs, i)
      invariant Made(copy, clone, extra) && fresh(extra) && Holds(target, before, extra, loose)
      decreases |kids| - i
    {
      CursorEnds(child, kids, i);
      TurnReady(source, node, target, clone, copy, kids, subs, s, t, i);
      HoldsParts(target, before, extra, loose);
      ghost var more, added := CopyNext(source, node, child, target, clone, copy, kids[..i], s, t, before, extra, loose);
      TurnDone(node, clone, copy, more, kids, subs, i, extra, added);
      copy, extra := more, extra + added;
      NextChild(source, node, target, clone, copy, kids[..i + 1], kids, subs, s, t, i);
      child := child.next;
      i := i + 1;
    }
    CursorEnds(child, kids, i);
  }

  const NO_NODES := Snapshot({}, map[], map[], map[])

  lemma NothingSince(doc: XMLDocument)
    ensures Since(doc, NO_NODES)
  {
  }

  lemma DocumentStarted(source: XMLDocument, target: XMLDocument, s: Snapshot)
    requires source.Valid() && target.Valid() && source != target && Since(source, s) && source.root in s.nodes
    requires s.nodes <= source.nodes && target.nodes == {target.root} && target.root.kids == []
    ensures Started(source, source.root, target, target.root, s, NO_NODES)
  {
    hide XMLDocument.Shape, XMLDocument.Counted, Started, Since;
    Apart(source, target);
    target.RootIsTop();
    NothingSince(target);
    PartialStart(source.root, target.root);
    StartedIntro(source, source.root, target, target.root, s, NO_NODES);
  }

  /** Makes the target's tree a copy of the source's, whatever it held before. */
  method DeepCopy(source: XMLDocument, target: XMLDocument) returns (ghost copy: map<XMLNode, XMLNode>)
    requires source.Valid() && target.Valid()
    requires forall n :: n in source.nodes ==> DistinctNames(n.attributes)
    modifies target`nodes, target`made, target`unlinked, target.Counters()`currentAllocs, target.Counters()`untracked
    modifies target.nodes`firstChild, target.nodes`lastChild, target.nodes`next, target.nodes`prev
    modifies target.nodes`parent, target.nodes`kids, target.nodes`path
    ensures source.Valid() && target.Valid() && Since(source, old(Snap(source)))
    ensures target == source ==> target.nodes == old(target.nodes) && target.unlinked == old(target.unlinked)
    ensures target != source ==>
      && IsCopy(copy, old(source.Subtree(source.root))) && source.root in copy && copy[source.root] == target.root
      && target.nodes == copy.Values && Elements(target.unlinked) == {}
  {
    hide *;
    SinceNow(source);
    if target == source {
      copy := map[];
      return;
    }
    var root := source.root;
    ghost var s, kids := Snap(source), root.kids;
    ValidParts(source);
    source.RootIsTop();
    Planned(source, root, s);
    ghost var subs := KidTrees(s, kids);
    ValidParts(target);
    target.RootIsTop();
    ClearApart(source, target, s);
    DocumentStarted(source, target, s);
    HoldsIntro(target, {target.root}, {}, {});
    ghost var extra;
    copy, extra := CloneKids(source, root, target, target.root, kids, subs, s, NO_NODES, {target.root}, {});
    Finished(source, root, target, target.root, copy, kids, subs, s, NO_NODES, {target.root}, extra, {});
  }

  method ClearApart(source: XMLDocument, target: XMLDocument, ghost s: Snapshot)
    requires source.Valid() && target.Valid() && source != target && Since(source, s)
    modifies target`nodes, target`unlinked, target.Counters()`currentAllocs, target.Counters()`untracked
    modifies target.nodes`firstChild, target.nodes`lastChild, target.nodes`next, target.nodes`prev
    modifies target.nodes`parent, target.nodes`kids, target.nodes`path
    ensures source.Valid() && target.Valid() && Since(source, s)
    ensures target.nodes == {target.root} && target.root.kids == [] && Elements(target.unlinked) == {}
  {
    hide XMLDocument.Valid;
    Apart(source, target);
    target.Clear();
  }
}
