/** The mutable tree of nodes of server/tinyxml2.cpp: sibling and parent links,
    the list of nodes in no tree, and the pools the nodes are counted in. The
    methods of XMLNode that work on `this` take it as the parameter `parent`. */
module Dom {
  import opened Lists

  /** The counters of a node pool; the slots themselves are MemPools.MemPool. */
  class NodePool {
    var currentAllocs: int
    var untracked: int
    ghost var owner: XMLDocument?

    constructor ()
      ensures currentAllocs == 0 && untracked == 0
    {
      currentAllocs, untracked := 0, 0;
    }
  }

  datatype Kind = DocumentKind | ElementKind | TextKind | CommentKind | DeclarationKind | UnknownKind

  class XMLNode {
    const kind: Kind
    const memPool: NodePool?
    var document: XMLDocument?
    var value: string
    var isCData: bool
    var attributes: seq<(string, string)>
    var parent: XMLNode?
    var firstChild: XMLNode?
    var lastChild: XMLNode?
    var prev: XMLNode?
    var next: XMLNode?

    // The children in order, and the ancestors from the top of the tree down.
    ghost var kids: seq<XMLNode>
    ghost var path: seq<XMLNode>

    constructor (kind: Kind, memPool: NodePool?, document: XMLDocument?)
      ensures this.kind == kind && this.memPool == memPool && this.document == document
      ensures value == "" && !isCData && attributes == []
      ensures parent == firstChild == lastChild == prev == next == null && kids == [] && path == []
    {
      this.kind, this.memPool, this.document := kind, memPool, document;
      parent, firstChild, lastChild, prev, next := null, null, null, null, null;
      value, isCData, attributes := "", false, [];
      kids, path := [], [];
    }

    /** The children are doubly linked, first to last, and know their parent. */
    ghost predicate Linked()
      reads `kids, `firstChild, `lastChild, kids`parent, kids`next, kids`prev
    {
      && NoDuplicates(kids)
      && firstChild == At(kids, 0) && lastChild == At(kids, |kids| - 1)
      && (forall i :: 0 <= i < |kids| ==> kids[i].parent == this)
      && (forall i :: 0 <= i < |kids| ==> kids[i].next == At(kids, i + 1))
      && (forall i :: 0 <= i < |kids| ==> kids[i].prev == At(kids, i - 1))
    }
  }

  /** Null outside the list. */
  function At(list: seq<XMLNode>, k: int): XMLNode? {
    if 0 <= k < |list| then list[k] else null
  }

  function Only(n: XMLNode?): set<XMLNode> {
    if n == null then {} else {n}
  }

  function IndexOf(list: seq<XMLNode>, x: XMLNode): (k: nat)
    requires x in list
    ensures k < |list| && list[k] == x
  {
    if list[0] == x then 0 else 1 + IndexOf(list[1..], x)
  }

  /** The list without `x`. */
  function Without(list: seq<XMLNode>, x: XMLNode): seq<XMLNode> {
    if x in list then list[..IndexOf(list, x)] + list[IndexOf(list, x) + 1..] else list
  }

  lemma Position(list: seq<XMLNode>, k: nat)
    requires NoDuplicates(list) && k < |list|
    ensures IndexOf(list, list[k]) == k && Without(list, list[k]) == list[..k] + list[k + 1..]
  {
  }

  lemma PositionWithout(list: seq<XMLNode>, x: XMLNode, a: XMLNode)
    requires NoDuplicates(list) && a in list && a != x
    ensures a in Without(list, x)
    ensures x in list ==> |Without(list, x)| == |list| - 1
    ensures x !in list ==> Without(list, x) == list
    ensures IndexOf(Without(list, x), a)
         == IndexOf(list, a) - (if x in list && IndexOf(list, x) < IndexOf(list, a) then 1 else 0)
  {
    WithoutIsRest(list, x);
    var rest := Without(list, x);
    if x in list {
      var k, i := IndexOf(list, x), IndexOf(list, a);
      Position(rest, if i < k then i else i - 1);
    }
  }

  /** The end of the list stays its end when another element goes. */
  lemma LastWithout(list: seq<XMLNode>, x: XMLNode, a: XMLNode)
    requires NoDuplicates(list) && a in list && a != x
    ensures a in Without(list, x)
    ensures IndexOf(list, a) + 1 == |list| ==> IndexOf(Without(list, x), a) + 1 == |Without(list, x)|
    ensures IndexOf(list, a) + 1 < |list| ==>
      (IndexOf(Without(list, x), a) + 1 < |Without(list, x)| <==>
       !(At(list, IndexOf(list, a) + 1) == x && At(list, |list| - 1) == x))
  {
    hide IndexOf, Without, NoDuplicates;
    PositionWithout(list, x, a);
    if x in list {
      Position(list, IndexOf(list, x));
      Position(list, |list| - 1);
      if IndexOf(list, a) + 1 < |list| {
        Position(list, IndexOf(list, a) + 1);
      }
    }
  }

  lemma WithoutIsRest(list: seq<XMLNode>, x: XMLNode)
    requires NoDuplicates(list)
    ensures NoDuplicates(Without(list, x)) && x !in Without(list, x)
    ensures forall y :: y in list && y != x ==> y in Without(list, x)
    ensures forall y :: y in Without(list, x) ==> y in list
  {
    if x in list {
      var k := IndexOf(list, x);
      forall y | y in list && y != x
        ensures y in Without(list, x)
      {
        var i := IndexOf(list, y);
        assert i < k ==> Without(list, x)[i] == y;
        assert i > k ==> Without(list, x)[i - 1] == y;
      }
    }
  }

  /** Who is next to whom once the k-th of a list has been taken out. */
  lemma NeighboursWithout(list: seq<XMLNode>, k: nat, i: nat)
    requires k < |list| && i < |list| - 1
    ensures var rest, j := list[..k] + list[k + 1..], if i < k then i else i + 1;
      && rest[i] == list[j]
      && At(rest, i + 1) == (if j == k - 1 then At(list, k + 1) else At(list, j + 1))
      && At(rest, i - 1) == (if j == k + 1 then At(list, k - 1) else At(list, j - 1))
  {
  }

  lemma NoDuplicatesWith(list: seq<XMLNode>, x: XMLNode)
    requires NoDuplicates(list) && x !in list
    ensures NoDuplicates(list + [x])
  {
  }

  function Elements(list: seq<XMLNode>): set<XMLNode> {
    set n | n in list
  }

  /** Those of the nodes that came from `pool`. */
  function InPool(all: set<XMLNode>, pool: NodePool): set<XMLNode> {
    set n | n in all && n.memPool == pool
  }

  lemma InPoolWithout(all: set<XMLNode>, x: XMLNode, pool: NodePool)
    requires x in all
    ensures |InPool(all - {x}, pool)| == |InPool(all, pool)| - (if x.memPool == pool then 1 else 0)
  {
    if x.memPool == pool {
      assert InPool(all - {x}, pool) == InPool(all, pool) - {x};
    } else {
      assert InPool(all - {x}, pool) == InPool(all, pool);
    }
  }

  lemma InPoolWith(all: set<XMLNode>, x: XMLNode, pool: NodePool)
    requires x !in all
    ensures |InPool(all + {x}, pool)| == |InPool(all, pool)| + (if x.memPool == pool then 1 else 0)
  {
    InPoolWithout(all + {x}, x, pool);
    assert all + {x} - {x} == all;
  }

  class XMLDocument {
    const root: XMLNode
    const elementPool: NodePool
    const textPool: NodePool
    const commentPool: NodePool
    var unlinked: seq<XMLNode>

    /** The pools of its nodes. */
    function Counters(): set<NodePool> {
      {elementPool, textPool, commentPool}
    }

    /** Where nodes of a kind come from. */
    function PoolFor(kind: Kind): NodePool {
      if kind == ElementKind then elementPool else if kind == TextKind then textPool else commentPool
    }

    /** Elements and texts have a pool each; all other kinds share one. */
    lemma PoolsByKind()
      ensures PoolFor(ElementKind) == elementPool && PoolFor(TextKind) == textPool
      ensures PoolFor(CommentKind) == PoolFor(DeclarationKind) == PoolFor(UnknownKind) == commentPool
    {
    }

    // The live nodes, this document's own among them.
    ghost var nodes: set<XMLNode>

    // How many nodes have been made so far: what the pools count in _nAllocs.
    ghost var made: nat

    ghost predicate Shape()
      reads `nodes, nodes`parent, nodes`firstChild, nodes`lastChild, nodes`prev, nodes`next, nodes`kids
    {
      && root in nodes && root.parent == null
      && (forall n, c :: n in nodes && c in n.kids ==> c in nodes)
      && (forall n :: n in nodes ==> n.Linked())
      && (forall n :: n in nodes && n.parent != null ==> n.parent in nodes && n in n.parent.kids)
      && (forall n :: n in nodes && n.parent == null ==> n.next == null && n.prev == null)
    }

    ghost predicate Paths()
      reads `nodes, nodes`parent, nodes`path
    {
      forall n :: n in nodes ==>
        && (n.parent == null ==> n.path == [])
        && (n.parent != null ==> n.parent in nodes && n.path == n.parent.path + [n.parent])
    }

    /** `x` and everything below it. */
    ghost function Subtree(x: XMLNode): set<XMLNode>
      reads `nodes, nodes`path
    {
      set n | n in nodes && (n == x || x in n.path)
    }

    /** No node is below itself: paths grow by one at each level. */
    lemma {:induction false} BelowIsDeeper(n: XMLNode, x: XMLNode)
      requires Paths() && n in nodes && x in n.path
      ensures x in nodes && |x.path| < |n.path| && n.path[|x.path|] == x && n.path[..|x.path|] == x.path
      decreases |n.path|
    {
      var p := n.parent;
      if p != x {
        BelowIsDeeper(p, x);
        assert n.path[..|x.path|] == p.path[..|x.path|];
      }
    }

    constructor ()
      ensures Valid() && fresh(nodes) && nodes == {root} && root.kids == [] && unlinked == [] && made == 0
    {
      hide Shape, Paths, Owned, Counted, XMLNode.Linked;
      elementPool := new NodePool();
      textPool := new NodePool();
      commentPool := new NodePool();
      root := new XMLNode(DocumentKind, null, null);
      unlinked := [];
      nodes, made := {root}, 0;
      new;
      root.document := this;
      elementPool.owner := this;
      textPool.owner := this;
      commentPool.owner := this;
      StartsValid();
    }

    lemma StartsValid()
      requires nodes == {root} && unlinked == [] && root.document == this && root.memPool == null && root.kind == DocumentKind
      requires root.parent == root.firstChild == root.lastChild == root.prev == root.next == null
      requires root.kids == [] && root.path == []
      requires elementPool.owner == textPool.owner == commentPool.owner == this
      requires elementPool != textPool && elementPool != commentPool && textPool != commentPool
      requires forall pool :: pool in Counters() ==> pool.currentAllocs == pool.untracked == 0
      ensures Valid()
    {
      forall pool | pool in Counters()
        ensures PoolCounts(pool, {})
      {
        assert InPool(nodes, pool) == {} && InPool({}, pool) == {};
      }
      assert Elements(unlinked) == {};
      assert root.Linked();
    }

    /** Takes `child` out of its parent's children; it keeps what is below it. */
    method UnlinkLinks(parent: XMLNode, child: XMLNode)
      requires Shape() && parent in nodes && child in nodes && child.parent == parent
      modifies nodes`firstChild, nodes`lastChild, nodes`next, nodes`prev, nodes`parent, nodes`kids
      ensures Shape() && child.parent == null
      ensures parent.kids == Without(old(parent.kids), child)
      ensures forall n :: n in nodes && n != parent ==> n.kids == old(n.kids)
      ensures forall n :: n in nodes && n != child ==> n.parent == old(n.parent)
    {
      hide Shape, XMLNode.Linked, Without, At, NoDuplicates;
      ghost var q := parent.kids;
      Families(parent);
      Member(child);
      ghost var k := IndexOf(q, child);
      ChainOf(parent);
      NotOwnNeighbour(q, k);
      Splice(parent, child);
      parent.kids := Without(q, child);
      SplicedChain(parent, q, k);
      forall n | n in nodes && n != parent
        ensures n.Linked() && forall c :: c in n.kids ==> c in nodes
      {
        assert forall c :: c in n.kids ==> c !in q;
      }
      ShapeKept(parent, child, q);
    }

    lemma Member(child: XMLNode)
      requires Shape() && child in nodes && child.parent != null
      ensures child.parent in nodes && child in child.parent.kids
    {
    }

    lemma Families(parent: XMLNode)
      requires Shape() && parent in nodes
      ensures root in nodes && root.parent == null
      ensures forall n, c :: n in nodes && c in n.kids ==> c in nodes && c.parent == n
      ensures forall n :: n in nodes ==> n.Linked()
      ensures forall n :: n in nodes && n.parent != null ==> n.parent in nodes && n in n.parent.kids
      ensures forall n :: n in nodes && n.parent == null ==> n.next == null && n.prev == null
    {
      forall n, c | n in nodes && c in n.kids
        ensures c.parent == n
      {
        assert n.kids[IndexOf(n.kids, c)] == c;
      }
    }

    lemma ChainOf(n: XMLNode)
      requires n.Linked()
      ensures NoDuplicates(n.kids) && n.firstChild == At(n.kids, 0) && n.lastChild == At(n.kids, |n.kids| - 1)
      ensures forall i :: 0 <= i < |n.kids| ==> n.kids[i].parent == n
      ensures forall i :: 0 <= i < |n.kids| ==> n.kids[i].next == At(n.kids, i + 1)
      ensures forall i :: 0 <= i < |n.kids| ==> n.kids[i].prev == At(n.kids, i - 1)
    {
      hide At;
    }

    lemma NotOwnNeighbour(q: seq<XMLNode>, k: nat)
      requires NoDuplicates(q) && k < |q|
      ensures At(q, k - 1) != q[k] && At(q, k + 1) != q[k] && At(q, k) == q[k]
      ensures forall i :: 0 <= i < |q| ==> (q[i] == At(q, k - 1) <==> i == k - 1)
      ensures forall i :: 0 <= i < |q| ==> (q[i] == At(q, k + 1) <==> i == k + 1)
      ensures forall i :: 0 <= i < |q| ==> (q[i] == q[k] <==> i == k)
      ensures At(q, k - 1) in q || At(q, k - 1) == null
      ensures At(q, k + 1) in q || At(q, k + 1) == null
    {
    }

    lemma SplicedChain(n: XMLNode, q: seq<XMLNode>, k: nat)
      requires k < |q| && NoDuplicates(q) && n.kids == Without(q, q[k])
      requires n.firstChild == if At(q, 0) == q[k] then At(q, k + 1) else At(q, 0)
      requires n.lastChild == if At(q, |q| - 1) == q[k] then At(q, k - 1) else At(q, |q| - 1)
      requires forall i :: 0 <= i < |q| && i != k ==> q[i].parent == n
      requires forall i :: 0 <= i < |q| && i != k ==> q[i].next == if i == k - 1 then At(q, k + 1) else At(q, i + 1)
      requires forall i :: 0 <= i < |q| && i != k ==> q[i].prev == if i == k + 1 then At(q, k - 1) else At(q, i - 1)
      ensures n.Linked()
    {
      Position(q, k);
      EndsWithout(q, k);
      WithoutIsRest(q, q[k]);
      hide At, Without, NoDuplicates;
      forall i | 0 <= i < |n.kids|
        ensures n.kids[i].parent == n && n.kids[i].next == At(n.kids, i + 1) && n.kids[i].prev == At(n.kids, i - 1)
      {
        NeighboursWithout(q, k, i);
      }
    }

    lemma EndsWithout(q: seq<XMLNode>, k: nat)
      requires k < |q| && NoDuplicates(q)
      ensures var rest := q[..k] + q[k + 1..];
        && At(rest, 0) == (if At(q, 0) == q[k] then At(q, k + 1) else At(q, 0))
        && At(rest, |rest| - 1) == (if At(q, |q| - 1) == q[k] then At(q, k - 1) else At(q, |q| - 1))
    {
    }

    /** The pointer surgery of Unlink. */
    method Splice(parent: XMLNode, child: XMLNode)
      requires child.prev != child && child.next != child
      modifies parent`firstChild, parent`lastChild, child`next, child`prev, child`parent
      modifies Only(child.prev)`next, Only(child.next)`prev
      ensures child.parent == child.next == child.prev == null
      ensures parent.firstChild == if old(parent.firstChild) == child then old(child.next) else old(parent.firstChild)
      ensures parent.lastChild == if old(parent.lastChild) == child then old(child.prev) else old(parent.lastChild)
      ensures old(child.prev) != null ==> old(child.prev).next == old(child.next)
      ensures old(child.next) != null ==> old(child.next).prev == old(child.prev)
    {
      if child == parent.firstChild {
        parent.firstChild := parent.firstChild.next;
      }
      if child == parent.lastChild {
        parent.lastChild := parent.lastChild.prev;
      }
      if child.prev != null {
        child.prev.next := child.next;
      }
      if child.next != null {
        child.next.prev := child.prev;
      }
      child.next := null;
      child.prev := null;
      child.parent := null;
    }

    /** Nodes whose own links and children hold together make up the shape, with
        `child` out of the tree. */
    lemma ShapeKept(parent: XMLNode, child: XMLNode, q: seq<XMLNode>)
      requires root in nodes && root.parent == null && parent in nodes && child in nodes
      requires child.parent == child.next == child.prev == null && child in q && NoDuplicates(q)
      requires parent.kids == Without(q, child) && forall c :: c in q ==> c in nodes
      requires forall n :: n in nodes ==> n.Linked()
      requires forall n, c :: n in nodes && n != parent && c in n.kids ==> c in nodes
      requires forall n :: n in nodes && n != child && n.parent != null ==>
        n.parent in nodes && if n.parent == parent then n in q else n in n.parent.kids
      requires forall n :: n in nodes && n.parent == null ==> n.next == null && n.prev == null
      ensures Shape()
    {
      WithoutIsRest(q, child);
    }

    // ----- Unlinking, with the paths below -----

    /** Below `x` a node and its parent are together. */
    lemma SubtreeStep(x: XMLNode, n: XMLNode)
      requires Paths() && x in nodes && n in nodes && n != x
      ensures n in Subtree(x) <==> n.parent != null && n.parent in Subtree(x)
      ensures n in Subtree(x) ==> n.parent != null && |x.path| <= |n.parent.path| && n.path == n.parent.path + [n.parent]
      ensures n in Subtree(x) ==> n.path[|x.path|] == x
    {
      if x in n.path {
        BelowIsDeeper(n, x);
      }
    }

    method Unlink(parent: XMLNode, child: XMLNode)
      requires Shape() && Paths() && parent in nodes && child in nodes && child.parent == parent
      modifies nodes`firstChild, nodes`lastChild, nodes`next, nodes`prev, nodes`parent, nodes`kids, nodes`path
      ensures Shape() && Paths() && child.parent == null
      ensures parent.kids == Without(old(parent.kids), child)
      ensures forall n :: n in nodes && n != parent ==> n.kids == old(n.kids)
      ensures forall n :: n in nodes && n != child ==> n.parent == old(n.parent)
      ensures Subtree(child) == old(Subtree(child))
      ensures forall n :: n in nodes && n !in old(Subtree(child)) ==> n.path == old(n.path)
    {
      hide Shape, Without, XMLNode.Linked, Subtree;
      forall n | n in nodes && n != child
        ensures Follows(n, child)
      {
        SubtreeStep(child, n);
      }
      UnlinkLinks(parent, child);
      LiftPaths(child);
    }

    /** `n` has the path its parent gives it, and is below `x` just when its parent is. */
    ghost predicate Follows(n: XMLNode, x: XMLNode)
      reads `nodes, nodes`path, n`parent, n`path, x`path
    {
      && (n.parent == null ==> n.path == [])
      && (n.parent != null ==> n.parent in nodes && n.path == n.parent.path + [n.parent])
      && (n in Subtree(x) <==> n.parent != null && n.parent in Subtree(x))
      && (n in Subtree(x) ==> n.parent != null && |x.path| <= |n.parent.path| && n.path[|x.path|] == x)
    }

    /** Makes `x`, just unlinked, the top of its own tree. */
    ghost method LiftPaths(x: XMLNode)
      requires x in nodes && x.parent == null
      requires forall n :: n in nodes && n != x ==> Follows(n, x)
      modifies nodes`path
      ensures Paths() && Subtree(x) == old(Subtree(x))
      ensures forall n :: n in nodes && n !in old(Subtree(x)) ==> n.path == old(n.path)
    {
      var below, d := Subtree(x), |x.path|;
      forall n | n in nodes
        ensures n in below ==> d <= |n.path|
      {
        assert n != x ==> Follows(n, x);
      }
      forall n | n in below {
        n.path := n.path[d..];
      }
      forall n | n in nodes
        ensures (n.parent == null ==> n.path == [])
        ensures n.parent != null ==> n.parent in nodes && n.path == n.parent.path + [n.parent]
        ensures n in Subtree(x) <==> n in below
      {
        assert n != x ==> old(Follows(n, x));
      }
    }

    /** Hangs `x`, the top of its own tree, and what is below it under `parent`. */
    ghost method LowerPaths(parent: XMLNode, x: XMLNode)
      requires x in nodes && parent in nodes && x.parent == parent && x.path == [] && parent !in Subtree(x)
      requires forall n :: n in nodes && n != x ==> Follows(n, x)
      modifies nodes`path
      ensures Paths()
      ensures forall n :: n in nodes && n !in old(Subtree(x)) ==> n.path == old(n.path)
    {
      var below, above := Subtree(x), parent.path + [parent];
      forall n | n in below {
        n.path := above + n.path;
      }
      forall n | n in nodes
        ensures (n.parent == null ==> n.path == [])
        ensures n.parent != null ==> n.parent in nodes && n.path == n.parent.path + [n.parent]
      {
        if n != x {
          assert old(Follows(n, x));
          if n in below {
            assert above + (old(n.parent.path) + [n.parent]) == (above + old(n.parent.path)) + [n.parent];
          }
        }
      }
    }

    // ----- Inserting -----

    /** `x` stands between the (k-1)-th and the k-th of the old children `q`. */
    ghost predicate Placed(parent: XMLNode, x: XMLNode, q: seq<XMLNode>, k: nat)
      reads parent`firstChild, parent`lastChild, x`parent, x`prev, x`next, q`parent, q`prev, q`next
    {
      && k <= |q| && x.parent == parent && x.prev == At(q, k - 1) && x.next == At(q, k)
      && parent.firstChild == (if k == 0 then x else At(q, 0))
      && parent.lastChild == (if k == |q| then x else At(q, |q| - 1))
      && (forall i :: 0 <= i < |q| ==> q[i].parent == parent)
      && (forall i :: 0 <= i < |q| ==> q[i].next == if i == k - 1 then x else At(q, i + 1))
      && (forall i :: 0 <= i < |q| ==> q[i].prev == if i == k then x else At(q, i - 1))
    }

    function Inserted(q: seq<XMLNode>, k: nat, x: XMLNode): seq<XMLNode>
      requires k <= |q|
    {
      q[..k] + [x] + q[k..]
    }

    lemma InsertedMembers(q: seq<XMLNode>, k: nat, x: XMLNode)
      requires k <= |q| && NoDuplicates(q) && x !in q
      ensures NoDuplicates(Inserted(q, k, x))
      ensures forall y :: y in Inserted(q, k, x) <==> y == x || y in q
    {
      assert q == q[..k] + q[k..];
      assert forall y :: y in q <==> y in q[..k] || y in q[k..];
    }

    lemma InsertedChain(parent: XMLNode, x: XMLNode, q: seq<XMLNode>, k: nat)
      requires Placed(parent, x, q, k) && NoDuplicates(q) && x !in q && parent.kids == Inserted(q, k, x)
      ensures parent.Linked()
    {
      InsertedMembers(q, k, x);
      EndsWith(q, k, x);
      forall j | 0 <= j < |parent.kids|
        ensures parent.kids[j].parent == parent
        ensures parent.kids[j].next == At(parent.kids, j + 1) && parent.kids[j].prev == At(parent.kids, j - 1)
      {
        Neighbours(q, k, x, j);
        hide At, Inserted, NoDuplicates;
      }
    }

    lemma EndsWith(q: seq<XMLNode>, k: nat, x: XMLNode)
      requires k <= |q|
      ensures |Inserted(q, k, x)| == |q| + 1
      ensures At(Inserted(q, k, x), 0) == if k == 0 then x else At(q, 0)
      ensures At(Inserted(q, k, x), |q|) == if k == |q| then x else At(q, |q| - 1)
    {
    }

    /** The neighbours of the j-th once `x` has been put in as the k-th. */
    lemma Neighbours(q: seq<XMLNode>, k: nat, x: XMLNode, j: nat)
      requires k <= |q| && j <= |q|
      ensures var more := Inserted(q, k, x);
        && (j == k ==> more[j] == x && At(more, j + 1) == At(q, k) && At(more, j - 1) == At(q, k - 1))
        && (j != k ==>
              var i := if j < k then j else j - 1;
              && more[j] == q[i]
              && At(more, j + 1) == (if i == k - 1 then x else At(q, i + 1))
              && At(more, j - 1) == (if i == k then x else At(q, i - 1)))
    {
    }

    /** `x` is the top of a tree of its own, and `parent` is not in it. */
    ghost predicate Insertable(parent: XMLNode, x: XMLNode)
      reads `nodes, nodes`parent, nodes`path, x`parent, x`path
    {
      parent in nodes && x in nodes && x.parent == null && x != root && parent !in Subtree(x)
    }

    /** Records an insertion the pointers already show. */
    ghost method Settle(parent: XMLNode, x: XMLNode, k: nat)
      requires root in nodes && root.parent == null && x != root && parent in nodes && x in nodes
      requires k <= |parent.kids| && NoDuplicates(parent.kids) && Placed(parent, x, parent.kids, k)
      requires x.parent == parent
      requires forall n, c :: n in nodes && c in n.kids ==> c in nodes && c != x
      requires forall n :: n in nodes && n != parent ==> n.Linked()
      requires forall n :: n in nodes && n != x && n.parent != null ==> n.parent in nodes && n in n.parent.kids
      requires forall n :: n in nodes && n.parent == null ==> n.next == null && n.prev == null
      requires x.path == [] && parent !in Subtree(x)
      requires forall n :: n in nodes && n != x ==> Follows(n, x)
      modifies parent`kids, nodes`path
      ensures Shape() && Paths() && parent.kids == Inserted(old(parent.kids), k, x)
      ensures forall n :: n in nodes && n !in old(Subtree(x)) ==> n.path == old(n.path)
    {
      hide Follows, Subtree, Placed, XMLNode.Linked, Inserted, NoDuplicates, Paths;
      var q := parent.kids;
      assert forall c :: c in q ==> c in nodes;
      LowerPaths(parent, x);
      parent.kids := Inserted(q, k, x);
      InsertedMembers(q, k, x);
      InsertedChain(parent, x, q, k);
      forall n, c | n in nodes && c in n.kids
        ensures c in nodes
      {
        assert n == parent ==> c == x || c in q;
      }
    }

    lemma Ends(q: seq<XMLNode>)
      requires NoDuplicates(q)
      ensures At(q, -1) == At(q, |q|) == null && (At(q, 0) == null <==> q == []) && (At(q, |q| - 1) == null <==> q == [])
      ensures forall i :: 0 <= i < |q| ==> (q[i] == At(q, 0) <==> i == 0) && (q[i] == At(q, |q| - 1) <==> i == |q| - 1)
      ensures At(q, 0) in q || q == []
      ensures At(q, |q| - 1) in q || q == []
    {
    }

    method LinkLast(parent: XMLNode, x: XMLNode)
      requires parent.Linked() && x !in parent.kids
      modifies parent`firstChild, parent`lastChild, Only(parent.lastChild)`next, x`prev, x`next, x`parent
      ensures x.parent == parent && Placed(parent, x, parent.kids, |parent.kids|)
    {
      hide At, XMLNode.Linked, NoDuplicates;
      ChainOf(parent);
      Ends(parent.kids);
      if parent.lastChild != null {
        parent.lastChild.next := x;
        x.prev := parent.lastChild;
        parent.lastChild := x;

        x.next := null;
      } else {
        parent.firstChild := x;
        parent.lastChild := x;

        x.prev := null;
        x.next := null;
      }
      x.parent := parent;
    }

    method LinkFirst(parent: XMLNode, x: XMLNode)
      requires parent.Linked() && x !in parent.kids
      modifies parent`firstChild, parent`lastChild, Only(parent.firstChild)`prev, x`prev, x`next, x`parent
      ensures x.parent == parent && Placed(parent, x, parent.kids, 0)
    {
      hide At, XMLNode.Linked, NoDuplicates;
      ChainOf(parent);
      Ends(parent.kids);
      if parent.firstChild != null {
        parent.firstChild.prev := x;
        x.next := parent.firstChild;
        parent.firstChild := x;

        x.prev := null;
      } else {
        parent.firstChild := x;
        parent.lastChild := x;

        x.prev := null;
        x.next := null;
      }
      x.parent := parent;
    }

    method LinkAfter(parent: XMLNode, after: XMLNode, x: XMLNode)
      requires parent.Linked() && x !in parent.kids && after in parent.kids && after.next != null
      modifies after`next, after.next`prev, x`prev, x`next, x`parent
      ensures x.parent == parent && Placed(parent, x, parent.kids, IndexOf(parent.kids, after) + 1)
    {
      hide At, XMLNode.Linked, NoDuplicates;
      ghost var k := IndexOf(parent.kids, after);
      ChainOf(parent);
      Ends(parent.kids);
      NotOwnNeighbour(parent.kids, k);
      x.prev := after;
      x.next := after.next;
      after.next.prev := x;
      after.next := x;
      x.parent := parent;
    }

    // ----- Ownership -----

    /** Apart from those in `limbo`, every live node is in unlinked or has a parent. */
    ghost predicate Owned(limbo: set<XMLNode>)
      reads `nodes, `unlinked, nodes`parent, nodes`document
    {
      && NoDuplicates(unlinked) && root !in unlinked && root !in limbo
      && (forall n :: n in unlinked ==> n in nodes)
      && (forall n :: n in limbo ==> n in nodes && n.parent == null)
      && (forall n :: n in nodes && n != root ==> (n.parent == null <==> n in unlinked || n in limbo))
      && (forall n :: n in nodes ==> n.document == this)
      && (forall n :: n in nodes && n != root ==> n.memPool in Counters())
      && root.memPool == null && root.kind == DocumentKind
      && (forall n :: n in nodes && n != root ==> n.kind != DocumentKind)
    }

    ghost predicate PoolCounts(pool: NodePool, loose: set<XMLNode>)
      reads `nodes, pool
    {
      pool.currentAllocs == |InPool(nodes, pool)| && pool.untracked == |InPool(loose, pool)|
    }

    /** The pools count the live nodes, and those that are in no tree yet. */
    ghost predicate Counted(loose: set<XMLNode>)
      reads `nodes, elementPool, textPool, commentPool
    {
      && elementPool != textPool && elementPool != commentPool && textPool != commentPool
      && elementPool.owner == textPool.owner == commentPool.owner == this
      && (forall pool :: pool in Counters() ==> PoolCounts(pool, loose))
    }

    ghost predicate Valid()
      reads `nodes, `unlinked, Counters(), nodes`document, nodes`parent, nodes`firstChild, nodes`lastChild
      reads nodes`prev, nodes`next, nodes`kids, nodes`path
    {
      Shape() && Paths() && Owned({}) && Counted(Elements(unlinked))
    }

    /** Takes `node` off the unlinked list, if it is there, by moving the last entry
        into its place. */
    method MarkInUse(node: XMLNode)
      requires NoDuplicates(unlinked)
      modifies `unlinked
      ensures NoDuplicates(unlinked) && Elements(unlinked) == Elements(old(unlinked)) - {node}
      ensures forall n :: n in unlinked <==> n in old(unlinked) && n != node
      ensures node !in old(unlinked) ==> unlinked == old(unlinked)
    {
      var i := 0;
      while i < |unlinked|
        invariant 0 <= i <= |unlinked| && unlinked == old(unlinked)
        invariant node !in unlinked[..i]
      {
        if node == unlinked[i] {
          assert forall n :: n in unlinked <==> n in Elements(unlinked);
          var last := |unlinked| - 1;
          SwapRemoved(unlinked, i);
          unlinked := unlinked[i := unlinked[last]][..last];
          assert forall n :: n in unlinked <==> n in Elements(unlinked);
          return;
        }
        i := i + 1;
      }
    }

    lemma SwapRemoved(list: seq<XMLNode>, i: nat)
      requires NoDuplicates(list) && i < |list|
      ensures var last := |list| - 1; var less := list[i := list[last]][..last];
        NoDuplicates(less) && Elements(less) == Elements(list) - {list[i]}
    {
      var last := |list| - 1;
      var less := list[i := list[last]][..last];
      forall x | x in list && x != list[i]
        ensures x in less
      {
        var j := IndexOf(list, x);
        assert j < last ==> less[j] == x;
        assert j == last ==> less[i] == x;
      }
    }

    /** Forgets one untracked node of its pool. */
    method SetTracked(x: XMLNode, ghost loose: set<XMLNode>)
      requires Counted(loose) && x in loose && x.memPool in Counters()
      modifies x.memPool`untracked
      ensures Counted(loose - {x})
    {
      x.memPool.untracked := x.memPool.untracked - 1;
      forall pool | pool in Counters()
        ensures PoolCounts(pool, loose - {x})
      {
        assert old(PoolCounts(pool, loose));
        InPoolWithout(loose, x, pool);
      }
    }

    /** A node is among the children of its parent only. */
    lemma OthersWithout(x: XMLNode)
      requires Shape() && x in nodes
      ensures forall n :: n in nodes && n != x.parent ==> x !in n.kids && Without(n.kids, x) == n.kids
    {
      hide Without;
      forall n | n in nodes && n != x.parent
        ensures x !in n.kids
      {
        Families(n);
      }
      forall n | n in nodes && n != x.parent
        ensures Without(n.kids, x) == n.kids
      {
        NothingToRemove(n.kids, x);
      }
    }

    lemma NothingToRemove(list: seq<XMLNode>, x: XMLNode)
      requires x !in list
      ensures Without(list, x) == list
    {
    }

    /** May be put under `parent`: another document's node, which is refused, or one of
        this document's that is neither it nor above it. */
    ghost predicate MayInsert(parent: XMLNode, x: XMLNode)
      reads `nodes, nodes`path, x`document
    {
      && parent in nodes
      && (x.document == this ==> x in nodes && x != root && x != parent && x !in parent.path)
    }

    /** `x` is reached from `n` by `k` steps to the parent. */
    ghost predicate Above(x: XMLNode, n: XMLNode, k: nat)
      reads `nodes, nodes`parent
    {
      if k == 0 then n == x else n in nodes && n.parent != null && Above(x, n.parent, k - 1)
    }

    lemma {:induction false} AboveIsNearer(x: XMLNode, n: XMLNode, k: nat)
      requires Paths() && n in nodes && Above(x, n, k)
      ensures x in nodes && |n.path| == |x.path| + k
    {
      if k > 0 {
        AboveIsNearer(x, n.parent, k - 1);
      }
    }

    /** What the code leaves when `x`, put under `parent`, is `parent` or above it: no
        paths, so no forest. */
    lemma AncestorsMakeCycles(parent: XMLNode, x: XMLNode, k: nat)
      requires parent in nodes && x in nodes && x.parent == parent && Above(x, parent, k)
      ensures !Paths()
    {
      if Paths() {
        AboveIsNearer(x, parent, k);
      }
    }

    /** Makes `x` the top of its own tree, and no longer an unlinked node. */
    method InsertChildPreamble(x: XMLNode)
      requires Valid() && x in nodes && x != root
      modifies nodes`firstChild, nodes`lastChild, nodes`next, nodes`prev, nodes`parent, nodes`kids, nodes`path
      modifies `unlinked, x.memPool`untracked
      ensures Shape() && Paths() && Owned({x}) && Counted(Elements(unlinked)) && x.parent == null
      ensures x !in unlinked && Elements(unlinked) == Elements(old(unlinked)) - {x}
      ensures Subtree(x) == old(Subtree(x))
      ensures forall n :: n in nodes && n !in old(Subtree(x)) ==> n.path == old(n.path)
      ensures forall n :: n in nodes ==> n.kids == Without(old(n.kids), x)
      ensures forall n :: n in nodes && n != x ==> n.parent == old(n.parent)
    {
      hide Shape, Paths, Without, Subtree, XMLNode.Linked, Counted, NoDuplicates;
      OthersWithout(x);
      if x.parent != null {
        Member(x);
        assert x !in unlinked;
        Unlink(x.parent, x);
      } else {
        SetTracked(x, Elements(unlinked));
        MarkInUse(x);
      }
    }

    /** `x` is now a child of `parent`; no other node lost, gained or reordered
        children, or changed its parent. */
    twostate predicate Moved(parent: XMLNode, x: XMLNode)
      reads `nodes, `unlinked, nodes`parent, nodes`kids, nodes`path
    {
      && nodes == old(nodes) && parent in nodes && x in nodes && x.parent == parent
      && (forall n :: n in nodes && n != x ==> n.parent == old(n.parent))
      && (forall n :: n in nodes && n != parent ==> n.kids == Without(old(n.kids), x))
      && (forall n :: n in nodes && n !in old(Subtree(x)) ==> n.path == old(n.path))
      && Elements(unlinked) == Elements(old(unlinked)) - {x}
    }

    /** Before the pointers of `parent` and its children are touched. */
    lemma ReadyToLink(parent: XMLNode, x: XMLNode)
      requires Shape() && Paths() && Insertable(parent, x)
      ensures root in nodes && root.parent == null && x.path == []
      ensures parent.Linked() && x !in parent.kids && NoDuplicates(parent.kids) && x.next == null && x.prev == null
      ensures forall n, c :: n in nodes && c in n.kids ==> c in nodes && c != x && c.parent == n
      ensures forall n :: n in nodes ==> n.Linked()
      ensures forall n :: n in nodes && n.parent != null ==> n.parent in nodes && n in n.parent.kids
      ensures forall n :: n in nodes && n.parent == null ==> n.next == null && n.prev == null
      ensures forall n :: n in nodes && n != x ==> Follows(n, x)
      ensures Only(parent.firstChild) + Only(parent.lastChild) <= Elements(parent.kids)
      ensures forall n, c :: n in nodes && n != parent && c in n.kids ==> c !in parent.kids
    {
      hide Subtree, Without;
      Families(parent);
      Ends(parent.kids);
      forall n | n in nodes && n != x
        ensures Follows(n, x)
      {
        SubtreeStep(x, n);
      }
    }

    method PutLast(parent: XMLNode, x: XMLNode)
      requires Shape() && Paths() && Owned({x}) && x !in unlinked && Insertable(parent, x)
      modifies nodes`firstChild, nodes`lastChild, nodes`next, nodes`prev, x`parent, parent`kids, nodes`path
      ensures Shape() && Paths() && Owned({}) && x.parent == parent && parent.kids == old(parent.kids) + [x]
      ensures forall n :: n in nodes && n !in old(Subtree(x)) ==> n.path == old(n.path)
    {
      hide Without, XMLNode.Linked, NoDuplicates, Follows, Paths, Placed, Shape, Subtree;
      ReadyToLink(parent, x);
      LinkLast(parent, x);
      forall n | n in nodes && n != parent
        ensures n.Linked()
      {
        assert forall c :: c in n.kids ==> c != x && c !in parent.kids;
      }
      Settle(parent, x, |parent.kids|);
    }

    method PutFirst(parent: XMLNode, x: XMLNode)
      requires Shape() && Paths() && Owned({x}) && x !in unlinked && Insertable(parent, x)
      modifies nodes`firstChild, nodes`lastChild, nodes`next, nodes`prev, x`parent, parent`kids, nodes`path
      ensures Shape() && Paths() && Owned({}) && x.parent == parent && parent.kids == [x] + old(parent.kids)
      ensures forall n :: n in nodes && n !in old(Subtree(x)) ==> n.path == old(n.path)
    {
      hide Without, XMLNode.Linked, NoDuplicates, Follows, Paths, Placed, Shape, Subtree;
      ReadyToLink(parent, x);
      LinkFirst(parent, x);
      forall n | n in nodes && n != parent
        ensures n.Linked()
      {
        assert forall c :: c in n.kids ==> c != x && c !in parent.kids;
      }
      Settle(parent, x, 0);
    }

    method PutAfter(parent: XMLNode, after: XMLNode, x: XMLNode)
      requires Shape() && Paths() && Owned({x}) && x !in unlinked && Insertable(parent, x) && after in parent.kids && after.next != null
      modifies nodes`firstChild, nodes`lastChild, nodes`next, nodes`prev, x`parent, parent`kids, nodes`path
      ensures Shape() && Paths() && Owned({}) && x.parent == parent
      ensures parent.kids == Inserted(old(parent.kids), IndexOf(old(parent.kids), after) + 1, x)
      ensures forall n :: n in nodes && n !in old(Subtree(x)) ==> n.path == old(n.path)
    {
      hide Without, XMLNode.Linked, NoDuplicates, Follows, Paths, Placed, Shape, Subtree;
      ReadyToLink(parent, x);
      NextIsSibling(parent, after);
      LinkAfter(parent, after, x);
      forall n | n in nodes && n != parent
        ensures n.Linked()
      {
        assert forall c :: c in n.kids ==> c != x && c !in parent.kids;
      }
      Settle(parent, x, IndexOf(parent.kids, after) + 1);
    }

    lemma NextIsSibling(parent: XMLNode, after: XMLNode)
      requires parent.Linked() && after in parent.kids && after.next != null
      ensures after.next in parent.kids && IndexOf(parent.kids, after) + 1 < |parent.kids|
    {
      NextOf(parent, after);
    }

    lemma NextOf(parent: XMLNode, after: XMLNode)
      requires parent.Linked() && after in parent.kids
      ensures after.next == At(parent.kids, IndexOf(parent.kids, after) + 1)
      ensures parent.lastChild == At(parent.kids, |parent.kids| - 1) && NoDuplicates(parent.kids)
    {
      assert parent.kids[IndexOf(parent.kids, after)] == after;
    }

    lemma NotAbove(parent: XMLNode, x: XMLNode)
      requires MayInsert(parent, x) && x.document == this && Owned({})
      ensures parent in nodes && x in nodes && x != root && x != parent && parent !in Subtree(x)
      ensures x.memPool in Counters()
    {
    }

    /** Refused: nothing happened. */
    twostate predicate Untouched()
      reads `nodes, `unlinked, nodes`parent, nodes`kids
    {
      && nodes == old(nodes) && unlinked == old(unlinked)
      && forall n :: n in nodes ==> n.kids == old(n.kids) && n.parent == old(n.parent)
    }

    method InsertEndChild(parent: XMLNode, addThis: XMLNode) returns (r: XMLNode?)
      requires Valid() && MayInsert(parent, addThis)
      modifies nodes`firstChild, nodes`lastChild, nodes`next, nodes`prev, nodes`parent, nodes`kids, nodes`path
      modifies `unlinked, Counters()`untracked
      ensures Valid()
      ensures old(addThis.document) != this ==> r == null && Untouched()
      ensures old(addThis.document) == this ==>
        r == addThis && Moved(parent, addThis) && parent.kids == Without(old(parent.kids), addThis) + [addThis]
    {
      hide Without, Counted, NoDuplicates, Paths, Shape, Owned, Elements, Subtree, MayInsert;
      if addThis.document != this {
        return null;
      }
      NotAbove(parent, addThis);
      InsertChildPreamble(addThis);
      PutLast(parent, addThis);
      return addThis;
    }

    method InsertFirstChild(parent: XMLNode, addThis: XMLNode) returns (r: XMLNode?)
      requires Valid() && MayInsert(parent, addThis)
      modifies nodes`firstChild, nodes`lastChild, nodes`next, nodes`prev, nodes`parent, nodes`kids, nodes`path
      modifies `unlinked, Counters()`untracked
      ensures Valid()
      ensures old(addThis.document) != this ==> r == null && Untouched()
      ensures old(addThis.document) == this ==>
        r == addThis && Moved(parent, addThis) && parent.kids == [addThis] + Without(old(parent.kids), addThis)
    {
      hide Without, Counted, NoDuplicates, Paths, Shape, Owned, Elements, Subtree, MayInsert;
      if addThis.document != this {
        return null;
      }
      NotAbove(parent, addThis);
      InsertChildPreamble(addThis);
      PutFirst(parent, addThis);
      return addThis;
    }

    /** `after` has a next sibling, and keeps one when `x` is unlinked first. Otherwise
        the code would follow a null pointer: `x` must not be both the last child and
        the one right after `after`. */
    ghost predicate MayFollow(parent: XMLNode, after: XMLNode, x: XMLNode)
      reads parent`lastChild, after`next
    {
      after.next == x ==> parent.lastChild != x
    }

    lemma StaysBefore(parent: XMLNode, after: XMLNode, x: XMLNode)
      requires Shape() && parent in nodes && after in nodes && after.parent == parent && after != x
      ensures after in parent.kids && after in Without(parent.kids, x)
      ensures var rest := Without(parent.kids, x);
        && (after.next == null ==> IndexOf(rest, after) + 1 == |rest|)
        && (after.next != null ==> (MayFollow(parent, after, x) <==> IndexOf(rest, after) + 1 < |rest|))
    {
      Member(after);
      NextOf(parent, after);
      LastWithout(parent.kids, x, after);
    }

    lemma NotLast(parent: XMLNode, after: XMLNode)
      requires Shape() && parent in nodes && after in parent.kids && IndexOf(parent.kids, after) + 1 < |parent.kids|
      ensures after.next != null
    {
      NextOf(parent, after);
    }

    method InsertAfterChild(parent: XMLNode, afterThis: XMLNode, addThis: XMLNode) returns (r: XMLNode?)
      requires Valid() && parent in nodes && afterThis in nodes
      requires addThis.document == this && afterThis.parent == parent && afterThis != addThis ==>
        MayInsert(parent, addThis) && MayFollow(parent, afterThis, addThis)
      modifies nodes`firstChild, nodes`lastChild, nodes`next, nodes`prev, nodes`parent, nodes`kids, nodes`path
      modifies `unlinked, Counters()`untracked
      ensures Valid()
      ensures old(addThis.document) != this || old(afterThis.parent) != parent ==> r == null && Untouched()
      ensures old(addThis.document) == this && old(afterThis.parent) == parent && afterThis == addThis ==>
        r == addThis && Untouched()
      ensures old(addThis.document) == this && old(afterThis.parent) == parent && afterThis != addThis ==>
        && r == addThis && Moved(parent, addThis)
        && var others := Without(old(parent.kids), addThis);
           afterThis in others && parent.kids == Inserted(others, IndexOf(others, afterThis) + 1, addThis)
    {
      hide Without, Counted, NoDuplicates, Paths, Shape, Owned, Elements, Subtree, MayInsert, MayFollow;
      if addThis.document != this {
        return null;
      }
      if afterThis.parent != parent {
        return null;
      }
      if afterThis == addThis {
        return addThis;
      }
      StaysBefore(parent, afterThis, addThis);
      if afterThis.next == null {
        r := InsertEndChild(parent, addThis);
        return;
      }
      NotAbove(parent, addThis);
      InsertChildPreamble(addThis);
      NotLast(parent, afterThis);
      PutAfter(parent, afterThis, addThis);
      return addThis;
    }

    // ----- Creating and deleting -----

    /** Counts a node without parent or children among the live ones. */
    ghost method Adopt(node: XMLNode)
      requires Shape() && Paths() && node.kids == [] && node.path == []
      requires node.parent == node.firstChild == node.lastChild == node.next == node.prev == null
      modifies `nodes
      ensures Shape() && Paths() && nodes == old(nodes) + {node}
    {
      assert node.Linked();
      hide XMLNode.Linked;
      nodes := nodes + {node};
    }

    lemma NewIsApart()
      requires Owned({})
      ensures forall n :: n in Elements(unlinked) ==> n in nodes
    {
    }

    /** CreateUnlinkedNode. */
    method NewNode(kind: Kind) returns (node: XMLNode)
      requires Valid() && kind != DocumentKind
      modifies `nodes, `made, `unlinked, Counters()`currentAllocs, Counters()`untracked
      ensures Valid() && fresh(node) && node.kind == kind && node.parent == null && node.kids == [] && node.path == []
      ensures node.document == this && node.value == "" && !node.isCData && node.attributes == []
      ensures node.memPool == PoolFor(kind) && made == old(made) + 1
      ensures nodes == old(nodes) + {node} && unlinked == old(unlinked) + [node]
    {
      hide Shape, Paths, Owned, Elements;
      NewIsApart();
      var pool := PoolFor(kind);
      made := made + 1;
      node := new XMLNode(kind, pool, this);
      Enlist(node);
      CountNew(node, pool, old(nodes), Elements(old(unlinked)));
    }

    /** Pushes a new node on the unlinked list. */
    method Enlist(node: XMLNode)
      requires Shape() && Paths() && Owned({}) && node !in nodes && node.kids == [] && node.path == []
      requires node.parent == node.firstChild == node.lastChild == node.next == node.prev == null
      requires node.document == this && node.memPool in Counters() && node.kind != DocumentKind
      modifies `nodes, `unlinked
      ensures Shape() && Paths() && Owned({})
      ensures nodes == old(nodes) + {node} && unlinked == old(unlinked) + [node]
      ensures Elements(unlinked) == Elements(old(unlinked)) + {node}
    {
      hide Shape, Paths, NoDuplicates, Elements, Counters;
      OneMore(node);
      NoDuplicatesWith(unlinked, node);
      unlinked := unlinked + [node];
      Adopt(node);
    }

    lemma OneMore(node: XMLNode)
      ensures Elements(unlinked + [node]) == Elements(unlinked) + {node}
    {
    }

    method CountNew(node: XMLNode, pool: NodePool, ghost before: set<XMLNode>, ghost loose: set<XMLNode>)
      requires elementPool != textPool && elementPool != commentPool && textPool != commentPool
      requires elementPool.owner == textPool.owner == commentPool.owner == this
      requires node.memPool == pool && pool in Counters() && node !in before && node !in loose && nodes == before + {node}
      requires forall q :: q in Counters() ==> q.currentAllocs == |InPool(before, q)| && q.untracked == |InPool(loose, q)|
      modifies pool`currentAllocs, pool`untracked
      ensures Counted(loose + {node})
    {
      pool.currentAllocs := pool.currentAllocs + 1;
      pool.untracked := pool.untracked + 1;
      forall q | q in Counters()
        ensures PoolCounts(q, loose + {node})
      {
        InPoolWith(before, node, q);
        InPoolWith(loose, node, q);
      }
    }

    /** A child's subtree is its parent's, without the parent at least. */
    lemma ChildSubtree(x: XMLNode, child: XMLNode)
      requires Paths() && x in nodes && child in nodes && child.parent == x
      ensures Subtree(child) <= Subtree(x) && x !in Subtree(child) && x in Subtree(x)
    {
      forall n | n in Subtree(child) && n != child
        ensures x in n.path
      {
        BelowIsDeeper(n, child);
        assert child.path == x.path + [x];
        assert n.path[..|child.path|][|x.path|] == x;
      }
      if x in child.path[..|x.path|] {
        assert x in x.path;
        BelowIsDeeper(x, x);
      }
      if x in Subtree(child) {
        BelowIsDeeper(x, child);
      }
    }

    lemma {:induction false} NothingBelow(x: XMLNode, n: XMLNode)
      requires Shape() && Paths() && x in nodes && x.kids == [] && n in nodes
      ensures x !in n.path
      decreases |n.path|
    {
      if n.parent != null {
        NothingBelow(x, n.parent);
      }
    }

    lemma ChildlessSubtree(x: XMLNode)
      requires Shape() && Paths() && x in nodes && x.kids == []
      ensures Subtree(x) == {x}
    {
      hide Shape, Paths;
      forall n | n in nodes
        ensures x !in n.path
      {
        NothingBelow(x, n);
      }
    }

    lemma FirstKid(x: XMLNode)
      requires Shape() && x in nodes
      ensures x.firstChild == null ==> x.kids == [] && x.lastChild == null
      ensures x.firstChild != null ==> x.firstChild in nodes && x.firstChild.parent == x
    {
    }

    lemma RootIsTop()
      requires Shape()
      ensures root in nodes && root.parent == null
    {
    }

    /** The live nodes without a childless one that is in no tree. */
    ghost method Abandon(x: XMLNode)
      requires Shape() && Paths() && x in nodes && x != root && x.parent == null && x.kids == []
      modifies `nodes
      ensures Shape() && Paths() && nodes == old(nodes) - {x}
    {
      hide XMLNode.Linked;
      Families(x);
      nodes := nodes - {x};
    }

    /** Forgets a childless node out of the tree, and gives its slot back to its pool. */
    method Release(x: XMLNode, ghost limbo: set<XMLNode>)
      requires Shape() && Paths() && Owned(limbo) && Counted(Elements(unlinked))
      requires x in limbo && x !in unlinked && x.kids == []
      modifies `nodes, Counters()`currentAllocs, Counters()`untracked
      ensures Shape() && Paths() && Owned(limbo - {x}) && Counted(Elements(unlinked))
      ensures nodes == old(nodes) - {x}
    {
      hide Shape, Paths, NoDuplicates;
      ghost var before, loose := nodes, Elements(unlinked);
      Abandon(x);
      x.memPool.currentAllocs := x.memPool.currentAllocs - 1;
      forall pool | pool in Counters()
        ensures PoolCounts(pool, loose)
      {
        assert old(PoolCounts(pool, loose));
        InPoolWithout(before, x, pool);
      }
    }

    /** MarkInUse, for a node about to be deleted. */
    method MarkDoomed(x: XMLNode, ghost limbo: set<XMLNode>)
      requires Owned(limbo) && x in limbo
      modifies `unlinked
      ensures Owned(limbo) && x !in unlinked && Elements(unlinked) == Elements(old(unlinked)) - {x}
      ensures x !in old(unlinked) ==> unlinked == old(unlinked)
    {
      hide NoDuplicates, Elements;
      MarkInUse(x);
    }

    lemma InLimbo(x: XMLNode, limbo: set<XMLNode>)
      requires Owned(limbo) && x in limbo
      ensures x in nodes && x in Subtree(x) && NoDuplicates(unlinked)
    {
    }

    /** The static DeleteNode: everything below goes with the node. */
    method DeleteDetached(x: XMLNode, ghost limbo: set<XMLNode>)
      requires Shape() && Paths() && Owned(limbo) && Counted(Elements(unlinked) - {x}) && x in limbo
      modifies nodes`firstChild, nodes`lastChild, nodes`next, nodes`prev, nodes`parent, nodes`kids, nodes`path
      modifies `nodes, `unlinked, Counters()`currentAllocs, Counters()`untracked
      ensures Shape() && Paths() && Owned(limbo - {x}) && Counted(Elements(unlinked))
      ensures nodes == old(nodes) - old(Subtree(x)) && Elements(unlinked) == Elements(old(unlinked)) - {x}
      ensures x !in old(unlinked) ==> unlinked == old(unlinked)
      ensures forall n :: n in nodes ==> n.kids == old(n.kids) && n.parent == old(n.parent) && n.path == old(n.path)
      decreases Subtree(x), 2
    {
      hide Shape, Paths, Counted, Subtree, NoDuplicates, Elements, Counters, Owned;
      InLimbo(x, limbo);
      MarkDoomed(x, limbo);
      DeleteChildren(x, limbo);
      Release(x, limbo);
    }

    method DeleteChildren(x: XMLNode, ghost limbo: set<XMLNode>)
      requires Shape() && Paths() && Owned(limbo) && Counted(Elements(unlinked)) && x in nodes
      modifies nodes`firstChild, nodes`lastChild, nodes`next, nodes`prev, nodes`parent, nodes`kids, nodes`path
      modifies `nodes, `unlinked, Counters()`currentAllocs, Counters()`untracked
      ensures Shape() && Paths() && Owned(limbo) && Counted(Elements(unlinked)) && x in nodes && x.kids == []
      ensures nodes == old(nodes) - (old(Subtree(x)) - {x}) && unlinked == old(unlinked)
      ensures forall n :: n in nodes && n != x ==> n.kids == old(n.kids)
      ensures forall n :: n in nodes ==> n.parent == old(n.parent) && n.path == old(n.path)
      decreases Subtree(x), 1
    {
      hide Shape, Paths, Counted, Without, NoDuplicates;
      ghost var below := Subtree(x);
      while x.firstChild != null
        invariant Shape() && Paths() && Owned(limbo) && Counted(Elements(unlinked)) && x in nodes
        invariant unlinked == old(unlinked) && nodes <= old(nodes) && old(nodes) - nodes <= below - {x}
        invariant Subtree(x) == below * nodes
        invariant forall n :: n in nodes && n != x ==> n.kids == old(n.kids)
        invariant forall n :: n in nodes ==> n.parent == old(n.parent) && n.path == old(n.path)
        decreases nodes
      {
        FirstKid(x);
        ChildSubtree(x, x.firstChild);
        DeleteChild(x, x.firstChild, limbo);
      }
      FirstKid(x);
      ChildlessSubtree(x);
      x.firstChild := null;
      x.lastChild := null;
    }

    method DeleteChild(parent: XMLNode, node: XMLNode, ghost limbo: set<XMLNode>)
      requires Shape() && Paths() && Owned(limbo) && Counted(Elements(unlinked))
      requires parent in nodes && node in nodes && node.parent == parent
      modifies nodes`firstChild, nodes`lastChild, nodes`next, nodes`prev, nodes`parent, nodes`kids, nodes`path
      modifies `nodes, `unlinked, Counters()`currentAllocs, Counters()`untracked
      ensures Shape() && Paths() && Owned(limbo) && Counted(Elements(unlinked))
      ensures nodes == old(nodes) - old(Subtree(node)) && unlinked == old(unlinked)
      ensures parent in nodes && parent.kids == Without(old(parent.kids), node)
      ensures forall n :: n in nodes && n != parent ==> n.kids == old(n.kids)
      ensures forall n :: n in nodes ==> n.parent == old(n.parent) && n.path == old(n.path)
      decreases Subtree(node), 3
    {
      hide Shape, Paths, Counted, Subtree, Without, NoDuplicates;
      ChildSubtree(parent, node);
      OthersWithout(node);
      RootIsTop();
      assert node !in unlinked && Elements(unlinked) - {node} == Elements(unlinked);
      Unlink(parent, node);
      DeleteDetached(node, limbo + {node});
      assert limbo + {node} - {node} == limbo;
    }

    /** Deletes a node and all below it, whether it is in the tree or not. */
    method DeleteNode(node: XMLNode)
      requires Valid() && node in nodes && node != root
      modifies nodes`firstChild, nodes`lastChild, nodes`next, nodes`prev, nodes`parent, nodes`kids, nodes`path
      modifies `nodes, `unlinked, Counters()`currentAllocs, Counters()`untracked
      ensures Valid()
      ensures nodes == old(nodes) - old(Subtree(node)) && Elements(unlinked) == Elements(old(unlinked)) - {node}
      ensures forall n :: n in nodes ==> n.kids == Without(old(n.kids), node)
      ensures forall n :: n in nodes ==> n.parent == old(n.parent) && n.path == old(n.path)
    {
      hide Shape, Paths, Counted, Subtree, Without, NoDuplicates;
      OthersWithout(node);
      if node.parent != null {
        Member(node);
        assert Elements(unlinked) - {node} == Elements(unlinked);
        DeleteChild(node.parent, node, {});
      } else {
        SetTracked(node, Elements(unlinked));
        DeleteDetached(node, {node});
        assert {node} - {node} == {};
      }
    }

    lemma {:induction false} TopOf(n: XMLNode)
      requires Shape() && Paths() && n in nodes && n.parent != null
      ensures n.path != [] && n.path[0] in nodes && n.path[0].parent == null
      decreases |n.path|
    {
      if n.parent.parent != null {
        TopOf(n.parent);
      }
    }

    /** With nothing below the document and nothing unlinked, nothing else is live. */
    lemma OnlyRootLeft()
      requires Shape() && Paths() && Owned({}) && root.kids == [] && unlinked == []
      ensures nodes == {root}
    {
      hide Shape, Paths;
      RootIsTop();
      forall n | n in nodes && n != root
        ensures false
      {
        TopOf(n);
        NothingBelow(root, n);
      }
    }

    lemma NothingCounted()
      requires Counted({}) && nodes == {root} && root.memPool == null
      ensures elementPool.currentAllocs == textPool.currentAllocs == commentPool.currentAllocs == 0
      ensures elementPool.untracked == textPool.untracked == commentPool.untracked == 0
    {
      forall pool | pool in Counters()
        ensures pool.currentAllocs == 0 && pool.untracked == 0
      {
        assert PoolCounts(pool, {});
        assert InPool(nodes, pool) == {} && InPool({}, pool) == {};
      }
    }

    /** Clear ends, and leaves nothing but the document itself. */
    method Clear()
      requires Valid()
      modifies nodes`firstChild, nodes`lastChild, nodes`next, nodes`prev, nodes`parent, nodes`kids, nodes`path
      modifies `nodes, `unlinked, Counters()`currentAllocs, Counters()`untracked
      ensures Valid() && nodes == {root} && root.kids == [] && unlinked == []
      ensures elementPool.currentAllocs == textPool.currentAllocs == commentPool.currentAllocs == 0
      ensures elementPool.untracked == textPool.untracked == commentPool.untracked == 0
    {
      hide Shape, Paths, Counted, Without, NoDuplicates;
      RootIsTop();
      DeleteChildren(root, {});
      while unlinked != []
        invariant Valid() && root in nodes && root.kids == [] && nodes <= old(nodes)
        decreases nodes
      {
        NothingToRemove(root.kids, unlinked[0]);
        RootIsTop();
        DeleteNode(unlinked[0]);
        RootIsTop();
      }
      OnlyRootLeft();
      assert Elements(unlinked) == {};
      NothingCounted();
    }

    // ----- What validity means to a reader of the tree -----

    lemma OnlyChildOnce(n: XMLNode)
      requires Shape() && n in nodes && n.parent != null
      ensures n.parent in nodes && n in n.parent.kids && n.parent.Linked()
      ensures n.next == At(n.parent.kids, IndexOf(n.parent.kids, n) + 1)
      ensures n.prev == At(n.parent.kids, IndexOf(n.parent.kids, n) - 1)
    {
      hide At;
      Member(n);
      ChainOf(n.parent);
      assert n.parent.kids[IndexOf(n.parent.kids, n)] == n;
    }

    /** The next and previous links are each other's inverse and stay among siblings,
        the first and last children are the ends, and nobody is below itself. */
    lemma LinksAgree(n: XMLNode)
      requires Valid() && n in nodes
      ensures n.next != null ==> n.next in nodes && n.next.prev == n && n.next.parent == n.parent && n.parent != null
      ensures n.prev != null ==> n.prev in nodes && n.prev.next == n && n.prev.parent == n.parent && n.parent != null
      ensures n.parent != null ==>
        && n.parent in nodes && (n.prev == null <==> n.parent.firstChild == n) && (n.next == null <==> n.parent.lastChild == n)
      ensures n !in n.path && (n.parent != null ==> n.path == n.parent.path + [n.parent])
    {
      if n in n.path {
        BelowIsDeeper(n, n);
      }
      if n.parent != null {
        OnlyChildOnce(n);
        ChainOf(n.parent);
        var q, k := n.parent.kids, IndexOf(n.parent.kids, n);
        hide Shape, Paths, XMLNode.Linked, Owned, Counted;
        NotOwnNeighbour(q, k);
        Ends(q);
        assert k > 0 ==> q[k - 1].next == At(q, k);
        assert k + 1 < |q| ==> q[k + 1].prev == At(q, k);
      }
    }

    /** Each live node but the document has a parent or is unlinked, once. */
    lemma OwnershipPartition(n: XMLNode)
      requires Valid() && n in nodes && n != root
      ensures multiset(unlinked)[n] == if n.parent == null then 1 else 0
    {
      hide Shape, Paths, Counted;
      Occurrences(unlinked, n);
    }

    /** Each pool counts its live nodes and those of them that are unlinked; together
        the pools account for all nodes but the document. */
    lemma PoolsCountNodes()
      requires Valid()
      ensures forall pool :: pool in Counters() ==>
        && pool.currentAllocs == |set n | n in nodes && n.memPool == pool|
        && pool.untracked == |set n | n in unlinked && n.memPool == pool|
      ensures elementPool.currentAllocs + textPool.currentAllocs + commentPool.currentAllocs == |nodes| - 1
      ensures elementPool.untracked + textPool.untracked + commentPool.untracked == |unlinked|
    {
      hide Shape, Paths, NoDuplicates;
      SetOf(unlinked);
      RootIsTop();
      Split(nodes - {root});
      Split(Elements(unlinked));
      forall pool | pool in Counters()
        ensures pool.currentAllocs == |InPool(nodes - {root}, pool)| && pool.untracked == |InPool(Elements(unlinked), pool)|
        ensures pool.currentAllocs == |InPool(nodes, pool)|
        ensures InPool(Elements(unlinked), pool) == set n | n in unlinked && n.memPool == pool
      {
        assert PoolCounts(pool, Elements(unlinked));
        InPoolWithout(nodes, root, pool);
        assert InPool(Elements(unlinked), pool) == set n | n in unlinked && n.memPool == pool;
      }
    }

    lemma Split(all: set<XMLNode>)
      requires forall n :: n in all ==> n.memPool in Counters()
      requires elementPool != textPool && elementPool != commentPool && textPool != commentPool
      ensures |InPool(all, elementPool)| + |InPool(all, textPool)| + |InPool(all, commentPool)| == |all|
    {
      var e, t, c := InPool(all, elementPool), InPool(all, textPool), InPool(all, commentPool);
      assert all == e + t + c && e !! t && (e + t) !! c;
    }
  }

  lemma {:induction false} Occurrences(list: seq<XMLNode>, x: XMLNode)
    requires NoDuplicates(list)
    ensures multiset(list)[x] == if x in list then 1 else 0
  {
    if list != [] {
      Occurrences(list[1..], x);
      assert list == [list[0]] + list[1..];
    }
  }

  lemma {:induction false} SetOf(list: seq<XMLNode>)
    requires NoDuplicates(list)
    ensures |Elements(list)| == |list|
  {
    if list != [] {
      SetOf(list[1..]);
      assert Elements(list) == {list[0]} + Elements(list[1..]);
    }
  }
}
