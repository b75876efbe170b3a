/** Tree nodes as the row renderer sees them, and the descendant test used to
    dim the rows of a node that is being dragged over its own subtree.

    The renderer compares nodes with reference identity. Here every node carries
    an `id` and identity is equality of ids; the predicates `UniqueIds` and
    `IdentifiedIn` state when ids behave like references (each object occurs at
    one place in the tree). */
module TreeNode {

  datatype Option<T> = None | Some(value: T)

  /** What a node's `children` property holds: nothing (absent, null or any
      other falsy value), a lazy loader function (with what JavaScript reports
      as its `length`: the number of parameters before the first default or
      rest parameter), or a concrete list. Only finite, acyclic trees can be
      represented. */
  datatype Children = Absent | Lazy(arity: nat) | List(nodes: seq<Node>)

  /** A title: none, a plain string, some other renderable element (opaque),
      or a caller-supplied render function (opaque tag). */
  datatype Title = NoTitle | Text(text: string) | Element(element: nat) | RenderFn(renderer: nat)

  datatype Node = Node(
    id: nat,
    title: Title,
    children: Children,
    classname: Option<string>,
    expanded: bool)

  /** The descendant test: some child is `younger` or has `younger` as a
      descendant. Absent children and lazy loaders have no descendants. */
  function IsDescendant(older: Node, younger: Node): (r: bool)
    ensures r ==> older.children.List? && |older.children.nodes| > 0
    ensures older.children.List? ==>
              forall i :: 0 <= i < |older.children.nodes| && older.children.nodes[i].id == younger.id ==> r
    decreases older
  {
    match older.children
    case List(cs) =>
      exists i | 0 <= i < |cs| :: cs[i].id == younger.id || IsDescendant(cs[i], younger)
    case _ => false
  }

  /** The node reached from `n` by following the child indices in `p`, if any. */
  function NodeAt(n: Node, p: seq<nat>): (r: Option<Node>)
    ensures p == [] ==> r == Some(n)
    ensures r.Some? && p != [] ==> n.children.List? && p[0] < |n.children.nodes|
    decreases |p|
  {
    if p == [] then Some(n)
    else match n.children
      case List(cs) => if p[0] < |cs| then NodeAt(cs[p[0]], p[1..]) else None
      case _ => None
  }

  /** Reference definition: some node at a non-empty path below `older`
      is `younger` (has its identity). */
  ghost predicate Reaches(older: Node, younger: Node) {
    exists p :: p != [] && NodeAt(older, p).Some? && NodeAt(older, p).value.id == younger.id
  }

  /** No two places in the tree hold nodes with the same identity. */
  ghost predicate UniqueIds(root: Node) {
    forall p, q ::
      (NodeAt(root, p).Some? && NodeAt(root, q).Some? &&
       NodeAt(root, p).value.id == NodeAt(root, q).value.id) ==> p == q
  }

  /** Every node of `root`'s tree that has `n`'s identity is `n` itself. */
  ghost predicate IdentifiedIn(root: Node, n: Node) {
    forall p :: NodeAt(root, p).Some? && NodeAt(root, p).value.id == n.id ==> NodeAt(root, p).value == n
  }

  /** Following `p` and then `q` is following `p + q`. */
  lemma {:induction false} NodeAtConcat(n: Node, p: seq<nat>, q: seq<nat>)
    requires NodeAt(n, p).Some?
    ensures NodeAt(n, p + q) == NodeAt(NodeAt(n, p).value, q)
    decreases |p|
  {
    if p != [] {
      var cs := n.children.nodes;
      assert p + q != [] && (p + q)[0] == p[0];
      assert (p + q)[1..] == p[1..] + q;
      assert NodeAt(n, p) == NodeAt(cs[p[0]], p[1..]);
      assert NodeAt(n, p + q) == NodeAt(cs[p[0]], p[1..] + q);
      NodeAtConcat(cs[p[0]], p[1..], q);
    } else {
      assert p + q == q;
    }
  }

  /** The recursive test agrees with reachability along child paths. */
  lemma {:induction false} IsDescendantIffReaches(older: Node, younger: Node)
    ensures IsDescendant(older, younger) <==> Reaches(older, younger)
    decreases older
  {
    if IsDescendant(older, younger) {
      var cs := older.children.nodes;
      var i :| 0 <= i < |cs| && (cs[i].id == younger.id || IsDescendant(cs[i], younger));
      if cs[i].id == younger.id {
        assert NodeAt(older, [i]) == Some(cs[i]) by {
          assert [i][1..] == [];
        }
      } else {
        IsDescendantIffReaches(cs[i], younger);
        var q :| q != [] && NodeAt(cs[i], q).Some? && NodeAt(cs[i], q).value.id == younger.id;
        assert ([i] + q)[1..] == q;
        assert NodeAt(older, [i] + q) == NodeAt(cs[i], q);
      }
    }
    if Reaches(older, younger) {
      var p :| p != [] && NodeAt(older, p).Some? && NodeAt(older, p).value.id == younger.id;
      var cs := older.children.nodes;
      var i := p[0];
      if p[1..] == [] {
        assert cs[i].id == younger.id;
      } else {
        assert NodeAt(cs[i], p[1..]) == NodeAt(older, p);
        assert Reaches(cs[i], younger);
        IsDescendantIffReaches(cs[i], younger);
      }
    }
  }

  /** A member of a concrete child list is a descendant. */
  lemma ChildIsDescendant(older: Node, younger: Node)
    requires older.children.List? && younger in older.children.nodes
    ensures IsDescendant(older, younger)
  {
  }

  /** A node without a concrete child list has no descendants. */
  lemma NoListNoDescendants(older: Node, younger: Node)
    requires older.children.Absent? || older.children.Lazy?
    ensures !IsDescendant(older, younger)
  {
  }

  /** Transitivity, provided `b` is the node of `a`'s tree carrying `b`'s identity. */
  lemma DescendantTransitive(a: Node, b: Node, c: Node)
    requires IdentifiedIn(a, b)
    requires IsDescendant(a, b) && IsDescendant(b, c)
    ensures IsDescendant(a, c)
  {
    IsDescendantIffReaches(a, b);
    IsDescendantIffReaches(b, c);
    var p :| p != [] && NodeAt(a, p).Some? && NodeAt(a, p).value.id == b.id;
    assert NodeAt(a, p).value == b;
    var q :| q != [] && NodeAt(b, q).Some? && NodeAt(b, q).value.id == c.id;
    NodeAtConcat(a, p, q);
    assert p + q != [];
    assert NodeAt(a, p + q) == NodeAt(b, q);
    IsDescendantIffReaches(a, c);
  }

  /** In a tree with unique identities, each node is identified by its id. */
  lemma UniqueIdsIdentify(root: Node, p: seq<nat>)
    requires UniqueIds(root) && NodeAt(root, p).Some?
    ensures IdentifiedIn(root, NodeAt(root, p).value)
  {
  }

  /** Irreflexivity: in a tree with unique identities, no node is its own descendant. */
  lemma NotOwnDescendant(root: Node, p: seq<nat>)
    requires UniqueIds(root) && NodeAt(root, p).Some?
    ensures !IsDescendant(NodeAt(root, p).value, NodeAt(root, p).value)
  {
    var n := NodeAt(root, p).value;
    forall q | q != [] && NodeAt(n, q).Some?
      ensures NodeAt(n, q).value.id != n.id
    {
      NodeAtConcat(root, p, q);
      assert |p + q| == |p| + |q|;
    }
    IsDescendantIffReaches(n, n);
  }

  /** Asymmetry: of two nodes of a tree with unique identities, at most one
      is a descendant of the other. */
  lemma DescendantAsymmetric(root: Node, p: seq<nat>, q: seq<nat>)
    requires UniqueIds(root) && NodeAt(root, p).Some? && NodeAt(root, q).Some?
    requires IsDescendant(NodeAt(root, p).value, NodeAt(root, q).value)
    ensures !IsDescendant(NodeAt(root, q).value, NodeAt(root, p).value)
  {
    var a, b := NodeAt(root, p).value, NodeAt(root, q).value;
    IsDescendantIffReaches(a, b);
    var r :| r != [] && NodeAt(a, r).Some? && NodeAt(a, r).value.id == b.id;
    NodeAtConcat(root, p, r);
    assert p + r == q;
    forall s | s != [] && NodeAt(b, s).Some?
      ensures NodeAt(b, s).value.id != a.id
    {
      NodeAtConcat(root, q, s);
      assert |q + s| == |p| + |r| + |s|;
    }
    IsDescendantIffReaches(b, a);
  }
}
