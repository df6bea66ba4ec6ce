/**
 * The lezer JSON syntax tree, as an arena of immutable nodes addressed by
 * index. Node identity (`===` in the source) is index equality.
 *
 * The arena is stored in preorder: a node's parent and previous sibling sit
 * at smaller indices and its children at larger ones. Every upward walk over
 * the tree therefore terminates on the node index.
 */
module SyntaxTree {
  import opened Options

  datatype Node = Node(
    name: string,
    parent: Option<nat>,
    prevSibling: Option<nat>,
    from: nat,
    to: nat,
    children: seq<nat>)

  datatype Tree = Tree(nodes: seq<Node>)

  /** Parent and previous-sibling links point backwards, and siblings share a parent. */
  ghost predicate Linked(t: Tree) {
    forall i | 0 <= i < |t.nodes| ::
      && (t.nodes[i].parent.Some? ==> t.nodes[i].parent.value < i)
      && (t.nodes[i].prevSibling.Some? ==>
            && t.nodes[i].prevSibling.value < i
            && t.nodes[t.nodes[i].prevSibling.value].parent == t.nodes[i].parent)
  }

  /**
   * A node's children list agrees with the links: each child names the node
   * as its parent, and the previous sibling of the k-th child is the
   * (k-1)-th child (none for the first).
   */
  ghost predicate ChildrenLinked(t: Tree) {
    forall i, k | 0 <= i < |t.nodes| && 0 <= k < |t.nodes[i].children| ::
      && i < t.nodes[i].children[k] < |t.nodes|
      && t.nodes[t.nodes[i].children[k]].parent == Some(i)
      && (k == 0 ==> t.nodes[t.nodes[i].children[k]].prevSibling == None)
      && (0 < k ==> t.nodes[t.nodes[i].children[k]].prevSibling == Some(t.nodes[i].children[k - 1]))
  }

  ghost predicate WellFormed(t: Tree) {
    Linked(t) && ChildrenLinked(t)
  }

  /** Every node's span `[from, to)` lies inside the document text. */
  ghost predicate SpansWithin(t: Tree, text: string) {
    forall i | 0 <= i < |t.nodes| :: t.nodes[i].from <= t.nodes[i].to <= |text|
  }

  /** The document text under a node (the editor's `sliceDoc(from, to)`). */
  function SliceDoc(t: Tree, text: string, n: nat): (r: string)
    requires SpansWithin(t, text) && n < |t.nodes|
    ensures |r| == t.nodes[n].to - t.nodes[n].from
    ensures forall i | 0 <= i < |r| :: r[i] == text[t.nodes[n].from + i]
  {
    text[t.nodes[n].from..t.nodes[n].to]
  }

  /** `a` is `n` or lies on `n`'s parent chain. */
  ghost predicate AncestorOrSelf(t: Tree, a: nat, n: nat)
    requires Linked(t) && n < |t.nodes|
    decreases n
  {
    a == n || (t.nodes[n].parent.Some? && AncestorOrSelf(t, a, t.nodes[n].parent.value))
  }

  /** The top of `n`'s parent chain. */
  function Root(t: Tree, n: nat): (r: nat)
    requires Linked(t) && n < |t.nodes|
    ensures r < |t.nodes| && t.nodes[r].parent.None?
    ensures AncestorOrSelf(t, r, n)
    decreases n
  {
    match t.nodes[n].parent
    case None => n
    case Some(p) => Root(t, p)
  }

  /** Number of parent links from `n` up to its root. */
  function Depth(t: Tree, n: nat): nat
    requires Linked(t) && n < |t.nodes|
    decreases n
  {
    match t.nodes[n].parent
    case None => 0
    case Some(p) => Depth(t, p) + 1
  }

  /** An ancestor never sits after its descendant in the arena. */
  lemma {:induction false} AncestorOrSelfBefore(t: Tree, a: nat, n: nat)
    requires Linked(t) && n < |t.nodes|
    requires AncestorOrSelf(t, a, n)
    ensures a <= n
    ensures a == n || Depth(t, a) < Depth(t, n)
    decreases n
  {
    if a != n {
      AncestorOrSelfBefore(t, a, t.nodes[n].parent.value);
    }
  }

  /** Ancestor-or-self is antisymmetric: two nodes above each other are the same node. */
  lemma AncestorOrSelfAntisymmetric(t: Tree, a: nat, b: nat)
    requires Linked(t) && a < |t.nodes| && b < |t.nodes|
    requires AncestorOrSelf(t, a, b) && AncestorOrSelf(t, b, a)
    ensures a == b
  {
    AncestorOrSelfBefore(t, a, b);
    AncestorOrSelfBefore(t, b, a);
  }

  /** Ancestor-or-self is transitive. */
  lemma {:induction false} AncestorOrSelfTransitive(t: Tree, a: nat, b: nat, n: nat)
    requires Linked(t) && b < |t.nodes| && n < |t.nodes|
    requires AncestorOrSelf(t, a, b) && AncestorOrSelf(t, b, n)
    ensures AncestorOrSelf(t, a, n)
    decreases n
  {
    if b != n {
      AncestorOrSelfTransitive(t, a, b, t.nodes[n].parent.value);
    }
  }

  /** A node and its ancestors share one root. */
  lemma {:induction false} AncestorSharesRoot(t: Tree, a: nat, n: nat)
    requires Linked(t) && a < |t.nodes| && n < |t.nodes|
    requires AncestorOrSelf(t, a, n)
    ensures Root(t, a) == Root(t, n)
    decreases n
  {
    if a != n {
      AncestorSharesRoot(t, a, t.nodes[n].parent.value);
    }
  }

  /** The links of the k-th child of `p`: it is a node after `p`, and its previous sibling is the child before it. */
  lemma ChildLinks(t: Tree, p: nat, k: nat)
    requires WellFormed(t) && p < |t.nodes| && k < |t.nodes[p].children|
    ensures p < t.nodes[p].children[k] < |t.nodes|
    ensures t.nodes[t.nodes[p].children[k]].parent == Some(p)
    ensures t.nodes[t.nodes[p].children[k]].prevSibling == (if k == 0 then None else Some(t.nodes[p].children[k - 1]))
  {
  }
}
