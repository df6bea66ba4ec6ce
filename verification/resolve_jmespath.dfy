/**
 * `resolveJmespath`: walks from the selected node up to the document root,
 * collecting one path segment per property or array level crossed, then
 * renders the segments root first.
 */
module JmespathResolver {
  import opened Options
  import opened Seqs
  import opened SyntaxTree
  import opened JmespathJoin
  import Playground

  /** The caller's options; an absent projection falls back to the default. */
  datatype ResolveOptions = ResolveOptions(arrayProjection: Option<Playground.ArrayProjection>)

  const DefaultArrayProjection: Playground.ArrayProjection := Playground.None

  /** Node names the walk passes through to the parent without emitting anything. */
  const Punctuation: seq<string> := ["}", "{", ":", ",", "[", "]", ""]

  /** Sibling names the array-index count leaves out. */
  const ArraySeparators: seq<string> := ["[", "]", ","]

  /** The first of the children `cs[k..]` named `name`. */
  function FirstNamed(t: Tree, cs: seq<nat>, name: string, k: nat): (r: Option<nat>)
    requires forall j | 0 <= j < |cs| :: cs[j] < |t.nodes|
    requires k <= |cs|
    ensures r.Some? ==> exists j | k <= j < |cs| :: cs[j] == r.value && forall l | k <= l < j :: t.nodes[cs[l]].name != name
    ensures r.Some? ==> t.nodes[r.value].name == name
    ensures r.None? <==> forall j | k <= j < |cs| :: t.nodes[cs[j]].name != name
    decreases |cs| - k
  {
    if k == |cs| then None
    else if t.nodes[cs[k]].name == name then Some(cs[k])
    else FirstNamed(t, cs, name, k + 1)
  }

  /** `getChild(name)`: the first child of `n` with that name, whose parent is `n`. */
  function GetChild(t: Tree, n: nat, name: string): (r: Option<nat>)
    requires WellFormed(t) && n < |t.nodes|
    ensures r.Some? ==> r.value < |t.nodes| && r.value in t.nodes[n].children
    ensures r.Some? ==>
      exists j | 0 <= j < |t.nodes[n].children| ::
        && t.nodes[n].children[j] == r.value
        && forall l | 0 <= l < j :: t.nodes[t.nodes[n].children[l]].name != name
    ensures r.Some? ==> t.nodes[r.value].name == name && t.nodes[r.value].parent == Some(n)
    ensures r.Some? ==> Depth(t, r.value) == Depth(t, n) + 1
    ensures r.None? <==> forall c | c in t.nodes[n].children :: t.nodes[c].name != name
  {
    FirstNamed(t, t.nodes[n].children, name, 0)
  }

  /** `node.parent?.parent`. */
  function Grandparent(t: Tree, n: nat): (r: Option<nat>)
    requires Linked(t) && n < |t.nodes|
    ensures r.Some? ==> r.value < n && Depth(t, r.value) + 2 == Depth(t, n)
  {
    match t.nodes[n].parent
    case None => None
    case Some(p) => t.nodes[p].parent
  }

  /** `node.prevSibling?.prevSibling`. */
  function SecondPrevSibling(t: Tree, n: nat): (r: Option<nat>)
    requires Linked(t) && n < |t.nodes|
    ensures r.Some? ==> r.value < n
  {
    match t.nodes[n].prevSibling
    case None => None
    case Some(s) => t.nodes[s].prevSibling
  }

  /** A property name as the walk emits it: the node's text with its quotes stripped. */
  function PropertyKey(t: Tree, text: string, k: nat): string
    requires SpansWithin(t, text) && k < |t.nodes|
  {
    Unquote(SliceDoc(t, text, k))
  }

  /**
   * The counting loop over `prevSibling`: how many of `n` and the siblings
   * before it are not separators. A node that is not a separator counts
   * itself, so the count is then at least one.
   */
  function SiblingCount(t: Tree, n: nat): (count: nat)
    requires Linked(t) && n < |t.nodes|
    ensures t.nodes[n].name !in ArraySeparators ==> count >= 1
    decreases n
  {
    (if t.nodes[n].name in ArraySeparators then 0 else 1)
    + (match t.nodes[n].prevSibling
       case None => 0
       case Some(s) => SiblingCount(t, s))
  }

  /** How many of the nodes `cs` are not separators. */
  function CountNonSeparators(t: Tree, cs: seq<nat>): nat
    requires forall j | 0 <= j < |cs| :: cs[j] < |t.nodes|
    decreases |cs|
  {
    if |cs| == 0 then 0
    else CountNonSeparators(t, cs[..|cs| - 1]) + (if t.nodes[cs[|cs| - 1]].name in ArraySeparators then 0 else 1)
  }

  /**
   * The loop of `resolveJmespath`, innermost segment first. Each emitted
   * segment crosses a level of the tree, so the walk emits at most one
   * segment per node on the node's ancestor chain.
   *
   * A `Property` node moves to its `PropertyName` child, and the next
   * iteration necessarily takes the `PropertyName` branch (emit the key,
   * go to the grandparent); the two iterations are taken together here.
   */
  function Walk(t: Tree, text: string, n: nat): (segs: seq<Segment>)
    requires WellFormed(t) && SpansWithin(t, text) && n < |t.nodes|
    ensures |segs| <= Depth(t, n) + 1
    decreases n
  {
    var node := t.nodes[n];
    if node.name == "⚠" || node.name == "JsonText" then []
    else if node.name in Punctuation then
      match node.parent
      case None => []
      case Some(p) => Walk(t, text, p)
    else if node.name == "Property" then
      match GetChild(t, n, "PropertyName")
      case None => []
      case Some(k) =>
        [Name(PropertyKey(t, text, k))]
        + (match Grandparent(t, k) case None => [] case Some(g) => Walk(t, text, g))
    else if node.name == "PropertyName" then
      [Name(PropertyKey(t, text, n))]
      + (match Grandparent(t, n) case None => [] case Some(g) => Walk(t, text, g))
    else
      match node.parent
      case None => []
      case Some(p) =>
        if t.nodes[p].name == "Array" then
          [Index(SiblingCount(t, n) - 1)] + Walk(t, text, p)
        else if t.nodes[p].name == "Property" then
          var nameNode := SecondPrevSibling(t, n);
          (if nameNode.Some? && t.nodes[nameNode.value].name == "PropertyName"
           then [Name(PropertyKey(t, text, nameNode.value))]
           else [])
          + (match t.nodes[p].parent case None => [] case Some(g) => Walk(t, text, g))
        else []
  }

  /**
   * `resolveJmespath`: the walk's segments, reversed to root-first order,
   * joined under the requested projection (default "none"). The result is
   * empty exactly when the walk emitted nothing.
   */
  function ResolveJmespath(t: Tree, text: string, n: nat, options: ResolveOptions): (r: string)
    requires WellFormed(t) && SpansWithin(t, text) && n < |t.nodes|
    ensures r == "" <==> Walk(t, text, n) == []
  {
    JoinJmespath(Reverse(Walk(t, text, n)), options.arrayProjection.GetOr(DefaultArrayProjection))
  }

  /**
   * The walk emits nothing at an error node, at the document root, at a
   * value without a parent or under an unexpected parent; punctuation (and
   * an anonymous node) passes on to its parent without emitting.
   */
  lemma WalkStopsAndSkips(t: Tree, text: string, n: nat)
    requires WellFormed(t) && SpansWithin(t, text) && n < |t.nodes|
    ensures t.nodes[n].name == "⚠" || t.nodes[n].name == "JsonText" ==> Walk(t, text, n) == []
    ensures t.nodes[n].name in Punctuation ==>
      Walk(t, text, n) == (match t.nodes[n].parent case None => [] case Some(p) => Walk(t, text, p))
    ensures && t.nodes[n].name !in Punctuation + ["⚠", "JsonText", "Property", "PropertyName"]
            && (t.nodes[n].parent.None? || t.nodes[t.nodes[n].parent.value].name !in ["Array", "Property"])
            ==> Walk(t, text, n) == []
  {
  }

  /**
   * The count over previous siblings equals the number of non-separator
   * children of the parent up to and including the node.
   */
  lemma {:induction false} SiblingCountMatchesChildren(t: Tree, p: nat, k: nat)
    requires WellFormed(t) && p < |t.nodes| && k < |t.nodes[p].children|
    ensures SiblingCount(t, t.nodes[p].children[k]) == CountNonSeparators(t, t.nodes[p].children[..k + 1])
    decreases k
  {
    ChildLinks(t, p, k);
    var cs := t.nodes[p].children;
    assert cs[..k + 1][..k] == cs[..k];
    if k > 0 {
      SiblingCountMatchesChildren(t, p, k - 1);
      assert cs[..k][..k] == cs[..k];
    }
  }

  /**
   * An element of an array is emitted as its index among the array's
   * elements: the number of children before it that are not `[`, `]` or
   * `,` (so never negative), and the walk continues at the array itself.
   */
  lemma WalkArrayElement(t: Tree, text: string, p: nat, k: nat)
    requires WellFormed(t) && SpansWithin(t, text) && p < |t.nodes| && k < |t.nodes[p].children|
    requires t.nodes[p].name == "Array"
    requires t.nodes[t.nodes[p].children[k]].name !in Punctuation + ["⚠", "JsonText", "Property", "PropertyName"]
    ensures Walk(t, text, t.nodes[p].children[k])
         == [Index(CountNonSeparators(t, t.nodes[p].children[..k]))] + Walk(t, text, p)
  {
    var cs := t.nodes[p].children;
    SiblingCountMatchesChildren(t, p, k);
    assert cs[..k + 1][..k] == cs[..k];
  }

  /** The texts of all property-name nodes with their quotes stripped. */
  ghost function KeyNames(t: Tree, text: string): set<string>
    requires SpansWithin(t, text)
  {
    set k | 0 <= k < |t.nodes| && t.nodes[k].name == "PropertyName" :: PropertyKey(t, text, k)
  }

  /** Every name segment of `segs` is one of `keys`. */
  ghost predicate NamesWithin(segs: seq<Segment>, keys: set<string>) {
    forall seg | seg in segs && seg.Name? :: seg.name in keys
  }

  /** Every name the walk emits is the unquoted text of some property-name node. */
  lemma {:induction false} WalkNamesAreKeys(t: Tree, text: string, n: nat)
    requires WellFormed(t) && SpansWithin(t, text) && n < |t.nodes|
    ensures NamesWithin(Walk(t, text, n), KeyNames(t, text))
    decreases n
  {
    var keys := KeyNames(t, text);
    var node := t.nodes[n];
    if node.name == "⚠" || node.name == "JsonText" {
    } else if node.name in Punctuation {
      if node.parent.Some? {
        WalkNamesAreKeys(t, text, node.parent.value);
      }
    } else if node.name == "Property" {
      var k := GetChild(t, n, "PropertyName");
      if k.Some? {
        var g := Grandparent(t, k.value);
        var rest := if g.Some? then Walk(t, text, g.value) else [];
        assert Walk(t, text, n) == [Name(PropertyKey(t, text, k.value))] + rest;
        assert PropertyKey(t, text, k.value) in keys;
        if g.Some? {
          WalkNamesAreKeys(t, text, g.value);
        }
      }
    } else if node.name == "PropertyName" {
      var g := Grandparent(t, n);
      var rest := if g.Some? then Walk(t, text, g.value) else [];
      assert Walk(t, text, n) == [Name(PropertyKey(t, text, n))] + rest;
      assert PropertyKey(t, text, n) in keys;
      if g.Some? {
        WalkNamesAreKeys(t, text, g.value);
      }
    } else if node.parent.Some? {
      var p := node.parent.value;
      if t.nodes[p].name == "Array" {
        WalkNamesAreKeys(t, text, p);
      } else if t.nodes[p].name == "Property" {
        var nameNode := SecondPrevSibling(t, n);
        var emitted := if nameNode.Some? && t.nodes[nameNode.value].name == "PropertyName"
          then [Name(PropertyKey(t, text, nameNode.value))] else [];
        var rest := if t.nodes[p].parent.Some? then Walk(t, text, t.nodes[p].parent.value) else [];
        assert Walk(t, text, n) == emitted + rest;
        if nameNode.Some? && t.nodes[nameNode.value].name == "PropertyName" {
          assert PropertyKey(t, text, nameNode.value) in keys;
        }
        if t.nodes[p].parent.Some? {
          WalkNamesAreKeys(t, text, t.nodes[p].parent.value);
        }
      }
    }
  }

  /** Omitting the projection option renders exactly as "none". */
  lemma DefaultProjectionIsNone(t: Tree, text: string, n: nat)
    requires WellFormed(t) && SpansWithin(t, text) && n < |t.nodes|
    ensures ResolveJmespath(t, text, n, ResolveOptions(None))
         == ResolveJmespath(t, text, n, ResolveOptions(Some(Playground.None)))
         == JoinJmespath(Reverse(Walk(t, text, n)), Playground.None)
  {
  }
}
