/**
 * What the walk computes, stated independently of it: on a tree shaped the
 * way the JSON grammar shapes an error-free document, the reversed walk
 * from a value equals the path read off the value's root-first ancestor
 * chain, one key per property level and one element index per array
 * level.
 */
module JsonPath {
  import opened Options
  import opened Seqs
  import opened SyntaxTree
  import opened CommonAncestor
  import opened JmespathJoin
  import opened JmespathResolver

  /** The node names of JSON values. */
  const JsonValues: seq<string> := ["True", "False", "Null", "Number", "String", "Object", "Array"]

  /** A value sits directly under the document, an array or a property. */
  ghost predicate ValuePlaced(t: Tree, i: nat)
    requires i < |t.nodes|
  {
    && t.nodes[i].parent.Some?
    && t.nodes[i].parent.value < |t.nodes|
    && t.nodes[t.nodes[i].parent.value].name in ["JsonText", "Array", "Property"]
  }

  /** A property is `PropertyName ":" value` inside an object. */
  ghost predicate PropertyShaped(t: Tree, i: nat)
    requires i < |t.nodes|
  {
    && t.nodes[i].parent.Some?
    && t.nodes[i].parent.value < |t.nodes|
    && t.nodes[t.nodes[i].parent.value].name == "Object"
    && |t.nodes[i].children| == 3
    && (forall j | 0 <= j < 3 :: t.nodes[i].children[j] < |t.nodes|)
    && t.nodes[t.nodes[i].children[0]].name == "PropertyName"
    && t.nodes[t.nodes[i].children[1]].name == ":"
    && t.nodes[t.nodes[i].children[2]].name in JsonValues
  }

  /** An array holds values and the separators `[`, `]`, `,` only. */
  ghost predicate ArrayShaped(t: Tree, i: nat)
    requires i < |t.nodes|
  {
    forall c | c in t.nodes[i].children :: c < |t.nodes| && (t.nodes[c].name in JsonValues || t.nodes[c].name in ArraySeparators)
  }

  /** The shape of the tree of an error-free JSON document. */
  ghost predicate JsonShaped(t: Tree) {
    && WellFormed(t)
    && (forall i | 0 <= i < |t.nodes| && t.nodes[i].parent.Some? ::
          i in t.nodes[t.nodes[i].parent.value].children)
    && (forall i | 0 <= i < |t.nodes| && t.nodes[i].name == "JsonText" :: t.nodes[i].parent.None?)
    && (forall i | 0 <= i < |t.nodes| && t.nodes[i].name in JsonValues :: ValuePlaced(t, i))
    && (forall i | 0 <= i < |t.nodes| && t.nodes[i].name == "Property" :: PropertyShaped(t, i))
    && (forall i | 0 <= i < |t.nodes| && t.nodes[i].name == "Array" :: ArrayShaped(t, i))
  }

  /** How many of the nodes `cs` are JSON values. */
  function CountValues(t: Tree, cs: seq<nat>): nat
    requires forall j | 0 <= j < |cs| :: cs[j] < |t.nodes|
    decreases |cs|
  {
    if |cs| == 0 then 0
    else CountValues(t, cs[..|cs| - 1]) + (if t.nodes[cs[|cs| - 1]].name in JsonValues then 1 else 0)
  }

  /** The position of the first occurrence of `x` in `s`. */
  function IndexOf(s: seq<nat>, x: nat): (k: nat)
    requires x in s
    ensures k < |s| && s[k] == x
    ensures forall j | 0 <= j < k :: s[j] != x
    decreases |s|
  {
    if s[0] == x then 0 else IndexOf(s[1..], x) + 1
  }

  /** The position of child `c` of `p` among the JSON values that are children of `p`. */
  function ElementIndex(t: Tree, p: nat, c: nat): nat
    requires WellFormed(t) && p < |t.nodes| && c in t.nodes[p].children
  {
    var cs := t.nodes[p].children;
    CountValues(t, cs[..IndexOf(cs, c)])
  }

  /** The segment one parent-to-child step of the ancestor chain contributes. */
  function Step(t: Tree, text: string, p: nat, c: nat): seq<Segment>
    requires WellFormed(t) && SpansWithin(t, text) && p < |t.nodes| && c < |t.nodes|
  {
    if t.nodes[c].name !in JsonValues then []
    else if t.nodes[p].name == "Array" && c in t.nodes[p].children then
      [Index(ElementIndex(t, p, c))]
    else if t.nodes[p].name == "Property" then
      match GetChild(t, p, "PropertyName")
      case None => []
      case Some(k) => [Name(PropertyKey(t, text, k))]
    else []
  }

  /** The segments of every step along a root-first chain. */
  function ChainPath(t: Tree, text: string, chain: seq<nat>): seq<Segment>
    requires WellFormed(t) && SpansWithin(t, text)
    requires forall j | 0 <= j < |chain| :: chain[j] < |t.nodes|
    decreases |chain|
  {
    if |chain| < 2 then []
    else ChainPath(t, text, chain[..|chain| - 1]) + Step(t, text, chain[|chain| - 2], chain[|chain| - 1])
  }

  /** The path of a node: its key or element index at every level, root first. */
  function PathOf(t: Tree, text: string, n: nat): seq<Segment>
    requires WellFormed(t) && SpansWithin(t, text) && n < |t.nodes|
  {
    ChainPath(t, text, GetAncestors(t, n))
  }

  /** Putting a segment in front of a walk puts it behind the reversed walk. */
  lemma ReverseCons(x: Segment, w: seq<Segment>, path: seq<Segment>)
    ensures Reverse(w) == path ==> Reverse([x] + w) == path + [x]
  {
    ReverseAppend([x], w);
  }

  /** Extending a chain by a child adds that step's segment at the end. */
  lemma ChainPathSnoc(t: Tree, text: string, chain: seq<nat>, c: nat)
    requires WellFormed(t) && SpansWithin(t, text) && 0 < |chain| && c < |t.nodes|
    requires forall j | 0 <= j < |chain| :: chain[j] < |t.nodes|
    ensures ChainPath(t, text, chain + [c]) == ChainPath(t, text, chain) + Step(t, text, chain[|chain| - 1], c)
  {
    assert (chain + [c])[..|chain|] == chain;
  }

  /** Among an array's children, separators and non-values are the same thing. */
  lemma {:induction false} ArrayCountsAgree(t: Tree, p: nat, k: nat)
    requires WellFormed(t) && p < |t.nodes| && ArrayShaped(t, p)
    requires k <= |t.nodes[p].children|
    ensures CountNonSeparators(t, t.nodes[p].children[..k]) == CountValues(t, t.nodes[p].children[..k])
    decreases k
  {
    var cs := t.nodes[p].children;
    if k > 0 {
      ArrayCountsAgree(t, p, k - 1);
      assert cs[..k][..k - 1] == cs[..k - 1];
      assert cs[k - 1] in cs;
    }
  }

  /** The path of a node with a parent extends the parent's path by one step. */
  lemma PathOfChild(t: Tree, text: string, v: nat)
    requires WellFormed(t) && SpansWithin(t, text) && v < |t.nodes| && t.nodes[v].parent.Some?
    ensures PathOf(t, text, v)
         == PathOf(t, text, t.nodes[v].parent.value) + Step(t, text, t.nodes[v].parent.value, v)
  {
    var p := t.nodes[v].parent.value;
    assert GetAncestors(t, v) == GetAncestors(t, p) + [v];
    ChainPathSnoc(t, text, GetAncestors(t, p), v);
  }

  /** A value directly under the document is the root of every path. */
  lemma ValueUnderDocument(t: Tree, text: string, v: nat, p: nat)
    requires WellFormed(t) && SpansWithin(t, text) && v < |t.nodes| && p < |t.nodes|
    requires t.nodes[v].name in JsonValues && t.nodes[v].parent == Some(p)
    requires t.nodes[p].name == "JsonText" && t.nodes[p].parent.None?
    ensures Walk(t, text, v) == [] && PathOf(t, text, v) == []
  {
    PathOfChild(t, text, v);
    assert GetAncestors(t, p) == [p];
  }

  /** An array element adds its index among the array's values to both sides. */
  lemma ValueUnderArray(t: Tree, text: string, v: nat, p: nat)
    requires WellFormed(t) && SpansWithin(t, text) && v < |t.nodes| && p < |t.nodes|
    requires t.nodes[v].name in JsonValues && t.nodes[v].parent == Some(p)
    requires t.nodes[p].name == "Array" && ArrayShaped(t, p) && v in t.nodes[p].children
    ensures Walk(t, text, v) == [Index(ElementIndex(t, p, v))] + Walk(t, text, p)
    ensures PathOf(t, text, v) == PathOf(t, text, p) + [Index(ElementIndex(t, p, v))]
  {
    var k := IndexOf(t.nodes[p].children, v);
    WalkArrayElement(t, text, p, k);
    ArrayCountsAgree(t, p, k);
    PathOfChild(t, text, v);
  }

  /** A value's name is none of the names the walk treats specially. */
  lemma ValueNamesArePlain(name: string)
    requires name in JsonValues
    ensures name !in Punctuation
    ensures name != "⚠" && name != "JsonText" && name != "Property" && name != "PropertyName"
  {
  }

  /** The value of a property is its third child, two siblings after the key. */
  lemma PropertyValuePosition(t: Tree, v: nat, p: nat)
    requires WellFormed(t) && v < |t.nodes| && p < |t.nodes|
    requires t.nodes[v].name in JsonValues && t.nodes[v].parent == Some(p)
    requires PropertyShaped(t, p) && v in t.nodes[p].children
    ensures v == t.nodes[p].children[2]
    ensures SecondPrevSibling(t, v) == Some(t.nodes[p].children[0])
  {
  }

  /** The walk from a property's value emits the key and continues above the property. */
  lemma WalkUnderProperty(t: Tree, text: string, v: nat, p: nat)
    requires WellFormed(t) && SpansWithin(t, text) && v < |t.nodes| && p < |t.nodes|
    requires t.nodes[v].name in JsonValues && t.nodes[v].parent == Some(p)
    requires t.nodes[p].name == "Property" && PropertyShaped(t, p) && v in t.nodes[p].children
    ensures Walk(t, text, v)
         == [Name(PropertyKey(t, text, t.nodes[p].children[0]))] + Walk(t, text, t.nodes[p].parent.value)
  {
    PropertyValuePosition(t, v, p);
    ValueNamesArePlain(t.nodes[v].name);
  }

  /** The path of a property's value adds the key to the path of the enclosing object. */
  lemma PathUnderProperty(t: Tree, text: string, v: nat, p: nat)
    requires WellFormed(t) && SpansWithin(t, text) && v < |t.nodes| && p < |t.nodes|
    requires t.nodes[v].name in JsonValues && t.nodes[v].parent == Some(p)
    requires t.nodes[p].name == "Property" && PropertyShaped(t, p)
    ensures PathOf(t, text, v)
         == PathOf(t, text, t.nodes[p].parent.value) + [Name(PropertyKey(t, text, t.nodes[p].children[0]))]
  {
    var k := t.nodes[p].children[0];
    assert GetChild(t, p, "PropertyName") == Some(k);
    assert Step(t, text, p, v) == [Name(PropertyKey(t, text, k))];
    assert Step(t, text, t.nodes[p].parent.value, p) == [];
    PathOfChild(t, text, v);
    PathOfChild(t, text, p);
  }

  /** The inductive step through an array: the path property passes from the array to its element. */
  lemma ArrayStep(t: Tree, text: string, v: nat, p: nat)
    requires WellFormed(t) && SpansWithin(t, text) && v < |t.nodes| && p < |t.nodes|
    requires t.nodes[v].name in JsonValues && t.nodes[v].parent == Some(p)
    requires t.nodes[p].name == "Array" && ArrayShaped(t, p) && v in t.nodes[p].children
    ensures Reverse(Walk(t, text, p)) == PathOf(t, text, p) ==> Reverse(Walk(t, text, v)) == PathOf(t, text, v)
  {
    ValueUnderArray(t, text, v, p);
    ReverseCons(Index(ElementIndex(t, p, v)), Walk(t, text, p), PathOf(t, text, p));
  }

  /** The inductive step through a property: the path property passes from the object to the value. */
  lemma PropertyStep(t: Tree, text: string, v: nat, p: nat)
    requires WellFormed(t) && SpansWithin(t, text) && v < |t.nodes| && p < |t.nodes|
    requires t.nodes[v].name in JsonValues && t.nodes[v].parent == Some(p)
    requires t.nodes[p].name == "Property" && PropertyShaped(t, p) && v in t.nodes[p].children
    ensures Reverse(Walk(t, text, t.nodes[p].parent.value)) == PathOf(t, text, t.nodes[p].parent.value)
        ==> Reverse(Walk(t, text, v)) == PathOf(t, text, v)
  {
    var o := t.nodes[p].parent.value;
    WalkUnderProperty(t, text, v, p);
    PathUnderProperty(t, text, v, p);
    ReverseCons(Name(PropertyKey(t, text, t.nodes[p].children[0])), Walk(t, text, o), PathOf(t, text, o));
  }

  /**
   * The walk is the chain path read backwards: on a JSON-shaped tree the
   * root-first segments the resolver renders for a value are that value's
   * key or element index at every level below the document.
   */
  lemma {:induction false} WalkIsPathOf(t: Tree, text: string, v: nat)
    requires JsonShaped(t) && SpansWithin(t, text) && v < |t.nodes|
    requires t.nodes[v].name in JsonValues
    ensures Reverse(Walk(t, text, v)) == PathOf(t, text, v)
    decreases v
  {
    assert ValuePlaced(t, v);
    var p := t.nodes[v].parent.value;
    assert v in t.nodes[p].children;
    if t.nodes[p].name == "JsonText" {
      assert t.nodes[p].parent.None?;
      ValueUnderDocument(t, text, v, p);
    } else if t.nodes[p].name == "Array" {
      assert ArrayShaped(t, p);
      WalkIsPathOf(t, text, p);
      ArrayStep(t, text, v, p);
    } else {
      assert PropertyShaped(t, p);
      WalkIsPathOf(t, text, t.nodes[p].parent.value);
      PropertyStep(t, text, v, p);
    }
  }

  /** What the resolver returns for a value of a JSON-shaped tree. */
  lemma ResolveRendersPathOf(t: Tree, text: string, v: nat, options: ResolveOptions)
    requires JsonShaped(t) && SpansWithin(t, text) && v < |t.nodes|
    requires t.nodes[v].name in JsonValues
    ensures ResolveJmespath(t, text, v, options)
         == JoinJmespath(PathOf(t, text, v), options.arrayProjection.GetOr(DefaultArrayProjection))
  {
    WalkIsPathOf(t, text, v);
  }

  /** A property whose key is `k`, under `o`, walks as the key does. */
  lemma WalkPropertyWithKey(t: Tree, text: string, p: nat, k: nat, o: nat)
    requires WellFormed(t) && SpansWithin(t, text) && p < |t.nodes|
    requires t.nodes[p].name == "Property" && t.nodes[p].parent == Some(o)
    requires GetChild(t, p, "PropertyName") == Some(k)
    ensures Walk(t, text, p) == [Name(PropertyKey(t, text, k))] + Walk(t, text, o)
  {
    assert Grandparent(t, k) == Some(o);
  }

  /** The walk from a property emits its key and continues above it. */
  lemma WalkFromProperty(t: Tree, text: string, p: nat)
    requires WellFormed(t) && SpansWithin(t, text) && p < |t.nodes|
    requires t.nodes[p].name == "Property" && PropertyShaped(t, p)
    ensures Walk(t, text, p)
         == [Name(PropertyKey(t, text, t.nodes[p].children[0]))] + Walk(t, text, t.nodes[p].parent.value)
  {
    var k := t.nodes[p].children[0];
    assert GetChild(t, p, "PropertyName") == Some(k);
    WalkPropertyWithKey(t, text, p, k, t.nodes[p].parent.value);
  }

  /** The walk from a property's key emits the key and continues above the property. */
  lemma WalkFromKey(t: Tree, text: string, p: nat)
    requires WellFormed(t) && SpansWithin(t, text) && p < |t.nodes|
    requires t.nodes[p].name == "Property" && PropertyShaped(t, p)
    ensures Walk(t, text, t.nodes[p].children[0])
         == [Name(PropertyKey(t, text, t.nodes[p].children[0]))] + Walk(t, text, t.nodes[p].parent.value)
  {
    var k := t.nodes[p].children[0];
    assert t.nodes[k].parent == Some(p);
    assert Grandparent(t, k) == t.nodes[p].parent;
  }

  /**
   * Selecting a property, or the key of a property, resolves like
   * selecting the property's value.
   */
  lemma PropertyResolvesLikeValue(t: Tree, text: string, p: nat)
    requires WellFormed(t) && SpansWithin(t, text) && p < |t.nodes|
    requires t.nodes[p].name == "Property" && PropertyShaped(t, p)
    ensures Walk(t, text, p) == Walk(t, text, t.nodes[p].children[2])
    ensures Walk(t, text, t.nodes[p].children[0]) == Walk(t, text, t.nodes[p].children[2])
  {
    WalkFromProperty(t, text, p);
    WalkFromKey(t, text, p);
    var v := t.nodes[p].children[2];
    assert t.nodes[v].parent == Some(p);
    WalkUnderProperty(t, text, v, p);
  }
}
