/**
 * A worked example: the document `{"a":[1,2]}` and the tree the JSON
 * grammar gives it, with the second array element selected.
 */
module Scenarios {
  import opened Options
  import opened Seqs
  import opened SyntaxTree
  import opened Decimal
  import opened JmespathJoin
  import opened JmespathResolver
  import opened JsonPath
  import Playground

  const Doc: string := "{\"a\":[1,2]}"

  /** The syntax tree of `Doc`, nodes in preorder. */
  const DocTree: Tree := Tree([
      Node("JsonText", None, None, 0, 11, [1]),
      Node("Object", Some(0), None, 0, 11, [2, 3, 12]),
      Node("{", Some(1), None, 0, 1, []),
      Node("Property", Some(1), Some(2), 1, 10, [4, 5, 6]),
      Node("PropertyName", Some(3), None, 1, 4, []),
      Node(":", Some(3), Some(4), 4, 5, []),
      Node("Array", Some(3), Some(5), 5, 10, [7, 8, 9, 10, 11]),
      Node("[", Some(6), None, 5, 6, []),
      Node("Number", Some(6), Some(7), 6, 7, []),
      Node(",", Some(6), Some(8), 7, 8, []),
      Node("Number", Some(6), Some(9), 8, 9, []),
      Node("]", Some(6), Some(10), 9, 10, []),
      Node("}", Some(1), Some(3), 10, 11, [])
    ])

  /** Parent and previous-sibling links of `DocTree` point backwards within one parent. */
  lemma DocTreeLinked()
    ensures Linked(DocTree) && SpansWithin(DocTree, Doc)
  {
    var t := DocTree;
    forall i | 0 <= i < |t.nodes|
      ensures t.nodes[i].parent.Some? ==> t.nodes[i].parent.value < i
      ensures t.nodes[i].prevSibling.Some? ==>
            && t.nodes[i].prevSibling.value < i
            && t.nodes[t.nodes[i].prevSibling.value].parent == t.nodes[i].parent
      ensures t.nodes[i].from <= t.nodes[i].to <= |Doc|
    {
      assert i in {0, 1, 2, 3, 4, 5, 6, 7, 8, 9, 10, 11, 12};
    }
  }

  /** The children lists of `DocTree` agree with its links. */
  lemma DocTreeChildrenLinked()
    ensures ChildrenLinked(DocTree)
  {
    var t := DocTree;
    forall i, k | 0 <= i < |t.nodes| && 0 <= k < |t.nodes[i].children|
      ensures i < t.nodes[i].children[k] < |t.nodes|
      ensures t.nodes[t.nodes[i].children[k]].parent == Some(i)
      ensures k == 0 ==> t.nodes[t.nodes[i].children[k]].prevSibling == None
      ensures 0 < k ==> t.nodes[t.nodes[i].children[k]].prevSibling == Some(t.nodes[i].children[k - 1])
    {
      assert i in {0, 1, 2, 3, 4, 5, 6, 7, 8, 9, 10, 11, 12};
    }
  }

  lemma DocTreeWellFormed()
    ensures WellFormed(DocTree) && SpansWithin(DocTree, Doc)
  {
    DocTreeLinked();
    DocTreeChildrenLinked();
  }

  /** The key `"a"` is emitted without its quotes. */
  lemma KeyOfDoc()
    ensures DocTree.nodes[4].name == "PropertyName"
    ensures PropertyKey(DocTree, Doc, 4) == "a"
  {
    DocTreeWellFormed();
    assert SliceDoc(DocTree, Doc, 4) == "\"a\"";
  }

  /** The object sits directly under the document, so the walk stops there. */
  lemma WalkOfObject()
    ensures WellFormed(DocTree) && SpansWithin(DocTree, Doc)
    ensures Walk(DocTree, Doc, 1) == []
  {
    DocTreeWellFormed();
    ValueNamesArePlain(DocTree.nodes[1].name);
  }

  /** The array is the value of property `"a"`. */
  lemma WalkOfArray()
    ensures WellFormed(DocTree) && SpansWithin(DocTree, Doc)
    ensures Walk(DocTree, Doc, 6) == [Name("a")]
  {
    var t := DocTree;
    WalkOfObject();
    KeyOfDoc();
    ValueNamesArePlain(t.nodes[6].name);
    assert SecondPrevSibling(t, 6) == Some(4);
    assert Walk(t, Doc, 6) == [Name(PropertyKey(t, Doc, 4))] + Walk(t, Doc, 1);
  }

  /** Selecting the `2` walks up through the array and the property. */
  lemma WalkOfSecondElement()
    ensures WellFormed(DocTree) && SpansWithin(DocTree, Doc)
    ensures Walk(DocTree, Doc, 10) == [Index(1), Name("a")]
  {
    var t := DocTree;
    WalkOfArray();
    assert t.nodes[6].children[3] == 10;
    assert t.nodes[10].name == "Number";
    NumberIsAValue();
    WalkArrayElement(t, Doc, 6, 3);
    ElementsBeforeSecond();
  }

  /** A number is neither punctuation nor a node the walk treats specially. */
  lemma NumberIsAValue()
    ensures "Number" !in Punctuation + ["⚠", "JsonText", "Property", "PropertyName"]
  {
  }

  /** Before the `2` the array holds `[`, `1` and `,`: one element. */
  lemma ElementsBeforeSecond()
    ensures CountNonSeparators(DocTree, DocTree.nodes[6].children[..3]) == 1
  {
    var t := DocTree;
    var cs := t.nodes[6].children[..3];
    assert cs == [7, 8, 9];
    assert cs[..2] == [7, 8] && cs[..2][..1] == [7];
    assert CountNonSeparators(t, [7]) == 0;
    assert CountNonSeparators(t, [7, 8]) == 1;
  }

  /** Two rendered parts glue into their concatenation. */
  lemma ConcatPair(a: string, b: string)
    ensures Concat([a, b]) == a + b
  {
    assert [a, b][..1] == [a];
    assert [a][..0] == [];
    assert Concat([a]) == a;
  }

  /** `a` is a plain identifier, so it is emitted as is. */
  lemma PlainKey()
    ensures Quote("a") == "a"
  {
    QuotingLaw("a");
    assert IsIdentifier("a");
  }

  /** The path `a`, `1` joins to `a[1]` under the default projection. */
  lemma JoinDefault()
    ensures JoinJmespath([Name("a"), Index(1)], Playground.None) == "a[1]"
  {
    var segs := [Name("a"), Index(1)];
    PlainKey();
    assert NatToString(1) == "1";
    assert Piece(segs[0], 0, Playground.None) == "a";
    assert Piece(segs[1], 1, Playground.None) == "[1]";
    assert Rendered(segs, Playground.None) == ["a", "[1]"];
    ConcatPair("a", "[1]");
  }

  /** Under the wildcard projection the path `a`, `1` renders as the pieces `a` and `[*]`. */
  lemma RenderedWildcard()
    ensures Rendered([Name("a"), Index(1)], Playground.Wildcard) == ["a", "[*]"]
  {
    var segs := [Name("a"), Index(1)];
    PlainKey();
    assert Piece(segs[0], 0, Playground.Wildcard) == "a";
    assert Piece(segs[1], 1, Playground.Wildcard) == "[*]";
  }

  /** The path `a`, `1` joins to `a[*]` under the wildcard projection. */
  lemma JoinWildcard()
    ensures JoinJmespath([Name("a"), Index(1)], Playground.Wildcard) == "a[*]"
  {
    RenderedWildcard();
    ConcatPair("a", "[*]");
  }

  /** The selection renders as `a[1]` by default and as `a[*]` under the wildcard projection. */
  lemma ResolveSecondElement()
    ensures WellFormed(DocTree) && SpansWithin(DocTree, Doc)
    ensures ResolveJmespath(DocTree, Doc, 10, ResolveOptions(None)) == "a[1]"
    ensures ResolveJmespath(DocTree, Doc, 10, ResolveOptions(Some(Playground.Wildcard))) == "a[*]"
  {
    WalkOfSecondElement();
    assert Reverse([Index(1), Name("a")]) == [Name("a"), Index(1)];
    JoinDefault();
    JoinWildcard();
  }
}
