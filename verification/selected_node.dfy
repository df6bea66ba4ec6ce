/**
 * Selection-to-node resolution: turns the editor's main selection into the
 * one syntax node the user means. The tree's `resolve(pos, side)` is an
 * oracle parameter that returns some node of the arena.
 */
module SelectedNode {
  import opened Options
  import opened SyntaxTree
  import opened CommonAncestor

  /** The editor's main selection; `anchor == head` is a collapsed cursor. */
  datatype EditorSelection = EditorSelection(anchor: nat, head: nat)

  /** `resolve` only ever answers with nodes of the arena. */
  ghost predicate ResolvesInto(t: Tree, resolve: (nat, int) -> nat) {
    forall pos: nat, side: int :: resolve(pos, side) < |t.nodes|
  }

  /**
   * `getSelectedNode`. A collapsed cursor picks one of its two resolutions.
   * A range picks a node enclosing the head's resolution, and within one
   * tree also enclosing the anchor's.
   */
  function GetSelectedNode(t: Tree, resolve: (nat, int) -> nat, sel: EditorSelection): (r: nat)
    requires Linked(t) && ResolvesInto(t, resolve)
    ensures r < |t.nodes|
    ensures sel.head == sel.anchor ==> r == resolve(sel.head, 1) || r == resolve(sel.head, -1)
    ensures sel.head != sel.anchor ==>
      var headNode := resolve(sel.head, if sel.head < sel.anchor then 1 else -1);
      var anchorNode := resolve(sel.anchor, if sel.anchor < sel.head then 1 else -1);
      && AncestorOrSelf(t, r, headNode)
      && (Root(t, headNode) == Root(t, anchorNode) ==> AncestorOrSelf(t, r, anchorNode))
  {
    if sel.head == sel.anchor then
      var startWithNode := resolve(sel.head, 1);
      var endWithNode := resolve(sel.head, -1);
      if startWithNode == endWithNode then startWithNode
      else if GetCommonAncestorNode(t, startWithNode, endWithNode) == Some(startWithNode) then endWithNode
      else startWithNode
    else
      var headNode := resolve(sel.head, if sel.head < sel.anchor then 1 else -1);
      var anchorNode := resolve(sel.anchor, if sel.anchor < sel.head then 1 else -1);
      if headNode == anchorNode then headNode
      else GetCommonAncestorNode(t, headNode, anchorNode).GetOr(headNode)
  }

  /**
   * Collapsed cursor: the result is one of the two resolutions; it is the
   * backward-biased node exactly when the two agree or the forward-biased
   * node is an ancestor-or-self of it.
   */
  lemma CollapsedCursorChoice(t: Tree, resolve: (nat, int) -> nat, pos: nat)
    requires Linked(t) && ResolvesInto(t, resolve)
    ensures var r := GetSelectedNode(t, resolve, EditorSelection(pos, pos));
      && (r == resolve(pos, 1) || r == resolve(pos, -1))
      && (r == resolve(pos, -1) <==>
            resolve(pos, 1) == resolve(pos, -1) || AncestorOrSelf(t, resolve(pos, 1), resolve(pos, -1)))
  {
    CommonAncestorIsFirstIff(t, resolve(pos, 1), resolve(pos, -1));
  }

  /**
   * Collapsed cursor between a node and one enclosing it: whichever side
   * resolved to the enclosing node, the inner node is chosen.
   */
  lemma CollapsedCursorPrefersInner(t: Tree, resolve: (nat, int) -> nat, pos: nat)
    requires Linked(t) && ResolvesInto(t, resolve)
    requires AncestorOrSelf(t, resolve(pos, 1), resolve(pos, -1))
          || AncestorOrSelf(t, resolve(pos, -1), resolve(pos, 1))
    ensures var r := GetSelectedNode(t, resolve, EditorSelection(pos, pos));
      && AncestorOrSelf(t, resolve(pos, 1), r)
      && AncestorOrSelf(t, resolve(pos, -1), r)
  {
    var s, e := resolve(pos, 1), resolve(pos, -1);
    CommonAncestorIsFirstIff(t, s, e);
    if AncestorOrSelf(t, s, e) && AncestorOrSelf(t, e, s) {
      AncestorOrSelfAntisymmetric(t, s, e);
    }
  }

  /**
   * Range selection: the smaller end is resolved forward (side 1) and the
   * larger end backward (side -1). Within one tree the result is the
   * deepest common ancestor-or-self of those two nodes; across trees it
   * falls back to the head's node.
   */
  lemma RangeSelectionIsCommonAncestor(t: Tree, resolve: (nat, int) -> nat, sel: EditorSelection)
    requires Linked(t) && ResolvesInto(t, resolve)
    requires sel.head != sel.anchor
    ensures var lo := if sel.head < sel.anchor then sel.head else sel.anchor;
      var hi := if sel.head < sel.anchor then sel.anchor else sel.head;
      var loNode, hiNode := resolve(lo, 1), resolve(hi, -1);
      var r := GetSelectedNode(t, resolve, sel);
      && (Root(t, loNode) == Root(t, hiNode) ==>
            && AncestorOrSelf(t, r, loNode)
            && AncestorOrSelf(t, r, hiNode)
            && forall x: nat | x < |t.nodes| && AncestorOrSelf(t, x, loNode) && AncestorOrSelf(t, x, hiNode) ::
                 AncestorOrSelf(t, x, r))
      && (Root(t, loNode) != Root(t, hiNode) ==>
            r == resolve(sel.head, if sel.head < sel.anchor then 1 else -1))
  {
    var headNode := resolve(sel.head, if sel.head < sel.anchor then 1 else -1);
    var anchorNode := resolve(sel.anchor, if sel.anchor < sel.head then 1 else -1);
    CommonAncestorIsLowest(t, headNode, anchorNode);
    CommonAncestorSymmetric(t, headNode, anchorNode);
    if headNode == anchorNode {
      CommonAncestorOfSelf(t, headNode);
    }
  }

  /** Within one tree, exchanging head and anchor of a range does not change the node. */
  lemma RangeSelectionSwap(t: Tree, resolve: (nat, int) -> nat, sel: EditorSelection)
    requires Linked(t) && ResolvesInto(t, resolve)
    requires sel.head != sel.anchor
    requires Root(t, resolve(sel.head, if sel.head < sel.anchor then 1 else -1))
          == Root(t, resolve(sel.anchor, if sel.anchor < sel.head then 1 else -1))
    ensures GetSelectedNode(t, resolve, sel)
         == GetSelectedNode(t, resolve, EditorSelection(sel.head, sel.anchor))
  {
    var headNode := resolve(sel.head, if sel.head < sel.anchor then 1 else -1);
    var anchorNode := resolve(sel.anchor, if sel.anchor < sel.head then 1 else -1);
    CommonAncestorIsLowest(t, headNode, anchorNode);
    CommonAncestorSymmetric(t, headNode, anchorNode);
  }
}
