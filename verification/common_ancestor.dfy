/**
 * Lowest common ancestor of two syntax nodes, found by comparing their
 * root-first ancestor chains position by position.
 */
module CommonAncestor {
  import opened Options
  import opened SyntaxTree

  /**
   * The root-first chain of `n`'s ancestors, ending at `n` itself
   * (the private `getAncestors`).
   */
  function GetAncestors(t: Tree, n: nat): (chain: seq<nat>)
    requires Linked(t) && n < |t.nodes|
    ensures 0 < |chain| && chain[|chain| - 1] == n
    ensures forall k | 0 <= k < |chain| :: chain[k] < |t.nodes|
    ensures t.nodes[chain[0]].parent.None?
    ensures forall k | 0 < k < |chain| :: t.nodes[chain[k]].parent == Some(chain[k - 1])
    decreases n
  {
    match t.nodes[n].parent
    case None => [n]
    case Some(p) => GetAncestors(t, p) + [n]
  }

  /** The chain holds exactly the ancestors-or-self of `n`, and starts at `n`'s root. */
  lemma {:induction false} AncestorsAreAncestors(t: Tree, n: nat, x: nat)
    requires Linked(t) && n < |t.nodes|
    ensures x in GetAncestors(t, n) <==> AncestorOrSelf(t, x, n)
    ensures GetAncestors(t, n)[0] == Root(t, n)
    ensures |GetAncestors(t, n)| == Depth(t, n) + 1
    decreases n
  {
    match t.nodes[n].parent
    case None =>
    case Some(p) =>
      AncestorsAreAncestors(t, p, x);
  }

  /** The first k+1 entries of a chain are the chain of its k-th entry. */
  lemma {:induction false} AncestorsPrefix(t: Tree, n: nat, k: nat)
    requires Linked(t) && n < |t.nodes|
    requires k < |GetAncestors(t, n)|
    ensures GetAncestors(t, GetAncestors(t, n)[k]) == GetAncestors(t, n)[..k + 1]
    decreases n
  {
    var chain := GetAncestors(t, n);
    if k == |chain| - 1 {
      assert chain[..k + 1] == chain;
    } else {
      var p := t.nodes[n].parent.value;
      assert chain == GetAncestors(t, p) + [n];
      AncestorsPrefix(t, p, k);
      assert chain[..k + 1] == GetAncestors(t, p)[..k + 1];
    }
  }

  /** An ancestor-or-self `x` of `n` sits in `n`'s chain at position Depth(x). */
  lemma AncestorPosition(t: Tree, n: nat, x: nat)
    requires Linked(t) && n < |t.nodes| && x < |t.nodes|
    requires AncestorOrSelf(t, x, n)
    ensures Depth(t, x) < |GetAncestors(t, n)|
    ensures GetAncestors(t, n)[Depth(t, x)] == x
  {
    var chain := GetAncestors(t, n);
    AncestorsAreAncestors(t, n, x);
    var k :| 0 <= k < |chain| && chain[k] == x;
    AncestorsPrefix(t, n, k);
    AncestorsAreAncestors(t, x, x);
  }

  /** Two chains agree on every position down to a common ancestor-or-self `x`. */
  lemma ChainsAgreeAboveCommon(t: Tree, a: nat, b: nat, x: nat)
    requires Linked(t) && a < |t.nodes| && b < |t.nodes| && x < |t.nodes|
    requires AncestorOrSelf(t, x, a) && AncestorOrSelf(t, x, b)
    ensures Depth(t, x) < |GetAncestors(t, a)| && Depth(t, x) < |GetAncestors(t, b)|
    ensures GetAncestors(t, a)[Depth(t, x)] == x == GetAncestors(t, b)[Depth(t, x)]
    ensures forall k | 0 <= k <= Depth(t, x) :: GetAncestors(t, a)[k] == GetAncestors(t, b)[k]
  {
    var d := Depth(t, x);
    AncestorPosition(t, a, x);
    AncestorPosition(t, b, x);
    AncestorsPrefix(t, a, d);
    AncestorsPrefix(t, b, d);
    forall k | 0 <= k <= d
      ensures GetAncestors(t, a)[k] == GetAncestors(t, b)[k]
    {
      assert GetAncestors(t, a)[k] == GetAncestors(t, a)[..d + 1][k];
      assert GetAncestors(t, b)[k] == GetAncestors(t, b)[..d + 1][k];
    }
  }

  /**
   * The for-loop of `getCommonAncestorNode`, from position `i`: the entry
   * before the first position where the chains differ (a missing entry of
   * the shorter chain counts as different), or the last entry of the first
   * chain when it is exhausted. The roots were compared before the loop, so
   * position 0 never differs and `i - 1` is never -1.
   */
  function ScanChains(a1: seq<nat>, a2: seq<nat>, i: nat): (r: nat)
    requires 0 < |a1| && 0 < |a2| && a1[0] == a2[0]
    requires i <= |a1| && i <= |a2| && a1[..i] == a2[..i]
    ensures r in a1 && r in a2
    decreases |a1| - i
  {
    if i == |a1| then
      assert a1[|a1| - 1] == a1[..i][|a1| - 1];
      a1[|a1| - 1]
    else if i >= |a2| || a1[i] != a2[i] then
      assert a1[i - 1] == a1[..i][i - 1];
      a1[i - 1]
    else
      assert a1[..i + 1] == a2[..i + 1];
      ScanChains(a1, a2, i + 1)
  }

  /** The scan stops at the end `j` of the longest common prefix of the two chains. */
  lemma {:induction false} ScanStopsAtDivergence(a1: seq<nat>, a2: seq<nat>, i: nat) returns (j: nat)
    requires 0 < |a1| && 0 < |a2| && a1[0] == a2[0]
    requires i <= |a1| && i <= |a2| && a1[..i] == a2[..i]
    ensures 1 <= j <= |a1| && j <= |a2|
    ensures a1[..j] == a2[..j]
    ensures j == |a1| || j == |a2| || a1[j] != a2[j]
    ensures ScanChains(a1, a2, i) == a1[j - 1]
    decreases |a1| - i
  {
    if i == |a1| {
      j := i;
    } else if i >= |a2| || a1[i] != a2[i] {
      j := i;
    } else {
      assert a1[..i + 1] == a2[..i + 1];
      j := ScanStopsAtDivergence(a1, a2, i + 1);
    }
  }

  /**
   * `getCommonAncestorNode`: the deepest node above both, or None across two
   * trees. The result is None exactly when the two roots differ; otherwise
   * it is an ancestor-or-self of both nodes.
   */
  function GetCommonAncestorNode(t: Tree, a: nat, b: nat): (r: Option<nat>)
    requires Linked(t) && a < |t.nodes| && b < |t.nodes|
    ensures r.None? <==> Root(t, a) != Root(t, b)
    ensures r.Some? ==> r.value < |t.nodes| && AncestorOrSelf(t, r.value, a) && AncestorOrSelf(t, r.value, b)
  {
    var ancestors1 := GetAncestors(t, a);
    var ancestors2 := GetAncestors(t, b);
    AncestorsAreAncestors(t, a, a);
    AncestorsAreAncestors(t, b, b);
    if ancestors1[0] != ancestors2[0] then None
    else
      var x := ScanChains(ancestors1, ancestors2, 0);
      AncestorsAreAncestors(t, a, x);
      AncestorsAreAncestors(t, b, x);
      Some(x)
  }

  /** Any common ancestor-or-self lies within the common prefix of the two chains, above its last entry. */
  lemma BelowEveryCommonAncestor(t: Tree, a: nat, b: nat, j: nat, x: nat)
    requires Linked(t) && a < |t.nodes| && b < |t.nodes| && x < |t.nodes|
    requires 1 <= j <= |GetAncestors(t, a)| && j <= |GetAncestors(t, b)|
    requires GetAncestors(t, a)[..j] == GetAncestors(t, b)[..j]
    requires j == |GetAncestors(t, a)| || j == |GetAncestors(t, b)| || GetAncestors(t, a)[j] != GetAncestors(t, b)[j]
    requires AncestorOrSelf(t, x, a) && AncestorOrSelf(t, x, b)
    ensures AncestorOrSelf(t, x, GetAncestors(t, a)[j - 1])
  {
    var a1 := GetAncestors(t, a);
    var c := a1[j - 1];
    ChainsAgreeAboveCommon(t, a, b, x);
    var d := Depth(t, x);
    assert d < j;
    assert x == a1[..j][d];
    AncestorsPrefix(t, a, j - 1);
    AncestorsAreAncestors(t, c, x);
  }

  /**
   * The result is None exactly when the nodes have different roots;
   * otherwise it is an ancestor-or-self of both nodes, and every common
   * ancestor-or-self of the two lies above it (it is the deepest one).
   */
  lemma CommonAncestorIsLowest(t: Tree, a: nat, b: nat)
    requires Linked(t) && a < |t.nodes| && b < |t.nodes|
    ensures GetCommonAncestorNode(t, a, b).None? <==> Root(t, a) != Root(t, b)
    ensures GetCommonAncestorNode(t, a, b).Some? ==>
      && AncestorOrSelf(t, GetCommonAncestorNode(t, a, b).value, a)
      && AncestorOrSelf(t, GetCommonAncestorNode(t, a, b).value, b)
    ensures GetCommonAncestorNode(t, a, b).Some? ==>
      forall x: nat | x < |t.nodes| && AncestorOrSelf(t, x, a) && AncestorOrSelf(t, x, b) ::
        AncestorOrSelf(t, x, GetCommonAncestorNode(t, a, b).value)
  {
    var a1 := GetAncestors(t, a);
    var a2 := GetAncestors(t, b);
    AncestorsAreAncestors(t, a, a);
    AncestorsAreAncestors(t, b, b);
    if a1[0] == a2[0] {
      assert a1[..0] == a2[..0];
      var j := ScanStopsAtDivergence(a1, a2, 0);
      var c := a1[j - 1];
      assert a2[j - 1] == c by {
        assert a1[..j][j - 1] == a2[..j][j - 1];
      }
      AncestorsAreAncestors(t, a, c);
      AncestorsAreAncestors(t, b, c);
      forall x: nat | x < |t.nodes| && AncestorOrSelf(t, x, a) && AncestorOrSelf(t, x, b)
        ensures AncestorOrSelf(t, x, c)
      {
        BelowEveryCommonAncestor(t, a, b, j, x);
      }
    }
  }

  /** Only a common ancestor witnesses the same root; the result is then never None. */
  lemma CommonAncestorExists(t: Tree, a: nat, b: nat, x: nat)
    requires Linked(t) && a < |t.nodes| && b < |t.nodes| && x < |t.nodes|
    requires AncestorOrSelf(t, x, a) && AncestorOrSelf(t, x, b)
    ensures GetCommonAncestorNode(t, a, b).Some?
    ensures AncestorOrSelf(t, x, GetCommonAncestorNode(t, a, b).value)
  {
    AncestorSharesRoot(t, x, a);
    AncestorSharesRoot(t, x, b);
    CommonAncestorIsLowest(t, a, b);
  }

  /** The common ancestor of a node with itself is the node. */
  lemma CommonAncestorOfSelf(t: Tree, n: nat)
    requires Linked(t) && n < |t.nodes|
    ensures GetCommonAncestorNode(t, n, n) == Some(n)
  {
    CommonAncestorExists(t, n, n, n);
    CommonAncestorIsLowest(t, n, n);
    AncestorOrSelfAntisymmetric(t, n, GetCommonAncestorNode(t, n, n).value);
  }

  /**
   * The result is the first node exactly when the first node is an
   * ancestor-or-self of the second (and symmetrically for the second).
   */
  lemma CommonAncestorIsFirstIff(t: Tree, a: nat, b: nat)
    requires Linked(t) && a < |t.nodes| && b < |t.nodes|
    ensures GetCommonAncestorNode(t, a, b) == Some(a) <==> AncestorOrSelf(t, a, b)
    ensures GetCommonAncestorNode(t, a, b) == Some(b) <==> AncestorOrSelf(t, b, a)
  {
    CommonAncestorIsLowest(t, a, b);
    if AncestorOrSelf(t, a, b) {
      CommonAncestorExists(t, a, b, a);
      AncestorOrSelfAntisymmetric(t, a, GetCommonAncestorNode(t, a, b).value);
    }
    if AncestorOrSelf(t, b, a) {
      CommonAncestorExists(t, a, b, b);
      AncestorOrSelfAntisymmetric(t, b, GetCommonAncestorNode(t, a, b).value);
    }
  }

  /** The argument order does not matter. */
  lemma CommonAncestorSymmetric(t: Tree, a: nat, b: nat)
    requires Linked(t) && a < |t.nodes| && b < |t.nodes|
    ensures GetCommonAncestorNode(t, a, b) == GetCommonAncestorNode(t, b, a)
  {
    CommonAncestorIsLowest(t, a, b);
    CommonAncestorIsLowest(t, b, a);
    var r1 := GetCommonAncestorNode(t, a, b);
    var r2 := GetCommonAncestorNode(t, b, a);
    if r1.Some? {
      assert AncestorOrSelf(t, r1.value, r2.value);
      assert AncestorOrSelf(t, r2.value, r1.value);
      AncestorOrSelfAntisymmetric(t, r1.value, r2.value);
    }
  }
}
