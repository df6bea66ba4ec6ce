/**
 * The earlier revision of the resolver, which has no projection option:
 * every index renders as `[n]`. Its tree walk is the same code as the
 * current one and reads the text from the editor view instead of the
 * editor state; both become the same document string here, so the walk
 * is shared.
 */
module JmespathResolverLegacy {
  import opened Options
  import opened Decimal
  import opened Seqs
  import opened SyntaxTree
  import opened JmespathJoin
  import opened JmespathResolver
  import Playground

  /** The loop body of the earlier `joinJmespath` for segment number `i`; never empty. */
  function LegacyPiece(seg: Segment, i: nat): (r: string)
    ensures 0 < |r|
  {
    match seg
    case Name(name) => (if i > 0 then "." else "") + (if NeedsQuoting(name) then "\"" + name + "\"" else name)
    case Index(n) => "[" + NatToString(n) + "]"
  }

  /** The earlier rendering of every segment, in order. */
  function LegacyRendered(segs: seq<Segment>): (parts: seq<string>)
    ensures |parts| == |segs|
  {
    seq(|segs|, i requires 0 <= i < |segs| => LegacyPiece(segs[i], i))
  }

  /**
   * The earlier `joinJmespath`: the pieces appended left to right. The
   * empty list, and only it, renders to the empty string.
   */
  function JoinJmespathLegacy(segs: seq<Segment>): (r: string)
    ensures r == "" <==> |segs| == 0
  {
    var parts := LegacyRendered(segs);
    assert |segs| > 0 ==> 0 < |parts[0]|;
    Concat(parts)
  }

  /** The earlier pieces are the current pieces under "none". */
  lemma LegacyPiecesAreNone(segs: seq<Segment>)
    ensures LegacyRendered(segs) == Rendered(segs, Playground.None)
  {
  }

  /** The earlier `joinJmespath` renders every list exactly as the current one does under "none". */
  lemma LegacyJoinIsNone(segs: seq<Segment>)
    ensures JoinJmespathLegacy(segs) == JoinJmespath(segs, Playground.None)
  {
    LegacyPiecesAreNone(segs);
  }

  /** The earlier `resolveJmespath`: empty exactly when the walk collected no segment. */
  function ResolveJmespathLegacy(t: Tree, text: string, n: nat): (r: string)
    requires WellFormed(t) && SpansWithin(t, text) && n < |t.nodes|
    ensures r == "" <==> Walk(t, text, n) == []
  {
    JoinJmespathLegacy(Reverse(Walk(t, text, n)))
  }

  /** The earlier resolver produces what the current one produces with default options. */
  lemma LegacyResolveIsDefault(t: Tree, text: string, n: nat)
    requires WellFormed(t) && SpansWithin(t, text) && n < |t.nodes|
    ensures ResolveJmespathLegacy(t, text, n) == ResolveJmespath(t, text, n, ResolveOptions(None))
  {
    LegacyJoinIsNone(Reverse(Walk(t, text, n)));
  }

  /**
   * Laws of the earlier rendering: segment `i` renders in place between the
   * segments before it and those after it; an index renders as `[n]` with
   * no separator; a name after the first position gets a single `.` and is
   * quoted exactly when it is not an identifier.
   */
  lemma LegacySegmentAt(segs: seq<Segment>, i: nat)
    requires i < |segs|
    ensures segs[i].Index? ==>
      JoinJmespathLegacy(segs)
      == JoinJmespathLegacy(segs[..i]) + ("[" + NatToString(segs[i].index) + "]") + Concat(LegacyRendered(segs)[i + 1..])
    ensures segs[i].Name? ==>
      JoinJmespathLegacy(segs)
      == JoinJmespathLegacy(segs[..i]) + ((if i > 0 then "." else "") + Quote(segs[i].name)) + Concat(LegacyRendered(segs)[i + 1..])
  {
    LegacyJoinIsNone(segs);
    LegacyJoinIsNone(segs[..i]);
    LegacyPiecesAreNone(segs);
    JoinSegmentAt(segs, Playground.None, i);
  }
}
