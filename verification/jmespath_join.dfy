/**
 * Rendering a list of path segments as a JMESPath expression
 * (`joinJmespath` and `needsQuoting`), and the quote stripping the tree
 * walk applies to property names.
 */
module JmespathJoin {
  import opened Decimal
  import opened Seqs
  import Playground

  /** A path segment: a property name or a zero-based array index. */
  datatype Segment = Name(name: string) | Index(index: nat)

  predicate IsIdentStart(c: char) {
    'A' <= c <= 'Z' || 'a' <= c <= 'z' || c == '_'
  }

  predicate IsIdentChar(c: char) {
    IsIdentStart(c) || IsDigit(c)
  }

  /**
   * `s` matches `^[A-Za-z_][A-Za-z0-9_]*$`, the unquoted-identifier rule
   * of the JMESPath specification (grammar section "Identifiers").
   */
  predicate IsIdentifier(s: string) {
    0 < |s| && IsIdentStart(s[0]) && forall i | 1 <= i < |s| :: IsIdentChar(s[i])
  }

  /** `needsQuoting`. */
  predicate NeedsQuoting(s: string) {
    !IsIdentifier(s)
  }

  /**
   * `.replace(/^"|"$/g, "")`: drops one leading and one trailing double
   * quote, each when present and independently of the other. A lone `"`
   * becomes empty.
   */
  function Unquote(s: string): (r: string)
    ensures |s| >= 2 && s[0] == '"' && s[|s| - 1] == '"' ==> r == s[1..|s| - 1]
    ensures |s| == 0 || (s[0] != '"' && s[|s| - 1] != '"') ==> r == s
    ensures |s| >= 2 && s[0] == '"' && s[|s| - 1] != '"' ==> r == s[1..]
    ensures |s| >= 2 && s[0] != '"' && s[|s| - 1] == '"' ==> r == s[..|s| - 1]
    ensures s == "\"" ==> r == ""
    ensures |s| - 2 <= |r| <= |s|
  {
    var s1 := if 0 < |s| && s[0] == '"' then s[1..] else s;
    if 0 < |s1| && s1[|s1| - 1] == '"' then s1[..|s1| - 1] else s1
  }

  /**
   * A name as it appears in the query (the conditional in the loop body of
   * `joinJmespath`): unchanged exactly when it needs no quoting, and
   * stripping quotes always gives the name back.
   */
  function Quote(s: string): (r: string)
    ensures 0 < |r|
    ensures r == s <==> !NeedsQuoting(s)
    ensures Unquote(r) == s
  {
    if NeedsQuoting(s) then "\"" + s + "\"" else s
  }

  /**
   * Quoting law: a name is emitted verbatim exactly when it is an
   * identifier; otherwise it is wrapped in one pair of double quotes with
   * nothing else changed (in particular nothing is escaped). Either way
   * the rendering never starts with `.`, and stripping quotes recovers the
   * name.
   */
  lemma QuotingLaw(s: string)
    ensures Quote(s) == s <==> IsIdentifier(s)
    ensures Quote(s) != s ==> Quote(s) == "\"" + s + "\""
    ensures Quote(s)[0] != '.'
    ensures Unquote(Quote(s)) == s
  {
  }

  /** The bracket an index renders to under each projection mode. */
  function Bracket(n: nat, m: Playground.ArrayProjection): (r: string)
    ensures 2 <= |r| && r[0] == '[' && r[|r| - 1] == ']'
  {
    match m
    case None => "[" + NatToString(n) + "]"
    case Wildcard => "[*]"
    case SliceTo => "[:" + NatToString(n + 1) + "]"
    case SliceFrom => "[" + NatToString(n) + ":]"
    case Slice => "[:]"
    case Flatten => "[]"
  }

  /** What the loop body of `joinJmespath` appends for segment number `i`; never empty. */
  function Piece(seg: Segment, i: nat, m: Playground.ArrayProjection): (r: string)
    ensures 0 < |r|
  {
    match seg
    case Name(name) => (if i > 0 then "." else "") + Quote(name)
    case Index(n) => Bracket(n, m)
  }

  /**
   * Separator law: a segment's rendering starts with `.` exactly when it is
   * a name after the first position, and that separator is a single `.`;
   * an index starts with `[` whatever its position.
   */
  lemma PieceSeparator(seg: Segment, i: nat, m: Playground.ArrayProjection)
    ensures Piece(seg, i, m)[0] == '.' <==> seg.Name? && i > 0
    ensures Piece(seg, i, m)[0] == '.' ==> 1 < |Piece(seg, i, m)| && Piece(seg, i, m)[1] != '.'
    ensures seg.Index? ==> Piece(seg, i, m)[0] == '['
  {
    if seg.Name? {
      QuotingLaw(seg.name);
    }
  }

  /** The rendering of every segment, in order. */
  function Rendered(segs: seq<Segment>, m: Playground.ArrayProjection): (parts: seq<string>)
    ensures |parts| == |segs|
  {
    seq(|segs|, i requires 0 <= i < |segs| => Piece(segs[i], i, m))
  }

  /**
   * `joinJmespath`: the pieces appended left to right, as its loop does.
   * The empty list, and only it, renders to the empty string.
   */
  function JoinJmespath(segs: seq<Segment>, m: Playground.ArrayProjection): (r: string)
    ensures r == "" <==> |segs| == 0
  {
    var parts := Rendered(segs, m);
    assert |segs| > 0 ==> 0 < |parts[0]|;
    Concat(parts)
  }

  /**
   * Segment `i` renders in place, between the rendering of the segments
   * before it and of those after it: a name gets a `.` in front unless it
   * is first and is quoted only when it is not an identifier; an index
   * gets no separator and renders to its mode's bracket.
   */
  lemma JoinSegmentAt(segs: seq<Segment>, m: Playground.ArrayProjection, i: nat)
    requires i < |segs|
    ensures JoinJmespath(segs, m)
         == JoinJmespath(segs[..i], m) + Piece(segs[i], i, m) + Concat(Rendered(segs, m)[i + 1..])
    ensures segs[i].Name? ==> Piece(segs[i], i, m) == (if i > 0 then "." else "") + Quote(segs[i].name)
    ensures segs[i].Index? ==> Piece(segs[i], i, m) == Bracket(segs[i].index, m)
  {
    var parts := Rendered(segs, m);
    ConcatAt(parts, i);
    assert parts[..i] == Rendered(segs[..i], m);
  }

  /** Segment lists that agree on every name and on where the indices sit. */
  predicate SameShape(a: seq<Segment>, b: seq<Segment>) {
    && |a| == |b|
    && forall i | 0 <= i < |a| :: (a[i].Name? ==> b[i] == a[i]) && (a[i].Index? ==> b[i].Index?)
  }

  /** Under wildcard, slice and flatten the rendering ignores the index values. */
  lemma IndexFreeModes(a: seq<Segment>, b: seq<Segment>, m: Playground.ArrayProjection)
    requires m == Playground.Wildcard || m == Playground.Slice || m == Playground.Flatten
    requires SameShape(a, b)
    ensures JoinJmespath(a, m) == JoinJmespath(b, m)
  {
    assert Rendered(a, m) == Rendered(b, m);
  }

  /** Names render the same under every projection mode. */
  lemma NamesIgnoreMode(segs: seq<Segment>, lo: nat, hi: nat, m: Playground.ArrayProjection)
    requires lo <= hi <= |segs|
    requires forall i | lo <= i < hi :: segs[i].Name?
    ensures Rendered(segs, m)[lo..hi] == Rendered(segs, Playground.None)[lo..hi]
  {
  }

  /** The rendering of a prefix is the prefix of the rendering. */
  lemma RenderedPrefix(segs: seq<Segment>, m: Playground.ArrayProjection, i: nat)
    requires i <= |segs|
    ensures Rendered(segs[..i], m) == Rendered(segs, m)[..i]
  {
  }

  /** A prefix made of names only renders the same under every mode. */
  lemma PrefixIgnoresMode(segs: seq<Segment>, i: nat, m: Playground.ArrayProjection)
    requires i <= |segs|
    requires forall j | 0 <= j < i :: segs[j].Name?
    ensures JoinJmespath(segs[..i], m) == JoinJmespath(segs[..i], Playground.None)
  {
    RenderedPrefix(segs, m, i);
    RenderedPrefix(segs, Playground.None, i);
    NamesIgnoreMode(segs, 0, i, m);
    assert Rendered(segs, m)[..i] == Rendered(segs, m)[0..i];
    assert Rendered(segs, Playground.None)[..i] == Rendered(segs, Playground.None)[0..i];
  }

  /** A suffix made of names only renders the same under every mode. */
  lemma SuffixIgnoresMode(segs: seq<Segment>, i: nat, m: Playground.ArrayProjection)
    requires i < |segs|
    requires forall j | i < j < |segs| :: segs[j].Name?
    ensures Concat(Rendered(segs, m)[i + 1..]) == Concat(Rendered(segs, Playground.None)[i + 1..])
  {
    NamesIgnoreMode(segs, i + 1, |segs|, m);
    assert Rendered(segs, m)[i + 1..] == Rendered(segs, m)[i + 1..|segs|];
    assert Rendered(segs, Playground.None)[i + 1..] == Rendered(segs, Playground.None)[i + 1..|segs|];
  }

  /**
   * When the only index in the path is `n` at position `i`, the projection
   * mode changes the rendering of that index and nothing else.
   */
  lemma ModeChangesOnlyIndex(segs: seq<Segment>, i: nat, n: nat, m: Playground.ArrayProjection)
    requires i < |segs| && segs[i] == Index(n)
    requires forall j | 0 <= j < |segs| && j != i :: segs[j].Name?
    ensures JoinJmespath(segs, m)
         == JoinJmespath(segs[..i], Playground.None) + Bracket(n, m) + Concat(Rendered(segs, Playground.None)[i + 1..])
  {
    JoinSegmentAt(segs, m, i);
    PrefixIgnoresMode(segs, i, m);
    SuffixIgnoresMode(segs, i, m);
  }

  /**
   * Projection table: when the only index in the path is `n` at position
   * `i`, the six modes render the path identically except that the index
   * becomes `[n]`, `[*]`, `[:n+1]`, `[n:]`, `[:]` or `[]`.
   */
  lemma ProjectionLaw(segs: seq<Segment>, i: nat, n: nat)
    requires i < |segs| && segs[i] == Index(n)
    requires forall j | 0 <= j < |segs| && j != i :: segs[j].Name?
    ensures var before, after := JoinJmespath(segs[..i], Playground.None), Concat(Rendered(segs, Playground.None)[i + 1..]);
      && JoinJmespath(segs, Playground.None) == before + ("[" + NatToString(n) + "]") + after
      && JoinJmespath(segs, Playground.Wildcard) == before + "[*]" + after
      && JoinJmespath(segs, Playground.SliceTo) == before + ("[:" + NatToString(n + 1) + "]") + after
      && JoinJmespath(segs, Playground.SliceFrom) == before + ("[" + NatToString(n) + ":]") + after
      && JoinJmespath(segs, Playground.Slice) == before + "[:]" + after
      && JoinJmespath(segs, Playground.Flatten) == before + "[]" + after
  {
    ModeChangesOnlyIndex(segs, i, n, Playground.None);
    ModeChangesOnlyIndex(segs, i, n, Playground.Wildcard);
    ModeChangesOnlyIndex(segs, i, n, Playground.SliceTo);
    ModeChangesOnlyIndex(segs, i, n, Playground.SliceFrom);
    ModeChangesOnlyIndex(segs, i, n, Playground.Slice);
    ModeChangesOnlyIndex(segs, i, n, Playground.Flatten);
  }
}
