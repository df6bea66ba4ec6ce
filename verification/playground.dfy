/**
 * The array-projection setting of the playground store: how an array index
 * is rendered when a selection is turned into a query.
 */
module Playground {
  import Options

  /** The six projection modes, one constructor per entry of the store's list. */
  datatype ArrayProjection = None | Wildcard | SliceTo | SliceFrom | Slice | Flatten {

    /** The mode's name exactly as the store spells it (with spaces, not hyphens). */
    function Label(): string {
      match this
      case None => "none"
      case Wildcard => "wildcard"
      case SliceTo => "slice to"
      case SliceFrom => "slice from"
      case Slice => "slice"
      case Flatten => "flatten"
    }
  }

  /** The store's list of mode names, in its order. */
  const ArrayProjectionList: seq<string> :=
    ["none", "wildcard", "slice to", "slice from", "slice", "flatten"]

  /** Reads a mode back from its name; names outside the list are rejected. */
  function ParseArrayProjection(s: string): (r: Options.Option<ArrayProjection>)
    ensures r.Some? <==> s in ArrayProjectionList
    ensures r.Some? ==> r.value.Label() == s
  {
    if s == "none" then Options.Some(None)
    else if s == "wildcard" then Options.Some(Wildcard)
    else if s == "slice to" then Options.Some(SliceTo)
    else if s == "slice from" then Options.Some(SliceFrom)
    else if s == "slice" then Options.Some(Slice)
    else if s == "flatten" then Options.Some(Flatten)
    else Options.None
  }

  /** Every mode has a listed name, and the name reads back as that mode. */
  lemma LabelRoundTrip(p: ArrayProjection)
    ensures p.Label() in ArrayProjectionList
    ensures ParseArrayProjection(p.Label()) == Options.Some(p)
  {
  }

  /** The list names six distinct modes: no two list entries are equal. */
  lemma ProjectionListDistinct()
    ensures |ArrayProjectionList| == 6
    ensures forall i, j | 0 <= i < j < |ArrayProjectionList| :: ArrayProjectionList[i] != ArrayProjectionList[j]
  {
  }
}
