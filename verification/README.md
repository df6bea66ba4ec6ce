# Selection-to-query resolver of the JMESPath playground

The playground shows a JSON document in an editor. When the user clicks or
selects inside it, the playground writes a JMESPath query that addresses the
selected value, for example `a[1]`, `a.b` or `"x-y"[*]`. This project models
that resolver:

- **Selected node** (`getSelectedNode`). The editor's main selection becomes
  one syntax node. A collapsed cursor is resolved twice, once with forward
  bias and once with backward bias. When one of the two nodes encloses the
  other, the inner one is chosen; when neither encloses the other (between
  `1` and `,` in `[1,2]`, say), the forward-biased node is chosen. A range
  has each end resolved inward, and the result is the common ancestor of
  the two nodes.
- **Common ancestor** (`getCommonAncestorNode`, `getAncestors`). The
  root-first ancestor chains of the two nodes are compared position by
  position.
- **Path walk and join** (`resolveJmespath`, `joinJmespath`, `needsQuoting`).
  The walk climbs from the selected node to the document root and collects
  one key per property and one element index per array. The join renders the
  segments root first. A key is emitted bare when it is a JMESPath
  identifier, otherwise it is wrapped in double quotes. An index renders
  according to the array-projection setting: `[n]`, `[*]`, `[:n+1]`, `[n:]`,
  `[:]` or `[]`.
- **The earlier revision** of the resolver. It has no projection setting and
  always renders `[n]`.
- **The array-projection setting** of the playground store.

The syntax tree is an arena of immutable nodes addressed by index, stored in
preorder. A node's parent and previous sibling have smaller indices, and its
children have larger ones. Node identity (`===`) is index equality. The
parser's `tree.resolve(pos, side)` is an oracle parameter. The document is a
string.

Modules, in dependency order:

- `Options`
- `Playground`
- `Decimal`: the `${n}` rendering of an index.
- `Seqs`: reversal and concatenation of parts.
- `SyntaxTree`
- `CommonAncestor`
- `SelectedNode`
- `JmespathJoin`
- `JmespathResolver`
- `JmespathResolverLegacy`
- `JsonPath`: what the walk computes on a JSON-shaped tree, stated without
  the walk.
- `Scenarios`: the document `{"a":[1,2]}` worked end to end.

## Model

| member | source | states |
|---|---|---|
| Playground.ParseArrayProjection | src/store/playground.ts:6-15 | A string names a projection mode exactly when it is one of the six list entries, and it reads back to the mode with that label |
| Playground.LabelRoundTrip | src/store/playground.ts:6-15 | Every mode's label is in the store's list and parses back to that mode |
| Playground.ProjectionListDistinct | src/store/playground.ts:6-13 | The list has six entries, pairwise distinct |
| CommonAncestor.GetAncestors | src/utils/getCommonAncestorNode.ts:23-31 | The chain is non-empty and ends at the node itself; it starts at a parentless node; each entry is the parent of the next |
| CommonAncestor.AncestorsAreAncestors | src/utils/getCommonAncestorNode.ts:23-31 | A node is in the chain iff it is an ancestor-or-self of the start; the chain starts at the root, and its length is the depth plus one |
| CommonAncestor.AncestorsPrefix | src/utils/getCommonAncestorNode.ts:23-31 | The first k+1 entries of a chain are the chain of its k-th entry |
| CommonAncestor.ScanStopsAtDivergence | src/utils/getCommonAncestorNode.ts:14-20 | The loop returns the last entry of the longest common prefix of the two chains, and that prefix is never empty |
| CommonAncestor.GetCommonAncestorNode | src/utils/getCommonAncestorNode.ts:3-21 | The result is null exactly when the two nodes have different roots; otherwise it is a node of the tree that is an ancestor-or-self of both |
| CommonAncestor.CommonAncestorIsLowest | src/utils/getCommonAncestorNode.ts:3-21 | The result is null iff the roots differ; otherwise it is an ancestor-or-self of both nodes, and every common ancestor-or-self lies above it |
| CommonAncestor.CommonAncestorExists | src/utils/getCommonAncestorNode.ts:3-21 | When the nodes share any ancestor the result is non-null and lies below that ancestor |
| CommonAncestor.CommonAncestorOfSelf | src/utils/getCommonAncestorNode.ts:3-21 | The common ancestor of a node with itself is that node |
| CommonAncestor.CommonAncestorIsFirstIff | src/utils/getCommonAncestorNode.ts:3-21 | The result is the first node iff the first is an ancestor-or-self of the second, and likewise for the second |
| CommonAncestor.CommonAncestorSymmetric | src/utils/getCommonAncestorNode.ts:3-21 | Swapping the arguments does not change the result |
| SelectedNode.GetSelectedNode | src/utils/getSelectedNode.ts:6-44 | A collapsed cursor selects one of its two resolutions. A range selects a node enclosing the head's resolution, and when both ends resolve within one tree it also encloses the anchor's |
| SelectedNode.CollapsedCursorChoice | src/utils/getSelectedNode.ts:17-32 | For a collapsed cursor, the result is one of the two resolutions. It is the backward-biased node iff the two agree or the forward-biased node is an ancestor-or-self of the backward-biased one |
| SelectedNode.CollapsedCursorPrefersInner | src/utils/getSelectedNode.ts:17-32 | When one resolution encloses the other, the inner one is chosen, whichever side produced it |
| SelectedNode.RangeSelectionIsCommonAncestor | src/utils/getSelectedNode.ts:33-41 | The lower end is resolved forward and the upper end backward. Within one tree the result is the deepest common ancestor-or-self of the two nodes; across trees it is the head's node |
| SelectedNode.RangeSelectionSwap | src/utils/getSelectedNode.ts:33-41 | Within one tree, exchanging head and anchor selects the same node |
| Decimal.NatToString | src/utils/resolveJmespath.ts:139 | The index's decimal spelling is non-empty and all digits, has no leading zero, and reads back as the index |
| Decimal.NatToStringInjective | src/utils/resolveJmespath.ts:139 | Distinct indices are spelled differently |
| JmespathJoin.Unquote | src/utils/resolveJmespath.ts:67-70 | One leading and one trailing double quote are each dropped when present, independently of the other: both, only the leading one, or only the trailing one. A string with neither is unchanged, and a lone quote becomes empty |
| JmespathJoin.Quote | src/utils/resolveJmespath.ts:135 | A key is emitted unchanged exactly when `needsQuoting` is false; the emitted text is never empty, and stripping quotes from it gives back the key |
| JmespathJoin.QuotingLaw | src/utils/resolveJmespath.ts:169-171 | A key is emitted verbatim iff it matches the identifier pattern; otherwise it is wrapped in one pair of quotes with nothing escaped. The rendering never starts with `.`, and unquoting it gives back the key |
| JmespathJoin.Bracket | src/utils/resolveJmespath.ts:137-160 | Every projection renders an index as a bracketed piece: it starts with `[` and ends with `]` |
| JmespathJoin.PieceSeparator | src/utils/resolveJmespath.ts:131-136 | A piece starts with `.` iff it is a key after the first position, and then with a single `.`; an index piece starts with `[` |
| JmespathJoin.JoinJmespath | src/utils/resolveJmespath.ts:122-167 | The query is empty iff the segment list is empty |
| JmespathJoin.JoinSegmentAt | src/utils/resolveJmespath.ts:128-164 | Segment i renders in place between the renderings of the segments before and after it: a key as optional `.` plus its quoted form, an index as its mode's bracket |
| JmespathJoin.IndexFreeModes | src/utils/resolveJmespath.ts:141-155 | Under wildcard, slice and flatten, two paths with the same keys and the indices in the same places render the same |
| JmespathJoin.NamesIgnoreMode | src/utils/resolveJmespath.ts:131-136 | Keys render the same under every projection mode |
| JmespathJoin.ModeChangesOnlyIndex | src/utils/resolveJmespath.ts:137-160 | With a single index in the path, the mode changes how that index renders and nothing else |
| JmespathJoin.ProjectionLaw | src/utils/resolveJmespath.ts:137-160 | With a single index n, the six modes render it as `[n]`, `[*]`, `[:n+1]`, `[n:]`, `[:]` and `[]`, with everything around it unchanged |
| JmespathResolver.GetChild | src/utils/resolveJmespath.ts:62 | `getChild` returns the first child with the requested name; that child's parent is the node and it sits one level deeper. It returns none iff no child has that name |
| JmespathResolver.SiblingCount | src/utils/resolveJmespath.ts:84-93 | A node that is not `[`, `]` or `,` counts itself, so the count is at least one and the index pushed as `count - 1` is never negative |
| JmespathResolver.SiblingCountMatchesChildren | src/utils/resolveJmespath.ts:84-93 | The count taken over previous siblings equals the number of non-separator children of the parent, up to and including the node |
| JmespathResolver.WalkArrayElement | src/utils/resolveJmespath.ts:84-97 | An array element is emitted as the number of `[`/`]`/`,`-free children before it (so never negative), and the walk continues at the array |
| JmespathResolver.Walk | src/utils/resolveJmespath.ts:45-114 | The walk emits at most one segment per node on the selected node's ancestor chain |
| JmespathResolver.WalkStopsAndSkips | src/utils/resolveJmespath.ts:48-113 | Nothing is emitted at an error node, at the document, or at a value with no parent or an unexpected parent. Punctuation passes on to its parent |
| JmespathResolver.WalkNamesAreKeys | src/utils/resolveJmespath.ts:66-108 | Every key the walk emits is the unquoted text of some property-name node of the tree |
| SyntaxTree.SliceDoc | src/utils/resolveJmespath.ts:67-68 | The text of a node has the length of its span, and its characters are the document's characters from `from` onwards |
| JmespathResolver.ResolveJmespath | src/utils/resolveJmespath.ts:33-120 | The query is empty iff the walk collected no segment |
| JmespathResolver.DefaultProjectionIsNone | src/utils/resolveJmespath.ts:9-41 | Omitting the projection option renders exactly as "none" |
| JmespathResolverLegacy.LegacyJoinIsNone | src/utils/resolveJmespath1.ts:101-120 | The earlier join renders every segment list exactly as the current join does under "none" |
| JmespathResolverLegacy.JoinJmespathLegacy | src/utils/resolveJmespath1.ts:101-120 | The earlier join renders the empty string exactly for the empty segment list |
| JmespathResolverLegacy.LegacyResolveIsDefault | src/utils/resolveJmespath1.ts:24-99 | The earlier resolver returns what the current one returns with default options |
| JmespathResolverLegacy.ResolveJmespathLegacy | src/utils/resolveJmespath1.ts:24-99 | The earlier resolver returns the empty string exactly when its walk collected no segment |
| JmespathResolverLegacy.LegacySegmentAt | src/utils/resolveJmespath1.ts:104-117 | In the earlier join, segment i renders in place between the earlier renderings of the segments before and after it. An index renders as `[n]`, and a key after the first position gets a single `.` and is quoted iff it is not an identifier |
| JsonPath.ArrayCountsAgree | src/utils/resolveJmespath.ts:84-93 | Among an array's children, "not a separator" and "a JSON value" count the same |
| JsonPath.ValueUnderArray | src/utils/resolveJmespath.ts:84-97 | For an array element, the walk emits its position among the array's values, and the path gains the same index |
| JsonPath.WalkUnderProperty | src/utils/resolveJmespath.ts:99-111 | For a property's value, the walk emits the property's key (found two siblings back) and continues at the enclosing object |
| JsonPath.PathUnderProperty | src/utils/resolveJmespath.ts:99-111 | The path of a property's value is the enclosing object's path plus the property's key |
| JsonPath.WalkIsPathOf | src/utils/resolveJmespath.ts:45-117 | On a JSON-shaped tree, the reversed walk from any value equals its root-first key/index path, read off its ancestor chain without the walk |
| JsonPath.ResolveRendersPathOf | src/utils/resolveJmespath.ts:33-120 | On a JSON-shaped tree, the query for a value is the join of that value's path under the requested projection |
| JsonPath.WalkFromProperty | src/utils/resolveJmespath.ts:61-73 | From a property, the walk emits its key and continues above the property |
| JsonPath.WalkFromKey | src/utils/resolveJmespath.ts:66-73 | From a property name, the walk emits the key and continues at the grandparent |
| JsonPath.PropertyResolvesLikeValue | src/utils/resolveJmespath.ts:61-111 | Selecting a property, or its key, yields the same segments as selecting the property's value |
| Scenarios.WalkOfSecondElement | src/utils/resolveJmespath.ts:45-114 | In `{"a":[1,2]}`, the walk from the `2` emits index 1, then key `a` |
| Scenarios.ResolveSecondElement | src/utils/resolveJmespath.ts:116-143 | In `{"a":[1,2]}`, selecting the `2` gives `a[1]` by default and `a[*]` under the wildcard projection |

## Left out

- The lezer JSON parser and the internals of `tree.resolve` are not part of this model. `resolve` is a parameter that answers with some node of the tree. `getChild` is modelled as the first child with the name.
- Editor state and view, the zustand store beyond the projection list, URL hashing, linters, React components and the JMESPath evaluator are outside the resolver and are not modelled.
- JavaScript's number-to-string conversion switches to exponent notation at 1e21. `Decimal.NatToString` always writes plain digits, since no array has that many elements.
- The tree is assumed to be numbered in preorder (parents and previous siblings before a node). This replaces the parser's guarantee that the upward links of a finished tree are acyclic.
- An options object with `arrayProjection: undefined` spreads over the default and reaches the `switch` default branch, which renders `[n]` as "none" does. Both that and an absent option are `ResolveOptions(None)`.
- `joinJmespath` throws on a segment that is neither a string nor a number. The walk only ever pushes strings and numbers, so `Segment` has just those two cases and the throw is unreachable.
- Keys are not escaped before quoting: a key that contains `"` or `\` yields a query that is not valid JMESPath. The model reproduces this, and `JmespathJoin.QuotingLaw` states it; no property claims the output is always well-formed.
- JsonPath.WalkIsPathOf: holds for trees shaped like an error-free document (`JsonShaped`). In a document with errors the walk stops at the first `⚠` node or at a value under an unexpected parent (`JmespathResolver.WalkStopsAndSkips`), and the theorem says nothing about those cases.
