# Assignment tree of themis-cli, modelled in Dafny

themis-cli crawls the assignment pages of the Themis portal. It keeps what
it finds in `tree/tree.go` as an ordered tree of `AssignmentNode`s. Each
node has a `Parent` back-pointer, a `Name`, a `URL` and an ordered
`children` slice. `PullAssignmentsFromThemisAndBuildTree` grows that tree
in place. It fetches a page's list of `{name, url}` pairs, appends one
child per pair, and, while `depth > 0`, descends into every child with
`depth - 1`. It returns `nil` at the first error.
`SaveAssignmentTreeToJSON` creates the output file and then calls
`encodeAssignmentTree`. That function writes one JSON record per node in
pre-order, down to `depth` levels below the start node. It stops at the
first node the encoder refuses.

The project has three modules.

- `TreeSpec` (`tree_spec.dfy`) describes the tree as a value (`Tree`).
  - `Build`/`BuildChildren` describe the builder as functions.
  - `Emit`/`EmitAll` describe the writer as functions.
  - `PreOrder` and `Prefix` are independent reference definitions: the
    depth-bounded pre-order list of records, and the stream that stops at
    the first refused record.
  - The module's lemmas relate these functions to each other.
- `AssignmentTree` (`assignment_tree.dfy`) is the imperative model.
  - `AssignmentNode` is a class. Its ghost `Model` (a `Tree`) and ghost
    footprint `Repr` are tied to its fields by `Valid()`. `Valid()` says
    that every child points back at its parent, child footprints are
    disjoint and the structure is acyclic.
  - The builder and the writer are methods that change the nodes and an
    `Encoder` stream in place. They are proved against `Build` and `Emit`.
- `Scenario` (`scenario.dfy`) is a worked example: a course page with two
  homework pages, each with one submission page.

Calls into code outside the core become parameters:
- The page fetch `parser.GetAssignmentsOnPage` is a deterministic function
  `Fetch` from a URL to either a list of pairs or an error message. The
  method's ghost `calls` result counts fetches.
- Whether `encoder.Encode` accepts a node is a function `Encoding` from the
  node's record to an optional failure reason.
- The outcome of `os.Create` is an `Option<string>` argument of
  `SaveAssignmentTreeToJSON`.

Three behaviours of the code are easy to miss; the model follows the code
in each:
- The expansion loop (`tree/tree.go:66`) ranges over all of
  `rootNode.children`, not only the children appended in this call. So
  children that already existed are fetched and expanded again. `Build`
  does the same.
- A negative `depth` is not a no-op for the builder. The page is still
  fetched and its pairs still appended (`tree/tree.go:53-62`). Only the
  descent is skipped. For the writer, a negative depth writes nothing
  (`tree/tree.go:101-103`).
- A failed build is not rolled back. The nodes appended before the error
  stay in the tree. `Build` returns that partly grown tree with the error.

## Model

| member | source | states |
|---|---|---|
| AssignmentTree.AssignmentNode.constructor | tree/tree.go:17-23 | a node with the given parent, name and URL, no children, valid on its own |
| AssignmentTree.AssignmentNode.AppendChild | tree/tree.go:26-30 | `c.Parent` becomes this node; `c` is appended as the last child; earlier children unchanged; name and URL of both nodes, this node's parent and `c`'s children unchanged; the tree stays valid with `c`'s subtree added |
| AssignmentTree.BuildAssignmentNode | tree/tree.go:34-42 | a fresh node whose `Parent`, `Name`, `URL` are the arguments; no children |
| AssignmentTree.BuildRootAssignmentNode | tree/tree.go:46-48 | a fresh node with `Parent == null`, the given name and URL, no children |
| AssignmentTree.PullAssignmentsFromThemisAndBuildTree | tree/tree.go:50-75 | the subtree becomes `Build(...).tree` and the error and fetch count are `Build`'s; a failed fetch leaves the children slice as it was; the appended children are fresh objects; every node already in the subtree, this one included, keeps its old children as a prefix and keeps its `Parent`; result is `rootNode` on success and null on error |
| AssignmentTree.AppendAssignments | tree/tree.go:58-62 | one new child per listed pair, in order, each with `Parent == rootNode`; the appended children are fresh objects; old children remain a prefix, and no node already in the subtree loses a child or changes its `Parent` |
| AssignmentTree.ExpandChildren | tree/tree.go:65-72 | the children are rebuilt one after another as `BuildChildren` says, stopping at the first error; the children slice itself is unchanged; every node already in the subtree, this one included, keeps its old children as a prefix and keeps its `Parent` |
| AssignmentTree.ExpandChild | tree/tree.go:66-71 | one turn of the expansion loop: after it, the loop state is `BuildChildren` of one more child, or, when that child failed, the final result of the whole loop; every node already in the subtree, this one included, keeps its old children as a prefix and keeps its `Parent` |
| AssignmentTree.RebuildChild | tree/tree.go:66-67 | child `i` becomes `Build` of it with the same depth; siblings and their subtrees are unchanged; every node already in the subtree, this one included, keeps its old children as a prefix and keeps its `Parent` |
| AssignmentTree.Encoder.constructor | tree/tree.go:89 | a stream with nothing written and the given encoding outcome |
| AssignmentTree.Encoder.Encode | tree/tree.go:105-108 | on success the node's record is appended to the stream; on refusal the stream is unchanged and the reason returned |
| AssignmentTree.EncodeAssignmentTree | tree/tree.go:100-118 | the stream grows by exactly `Emit(node, depth).records` and the error is `Emit`'s |
| AssignmentTree.EncodeChildren | tree/tree.go:110-115 | the stream grows by `EmitAll` of all children with `depth`; the error is the first child error |
| AssignmentTree.EncodeChild | tree/tree.go:111-114 | one turn of the writer loop: the stream is `EmitAll` of one more child, or, on error, the loop's final output |
| AssignmentTree.SaveAssignmentTreeToJSON | tree/tree.go:77-98 | if creating the file fails: no file and a creation error. Otherwise the file holds the records of the depth-bounded pre-order up to the first refused node. The error is the wrapped encoding error, naming that node, or none |
| TreeSpec.Build | tree/tree.go:50-75 | name and URL are kept; at least one fetch. A failed fetch gives the tree unchanged, a `GettingAssignments` error and one fetch. A successful fetch grows the children by the number of listed pairs. With `depth <= 0` the pairs are appended as leaves after one fetch, with no error |
| TreeSpec.BuildChildren | tree/tree.go:65-72 | expanding the first `n` children gives exactly `n` children back |
| TreeSpec.BuildAppendsListing | tree/tree.go:58-62 | after a successful fetch the children carry the old children's names and URLs, then the listed pairs in fetch order, also when a later expansion fails |
| TreeSpec.BuildChildrenLabels | tree/tree.go:66-67 | expansion never changes a child's name or URL |
| TreeSpec.BuildChildrenAfterFailure | tree/tree.go:68-70 | after the first failure the remaining children are passed through unchanged and nothing more is fetched |
| TreeSpec.BuildChildrenTurn | tree/tree.go:66-71 | one loop turn after a successful prefix: child `i` is replaced by its rebuilt subtree, its fetches are added, and its error becomes the loop's |
| TreeSpec.BuildChildrenStop | tree/tree.go:68-70 | when child `i` is the first to fail, the loop's final result is child `i` rebuilt, the later ones untouched, and that error |
| TreeSpec.FirstFailure | tree/tree.go:66-71 | a failed loop has a first failing child, and every child before it succeeded |
| TreeSpec.BuildChildrenStopsAtFailure | tree/tree.go:66-71 | on failure at child `k`: each earlier child is fully built, child `k` carries the error, and every later sibling is left as it was |
| TreeSpec.BuildChildrenSucceeds | tree/tree.go:65-72 | on success every child, including pre-existing ones, is replaced by its successful build |
| TreeSpec.BuildHeight | tree/tree.go:65-72 | afterwards the tree's height is at most the larger of its old height and `max(depth, 0) + 1`, also when the build fails |
| TreeSpec.BuildChildrenHeight | tree/tree.go:65-72 | expanded children stay within the same height bound |
| TreeSpec.BuildFromLeafHeight | tree/tree.go:65-72 | from a childless root and `depth >= 0`, every node lies at most `depth + 1` edges below the root |
| TreeSpec.BuildCalls | tree/tree.go:50-75 | on success the number of fetches equals the number of nodes of the built tree at distance at most `max(depth, 0)` from the start |
| TreeSpec.BuildChildrenCalls | tree/tree.go:65-72 | on success the loop's fetches equal the count of those nodes in the rebuilt children |
| TreeSpec.Emit | tree/tree.go:101-103 | with `depth < 0` nothing is written and there is no error |
| TreeSpec.PrefixStopsAtFirstRefusal | tree/tree.go:105-108 | the reference stream is the longest prefix of accepted records. No error exactly when every record is accepted. Otherwise the error names the first refused record and gives its reason |
| TreeSpec.EmitAllAfterFailure | tree/tree.go:111-114 | once a child fails, later children write nothing and the result stays that failure |
| TreeSpec.EmitAllTurn | tree/tree.go:110-115 | one loop turn: the next child's records follow the earlier ones, and its failure ends the loop |
| TreeSpec.EmitIsPreOrderPrefix | tree/tree.go:100-118 | the writer's output and error are those of the reference stream over the reference pre-order of nodes at distance at most `depth` |
| TreeSpec.EmitAllIsPreOrderPrefix | tree/tree.go:110-115 | the same for the first `n` children of a node |
| TreeSpec.EmitWithoutFailure | tree/tree.go:100-118 | the writer emits the whole pre-order with no error if and only if the encoder accepts every record in it |
| Scenario.CourseBuild | tree/tree.go:50-75 | building a childless CS101 root with depth 2 fetches 5 pages and gives the five-node tree |
| Scenario.CoursePreOrder | tree/tree.go:100-118 | that tree's pre-order is CS101, HW1, Submission, HW2, Submission |
| Scenario.CourseSave | tree/tree.go:100-118 | writing it with depth 1 gives the 3 records CS101, HW1, HW2 and no error |

## Left out

- The HTTP client and page parsing (`parser.GetAssignmentsOnPage`) are foreign network and HTML code. They are replaced by the `Fetch` parameter, which is deterministic: the same URL always gives the same answer.
- Logging in `AppendChild`, `BuildAssignmentNode` and the deferred close reporting is output only, and is not modelled.
- The file close, the close-error log, and write errors of the file are OS I/O, and are not modelled. The file's content is the sequence of records the encoder stream accepted.
- Records hold a node's name and URL. The JSON text, its four-space indentation and the `Parent` chain Go also serialises are library formatting and add no structure.
- AssignmentTree.Encoder.Encode: one refusal stands for any failure of `json.Encoder.Encode`. It depends only on the node's name and URL. A refused node writes nothing, so partial writes of a single record are not modelled.
- Error values are kinds (`GettingAssignments`, `BuildingTree`, `EncodingNode`, `CreatingFile`, `EncodingTree`) with the wrapped cause. The exact message strings are not modelled.
- A listed pair is a `Listing(name, url)`. The Go map lookups `assignment["name"]` and `assignment["url"]` would give `""` for a missing key. That case lies inside the parser, which is not part of this model.
- `BuildTreeFromJSON` has an empty body and declares a result, so `tree/tree.go` as it stands does not compile. It has no behaviour to model, so there is no read path and no save/load round trip.
- The constant `baseURL` is unused.
- AssignmentTree.AssignmentNode.AppendChild: the requires (both subtrees valid, disjoint) are a caller contract. The Go method itself accepts any pointer, including one that would create a cycle.
- AssignmentTree.AppendAssignments, AssignmentTree.ExpandChildren, AssignmentTree.ExpandChild, AssignmentTree.RebuildChild, AssignmentTree.EncodeChildren and AssignmentTree.EncodeChild split the two Go functions into their loops and loop bodies. The Go return value of the recursive call, assigned to the loop variable, is dropped as in Go.
