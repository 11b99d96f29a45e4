# KMamiz-Web data transformations in Dafny

KMamiz-Web is a dashboard for microservice systems. It draws service and
endpoint dependency graphs, compares two tagged versions of a system's graph
and metrics, and lists the request/response schemas recorded for an endpoint.
Nearly all of it is rendering. This project models the pure data logic under
that rendering and proves what it guarantees:

- **Version comparison** (`Diff` module, `src/pages/Diff.tsx`).
  - Per-service cohesion, coupling and instability records of two versions are
    merged into paired V1/V2 diff records. There is one record per distinct
    service name, in the iteration order of a JavaScript `Set`.
  - Each side takes the first record with that name, or all-zero metrics when
    the version lacks the service.
  - Also modelled: the guards on creating and deleting a tagged version, and
    the message shown for a service-pair relationship.
- **Dependency graphs** (`DependencyGraph` module, `src/classes/DependencyGraphUtils.ts`).
  - `ProcessData` attaches highlight neighbours and link objects to each node.
  - `toServiceDependencyGraph` collapses an endpoint graph to a service graph.
    It truncates tab-separated ids to two segments, de-duplicates the edges
    through a set of `source\ntarget` strings and rebuilds each service node's
    adjacency.
  - The node-kind label (EX/SRV/EP) and the shortening of long endpoint names
    are taken from the painting code.
- **Interface schemas** (`InterfaceDisplay` module, `src/components/InterfaceDisplay.tsx`).
  - Recorded schemas are de-duplicated by key with JavaScript `Map`
    semantics, sorted by status and then by recency, and labelled so that the
    newest schema of each status is marked "(Latest)".
  - Also modelled: the combined drop-down list, the radio-index selection
    across the "recorded" and "tagged" lists, the delete target, and the
    last-segment display name.

Two support modules hold what these share:

- `Seqs`: `Option`, first-match search (`find`) and insertion-ordered
  de-duplication (`Set`).
- `Text`: JavaScript `split`/`join` on one character, and string `<`.

All functions are pure. Metric numbers are `real` values that are only copied.
Time stamps are integers (epoch milliseconds). The browser's date formatting
is a function parameter.

## Model

| member | source | states |
|---|---|---|
| Seqs.IndexOf | src/pages/Diff.tsx:482 | `find` returns the first element equal to the sought key; absent exactly when no element matches |
| Seqs.Distinct | src/pages/Diff.tsx:474-477 | the `Set` of names has no duplicates and holds exactly the names occurring in the input |
| Seqs.DistinctFirstOccurrenceOrder | src/pages/Diff.tsx:474-481 | the `Set` iterates its elements in order of their first occurrence in the input |
| Seqs.DistinctConcat | src/pages/Diff.tsx:474-477 | the set built from v1's names then v2's is v1's distinct names followed by v2's names not in v1 |
| Diff.Lookup | src/pages/Diff.tsx:482-495 | a present name yields the metrics of the first record with that name; an absent name yields the zero default |
| Diff.Merge | src/pages/Diff.tsx:470-511 | records are named by the distinct names of both versions in set order; `uniqueServiceName` equals `name`; each side holds that version's first-match-or-zero metrics |
| Diff.MergeCoverage | src/pages/Diff.tsx:474-508 | there is a record for a name exactly when it occurs in either version, and never two records for one name |
| Diff.MergeOrder | src/pages/Diff.tsx:474-481 | record order is v1's names by first occurrence, then the names seen only in v2 |
| Diff.MergeFirstMatchOrZero | src/pages/Diff.tsx:481-495 | a side whose version lacks the service is zero; otherwise it holds the metrics of that version's first record with the name |
| Diff.MergeSymmetric | src/pages/Diff.tsx:470-511 | swapping the versions swaps the V1 and V2 sides of the record for each name |
| Diff.MergeSelf | src/pages/Diff.tsx:470-511 | comparing a version with itself gives equal sides; two empty versions give no records |
| Diff.MergeCohesion | src/pages/Diff.tsx:423-468 | cohesion diff records cover the distinct names in set order; `uniqueServiceName` is the name; each side holds that version's first record's cohesion, or zero cohesion when the version lacks the service |
| Diff.MergeCoupling | src/pages/Diff.tsx:470-511 | coupling diff records cover the distinct names in set order; `uniqueServiceName` is the name; each side holds that version's first record's coupling, or zero AIS/ADS/ACS when the version lacks the service |
| Diff.MergeInstability | src/pages/Diff.tsx:513-556 | instability diff records cover the distinct names in set order; `uniqueServiceName` is the name; each side holds that version's first record's instability, or zero instability when the version lacks the service |
| Diff.DeleteTagRequest | src/pages/Diff.tsx:572-581 | a delete request is issued exactly when the tag is non-empty and not "Latest", and it names that tag |
| Diff.CreateVersionRequest | src/pages/Diff.tsx:559-570 | a new version is stored exactly when the latest graph is loaded and a name was entered; it carries that name and the latest graph and metrics |
| Diff.RelationshipMessage | src/pages/Diff.tsx:591-603 | "no matching services in graph" gives the "do not exist" message, "indirect dependency" the "no direct dependency" message, and every other relationship the empty message |
| Text.Split | src/classes/DependencyGraphUtils.ts:66-67 | `split` yields at least one piece, no piece contains the separator, and there is one piece exactly when the string has no separator |
| Text.JoinSplit | src/classes/DependencyGraphUtils.ts:66-67 | `Text.Join` models `Array.prototype.join` (no separator for zero or one part); joining the pieces of a split with the same separator restores the string |
| Text.SplitJoin | src/classes/DependencyGraphUtils.ts:71-73 | splitting a join of separator-free parts gives back the parts |
| Text.SplitConcat | src/classes/DependencyGraphUtils.ts:68-72 | splitting `a + sep + b` splits `a` and `b` independently |
| Text.SplitFirstTwo | src/classes/DependencyGraphUtils.ts:72-73 | a string with a separator has at least two pieces; the first two rejoined begin the string, are followed by a separator whenever anything follows them, and are all of it when no further separator follows |
| Text.TakeSegments | src/classes/DependencyGraphUtils.ts:66-67 | `split(sep).slice(0, k).join(sep)` is a prefix of the string whose segments are the string's first segments: exactly k of them when the string has more than k, and the whole string otherwise |
| Text.LastSegment | src/components/InterfaceDisplay.tsx:208-211 | the last segment is the longest separator-free suffix: it is a suffix, has no separator, is preceded by a separator unless it is the whole string, and is the whole string when there is no separator |
| Text.LexLessTotal | src/components/InterfaceDisplay.tsx:116-117 | `Text.LexLess` models string `<` (code-unit order, a proper prefix first); it relates any two different strings one way or the other |
| Text.LexLessTransitive | src/components/InterfaceDisplay.tsx:116-117 | string `<` is transitive |
| DependencyGraph.FindNode | src/classes/DependencyGraphUtils.ts:50-52 | a highlight neighbour is the first node with the dependency's id; it is absent exactly when no node has that id |
| DependencyGraph.FoundLinks | src/classes/DependencyGraphUtils.ts:53-58 | a node's links are the graph links that are also among its own edges, and all of them, at most one per edge |
| DependencyGraph.FoundLinksSingle | src/classes/DependencyGraphUtils.ts:54-57 | one edge contributes the graph's link equal to it when the graph has one, and nothing otherwise |
| DependencyGraph.FoundLinksConcat | src/classes/DependencyGraphUtils.ts:53-58 | links are pushed edge by edge in the order of the node's edges: the search distributes over concatenation of the edges |
| DependencyGraph.ProcessData | src/classes/DependencyGraphUtils.ts:36-61 | node count, order and contents and the link list are unchanged; each node's j-th highlight entry is the first node whose id is its j-th dependency, absent exactly when no node has that id; its links are exactly the found links of its edges, in edge order |
| DependencyGraph.ServiceId | src/classes/DependencyGraphUtils.ts:66-67 | a service id is a prefix of the node id made of its first tab-separated segments: exactly two when the id has more than two, and the whole id otherwise |
| DependencyGraph.Encode | src/classes/DependencyGraphUtils.ts:68 | the set key is source, a line break and target; for ids without line breaks it splits into exactly the two ids |
| DependencyGraph.Decode | src/classes/DependencyGraphUtils.ts:72-73 | the first two line-separated pieces become source and target: ids without line breaks whose key begins the string and is followed by a line break whenever it is not all of it, so the target is the whole second piece |
| DependencyGraph.DecodeEncode | src/classes/DependencyGraphUtils.ts:68-73 | encoding an edge as `source\ntarget` and splitting it again restores the edge when neither id has a line break |
| DependencyGraph.ServiceLinks | src/classes/DependencyGraphUtils.ts:64-73 | at most one service edge per endpoint edge; each has ids without line breaks, and its key begins the key of some truncated endpoint edge |
| DependencyGraph.ServiceLinksAreDistinctTruncations | src/classes/DependencyGraphUtils.ts:64-73 | the service edges are the distinct truncated endpoint edges in first-occurrence order |
| DependencyGraph.ServiceLinksCoverage | src/classes/DependencyGraphUtils.ts:64-73 | every service edge truncates some endpoint edge, every endpoint edge yields a service edge, and no service edge repeats |
| DependencyGraph.ServiceNodes | src/classes/DependencyGraphUtils.ts:75 | the kept nodes are exactly the nodes with `id == group` |
| DependencyGraph.ServiceNodesConcat | src/classes/DependencyGraphUtils.ts:75 | the filter keeps the original order, because it distributes over concatenation |
| DependencyGraph.OutgoingLinks | src/classes/DependencyGraphUtils.ts:77 | a node's edges are exactly the service edges whose source is the node |
| DependencyGraph.OutgoingLinksSingle | src/classes/DependencyGraphUtils.ts:77 | one edge is kept exactly when its source is the node |
| DependencyGraph.OutgoingLinksConcat | src/classes/DependencyGraphUtils.ts:77 | `filter` keeps the order of the service edges: it distributes over concatenation |
| DependencyGraph.WithAdjacency | src/classes/DependencyGraphUtils.ts:76-79 | a rebuilt node keeps id, group and name; `linkInBetween` is the service edges leaving it, in the order of the service edges; `dependencies` lists their targets in that order |
| DependencyGraph.ToServiceDependencyGraph | src/classes/DependencyGraphUtils.ts:63-86 | the service graph has the de-duplicated service edges and the service nodes in order, each node with exactly its outgoing edges in the order of the service edges, and their targets |
| DependencyGraph.ServiceGraphNodesAreServices | src/classes/DependencyGraphUtils.ts:75 | every node of the service graph is a service node taken from the endpoint graph |
| DependencyGraph.NodeLabel | src/classes/DependencyGraphUtils.ts:137-144 | the label is "EX" exactly for id "null", "SRV" exactly for other nodes that are their own group, and "EP" for the rest |
| DependencyGraph.Shorten | src/classes/DependencyGraphUtils.ts:155-158 | names of at most 30 characters are unchanged; longer ones become their first 15 characters, " ... " and their last 15 characters, 35 characters in all |
| DependencyGraph.Caption | src/classes/DependencyGraphUtils.ts:152-160 | the caption differs from the name only for an endpoint node with a name longer than 30 characters; external and service nodes show the full name; an endpoint caption has at most 35 characters and, for a long name, is its first 15 characters, `" ... "`, and its last 15 characters |
| InterfaceDisplay.Key | src/components/InterfaceDisplay.tsx:106-107 | a record's map key, when no field holds a tab, splits on tabs into status, request and response, absent schemas as "" |
| InterfaceDisplay.KeyIdentifies | src/components/InterfaceDisplay.tsx:106-107 | for fields without tabs, two records share a key exactly when status, request and response agree, absent counting as "" |
| InterfaceDisplay.Dedup | src/components/InterfaceDisplay.tsx:99-113 | the entries' keys are the distinct keys in first-insertion order, one entry per key |
| InterfaceDisplay.DedupKeepsLast | src/components/InterfaceDisplay.tsx:104-113 | the record held for each key is the last one inserted under it |
| InterfaceDisplay.Compare | src/components/InterfaceDisplay.tsx:115-119 | the comparator is negative exactly when `a` has the lower status or the same status and a later time, positive exactly in the mirrored case, and zero exactly for equal status and time |
| InterfaceDisplay.CompareOrders | src/components/InterfaceDisplay.tsx:115-119 | a negative comparator result puts the lower status or, for one status, the newer record first; any other result allows the reverse order |
| InterfaceDisplay.InsertSorted | src/components/InterfaceDisplay.tsx:115-119 | insertion adds exactly the one record |
| InterfaceDisplay.InsertSortedSorted | src/components/InterfaceDisplay.tsx:115-119 | insertion keeps a list sorted by status ascending and time descending |
| InterfaceDisplay.Sort | src/components/InterfaceDisplay.tsx:115-119 | the result is a permutation sorted by status ascending and, within a status, by time descending |
| InterfaceDisplay.PermutationKeepsKeysDistinct | src/components/InterfaceDisplay.tsx:99-119 | sorting the de-duplicated records leaves at most one entry per key |
| InterfaceDisplay.LabelSchemas | src/components/InterfaceDisplay.tsx:121-135 | labelling keeps length and order; the first entry of each status is labelled `Auto-<status> (Latest)` and every other one `Auto-<status> (<formatted time>)` |
| InterfaceDisplay.TimedLabelIsNotLatest | src/components/InterfaceDisplay.tsx:128-131 | a time label equals the latest label only if the formatted time is the word "Latest" |
| InterfaceDisplay.LatestIsFirstAndNewest | src/components/InterfaceDisplay.tsx:115-135 | an entry carries its status's latest label exactly when it is the first of that status, and then it is the newest of that status |
| InterfaceDisplay.EveryStatusHasLatest | src/components/InterfaceDisplay.tsx:121-135 | every status in the list has an entry that is first of its status |
| InterfaceDisplay.LoadExisting | src/components/InterfaceDisplay.tsx:94-138 | the listed schemas are one per distinct key, a sorted permutation of the de-duplicated records, labelled latest exactly at the first entry of each status |
| InterfaceDisplay.AllSchema | src/components/InterfaceDisplay.tsx:144-158 | the drop-down holds the tagged schemas named by user label, then the recorded ones named by automatic label with absent schemas as "", with length the sum of both; an unloaded list counts as empty |
| InterfaceDisplay.SchemaFromLabel | src/components/InterfaceDisplay.tsx:213-216 | the compared text is the request and the response of the first entry with that name, separated by a blank line; it is absent exactly when no entry has the name |
| InterfaceDisplay.SelectionChange | src/components/InterfaceDisplay.tsx:162-187 | an index below the recorded count selects that recorded schema and enables only adding; the next indices select tagged schema `idx - recorded count` and enable only deleting; any other index keeps the selection and enables neither; the two actions are never both enabled |
| InterfaceDisplay.DeleteTarget | src/components/InterfaceDisplay.tsx:201-206 | deletion is skipped exactly when nothing is selected or the tagged list is not loaded; otherwise a request is sent, naming `tagged[selected.id]` when the id is in range and no schema (`undefined`) when it is not |
| InterfaceDisplay.SelectThenDelete | src/components/InterfaceDisplay.tsx:162-206 | after a tagged entry is selected, deleting requests exactly that tagged entry |
| InterfaceDisplay.DeleteAfterReload | src/components/InterfaceDisplay.tsx:162-206 | after the last tagged entry is selected and deleted, the kept selection makes a second delete send a request without a schema |
| InterfaceDisplay.LabelName | src/components/InterfaceDisplay.tsx:208-211 | the display name is the last tab-separated segment of the endpoint's unique label, and the whole label when it has no tab |

## Left out

- REST calls and everything after them: fetching graphs, metrics, schemas and tags, storing and deleting tagged data, adding a tag from the selected schema (`addTag`), and the navigation to a URL-encoded tag. The model stops at the request a guard lets through.
- React state, effects, timers, scrolling, viewport subscriptions, routing and all MUI, force-graph, ApexCharts and Monaco configuration: presentation only.
- Canvas drawing (`DrawHexagon`, `DrawText`, the canvas calls of `PaintNode`/`PaintNodeRing`, `ZoomOnClick`) and colour computation: floating-point geometry with no logic beyond the label and caption decisions, which are modelled.
- `CompareTwoGraphData`, `toDetailsBetweenTwoServicesGraph` and `useGraphDifference` are called by the comparison page but not defined in `src/classes/DependencyGraphUtils.ts`; they are not part of this model. The relationship they return is taken as an arbitrary string.
- Cohesion records' `endpointCohesion`, `totalEndpoints` and `consumers` fields: they appear only in the zero default and are never copied into a diff record.
- `toServiceDependencyGraph` assigns `linkInBetween` and `dependencies` on the input's node objects in place, so the caller's endpoint graph is altered too. The model returns new values and does not model that aliasing.
- In `ProcessData` the highlight entries are references to the processed node objects. The model holds the plain node value, and `None` where `find(...)!` yields `undefined`.
- `TLink` and `TNode` fields other than source/target and id/group/name/dependencies/linkInBetween: those type files are not part of this model. Link lookup is therefore value equality on source and target.
- `Date` parsing and `toLocaleString`: times are integers and formatting is the parameter `formatTime`. Invalid dates (`NaN` times) are not modelled.
- JavaScript compares strings and measures their length in UTF-16 code units. The model uses Dafny characters, which agree on the Basic Multilingual Plane.
- InterfaceDisplay.SelectionChange: the radio index is a natural number, because the component generates the radio values as indices from 0 (`src/components/InterfaceDisplay.tsx:241`, `:263`). A `NaN` or negative `parseInt` result is not modelled.
- InterfaceDisplay.Sort: the insertion sort is stable, like `Array.prototype.sort`, but stability is not stated as a lemma. Only sortedness and permutation are proved.
- InterfaceDisplay.LatestIsFirstAndNewest: assumes the time formatter never returns the word "Latest". Without that, a timed label could coincide with the latest label.
- DependencyGraph.ServiceLinksCoverage: proved only when no node id contains a line break. With line breaks, `("a\nb", "c")` and `("a", "b\nc")` encode to the same key, which decodes to `("a", "b")`, an edge that occurs in neither endpoint link.
- DependencyGraph.ServiceLinksAreDistinctTruncations: proved under the same no-line-break condition.
