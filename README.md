# hdgraph in Dafny

A model of go-hdgraph, a small directed graph on integer node ids. The graph
keeps two adjacency maps, `out` (successors) and `in` (predecessors). `Add`,
`Remove`, `Link` and `Unlink` edit those maps in place. `StrongComponents`
returns the strongly connected components in dependency order. It uses
Kosaraju's two depth-first passes over a `dfser` record, which holds the map
being searched, the post-order of finished nodes, and one boolean marker per
node.

The model keeps the source's imperative form:

- `HdGraph.Graph` is a class with fields `outs` and `ins` (Go `out` and `in`;
  `in` is a Dafny keyword). Each edit is proved to produce exactly the value
  that `GraphSpec` defines for it on the pair of maps.
- `HdGraph.Dfser` is a class with the searched map, the `order` sequence and
  the marker `array<bool>`. `SawTrue`, `SawFalse`, `Dfs1` and `Dfs2` are
  methods that update those fields. Both DFS methods recurse, with the count
  of unmarked nodes as the termination measure.
- Every Go `range` over a map is a loop that picks an arbitrary remaining key
  with `:|`. So every result is proved for every iteration order Go may
  choose.

Modules:

- `Paths`: node ids, adjacency maps, paths and reachability.
- `Components`: the shape of the result and the three promised properties:
  - a partition of the nodes;
  - one strongly connected component per entry;
  - an edge between two components goes from the earlier one to the later one.
- `Traversal`: the invariant of one DFS pass, with a ghost stack, and the
  lemmas for visiting and finishing a node.
- `GraphSpec`: the edits as functions on the two maps, and the invariants
  they keep or break.
- `Kosaraju`: why the two passes yield strongly connected components in
  dependency order.
- `HdGraph`: the two classes.
- `Usage`: one client. `Link(0, 1)` followed by `StrongComponents` returns
  `[[0], [1]]`.

Two invariants describe sensible graphs:

- `WellFormed` is the mirror invariant. Successors are nodes, `out` and `in`
  have the same keys, and `d ∈ out[s] ⟺ s ∈ in[d]`.
- `Coherent` is weaker, and is all that correctness of `StrongComponents`
  needs. `in` may keep entries for nodes that no longer have an `out` entry.

`New`, `Add`, `Link` and `Unlink` keep `WellFormed`. `Remove` of a present
node always breaks it, because `in[n]` is left behind (hdgraph.go:44). It
keeps `Coherent` exactly when no other node still points at `n`.

The package comment (hdgraph.go:3) names Tarjan's algorithm. The code is
Kosaraju's, and the model follows the code.

"Dependency order" is what the code computes: an edge `u -> v` puts `u`'s
component before `v`'s. So `Link(0, 1)` yields `[[0], [1]]`
(`Usage.LinkThenComponents`), and the chain `Link(0, 1); Link(1, 2)` yields
`[[0], [1], [2]]`, not the reverse. Ids must be `0 .. n - 1` for `n` nodes:
with `Link(1, 2); Link(2, 3)` the marker array has three slots and id 3
indexes past its end.

## Model

| member | source | states |
|---|---|---|
| HdGraph.Graph.constructor | hdgraph.go:23-28 | New: both maps are empty; the empty graph is well formed |
| HdGraph.Graph.Add | hdgraph.go:31-36 | The new state is `Added` of the old one; `Valid` (every `out` key has an `in` entry) is kept |
| HdGraph.Graph.Remove | hdgraph.go:39-45 | The loop over the successors deletes `node` from each one's `in` set that exists, then the `out` entry goes; the new state is `Removed` of the old one; `Valid` is kept |
| HdGraph.Graph.Link | hdgraph.go:48-53 | Given `Valid` (so `in[dst]` exists after the two Adds), the new state is `Linked` of the old one and `Valid` holds |
| HdGraph.Graph.Unlink | hdgraph.go:56-63 | The new state is `Unlinked` of the old one; `Valid` is kept |
| HdGraph.Graph.StrongComponents | hdgraph.go:70-100 | If node ids and neighbours lie in `[0, len(out))`, the result partitions the nodes into non-empty components. On a coherent graph, two nodes share a component iff each reaches the other along `out`, and every edge between two components goes from an earlier one to a later one. This holds for every map iteration order |
| HdGraph.Dfser.constructor | hdgraph.go:71-75 | The record holds the given map, an empty order, and a fresh all-`false` marker array with one slot per node |
| HdGraph.Dfser.FirstPass | hdgraph.go:77-81 | Pass 1 over every node: every node ends up marked; `order` is the repetition-free post-order of a complete DFS; an edge leaving the first `j + 1` finished nodes ends at a node that reaches the `j`-th |
| HdGraph.Dfser.SecondPass | hdgraph.go:88-97 | Pass 2 over `order` from the back. Each component has its root at some position of `order`. Every member is reached from the root along `in`. Every `in` neighbour of a member lies in that component or an earlier one. Every node after a root's position was taken before it. Every position ends up taken, and its marker is `false` |
| HdGraph.Dfser.SawTrue | hdgraph.go:117-121 | Returns whether `node` was already marked `true` and marks it `true`; no other marker changes |
| HdGraph.Dfser.SawFalse | hdgraph.go:122-126 | Returns whether `node` was already marked `false` (seen in pass 2) and marks it `false`; no other marker changes |
| HdGraph.Dfser.Dfs1 | hdgraph.go:128-135 | The search only appends to `order`: the old `order` stays a prefix, and `node` is now last. The ghost stack loses `node`. It keeps the DFS invariant: the marked nodes are those finished or on the stack, and every successor of a finished node is marked. It keeps the post-order frontier property, and it only ever marks |
| HdGraph.Dfser.Dfs2 | hdgraph.go:137-144 | As Dfs1 along `in`, counting nodes taken by earlier components as marked. The old `order` stays a prefix and `node` is appended last. Every appended node is reached from the bottom of the stack, the component's root |
| HdGraph.KeysAreIds | hdgraph.go:74 | Keys inside `[0, n)` with `n` keys are exactly `0 .. n - 1`, so `flip` has one slot per node |
| GraphSpec.Added | hdgraph.go:31-36 | `n` becomes a key of `out`. An existing `n` changes nothing. A new `n` gets empty `out` and `in` sets. Every other node's neighbour sets are unchanged |
| GraphSpec.Removed | hdgraph.go:39-45 | `n` stops being a key of `out`. `n` leaves the `in` set of each of its former successors. Every other `out` entry is untouched. The `in[n]` entry stays, losing only `n` itself when `n` has a self-loop. All `in` keys stay. An absent `n` changes nothing |
| GraphSpec.Linked | hdgraph.go:48-53 | Both ends become keys of both maps. `dst` joins `out[src]` and `src` joins `in[dst]`. An end that was new gets empty sets, and every other neighbour set is unchanged |
| GraphSpec.Unlinked | hdgraph.go:56-63 | `dst` leaves `out[src]` and `src` leaves `in[dst]`; key sets and all other neighbour sets are unchanged |
| GraphSpec.AddIdempotent | hdgraph.go:31-36 | Adding twice is adding once |
| GraphSpec.LinkIdempotent | hdgraph.go:48-53 | Linking the same edge twice is linking it once |
| GraphSpec.UnlinkIdempotent | hdgraph.go:56-63 | Unlinking twice is unlinking once |
| GraphSpec.UnlinkUndoesLink | hdgraph.go:48-63 | On a well-formed graph, unlinking a freshly linked edge between present nodes restores the graph |
| GraphSpec.WellFormedIsCoherent | hdgraph.go:17-20 | The mirror invariant implies the weaker one StrongComponents needs |
| GraphSpec.AddKeepsWellFormed | hdgraph.go:31-36 | Add keeps the mirror invariant with equal key sets |
| GraphSpec.LinkKeepsWellFormed | hdgraph.go:48-53 | Link keeps the mirror invariant with equal key sets |
| GraphSpec.UnlinkKeepsWellFormed | hdgraph.go:56-63 | Unlink keeps the mirror invariant with equal key sets |
| GraphSpec.RemoveBreaksWellFormed | hdgraph.go:39-45 | Removing a present node leaves its `in` entry behind, so the key sets differ |
| GraphSpec.AddKeepsCoherent | hdgraph.go:31-36 | Add keeps `Coherent` |
| GraphSpec.LinkKeepsCoherent | hdgraph.go:48-53 | Link keeps `Coherent` |
| GraphSpec.LinkMirrorAt | hdgraph.go:48-53 | After Link, the `in` entry of each node lists exactly its predecessors |
| GraphSpec.UnlinkKeepsCoherent | hdgraph.go:56-63 | Unlink keeps `Coherent` |
| GraphSpec.RemoveKeepsCoherent | hdgraph.go:39-45 | Removing a node that no other node points at keeps `Coherent` |
| GraphSpec.RemoveWithPredecessorBreaksCoherent | hdgraph.go:39-45 | Removing a node that another present node points at breaks `Coherent`: the stale entry in the predecessor's `out` set stays |
| GraphSpec.RemoveThenAddLosesEdge | hdgraph.go:31-53 | Link(1, 0), Link(0, 1), Remove(1), Add(1), Link(1, 0) builds the cycle 0 → 1 → 0 over ids in range. Yet `in[1]` is empty, so the state is not coherent |
| GraphSpec.RelinkedSplit | hdgraph.go:48-53 | The final Link(1, 0) closes the cycle in `out`, but `in[1]` keeps the emptiness Add gave it |
| GraphSpec.RemovedWithEdges | hdgraph.go:38-45 | The corrected Remove: `n` leaves both key sets, every `in` set of a successor, and every `out` set of a predecessor; nothing else changes |
| GraphSpec.RemovedWithEdgesKeepsWellFormed | hdgraph.go:38-45 | The corrected Remove keeps the mirror invariant with equal key sets |
| GraphSpec.RemovedWithEdgesKeepsCoherent | hdgraph.go:38-45 | The corrected Remove keeps `Coherent` |
| GraphSpec.CorrectedSequenceIsCoherent | hdgraph.go:31-53 | With the corrected Remove, the same five edits leave a coherent graph |
| HdGraph.RemoveKeepsIdsOnlyForLargest | hdgraph.go:39-45 | On a graph whose ids are `0 .. n - 1`, Remove of a present id keeps every id below the new node count iff it removes the largest id, `n - 1` |
| HdGraph.StaleEdgeBreaksIds | hdgraph.go:39-45 | After Remove(n) while another node still points at `n`, StrongComponents' id requirement fails: some id is out of range, or `n`, no longer a node, is a neighbour the marker array cannot index |
| GraphSpec.CorrectedSequence | hdgraph.go:31-53 | With the corrected Remove, the five edits leave the nodes 0 and 1 with the single edge 1 → 0 |
| Kosaraju.Pass1Done | hdgraph.go:77-86 | After pass 1 `order` lists exactly the nodes. All markers are `true`, so pass 2 starts with nothing marked and nothing taken |
| Kosaraju.Pass2Found | hdgraph.go:89-95 | A search from an untaken `order[i]` that finishes with an empty stack is pass 2's next component: its root, its position and its closure under `in` |
| Kosaraju.Pass2Taken | hdgraph.go:89-90 | A node already marked `false` at position `i` is in an earlier component, so nothing is added |
| Kosaraju.Pass2Done | hdgraph.go:70-100 | The completed passes partition the nodes. On a coherent graph the components are the strongly connected components, in dependency order |
| Kosaraju.TakenIsBackwardClosed | hdgraph.go:88-97 | A node with a path into the first `K` components belongs to one of them |
| Kosaraju.ReachedFromRoot | hdgraph.go:77-97 | A node not taken before component `k` that reaches that component's root is reached from it. This is the post-order argument of Kosaraju's algorithm |
| Kosaraju.ComponentIsScc | hdgraph.go:88-97 | Component `k` holds exactly the nodes mutually reachable with its root |
| Kosaraju.ReachOrdersComponents | hdgraph.go:65-69 | If a node of component `a` reaches a node of component `b`, then `a <= b` |
| Kosaraju.FinishedComponentsAreSccs | hdgraph.go:65-66 | Two nodes share a component iff each reaches the other |
| Kosaraju.FinishedComponentsAreSorted | hdgraph.go:68-69 | An edge between two different components goes from the earlier one to the later one |
| Kosaraju.AcyclicComponentsAreSingletons | hdgraph.go:11-13 | With no cycles, every component has one element |
| Kosaraju.MutualMeansCycle | hdgraph.go:11-13 | Two distinct mutually reachable nodes lie on a cycle |
| Kosaraju.PassesAdmitSplit | hdgraph.go:77-97 | On the cycle 0 → 1 → 0 in `out` with `in[1]` empty: pass 1 rooted at 1 gives post-order `[0, 1]`, and pass 2 gives `[[1], [0]]`. Both meet every end-state fact the passes are proved to reach. `[[1], [0]]` separates 0 and 1, which `out` makes mutually reachable |
| Kosaraju.PassesAdmitMerge | hdgraph.go:77-97 | On the same state, pass 1 rooted at 0 gives post-order `[1, 0]`, and pass 2 follows `in[0] = {1}` to give `[[1, 0]]`. Both meet every end-state fact the passes are proved to reach. `[[1, 0]]` is the one strongly connected component of `out` |
| Kosaraju.CorrectedComponents | hdgraph.go:65-69 | On the graph with the single edge 1 → 0, `[[1], [0]]` partitions the nodes into strongly connected components in dependency order, and `[[1, 0]]` is not its components |
| Kosaraju.RemoveThenAddRevivesEdge | hdgraph.go:31-97 | After Link(1, 0), Link(0, 1), Remove(1), Add(1), Link(1, 0) as written, the passes admit both `[[1], [0]]` and `[[1, 0]]`, depending on map order. With the corrected Remove, the components are `[[1], [0]]`, so the merged result counts the removed edge 0 → 1 |
| Usage.LinkThenComponents | hdgraph.go:65-69 | New, Link(0, 1), StrongComponents returns `[[0], [1]]`: the source of the edge comes first |
| Usage.YieldsTwoSingletons | hdgraph.go:65-69 | For the graph 0 → 1, `[[0], [1]]` is the only partition into strongly connected components in dependency order |

## Left out

- Node ids are Go `int`, taken as 64 bits wide (`Paths.Node`). No arithmetic is done on ids, so the width matters only as the id type.
- Go map iteration order is any order. `:|` picks an arbitrary remaining key, and no particular order of roots or neighbours is promised. The order of nodes inside a component is not specified.
- Slice capacities and re-slicing (hdgraph.go:73, 85, 88, 92-95) only avoid copying. `order` is a sequence value that is reset after each component.
- An out-of-range index into `flip` (hdgraph.go:74, 118, 123) panics in Go. The model instead requires the id range on StrongComponents.
- HdGraph.Graph.StrongComponents: its id-range requirement is rarely kept by Remove. From a graph with ids `0 .. n - 1`, removing any id but the largest leaves the largest id out of range, so the next StrongComponents panics in Go (`HdGraph.RemoveKeepsIdsOnlyForLargest`). That works against the package's stated use of removing nodes and re-running the algorithm (hdgraph.go:6-9). A corrected version, with markers keyed by id, would need both passes reproved over a map, and is not part of this model.
- A write into a missing `in` entry in Link (hdgraph.go:52) would panic. Such a state is unreachable from New, and Link requires `Valid` instead.
- HdGraph.Graph.StrongComponents: the strongly-connected and dependency-order properties are promised only for coherent graphs; on any other graph only the partition property is proved. Starting from New, Remove makes the graph incoherent when another node still points at the removed one, since that node's `out` set keeps the edge (`GraphSpec.RemoveWithPredecessorBreaksCoherent`). Unless that node comes back (by Add or Link) or the stale edge is unlinked, the next StrongComponents panics at hdgraph.go:118: the stale id is then out of range, or it is in range but no longer a node (`HdGraph.StaleEdgeBreaksIds`). So bringing the node back is the one way after such a Remove to reach the algorithm without a panic while the edge is kept. It gives the node an empty `in` set, so `in` misses the old edge that `out` still holds, and the result depends on map order (see Findings, `GraphSpec.RemoveThenAddLosesEdge` and `Kosaraju.RemoveThenAddRevivesEdge`).
- Recursion depth and stack exhaustion are not expressible in the model. The type has no concurrency.

## Findings

| source | as written | input that shows it | evidently intended | confidence | as-written member | corrected member |
|---|---|---|---|---|---|---|
| hdgraph.go:39-45 with hdgraph.go:32-34 | Remove deletes `n` only from its successors' `in` sets and deletes only `out[n]`. Predecessors keep `n` in their `out` sets. A later Add(n) resets `in[n]` to empty. Then `in` forgets those edges while `out` keeps them, and StrongComponents' result depends on map order | Link(1, 0), Link(0, 1), Remove(1), Add(1), Link(1, 0) gives `out = {0: {1}, 1: {0}}` and `in = {0: {1}, 1: {}}`. The intended graph has only the edge 1 → 0, with components `[[1], [0]]`. With pass 1 starting at 1, the result is `[[1], [0]]`. With pass 1 starting at 0 (order `[1, 0]`), pass 2 starts at 0, follows `in[0] = {1}`, and returns `[[1, 0]]`, so the deleted edge 0 → 1 counts. Both runs meet the passes' proved end states | Remove takes away every edge into or out of `n`, in both maps, as "removes a node from the graph" says. Every edit then keeps the two maps mirrored | medium, not executed | Kosaraju.RemoveThenAddRevivesEdge | GraphSpec.RemovedWithEdges |

`HdGraph.Graph.Remove` still models the code as written. The corrected
definition is proved to keep both `WellFormed` and `Coherent`
(`GraphSpec.RemovedWithEdgesKeepsWellFormed`,
`GraphSpec.RemovedWithEdgesKeepsCoherent`). With it, the same five edits end
coherent (`GraphSpec.CorrectedSequenceIsCoherent`), which is the condition
under which StrongComponents is proved to return strongly connected components.
They leave the single edge 1 → 0 (`GraphSpec.CorrectedSequence`), whose
components in dependency order are `[[1], [0]]` and not `[[1, 0]]`
(`Kosaraju.CorrectedComponents`).
