# arboreal: a verified model of the directed-graph container

arboreal is a Rust library for a directed graph. Callers insert and remove nodes and edges
through checked operations, and an undo log records each committed change. The repository holds
two parallel designs, and this project models both.

- **The map-keyed design** (`DiGraph`) keeps four stores:
  - a node map from `Id` to node;
  - an edge vector;
  - two adjacency maps holding, for each id, its predecessors (`neighbors_before`) and its
    successors (`neighbors_after`);
  - a bounded log of change descriptors.

  Every public mutation works in three steps. A read-only `check_*` validator turns the request
  into a descriptor or a `Failure`. The `*_unregistered` primitives then update the stores in
  place. Finally the descriptor is pushed onto the log. `undo` pops the newest descriptor and
  replays its inverse through the same primitives.
- **The flat-vector design** runs the same validators over a node vector and an edge vector,
  with linear lookup by id. It has concrete `Node`/`Edge` records and an optional change cache
  that a graph can switch off.

Modules:

- `Wrappers` holds `Option` and `Result`. `Result` carries the library's static error text.
- `Components` holds the 16-bit `Id` and the node and edge types, with the trait contracts their
  documentation asks for. It also holds `GraphChange` and its `try_get_*` accessors.
- `Seqs` models `Vec::retain` on id lists, sorting a key set, and sorting terminal pairs.
- `Deque` models the bounded deque behind both logs: `push_back` evicts the oldest item when full,
  and `pop_back` returns the newest.
- `GraphRef` holds the map-keyed validators, `edge_index`, and the reachability census
  `collect_reachable_neighbors`.
- `Snapshots` defines what a state means: the node map plus the edge set keyed by terminal pair,
  ignoring vector order. `Recorded(g, c, h)` says what descriptor `c` promises about the state `g`
  before it and the state `h` after it.
- `DiGraphs` holds `class DiGraph`, whose fields are the source's fields, with two ghost fields.
  `pos` indexes the edge vector by terminal pair. `past` holds, for each log entry, the state it
  was applied to.
  - `StoreValid()` is the store invariant:
    - node keys equal the stored nodes' ids;
    - terminal pairs are unique;
    - every terminal is a node;
    - every node has two duplicate-free adjacency lists;
    - those lists hold exactly the neighbours the edge vector gives.
  - `Valid()` adds two demands: the log stays within its capacity, and each entry chains from
    its recorded past state to the next.
- `LegacyComponents`, `LegacyGraphRef` and `LegacyCache` model the flat-vector design.
  `LegacyCache.ChangeCache` is a class whose `deque` field is `None` when the cache is switched
  off.

Undo restores the previous node map and edge set. It is proved for every kind of descriptor
(`DiGraphs.DiGraph.Undo`, `DiGraphs.DiGraph.ReverseChange`). It does not restore the vector's
order: `swap_remove` moves the last edge into the gap, and undo pushes edges back at the end.

Three behaviours of the code shape the model:
- A removed node keeps its adjacency entries, because `remove_node_unregistered`
  (arboreal/src/digraph/digraph_impl.rs:30-42) never deletes them. `in_degree` and `out_degree`
  therefore answer `Some(0)` for a removed id, although their doc comments
  (arboreal/src/digraph.rs:178-180 and 188-190) promise `None` for an id that is not a node.
- Undoing a node removal restores its edges as a set, not in their original vector order.
- Degrees are the lengths of the adjacency lists; no degree is stored separately. The model proves
  that these lengths equal the edge counts (`DiGraphs.DiGraph.DegreesCount`).

## Model

| member | source | states |
|---|---|---|
| Components.BareNode | arboreal/src/graph_base/graph_components.rs:15-25 | `bare(id)` has that id and no payload |
| Components.BareEdge | arboreal/src/graph_base/graph_components.rs:27-47 | `bare(s, e)` has terminal ids `(s, e)` and no payload |
| Components.ChangeStart | arboreal/src/graph_base/graph_components.rs:50 | rewrites only the start terminal; the end and the payload are kept |
| Components.ChangeEnd | arboreal/src/graph_base/graph_components.rs:51 | rewrites only the end terminal; the start and the payload are kept |
| Components.DefaultTerminalAccessors | arboreal/src/graph_base/graph_components.rs:53-58 | `start_id`/`end_id` are the two components of `terminal_ids`; rewriting a terminal with its own value is the identity |
| Components.TryGetEdge | arboreal/src/graph_base/graph_components.rs:72-82 | succeeds exactly for the four edge-carrying variants, and then returns the carried edge; `Failure(r)` gives `Err(r)`; `RemoveNode` and `AddNode` give their two fixed messages |
| Components.TryGetNode | arboreal/src/graph_base/graph_components.rs:83-91 | succeeds exactly for `AddNode`, `RemoveNode` and `InsertNodeAlongEdge`, with the carried node; `Failure(r)` gives `Err(r)`; any other variant gives "Not a node variant." |
| Components.TryGetEdgeVec | arboreal/src/graph_base/graph_components.rs:92-98 | succeeds only on `RemoveNode`, returning its edge list unchanged |
| Components.TryGetEdgeWithNodes | arboreal/src/graph_base/graph_components.rs:99-105 | succeeds only on `AddEdgeWith`, returning its edge and both optional ids unchanged |
| Components.AccessorsPropagateFailure | arboreal/src/graph_base/graph_components.rs:72-105 | all four accessors map `Failure(r)` to exactly `Err(r)` |
| Components.NodeAndEdgeOnlyForSubdivision | arboreal/src/graph_base/graph_components.rs:72-91 | both the node and the edge accessor succeed exactly on `InsertNodeAlongEdge` |
| Deque.PushBack | arboreal/src/digraph/cache.rs:49-56 | the length grows by one up to the capacity; an item is evicted exactly when the deque was full; the evicted item followed by the new contents is the old contents followed by the pushed item |
| Deque.PopBack | arboreal/src/digraph/cache.rs:58-64 | `None` exactly on an empty deque, which is left unchanged; otherwise the new contents followed by the returned item are the old contents |
| Deque.PopAfterPush | arboreal/src/digraph/cache.rs:49-64 | last in, first out: a pop right after a push returns the pushed item and leaves the old contents, less the evicted item if the deque was full |
| Seqs.Without | arboreal/src/digraph/digraph_impl.rs:62-69 | `retain(\|&x\| x != v)` keeps exactly the other elements in order, and changes nothing when `v` is absent |
| Seqs.WithoutNoDup | arboreal/src/digraph/digraph_impl.rs:62-69 | on a duplicate-free list, `retain` drops exactly one element when the value is present and keeps the list duplicate-free |
| Seqs.IdsBelow | arboreal/src/digraph.rs:46-53 | the members of a key set below a bound, strictly ascending |
| Seqs.SortedIds | arboreal/src/digraph.rs:46-53 | collecting a key set and sorting it gives exactly its members, strictly ascending |
| Seqs.AscendingUnique | arboreal/src/digraph.rs:46-53 | an ascending list is determined by its elements |
| Seqs.NotIn | arboreal/src/digraph.rs:215 | `retain(\|id\| !census.contains(id))` keeps exactly the elements not in the census |
| Seqs.NotInAscending | arboreal/src/digraph.rs:215 | retaining keeps an ascending list ascending |
| Seqs.InsertPair | arboreal/src/digraph.rs:61 | one insertion step of the pair sort adds exactly one occurrence of the pair |
| Seqs.InsertPairSorted | arboreal/src/digraph.rs:61 | inserting into a sorted list of pairs keeps it sorted |
| Seqs.SortPairs | arboreal/src/digraph.rs:61 | sorting terminal pairs gives a lexicographically sorted permutation of the input |
| Seqs.NoDupCard | arboreal/src/digraph.rs:181-196 | a duplicate-free list is as long as its set of elements (the step from list length to degree) |
| GraphRef.NodeIdPresent | arboreal/src/graph_base/graph_ref.rs:17-19 | true exactly when the id is a key of the node map |
| GraphRef.FindEdge | arboreal/src/graph_base/graph_ref.rs:8-15 | the smallest index whose edge has terminals `(s, t)`; `None` exactly when no edge has them |
| GraphRef.EdgeIndex | arboreal/src/graph_base/graph_ref.rs:8-15 | the search loop returns the first matching index (`FindEdge`) |
| GraphRef.CheckAddNode | arboreal/src/graph_base/graph_ref.rs:21-26 | `Failure("Node with this id already exists.")` exactly when the id is a key; otherwise `AddNode` of the unchanged node |
| GraphRef.CountsZeroIff | arboreal/src/graph_base/graph_ref.rs:28-41 | a count is zero exactly when no edge has the id at that end; so no incident edge gives `(0, 0)`, and a self-loop counts on both sides |
| GraphRef.CheckNodeDegrees | arboreal/src/graph_base/graph_ref.rs:28-41 | the counting loop returns (edges starting at the id, edges ending at it) |
| GraphRef.IncidentEdgesMembers | arboreal/src/graph_base/graph_ref.rs:43-58 | the collected edges are exactly those with the id as a terminal, and are duplicate-free when the edge vector is |
| GraphRef.CheckRemoveNode | arboreal/src/graph_base/graph_ref.rs:43-58 | `Failure("Node with this id not found.")` exactly when the id is absent; otherwise the stored node and its incident edges, in vector order |
| GraphRef.CheckAddEdge | arboreal/src/graph_base/graph_ref.rs:60-70 | a duplicate pair gives "Edge with these terminals already exists."; a new pair with a missing terminal gives "Terminals not found in graph."; `AddEdge` exactly when the pair is new and both terminals are nodes |
| GraphRef.NewIdIfAbsent | arboreal/src/graph_base/graph_ref.rs:76-83 | a terminal is marked new exactly when it is not a key |
| GraphRef.CheckAddEdgeWithNodes | arboreal/src/graph_base/graph_ref.rs:72-86 | fails exactly on a duplicate pair; otherwise the bare edge, with exactly the absent terminals marked new |
| GraphRef.CheckRemoveEdge | arboreal/src/graph_base/graph_ref.rs:88-94 | fails with "Edge not found in graph." exactly when no edge matches; otherwise a copy of the first matching edge, payload included |
| GraphRef.RetainEmptyLists | arboreal/src/digraph/digraph_impl.rs:73-86 | `retain(degree == Some(0))` keeps exactly the ids whose adjacency list exists and is empty, in order |
| GraphRef.ReachablePrepend | arboreal/src/graph_base/graph_ref.rs:100-104 | stepping to a successor first keeps a target reachable |
| GraphRef.ClosedContainsReachable | arboreal/src/graph_base/graph_ref.rs:96-106 | a set that holds the start and is closed under successors holds everything reachable from it |
| GraphRef.UnvisitedShrinks | arboreal/src/graph_base/graph_ref.rs:100 | each push of a new id shrinks the set of ids not yet in the census, so the recursion ends |
| GraphRef.CollectReachableNeighbors | arboreal/src/graph_base/graph_ref.rs:96-106 | the census keeps its prior entries as a prefix and gains no duplicates; the start is present afterwards; each added id is reachable from the start, and its successors are in the census |
| GraphRef.VisitNeighbors | arboreal/src/graph_base/graph_ref.rs:100-105 | after the start is pushed, visiting its successors in turn keeps the census facts above |
| GraphRef.CensusStep | arboreal/src/graph_base/graph_ref.rs:102-104 | one recursive visit keeps the loop's invariants |
| GraphRef.CensusFromEmpty | arboreal/src/graph_base/graph_ref.rs:96-106 | from an empty census, the census holds exactly the ids reachable from the start |
| Snapshots.SwapRemoveFacts | arboreal/src/digraph/digraph_impl.rs:60 | `swap_remove` drops the element at the index, moves the last element into its slot, and keeps every other element in place |
| Snapshots.SwapRemoveIndexed | arboreal/src/digraph/digraph_impl.rs:60 | after `swap_remove`, the pair index is still exact, and the edge set loses exactly the removed pair |
| Snapshots.PushIndexed | arboreal/src/digraph/digraph_impl.rs:46 | pushing an edge with a new pair keeps the index exact and adds that pair to the edge set |
| Snapshots.AddPairMirrors | arboreal/src/digraph/digraph_impl.rs:47-56 | appending the new end to `after[start]` and the new start to `before[end]` keeps the lists mirroring the index |
| Snapshots.DropPairMirrors | arboreal/src/digraph/digraph_impl.rs:62-69 | the two `retain` calls keep the lists mirroring the index after one pair leaves it |
| Snapshots.EdgesOfListed | arboreal/src/digraph/digraph_impl.rs:44-70 | an indexed edge vector has distinct pairs and spells out its own edge set |
| Snapshots.CountsListed | arboreal/src/digraph/digraph_impl.rs:44-70 | with distinct pairs, counting edge ends along the vector counts distinct neighbours |
| Snapshots.IncidentListed | arboreal/src/graph_base/graph_ref.rs:43-58 | the edges `check_remove_node` collects spell out exactly the incident part of the edge set |
| Snapshots.RestoreIncident | arboreal/src/digraph/cache.rs:81-86 | re-pushing the logged incident edges after the node is restored gives back the whole edge set, and touches only nodes |
| Snapshots.ChainDropFirst | arboreal/src/digraph/cache.rs:49-56 | evicting the oldest entry keeps the remaining log a valid chain |
| DiGraphs.DiGraph.Default | arboreal/src/digraph/digraph_impl.rs:112-124 | no name, no nodes, no edges, no adjacency entries, and an empty log of capacity 100 |
| DiGraphs.DiGraph.FromTerminalPairs | arboreal/src/digraph.rs:37-44 | for distinct pairs: a bare node for every id in a pair, a bare edge for every pair, and an empty log |
| DiGraphs.DiGraph.InsertPairs | arboreal/src/digraph.rs:39-42 | the loop of `insert_edge_with_nodes` calls, then `clear_history`, gives the same result from an empty graph |
| DiGraphs.DiGraph.RegisterChange | arboreal/src/digraph/cache.rs:49-56 | the log becomes `PushBack` of the change, returning the evicted oldest entry; the chain of past states is kept |
| DiGraphs.DiGraph.PopChange | arboreal/src/digraph/cache.rs:58-64 | the log and the result are `PopBack` of the old log |
| DiGraphs.DiGraph.ClearHistory | arboreal/src/digraph/cache.rs:42-47 | the log becomes empty and its capacity is unchanged |
| DiGraphs.DiGraph.InDegree | arboreal/src/digraph.rs:181-186 | `in_degree` as written: the before-list length whenever the id has an entry, which a removed id keeps; `None` for an id with no entry; equal to the count of edges ending there by `DegreesCount` |
| DiGraphs.DiGraph.OutDegree | arboreal/src/digraph.rs:191-196 | `out_degree` as written: the after-list length whenever the id has an entry, which a removed id keeps; `None` for an id with no entry; equal to the count of edges starting there by `DegreesCount` |
| DiGraphs.DiGraph.DegreesCount | arboreal/src/digraph.rs:178-196 | a node always has both degrees; an adjacency-list length equals the number of edges ending (in) or starting (out) at the id |
| DiGraphs.DiGraph.NodeInDegree | arboreal/src/digraph.rs:178-186 | the documented `in_degree`: `Some` exactly for nodes, holding the number of edges ending there |
| DiGraphs.DiGraph.NodeOutDegree | arboreal/src/digraph.rs:188-196 | the documented `out_degree`: `Some` exactly for nodes, holding the number of edges starting there |
| DiGraphs.DiGraph.EdgeIndex | arboreal/src/digraph/digraph_impl.rs:14-21 | the first index whose terminal ids are `(s, t)`, and the index the pair index names |
| DiGraphs.DiGraph.InsertNodeUnregistered | arboreal/src/digraph/digraph_impl.rs:23-28 | stores the node under its id and sets both of its adjacency lists to empty; the store invariant is kept |
| DiGraphs.DiGraph.InsertEdgeUnregistered | arboreal/src/digraph/digraph_impl.rs:44-57 | appends the edge, appends the end to `after[start]` and the start to `before[end]`, leaves every other list alone, and adds exactly that pair to the edge set |
| DiGraphs.DiGraph.RemoveNodeUnregistered | arboreal/src/digraph/digraph_impl.rs:30-42 | returns and removes the node; the edge set loses exactly the incident edges; the removed id's lists are left in place, empty |
| DiGraphs.DiGraph.DropEdgesInto | arboreal/src/digraph/digraph_impl.rs:31-34 | the first loop removes every edge ending at the id and keeps every other edge |
| DiGraphs.DiGraph.DropEdgesOutOf | arboreal/src/digraph/digraph_impl.rs:35-38 | the second loop removes every edge starting at the id and keeps every edge away from it |
| DiGraphs.DiGraph.DropEdgeInto | arboreal/src/digraph/digraph_impl.rs:32-33 | one step: the edge `(y, id)` leaves the edge set, and `y` leaves `before[id]` |
| DiGraphs.DiGraph.DropEdgeOutOf | arboreal/src/digraph/digraph_impl.rs:36-37 | one step: the edge `(id, z)` leaves the edge set, and `z` leaves `after[id]` |
| DiGraphs.DiGraph.RemoveEdgeUnregistered | arboreal/src/digraph/digraph_impl.rs:59-70 | the vector becomes its `swap_remove`; the start leaves `before[end]` and the end leaves `after[start]`; no other list changes; the edge set loses exactly that pair |
| DiGraphs.DiGraph.PairPresence | arboreal/src/digraph/digraph_impl.rs:14-21 | a pair is found in the vector exactly when it is in the edge set |
| DiGraphs.DiGraph.AllNodeIds | arboreal/src/digraph.rs:46-53 | exactly the node ids, strictly ascending |
| DiGraphs.DiGraph.AllEdgePairs | arboreal/src/digraph.rs:55-63 | one pair per edge, sorted, and its entries are exactly the pairs of the edge set |
| DiGraphs.DiGraph.GetNode | arboreal/src/digraph.rs:65-67 | `Some` exactly for a node id, holding the stored node, which carries that id |
| DiGraphs.DiGraph.GetEdge | arboreal/src/digraph.rs:72-77 | `Some` exactly when the pair is an edge, holding that edge |
| DiGraphs.DiGraph.SuccessorsAreEdgeEnds | arboreal/src/digraph.rs:214 | the after-lists are exactly the edge set's successor relation, so the census walks the graph's edges |
| DiGraphs.DiGraph.SourceNodeIds | arboreal/src/digraph/digraph_impl.rs:73-78 | exactly the nodes no edge ends at, ascending |
| DiGraphs.DiGraph.SinkNodeIds | arboreal/src/digraph/digraph_impl.rs:81-86 | exactly the nodes no edge starts at, ascending |
| DiGraphs.DiGraph.GetSource | arboreal/src/digraph.rs:198-209 | succeeds exactly when one node has in-degree 0, returning it; "No sources in graph." exactly when there is none, and "Multiple sources in graph." exactly when there are two or more |
| DiGraphs.DiGraph.UnreachableFromNonNode | arboreal/src/digraph.rs:211-217 | an id that is not a node reaches no node |
| DiGraphs.DiGraph.NodesUnreachableFrom | arboreal/src/digraph.rs:211-217 | exactly the nodes not reachable from the start, ascending; every node when the start is not a node |
| DiGraphs.DiGraph.IsConnected | arboreal/src/digraph/digraph_impl.rs:96-103 | true exactly when there is one source and it reaches every node |
| DiGraphs.DiGraph.InsertNode | arboreal/src/digraph.rs:88-95 | an id in use is an error that changes nothing; otherwise the node is added with degrees `Some(0)`, the edges are unchanged, `AddNode` is logged, and undo restores the prior state |
| DiGraphs.DiGraph.RemoveNode | arboreal/src/digraph.rs:100-108 | an absent id is an error that changes nothing; otherwise it returns the stored node and removes it with exactly its incident edges; `RemoveNode` is logged with those edges |
| DiGraphs.DiGraph.InsertEdge | arboreal/src/digraph.rs:115-122 | a duplicate pair or a missing terminal is an error (duplicates first) that changes nothing; otherwise the edge is added, `after[start]` and `before[end]` each grow by one entry, and `AddEdge` is logged |
| DiGraphs.DiGraph.ApplyAddEdge | arboreal/src/digraph.rs:119-121 | the success path of `insert_edge`: the edge is added and `AddEdge` is logged |
| DiGraphs.DiGraph.RemoveEdge | arboreal/src/digraph.rs:125-133 | an absent pair is an error that changes nothing; otherwise exactly that pair leaves the edge set and `RemoveEdge` is logged with the old edge |
| DiGraphs.DiGraph.SubdivideUnregistered | arboreal/src/digraph.rs:148-155 | the new node is added, and the edge is replaced by the two halves |
| DiGraphs.DiGraph.InsertHalvesUnregistered | arboreal/src/digraph.rs:149-155 | the payload-carrying half into the new node and the bare half out of it are both added |
| DiGraphs.DiGraph.InsertNodeAlong | arboreal/src/digraph.rs:141-158 | a used id, then an absent edge, is an error that changes nothing; otherwise a bare node is added; `before->after` is replaced by `before->new`, which keeps the old payload, and a bare `new->after`; `InsertNodeAlongEdge` is logged |
| DiGraphs.DiGraph.InsertBareTerminals | arboreal/src/digraph.rs:167-172 | a bare node is created for each id that is given |
| DiGraphs.DiGraph.InsertEdgeAndTerminals | arboreal/src/digraph.rs:167-173 | the missing terminals are created, then the edge is added |
| DiGraphs.DiGraph.InsertEdgeWithNodes | arboreal/src/digraph.rs:163-176 | a duplicate pair is the only error, and it changes nothing; otherwise exactly the absent terminals become bare nodes, existing nodes are kept, the bare edge is added, and `AddEdgeWith` is logged |
| DiGraphs.DiGraph.UndoAddNode | arboreal/src/digraph/cache.rs:78-80 | restores the state before `AddNode` |
| DiGraphs.DiGraph.UndoRemoveNode | arboreal/src/digraph/cache.rs:81-86 | restores the node and its edges (as a set) |
| DiGraphs.DiGraph.InsertListedUnregistered | arboreal/src/digraph/cache.rs:83-85 | pushing a list of new, distinct edges between nodes adds exactly those edges |
| DiGraphs.DiGraph.UndoAddEdge | arboreal/src/digraph/cache.rs:87-90 | restores the state before `AddEdge` |
| DiGraphs.DiGraph.UndoAddEdgeWith | arboreal/src/digraph/cache.rs:91-102 | as written: panics exactly for a self-loop on one created id; otherwise it removes exactly the created nodes, then the edge if still present, and restores the prior state |
| DiGraphs.DiGraph.UndoAddEdgeWithCorrected | arboreal/src/digraph/cache.rs:91-102 | a created terminal is removed once, so undo always completes and restores the prior state |
| DiGraphs.DiGraph.RemoveCreatedTerminals | arboreal/src/digraph/cache.rs:92-97 | afterwards the node map is the one before the change; the edge remains only if no terminal was created |
| DiGraphs.DiGraph.RemoveEdgeIfPresent | arboreal/src/digraph/cache.rs:98-101 | removes the pair if it is an edge, and otherwise changes nothing |
| DiGraphs.DiGraph.UndoRemoveEdge | arboreal/src/digraph/cache.rs:103-105 | restores the removed edge |
| DiGraphs.DiGraph.UndoInsertNodeAlong | arboreal/src/digraph/cache.rs:106-109 | removes the new node and both halves, and restores the original edge with its payload |
| DiGraphs.DiGraph.Undo | arboreal/src/digraph/cache.rs:75-114 | an empty log gives `Ok` and changes nothing; otherwise the log loses its newest entry and the graph returns to the state that entry was applied to; a logged `Failure(msg)` gives `Err(msg)`; a panic occurs exactly in the self-loop case |
| DiGraphs.DiGraph.PopLogged | arboreal/src/digraph/cache.rs:76 | pops the newest entry, together with the state it was applied to |
| DiGraphs.DiGraph.ReverseChange | arboreal/src/digraph/cache.rs:77-111 | each variant is reversed back to its recorded prior state; `Failure(msg)` gives `Err(msg)` |
| DiGraphs.StaleDegreeExample | arboreal/src/digraph/digraph_impl.rs:30-42 | after removing the only node 0, `in_degree(0)` and `out_degree(0)` are `Some(0)`, while the documented degree is `None` |
| DiGraphs.SelfLoopUndoExample | arboreal/src/digraph/cache.rs:91-97 | `insert_edge_with_nodes(0, 0)` on an empty graph, then `undo`, panics |
| LegacyComponents.NodeConstructors | arboreal/src/graph_components.rs:6-16 | `new` stores both fields; `bare` is `new` without a payload; `empty` clears the payload and keeps the id |
| LegacyComponents.EdgeConstructors | arboreal/src/graph_components.rs:20-34 | `new` stores all three fields; `bare` has no payload; `empty` keeps both terminals; `reverse` swaps them |
| LegacyComponents.ReverseInvolution | arboreal/src/graph_components.rs:30-34 | `reverse` swaps the terminals and keeps the payload; applying it twice is the identity; it commutes with `empty` |
| LegacyComponents.TryGetEdge | arboreal/src/graph_components.rs:50-61 | succeeds exactly for the five edge-carrying variants, `ChangeEdgeData` included; `Failure(r)` gives `Err(r)`; `RemoveNode` points to `try_get_edge_vec` |
| LegacyComponents.TryGetNode | arboreal/src/graph_components.rs:62-70 | succeeds exactly for `AddNode`, `RemoveNode` and `ChangeNodeData`; `Failure(r)` gives `Err(r)`; anything else is "Not a node variant." |
| LegacyComponents.TryGetEdgeVec | arboreal/src/graph_components.rs:71-77 | succeeds only on `RemoveNode`, with its edge list |
| LegacyComponents.TryGetEdgeWithNodes | arboreal/src/graph_components.rs:78-84 | succeeds only on `AddEdgeWith`, with its edge and both optional ids |
| LegacyComponents.NodeAndEdgeDisjoint | arboreal/src/graph_components.rs:38-70 | no variant answers both accessors; the subdivision here carries only an id, so it answers only the edge accessor |
| LegacyGraphRef.FindNode | arboreal/src/graph_ref.rs:8-19 | the first index whose node has the id; `None` exactly when no node has it |
| LegacyGraphRef.NodeIndex | arboreal/src/graph_ref.rs:8-19 | the search loop returns `FindNode` |
| LegacyGraphRef.FindEdge | arboreal/src/graph_ref.rs:21-31 | the first index whose edge has terminals `(idIn, idOut)`; `None` exactly when no edge has them |
| LegacyGraphRef.EdgeIndex | arboreal/src/graph_ref.rs:21-31 | the search loop returns `FindEdge` |
| LegacyGraphRef.CheckAddNode | arboreal/src/graph_ref.rs:33-41 | `Failure` exactly when some node has the id; otherwise `AddNode` of the unchanged node |
| LegacyGraphRef.CountsZeroIff | arboreal/src/graph_ref.rs:43-63 | a count is zero exactly when no edge has the id at that end, so no incident edge gives `(0, 0)` |
| LegacyGraphRef.CheckNodeDegrees | arboreal/src/graph_ref.rs:49-63 | the counting loop returns (edges ending at the id, edges starting at it) |
| LegacyGraphRef.DegreeOrderSwapped | arboreal/src/graph_ref.rs:53-62 | the flat-vector counts equal the map-keyed counts, but the pair is ordered (in, out) here and (out, in) there |
| LegacyGraphRef.IncidentEdgesMembers | arboreal/src/graph_ref.rs:65-83 | the collected edges are exactly the edges touching the id |
| LegacyGraphRef.CheckRemoveNode | arboreal/src/graph_ref.rs:65-83 | `Failure` exactly when no node has the id; otherwise the first node with that id and its incident edges, in vector order |
| LegacyGraphRef.CheckAddEdge | arboreal/src/graph_ref.rs:85-98 | a duplicate pair gives "Edge with these terminals already exists."; a new pair with a missing terminal gives "Terminals not found in graph."; `AddEdge` exactly when the pair is new and both terminals are present |
| LegacyGraphRef.NewIdIfAbsent | arboreal/src/graph_ref.rs:107-114 | a terminal is marked new exactly when no node has its id |
| LegacyGraphRef.CheckAddEdgeWithNodes | arboreal/src/graph_ref.rs:100-116 | fails exactly on a duplicate pair; otherwise the bare edge, with exactly the absent terminals marked new |
| LegacyGraphRef.CheckRemoveEdge | arboreal/src/graph_ref.rs:118-127 | fails with "Edge not found in graph." exactly when no edge matches; otherwise a copy of the first matching edge in the vector, payload included |
| LegacyCache.ChangeCache.New | arboreal/src/cache.rs:9-13 | an empty log of the given capacity |
| LegacyCache.ChangeCache.Default | arboreal/src/cache.rs:14-18 | an empty log of capacity 100 |
| LegacyCache.ChangeCache.Disabled | arboreal/src/cache.rs:26-29 | an implementor whose `mut_history` is `None` |
| LegacyCache.ChangeCache.ClearHistory | arboreal/src/cache.rs:31-36 | an enabled log becomes empty with the same capacity; a disabled one stays disabled |
| LegacyCache.ChangeCache.RegisterChange | arboreal/src/cache.rs:38-45 | an enabled log becomes `PushBack` of the change, returning the evicted entry; a disabled one returns `None` and stays disabled |
| LegacyCache.ChangeCache.PopChange | arboreal/src/cache.rs:47-53 | an enabled log becomes `PopBack`, returning the newest entry; a disabled one returns `None` |
| LegacyCache.RegisterThenPop | arboreal/src/cache.rs:38-53 | on an enabled log, pushing then popping returns the pushed change and leaves the earlier log, less the evicted entry when it was full |

## Left out

- Serialisation and file input/output (`file.rs`, `digraph/file.rs`, the serde derives) are not
  part of this model. They are external collaborators.
- `state_graph.rs` and `lib.rs` are not part of this model. They are module wiring, glue and
  tests.
- `Display` and `Debug` impls: they only print.
- `is_terminable` and `is_valid`: their bodies are `todo!()`, so they have no behaviour to model.
- `get_node_mut` and `get_edge_mut`: they return mutable references, which callers can use to
  break the invariants. Only read access is modelled.
- Preallocation sizes, `Vec::with_capacity` and `shrink_to_fit`: these are performance hints only.
- `fixed_deque::Deque` internals: only `push_back` and `pop_back` are modelled, as functions on a
  sequence. `clear` is assigning the empty sequence.
- The caller-supplied `Nodal` and `DirEdge` types: one concrete record type stands for each. Its
  trait contracts (`Components.BareNode`, `Components.BareEdge`, `Components.ChangeEnd`) hold by
  construction rather than by assumption.
- `Id` is the range 0..65535 of `u16`. No operation does arithmetic on ids, so overflow never
  matters. The counts returned as `usize` are unbounded naturals.
- `HashMap` iteration order is not modelled. `all_node_ids` sorts, so its result does not depend
  on it.
- `LegacyComponents.EmptyNode`, `LegacyComponents.EmptyEdge` and `LegacyComponents.Reverse`
  (`Node::empty`, `Edge::empty`, `Edge::reverse`) are functions returning the updated record,
  not in-place `&mut self` updates. The records are owned, cloneable values that nothing
  aliases.
- A method's precondition stands for each `unwrap` on a store lookup in the primitives, such as
  the adjacency entries of both terminals in `insert_edge_unregistered`. The public operations
  always meet these preconditions. The one reachable failing `unwrap`, in undo, is modelled as a
  panic outcome (see Findings).
- DiGraphs.DiGraph.FromTerminalPairs: requires distinct pairs. The source unwraps each
  `insert_edge_with_nodes`, which panics on a repeated pair; the model does not treat that panic
  as an outcome.
- DiGraphs.DiGraph.Undo: the graph state is restored as a node map and an edge set, not as an
  edge-vector order or adjacency-list order. `swap_remove` and re-pushing reorder both, and no
  query but the vector scan of `edge_index` depends on that order.
- LegacyCache.ChangeCache.New: requires a capacity above 0. `HistoryDeque::new` accepts 0, but what `fixed_deque` does at capacity 0 is up to that external crate and undocumented, so capacity 0 is excluded. `Deque.PushBack` has the same bound, and the map-keyed log always uses capacity 100.
- The flat-vector design has no graph type among its files: only its validators, its components
  and its cache are modelled.

## Findings

| source | as written | input that shows it | evidently intended | confidence | as-written member | corrected member |
|---|---|---|---|---|---|---|
| arboreal/src/digraph/digraph_impl.rs:30-42 | `remove_node_unregistered` removes the node but keeps its two adjacency entries, so `in_degree` (arboreal/src/digraph.rs:178-196)/`out_degree` of a removed id give `Some(0)` | `insert_node(bare(0))`, `remove_node(0)`, then `in_degree(0)` | `None` for an id that is not among the nodes, as the doc comment says | high (proved; not executed) | DiGraphs.StaleDegreeExample | DiGraphs.DiGraph.NodeInDegree |
| arboreal/src/digraph/cache.rs:91-102 | undoing `AddEdgeWith(e, Some(x), Some(x))` calls `remove_node_unregistered(x)` twice, and the second `nodes.remove(..).unwrap()` panics | `insert_edge_with_nodes(0, 0)` on an empty graph, then `undo()` | remove a created node once even when it is both terminals, so undo completes and restores the prior state | high (proved; not executed) | DiGraphs.SelfLoopUndoExample | DiGraphs.DiGraph.UndoAddEdgeWithCorrected |

In both findings, `Undo` and the degree functions keep the as-written behaviour so that the model
matches the code. The corrected members state the intended behaviour next to them and prove it.
