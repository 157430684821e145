/** The map-keyed directed graph (arboreal/src/digraph.rs, arboreal/src/digraph/digraph_impl.rs,
    arboreal/src/digraph/cache.rs): a node map, an edge vector, two adjacency maps mirroring the
    edge vector, and a bounded undo log of change descriptors. */
module DiGraphs {
  import opened Wrappers
  import opened Components
  import opened Seqs
  import opened Deque
  import opened GraphRef
  import opened Snapshots

  /** `UNDO_HISTORY_LIMIT`: the capacity of the default undo log. */
  const UNDO_HISTORY_LIMIT: nat := 100

  const NO_SOURCES := "No sources in graph."
  const MULTIPLE_SOURCES := "Multiple sources in graph."

  /** How `undo` ends: it returns its result, or an `unwrap` inside it panics. */
  datatype UndoOutcome = Finished(result: Result<()>) | Panicked

  /** The one logged change whose undo panics: an edge added together with a single created node
      that is both its start and its end (a self-loop on a new id). Undoing it removes that node
      twice. */
  predicate UndoPanics<TN, TE>(c: GraphChange<TN, TE>)
  {
    c.AddEdgeWith? && c.newStart.Some? && c.newEnd.Some? && c.newStart.value == c.newEnd.value
  }

  class DiGraph<TN, TE> {
    /** `name`: an optional label, used only for display. */
    var name: Option<string>
    /** `nodes`: each node under its own id. */
    var nodes: NodeMap<TN>
    /** `edges`: the edge vector; its order is not meaningful and changes on removal. */
    var edges: seq<Edge<TE>>
    /** `neighbors_before`: for each id, the starts of the edges ending there. */
    var before: map<Id, seq<Id>>
    /** `neighbors_after`: for each id, the ends of the edges starting there. */
    var after: map<Id, seq<Id>>
    /** `undo_history`: the logged changes, oldest first, at most `limit` of them. */
    var history: seq<GraphChange<TN, TE>>
    const limit: nat

    /** The index of each terminal pair in `edges`. */
    ghost var pos: map<(Id, Id), nat>
    /** `past[k]` is the graph as it was just before `history[k]` was applied. */
    ghost var past: seq<Snapshot<TN, TE>>

    /** The store invariant: pairs are indexed and unique, keys match ids, terminals are nodes,
        every node (and every id that once was one) has two duplicate-free adjacency lists, and the
        lists hold exactly the neighbours the edge vector gives. */
    ghost predicate StoreValid()
      reads this`nodes, this`edges, this`before, this`after, this`pos
    {
      Indexed(edges, pos) && KeysMatch(nodes) && TerminalsAreNodes(pos, nodes) &&
      nodes.Keys <= after.Keys && before.Keys == after.Keys &&
      ListsNoDup(after) && ListsNoDup(before) &&
      AfterMirrors(after, pos) && BeforeMirrors(before, pos)
    }

    /** The edge set. */
    ghost function EdgeMap(): EdgeSet<TE>
      reads this`edges, this`pos
      requires Indexed(edges, pos)
    {
      EdgesOf(edges, pos)
    }

    /** The meaning of the current state. */
    ghost function Abs(): Snapshot<TN, TE>
      reads this`nodes, this`edges, this`pos
      requires Indexed(edges, pos)
    {
      Snapshot(nodes, EdgeMap())
    }

    lemma AbsWellFormed()
      requires StoreValid()
      ensures WellFormed(Abs())
    {
    }

    /** No edge touches `id`. */
    ghost predicate Isolated(id: Id)
      reads this`pos
    {
      forall p :: p in pos ==> p.0 != id && p.1 != id
    }

    /** The newest log entry was applied to `g`: undoing it returns there. */
    ghost predicate LoggedFrom(g: Snapshot<TN, TE>)
      reads this`past
    {
      past != [] && past[|past| - 1] == g
    }

    /** The class invariant: a valid store, a log within capacity, and a log whose entries
        chain from recorded past states to the current one. */

    ghost predicate Valid()
      reads this
    {
      StoreValid() && 0 < limit && |history| <= limit && Chain(past, history, Abs())
    }

    /** `default`: no name, no nodes, no edges, an empty log of capacity `UNDO_HISTORY_LIMIT`. */
    constructor Default()
      ensures Valid() && name == None && limit == UNDO_HISTORY_LIMIT
      ensures nodes == map[] && edges == [] && before == map[] && after == map[] && history == []
    {
      name := None;
      nodes := map[];
      edges := [];
      before := map[];
      after := map[];
      history := [];
      limit := UNDO_HISTORY_LIMIT;
      pos := map[];
      past := [];
    }

    /** `from_terminal_pairs`: `insert_edge_with_nodes` for each pair in turn, then
        `clear_history`. Each insertion is unwrapped, so the pairs must be distinct. The result
        holds a bare node for every id in a pair, a bare edge for every pair, and an empty log. */
    constructor FromTerminalPairs(pairs: seq<(Id, Id)>)
      requires NoDup(pairs)
      ensures Valid() && name == None && limit == UNDO_HISTORY_LIMIT && history == []
      ensures nodes.Keys == PairIds(pairs) && AllBare(nodes)
      ensures EdgeMap().Keys == Elems(pairs) && AllBareEdges(EdgeMap())
    {
      name := None;
      nodes := map[];
      edges := [];
      before := map[];
      after := map[];
      history := [];
      limit := UNDO_HISTORY_LIMIT;
      pos := map[];
      past := [];
      new;
      EmptyValid();
      InsertPairs(pairs);
    }

    /** The empty graph with an empty log is valid. */
    lemma EmptyValid()
      requires nodes == map[] && edges == [] && before == map[] && after == map[] && pos == map[]
      requires history == [] && past == [] && 0 < limit
      ensures Valid()
    {
    }

    /** The rest of `from_terminal_pairs`, started on an empty graph: the loop, then
        `clear_history`. */
    method InsertPairs(pairs: seq<(Id, Id)>)
      requires Valid() && NoDup(pairs) && nodes == map[] && edges == []
      modifies this`nodes, this`edges, this`before, this`after, this`pos, this`history, this`past
      ensures Valid() && history == []
      ensures nodes.Keys == PairIds(pairs) && AllBare(nodes)
      ensures EdgeMap().Keys == Elems(pairs) && AllBareEdges(EdgeMap())
    {
      for i := 0 to |pairs|
        invariant Valid()
        invariant nodes.Keys == PairIds(pairs[..i]) && AllBare(nodes)
        invariant EdgeMap().Keys == Elems(pairs[..i]) && AllBareEdges(EdgeMap())
      {
        PairsStep(pairs, i);
        TerminalsCreated(nodes, pairs[i].0, pairs[i].1);
        BareEdgeAdded(EdgeMap(), pairs[i].0, pairs[i].1);
        var res := InsertEdgeWithNodes(pairs[i].0, pairs[i].1);
        assert res.Ok?;
      }
      assert pairs[..|pairs|] == pairs;
      ClearHistory();
    }

    /** `register_change`: push onto the log; at capacity the oldest entry is evicted and
        returned. `prior` is the state the change was applied to. */
    method RegisterChange(change: GraphChange<TN, TE>, ghost prior: Snapshot<TN, TE>) returns (evicted: Option<GraphChange<TN, TE>>)
      requires StoreValid() && 0 < limit && |history| <= limit
      requires Chain(past, history, prior) && WellFormed(prior) && Recorded(prior, change, Abs())
      modifies this`history, this`past
      ensures Valid()
      ensures history == PushBack(old(history), limit, change).0
      ensures evicted == PushBack(old(history), limit, change).1
      ensures LoggedFrom(prior)
    {
      var (items, first) := PushBack(history, limit, change);
      ChainPush(past, history, prior, change, Abs());
      if first.Some? {
        ChainDropFirst(past + [prior], history + [change], Abs());
        assert items == (history + [change])[1..];
        past := (past + [prior])[1..];
      } else {
        past := past + [prior];
      }
      history := items;
      evicted := first;
    }

    /** `pop_change`: remove and return the newest entry, or `None` on an empty log. */
    method PopChange() returns (c: Option<GraphChange<TN, TE>>)
      modifies this`history
      ensures (history, c) == PopBack(old(history))
    {
      var (items, last) := PopBack(history);
      history := items;
      c := last;
    }

    /** `clear_history`: empty the log; its capacity is unchanged. */
    method ClearHistory()
      requires Valid()
      modifies this`history, this`past
      ensures Valid() && history == []
    {
      history := [];
      past := [];
    }

    /** `in_degree`: the length of the before-list, if the id has one. */
    function InDegree(id: Id): (r: Option<nat>)
      reads this`before
      ensures r.Some? <==> id in before
      ensures r.Some? ==> r.value == |before[id]|
    {
      if id in before then Some(|before[id]|) else None
    }

    /** `out_degree`: the length of the after-list, if the id has one. */
    function OutDegree(id: Id): (r: Option<nat>)
      reads this`after
      ensures r.Some? <==> id in after
      ensures r.Some? ==> r.value == |after[id]|
    {
      if id in after then Some(|after[id]|) else None
    }

    /** The lists mirror the edge vector, so an adjacency-list length is the degree: the number
        of edges ending (for `in_degree`) or starting (for `out_degree`) at the id. Every node has
        both degrees. */
    lemma DegreesCount(id: Id)
      requires StoreValid()
      ensures id in nodes ==> InDegree(id).Some? && OutDegree(id).Some?
      ensures InDegree(id).Some? ==> InDegree(id).value == InCount(edges, id)
      ensures OutDegree(id).Some? ==> OutDegree(id).value == OutCount(edges, id)
    {
      EdgesOfListed(edges, pos);
      CountsListed(edges, id);
      if id in before {
        assert Elems(before[id]) == StartsInto(EdgeMap(), id);
        NoDupCard(before[id]);
        assert Elems(after[id]) == EndsFrom(EdgeMap(), id);
        NoDupCard(after[id]);
      }
    }

    /** `in_degree` as its documentation describes it: `None` for an id that is not a node, the
        number of edges ending at a node otherwise. */
    function NodeInDegree(id: Id): (r: Option<nat>)
      reads this`nodes, this`edges, this`before, this`after, this`pos
      requires StoreValid()
      ensures r.Some? <==> id in nodes
      ensures r.Some? ==> r.value == InCount(edges, id)
    {
      DegreesCount(id);
      if id in nodes then InDegree(id) else None
    }

    /** `out_degree` as its documentation describes it: `None` for an id that is not a node, the
        number of edges starting at a node otherwise. */
    function NodeOutDegree(id: Id): (r: Option<nat>)
      reads this`nodes, this`edges, this`before, this`after, this`pos
      requires StoreValid()
      ensures r.Some? <==> id in nodes
      ensures r.Some? ==> r.value == OutCount(edges, id)
    {
      DegreesCount(id);
      if id in nodes then OutDegree(id) else None
    }

    /** `edge_index` of the graph: the first index whose terminal pair is `(s, t)`. */
    method EdgeIndex(s: Id, t: Id) returns (r: Option<nat>)
      requires StoreValid()
      ensures r == FindEdge(edges, s, t)
      ensures r == if (s, t) in pos then Some(pos[(s, t)]) else None
    {
      var index := 0;
      while index < |edges|
        invariant index <= |edges|
        invariant forall j :: 0 <= j < index ==> TerminalIds(edges[j]) != (s, t)
      {
        if TerminalIds(edges[index]) == (s, t) {
          FindEdgeByPos(edges, pos, s, t);
          return Some(index);
        }
        index := index + 1;
      }
      FindEdgeByPos(edges, pos, s, t);
      return None;
    }

    /** `insert_node_unregistered`: store the node under its id and give it empty adjacency
        lists. The id must have no incident edges, or the lists would stop mirroring them. */
    method InsertNodeUnregistered(n: Node<TN>)
      requires StoreValid() && Isolated(NodeId(n))
      modifies this`nodes, this`before, this`after
      ensures StoreValid()
      ensures nodes == old(nodes)[NodeId(n) := n]
      ensures before == old(before)[NodeId(n) := []] && after == old(after)[NodeId(n) := []]
    {
      var id := NodeId(n);
      nodes := nodes[id := n];
      before := before[id := []];
      after := after[id := []];
    }

    /** `insert_edge_unregistered`: push the edge and record each terminal as the other's
        neighbour. The pair must be new and both terminals must be nodes. */
    method InsertEdgeUnregistered(e: Edge<TE>)
      requires StoreValid() && TerminalIds(e) !in pos
      requires StartId(e) in nodes && EndId(e) in nodes
      modifies this`edges, this`before, this`after, this`pos
      ensures StoreValid()
      ensures edges == old(edges) + [e]
      ensures after[StartId(e)] == old(after)[StartId(e)] + [EndId(e)]
      ensures after - {StartId(e)} == old(after) - {StartId(e)}
      ensures before[EndId(e)] == old(before)[EndId(e)] + [StartId(e)]
      ensures before - {EndId(e)} == old(before) - {EndId(e)}
      ensures EdgeMap() == old(EdgeMap())[TerminalIds(e) := e]
    {
      var (s, t) := TerminalIds(e);
      PushIndexed(edges, pos, e);
      edges := edges + [e];
      pos := pos[(s, t) := |edges| - 1];
      AddPairMirrors(after, before, old(pos), s, t, |edges| - 1);
      UpdateElsewhere(after, s, after[s] + [t]);
      UpdateElsewhere(before, t, before[t] + [s]);
      after := after[s := after[s] + [t]];
      before := before[t := before[t] + [s]];
    }

    /** `remove_node_unregistered`: remove each edge ending at `id` (walking a copy of
        `before[id]`), then each edge starting there (a copy of `after[id]` taken after the first
        pass), then the node itself, which is returned. The adjacency entries of `id` stay behind,
        empty. */
    method RemoveNodeUnregistered(id: Id) returns (n: Node<TN>)
      requires StoreValid() && id in nodes
      modifies this`nodes, this`edges, this`before, this`after, this`pos
      ensures StoreValid()
      ensures n == old(nodes)[id] && nodes == old(nodes) - {id}
      ensures EdgeMap() == Detach(old(EdgeMap()), id)
      ensures id in before && id in after && before[id] == [] && after[id] == []
    {
      ghost var edgeSet := EdgeMap();
      DropEdgesInto(id);
      DropEdgesOutOf(id, edgeSet);
      EmptyListsIsolate(after, before, pos, id);
      DetachExact(edgeSet, EdgeMap(), id);
      n := nodes[id];
      DropIsolatedNode(nodes, pos, id);
      nodes := nodes - {id};
    }

    /** The first pass of `remove_node_unregistered`: remove every edge ending at `id`. */
    method DropEdgesInto(id: Id)
      requires StoreValid() && id in nodes
      modifies this`edges, this`before, this`after, this`pos
      ensures StoreValid()
      ensures before.Keys == old(before).Keys && after.Keys == old(after).Keys && before[id] == []
      ensures SubEdgeSet(EdgeMap(), old(EdgeMap())) && KeepsAwayFrom(old(EdgeMap()), EdgeMap(), id, false)
    {
      ghost var edgeSet := EdgeMap();
      var idsBefore := before[id];
      for i := 0 to |idsBefore|
        modifies this`edges, this`before, this`after, this`pos
        invariant StoreValid()
        invariant before.Keys == old(before).Keys && after.Keys == old(after).Keys
        invariant before[id] == idsBefore[i..]
        invariant SubEdgeSet(EdgeMap(), edgeSet) && KeepsAwayFrom(edgeSet, EdgeMap(), id, false)
      {
        var y := idsBefore[i];
        WithoutNoDup(before[id], y);
        ghost var m := EdgeMap();
        DropEdgeInto(y, id);
        DropKeeps(edgeSet, m, EdgeMap(), (y, id), id, false);
      }
    }

    /** The second pass: with nothing ending at `id`, remove every edge starting there. */
    method DropEdgesOutOf(id: Id, ghost edgeSet: EdgeSet<TE>)
      requires StoreValid() && id in nodes && before[id] == []
      requires SubEdgeSet(EdgeMap(), edgeSet) && KeepsAwayFrom(edgeSet, EdgeMap(), id, false)
      modifies this`edges, this`before, this`after, this`pos
      ensures StoreValid()
      ensures before.Keys == old(before).Keys && after.Keys == old(after).Keys
      ensures before[id] == [] && after[id] == []
      ensures SubEdgeSet(EdgeMap(), edgeSet) && KeepsAwayFrom(edgeSet, EdgeMap(), id, true)
    {
      var idsAfter := after[id];
      for i := 0 to |idsAfter|
        modifies this`edges, this`before, this`after, this`pos
        invariant StoreValid()
        invariant before.Keys == old(before).Keys && after.Keys == old(after).Keys
        invariant before[id] == [] && after[id] == idsAfter[i..]
        invariant SubEdgeSet(EdgeMap(), edgeSet) && KeepsAwayFrom(edgeSet, EdgeMap(), id, true)
      {
        var z := idsAfter[i];
        WithoutNoDup(after[id], z);
        ghost var m := EdgeMap();
        DropEdgeOutOf(id, z);
        DropKeeps(edgeSet, m, EdgeMap(), (id, z), id, true);
      }
    }

    /** One step of the first pass of `remove_node_unregistered`: find and remove the edge from
        `y` into `id`. */
    method DropEdgeInto(y: Id, id: Id)
      requires StoreValid() && id in before && y in before[id]
      modifies this`edges, this`before, this`after, this`pos
      ensures StoreValid()
      ensures before.Keys == old(before).Keys && after.Keys == old(after).Keys
      ensures before[id] == Without(old(before)[id], y)
      ensures EdgeMap() == old(EdgeMap()) - {(y, id)}
    {
      var edgeIndex := EdgeIndex(y, id);
      assert edgeIndex.Some?;
      RemoveEdgeUnregistered(edgeIndex.value);
    }

    /** One step of the second pass: find and remove the edge from `id` to `z`, once nothing
        ends at `id` any more. */
    method DropEdgeOutOf(id: Id, z: Id)
      requires StoreValid() && id in before && before[id] == [] && id in after && z in after[id]
      modifies this`edges, this`before, this`after, this`pos
      ensures StoreValid()
      ensures before.Keys == old(before).Keys && after.Keys == old(after).Keys
      ensures before[id] == [] && after[id] == Without(old(after)[id], z)
      ensures EdgeMap() == old(EdgeMap()) - {(id, z)}
    {
      assert (id, id) !in pos by { assert id !in before[id]; }
      var edgeIndex := EdgeIndex(id, z);
      assert edgeIndex.Some?;
      ghost var b := before;
      assert (b - {z})[id] == [];
      RemoveEdgeUnregistered(edgeIndex.value);
      assert before[id] == (before - {z})[id];
    }

    /** `remove_edge_unregistered`: swap-remove the edge at `index` and drop each terminal from the
        other's neighbour list. */
    method RemoveEdgeUnregistered(index: nat)
      requires StoreValid() && index < |edges|
      modifies this`edges, this`before, this`after, this`pos
      ensures StoreValid()
      ensures edges == SwapRemove(old(edges), index)
      ensures var (s, t) := TerminalIds(old(edges)[index]);
        before[t] == Without(old(before)[t], s) && before - {t} == old(before) - {t} &&
        after[s] == Without(old(after)[s], t) && after - {s} == old(after) - {s}
      ensures EdgeMap() == old(EdgeMap()) - {TerminalIds(old(edges)[index])}
      ensures before.Keys == old(before).Keys && after.Keys == old(after).Keys
    {
      var dropped := edges[index];
      var (s, t) := TerminalIds(dropped);
      SwapRemoveIndexed(edges, pos, index);
      DropPairMirrors(after, before, pos, SwapPos(edges, pos, index), s, t);
      TerminalsShrink(pos, SwapPos(edges, pos, index), nodes);
      pos := SwapPos(edges, pos, index);
      edges := SwapRemove(edges, index);
      UpdateElsewhere(before, t, Without(before[t], s));
      UpdateElsewhere(after, s, Without(after[s], t));
      before := before[t := Without(before[t], s)];
      after := after[s := Without(after[s], t)];
    }

    /** Presence of a pair in the vector is presence in the edge set. */
    lemma PairPresence(s: Id, t: Id)
      requires StoreValid()
      ensures HasEdge(edges, s, t) <==> (s, t) in EdgeMap()
      ensures (s, t) in EdgeMap() ==> FindEdge(edges, s, t) == Some(pos[(s, t)])
    {
      FindEdgeByPos(edges, pos, s, t);
    }

    // -------------------------------------------------------------------------------------
    // Queries

    /** `all_node_ids`: the node keys, sorted. */
    function AllNodeIds(): (r: seq<Id>)
      reads this`nodes
      ensures Ascending(r)
      ensures forall x :: x in r <==> x in nodes
    {
      SortedIds(nodes.Keys)
    }

    /** `all_edge_pairs`: the terminal pair of every edge, sorted; one entry per edge, and the
        entries are exactly the pairs of the edge set. */
    method AllEdgePairs() returns (r: seq<(Id, Id)>)
      requires StoreValid()
      ensures PairsSorted(r) && |r| == |edges|
      ensures forall p :: p in r <==> p in EdgeMap()
    {
      var pairs := [];
      for i := 0 to |edges|
        invariant |pairs| == i
        invariant forall k :: 0 <= k < i ==> pairs[k] == TerminalIds(edges[k])
      {
        pairs := pairs + [(StartId(edges[i]), EndId(edges[i]))];
      }
      r := SortPairs(pairs);
      assert |r| == |multiset(r)| == |multiset(pairs)| == |pairs|;
      forall p ensures p in r <==> p in EdgeMap() {
        assert p in r <==> p in multiset(pairs);
        if p in pairs {
          var k :| 0 <= k < |pairs| && pairs[k] == p;
        }
        if p in EdgeMap() {
          assert pairs[pos[p]] == p;
        }
      }
    }

    /** `get_node`: the node stored under `id`, which carries that id. */
    function GetNode(id: Id): (r: Option<Node<TN>>)
      reads this`nodes, this`edges, this`before, this`after, this`pos
      requires StoreValid()
      ensures r.Some? <==> id in nodes
      ensures r.Some? ==> NodeId(r.value) == id && r.value == nodes[id]
    {
      if id in nodes then Some(nodes[id]) else None
    }

    /** `get_edge`: the edge with terminals `(s, t)`, if there is one. */
    method GetEdge(s: Id, t: Id) returns (r: Option<Edge<TE>>)
      requires StoreValid()
      ensures r.Some? <==> (s, t) in EdgeMap()
      ensures r.Some? ==> r.value == EdgeMap()[(s, t)] && TerminalIds(r.value) == (s, t)
    {
      PairPresence(s, t);
      var index := EdgeIndex(s, t);
      if index.Some? {
        r := Some(edges[index.value]);
      } else {
        r := None;
      }
    }

    /** The after-lists hold exactly the edge set's successor relation. */
    lemma SuccessorsAreEdgeEnds(x: Id)
      requires StoreValid()
      ensures forall y :: y in Successors(after, x) <==> (x, y) in EdgeMap()
    {
      if x !in after {
        assert x !in nodes;
      }
    }

    /** `source_node_ids`: the node ids with in-degree `Some(0)`, sorted; that is, the nodes no
        edge ends at. */
    method SourceNodeIds() returns (r: seq<Id>)
      requires StoreValid()
      ensures Ascending(r)
      ensures forall x :: x in r <==> x in nodes && InCount(edges, x) == 0
    {
      r := RetainEmptyLists(AllNodeIds(), before);
      forall x | x in nodes ensures InDegree(x) == Some(InCount(edges, x)) {
        DegreesCount(x);
      }
    }

    /** `sink_node_ids`: the node ids with out-degree `Some(0)`, sorted; that is, the nodes no
        edge starts at. */
    method SinkNodeIds() returns (r: seq<Id>)
      requires StoreValid()
      ensures Ascending(r)
      ensures forall x :: x in r <==> x in nodes && OutCount(edges, x) == 0
    {
      r := RetainEmptyLists(AllNodeIds(), after);
      forall x | x in nodes ensures OutDegree(x) == Some(OutCount(edges, x)) {
        DegreesCount(x);
      }
    }

    /** `get_source`: the single source node; no source and several sources are two distinct
        errors. */
    method GetSource() returns (r: Result<Node<TN>>)
      requires StoreValid()
      ensures r.Ok? ==> NodeId(r.value) in nodes && nodes[NodeId(r.value)] == r.value && InCount(edges, NodeId(r.value)) == 0
      ensures r.Ok? ==> forall x :: x in nodes && InCount(edges, x) == 0 ==> x == NodeId(r.value)
      ensures r.Err? ==> r.msg == NO_SOURCES || r.msg == MULTIPLE_SOURCES
      ensures r == Err(NO_SOURCES) <==> forall x :: x in nodes ==> InCount(edges, x) > 0
      ensures r == Err(MULTIPLE_SOURCES) <==>
        exists x, y :: x in nodes && y in nodes && x != y && InCount(edges, x) == 0 && InCount(edges, y) == 0
    {
      var sources := SourceNodeIds();
      if |sources| == 1 {
        var id := sources[0];
        assert sources[0] in sources;
        r := Ok(nodes[id]);
      } else if |sources| == 0 {
        r := Err(NO_SOURCES);
      } else {
        assert sources[0] in sources && sources[1] in sources;
        r := Err(MULTIPLE_SOURCES);
      }
    }

    /** An id that is not a node reaches no node: it has no after-list, or only the empty one a
        removed node leaves behind. */
    lemma UnreachableFromNonNode(s: Id)
      requires StoreValid() && s !in nodes
      ensures forall x :: x in nodes ==> !Reachable(after, s, x)
    {
      forall x | x in after && after[x] != [] ensures x in nodes {
        assert after[x][0] in after[x];
      }
      forall p | IsPath(after, p) && p[0] == s ensures p[|p| - 1] !in nodes {
        PathStep(after, p);
      }
    }

    /** `nodes_unreachable_from`: the sorted node ids the census from `s` never reaches; every
        node when `s` is not one. */
    method NodesUnreachableFrom(s: Id) returns (r: seq<Id>)
      requires StoreValid()
      ensures Ascending(r)
      ensures forall x :: x in r <==> x in nodes && !Reachable(after, s, x)
      ensures s !in nodes ==> r == AllNodeIds()
    {
      var lost := AllNodeIds();
      var census := CollectReachableNeighbors([], s, after);
      CensusFromEmpty(after, s, census);
      NotInAscending(lost, census);
      r := NotIn(lost, census);
      if s !in nodes {
        UnreachableFromNonNode(s);
        AscendingUnique(r, lost);
      }
    }

    /** `is_connected`: exactly one source, and it reaches every node. */
    method IsConnected() returns (r: bool)
      requires StoreValid()
      ensures r <==> exists s :: (s in nodes && InCount(edges, s) == 0 &&
        (forall x :: x in nodes && InCount(edges, x) == 0 ==> x == s) &&
        (forall x :: x in nodes ==> Reachable(after, s, x)))
    {
      var sources := SourceNodeIds();
      if |sources| != 1 {
        if |sources| > 1 {
          assert sources[0] in sources && sources[1] in sources;
        }
        return false;
      }
      var start := sources[0];
      assert start in sources;
      var lost := NodesUnreachableFrom(start);
      if lost != [] {
        assert lost[0] in lost;
      }
      r := lost == [];
    }

    /** `insert_node`: on an unused id, store the node with no edges and log `AddNode`. */
    method InsertNode(n: Node<TN>) returns (r: Result<()>)
      requires Valid()
      modifies this`nodes, this`edges, this`before, this`after, this`pos, this`history, this`past
      ensures Valid()
      ensures r.Err? <==> NodeId(n) in old(nodes)
      ensures r.Err? ==> r.msg == NODE_EXISTS && unchanged(this)
      ensures r.Ok? ==> nodes == old(nodes)[NodeId(n) := n] && EdgeMap() == old(EdgeMap())
      ensures r.Ok? ==> InDegree(NodeId(n)) == Some(0) && OutDegree(NodeId(n)) == Some(0)
      ensures r.Ok? ==> history == PushBack(old(history), limit, AddNode(n)).0
      ensures r.Ok? ==> LoggedFrom(old(Abs()))
    {
      var change := CheckAddNode<TN, TE>(nodes, n);
      var got := TryGetNode(change);
      if got.Err? {
        return Err(got.msg);
      }
      ghost var prior := Abs();
      AbsWellFormed();
      InsertNodeUnregistered(got.value);
      var evicted := RegisterChange(change, prior);
      return Ok(());
    }

    /** `remove_node`: on a present id, remove the node and every edge incident on it, log
        `RemoveNode` with those edges, and return the node. */
    method RemoveNode(id: Id) returns (r: Result<Node<TN>>)
      requires Valid()
      modifies this`nodes, this`edges, this`before, this`after, this`pos, this`history, this`past
      ensures Valid()
      ensures r.Err? <==> id !in old(nodes)
      ensures r.Err? ==> r.msg == NODE_NOT_FOUND && unchanged(this)
      ensures r.Ok? ==> r.value == old(nodes)[id] && nodes == old(nodes) - {id}
      ensures r.Ok? ==> EdgeMap() == Detach(old(EdgeMap()), id)
      ensures r.Ok? ==> InDegree(id) == Some(0) && OutDegree(id) == Some(0)
      ensures r.Ok? ==> history == PushBack(old(history), limit, Components.RemoveNode(old(nodes)[id], IncidentEdges(old(edges), id))).0
      ensures r.Ok? ==> LoggedFrom(old(Abs()))
    {
      var change := CheckRemoveNode<TN, TE>(nodes, edges, id);
      var got := TryGetNode(change);
      if got.Err? {
        return Err(got.msg);
      }
      var outNodeId := NodeId(got.value);
      ghost var prior := Abs();
      AbsWellFormed();
      EdgesOfListed(edges, pos);
      IncidentPairsDistinct(edges, id);
      IncidentListed(edges, id);
      var removed := RemoveNodeUnregistered(outNodeId);
      var evicted := RegisterChange(change, prior);
      return Ok(removed);
    }

    /** `insert_edge`: a duplicate pair, then a missing terminal, is an error; otherwise push the
        edge, which raises the start's out-degree and the end's in-degree by one, and log
        `AddEdge`. */
    method InsertEdge(e: Edge<TE>) returns (r: Result<()>)
      requires Valid()
      modifies this`nodes, this`edges, this`before, this`after, this`pos, this`history, this`past
      ensures Valid()
      ensures r.Err? <==> TerminalIds(e) in old(EdgeMap()) || StartId(e) !in old(nodes) || EndId(e) !in old(nodes)
      ensures r.Err? ==> unchanged(this)
      ensures r.Err? ==> r.msg == if TerminalIds(e) in old(EdgeMap()) then EDGE_EXISTS else TERMINALS_NOT_FOUND
      ensures r.Ok? ==> nodes == old(nodes) && EdgeMap() == old(EdgeMap())[TerminalIds(e) := e]
      ensures r.Ok? ==> after[StartId(e)] == old(after[StartId(e)]) + [EndId(e)]
      ensures r.Ok? ==> before[EndId(e)] == old(before[EndId(e)]) + [StartId(e)]
      ensures r.Ok? ==> history == PushBack(old(history), limit, AddEdge(e)).0
      ensures r.Ok? ==> LoggedFrom(old(Abs()))
    {
      PairPresence(StartId(e), EndId(e));
      var change := CheckAddEdge<TN, TE>(nodes, edges, e);
      var got := TryGetEdge(change);
      if got.Err? {
        return Err(got.msg);
      }
      ApplyAddEdge(got.value);
      return Ok(());
    }

    /** The successful path of `insert_edge`: push the checked edge and log `AddEdge`. */
    method ApplyAddEdge(e: Edge<TE>)
      requires Valid() && TerminalIds(e) !in EdgeMap() && StartId(e) in nodes && EndId(e) in nodes
      modifies this`edges, this`before, this`after, this`pos, this`history, this`past
      ensures Valid()
      ensures EdgeMap() == old(EdgeMap())[TerminalIds(e) := e]
      ensures after[StartId(e)] == old(after[StartId(e)]) + [EndId(e)]
      ensures before[EndId(e)] == old(before[EndId(e)]) + [StartId(e)]
      ensures history == PushBack(old(history), limit, AddEdge(e)).0
      ensures LoggedFrom(old(Abs()))
    {
      ghost var prior := Abs();
      AbsWellFormed();
      InsertEdgeUnregistered(e);
      var evicted := RegisterChange(AddEdge(e), prior);
    }

    /** `remove_edge`: an absent pair is an error; otherwise swap-remove the edge and log
        `RemoveEdge` with it. */
    method RemoveEdge(s: Id, t: Id) returns (r: Result<()>)
      requires Valid()
      modifies this`nodes, this`edges, this`before, this`after, this`pos, this`history, this`past
      ensures Valid()
      ensures r.Err? <==> (s, t) !in old(EdgeMap())
      ensures r.Err? ==> r.msg == EDGE_NOT_FOUND && unchanged(this)
      ensures r.Ok? ==> nodes == old(nodes) && EdgeMap() == old(EdgeMap()) - {(s, t)}
      ensures r.Ok? ==> history == PushBack(old(history), limit, Components.RemoveEdge(old(EdgeMap())[(s, t)])).0
      ensures r.Ok? ==> LoggedFrom(old(Abs()))
    {
      PairPresence(s, t);
      var change := CheckRemoveEdge<TN, TE>(edges, s, t);
      var got := TryGetEdge(change);
      if got.Err? {
        return Err(got.msg);
      }
      var edgeIndex := EdgeIndex(s, t);
      assert edgeIndex.Some?;
      ghost var prior := Abs();
      assert change.edge == prior.edges[(s, t)] == edges[edgeIndex.value];
      assert TerminalIds(edges[edgeIndex.value]) == (s, t);
      AbsWellFormed();
      RemoveEdgeUnregistered(edgeIndex.value);
      assert Recorded(prior, change, Abs());
      var evicted := RegisterChange(change, prior);
      return Ok(());
    }
  
    /** The store part of `insert_node_along`: the new node, then the edge at `index` swapped
        for its two halves. */
    method SubdivideUnregistered(n: Node<TN>, index: nat)
      requires StoreValid() && NodeId(n) !in nodes && index < |edges|
      modifies this`nodes, this`edges, this`before, this`after, this`pos
      ensures StoreValid()
      ensures Abs() == Snapshot(old(nodes)[NodeId(n) := n], Subdivide(old(EdgeMap()), old(edges)[index], NodeId(n)))
    {
      var e := edges[index];
      ghost var m := EdgeMap();
      AbsWellFormed();
      assert (StartId(e), NodeId(n)) !in m && (NodeId(n), EndId(e)) !in m;
      InsertNodeUnregistered(n);
      RemoveEdgeUnregistered(index);
      assert EdgeMap() == m - {TerminalIds(e)};
      InsertHalvesUnregistered(e, NodeId(n));
    }

    /** The two `insert_edge_unregistered` calls of `insert_node_along`: `e`'s payload on an
        edge into the node `id`, then a bare edge from `id` to `e`'s end. */
    method InsertHalvesUnregistered(e: Edge<TE>, id: Id)
      requires StoreValid() && id in nodes && StartId(e) in nodes && EndId(e) in nodes && StartId(e) != id
      requires (StartId(e), id) !in EdgeMap() && (id, EndId(e)) !in EdgeMap()
      modifies this`edges, this`before, this`after, this`pos
      ensures StoreValid()
      ensures EdgeMap() == old(EdgeMap())[(StartId(e), id) := ChangeEnd(e, id)][(id, EndId(e)) := BareEdge(id, EndId(e))]
    {
      InsertEdgeUnregistered(ChangeEnd(e, id));
      assert (id, EndId(e)) !in EdgeMap();
      InsertEdgeUnregistered(BareEdge(id, EndId(e)));
    }

    /** `insert_node_along`: an id in use, then a missing edge, is an error; otherwise add a bare
        node `newId`, replace the edge `(idBefore, idAfter)` by one from `idBefore` to `newId`
        carrying the old payload and a bare one from `newId` to `idAfter`, and log
        `InsertNodeAlongEdge` with the old edge. */
    method InsertNodeAlong(newId: Id, idBefore: Id, idAfter: Id) returns (r: Result<()>)
      requires Valid()
      modifies this`nodes, this`edges, this`before, this`after, this`pos, this`history, this`past
      ensures Valid()
      ensures r.Err? <==> newId in old(nodes) || (idBefore, idAfter) !in old(EdgeMap())
      ensures r.Err? ==> unchanged(this)
      ensures r.Err? ==> r.msg == if newId in old(nodes) then NODE_EXISTS else EDGE_NOT_FOUND
      ensures r.Ok? ==> nodes == old(nodes)[newId := BareNode(newId)]
      ensures r.Ok? ==> EdgeMap() == Subdivide(old(EdgeMap()), old(EdgeMap())[(idBefore, idAfter)], newId)
      ensures r.Ok? ==> history == PushBack(old(history), limit, InsertNodeAlongEdge(BareNode(newId), old(EdgeMap())[(idBefore, idAfter)])).0
      ensures r.Ok? ==> LoggedFrom(old(Abs()))
    {
      var addNode := CheckAddNode<TN, TE>(nodes, BareNode(newId));
      var gotNode := TryGetNode(addNode);
      if gotNode.Err? {
        return Err(gotNode.msg);
      }
      var newNode := gotNode.value;
      PairPresence(idBefore, idAfter);
      var removeEdge := CheckRemoveEdge<TN, TE>(edges, idBefore, idAfter);
      var gotEdge := TryGetEdge(removeEdge);
      if gotEdge.Err? {
        return Err(gotEdge.msg);
      }
      var oldEdge := gotEdge.value;
      var edgeIndex := EdgeIndex(idBefore, idAfter);
      assert edgeIndex.Some?;
      ghost var prior := Abs();
      assert oldEdge == prior.edges[(idBefore, idAfter)] == edges[edgeIndex.value];
      AbsWellFormed();
      SubdivideUnregistered(newNode, edgeIndex.value);
      assert Recorded(prior, InsertNodeAlongEdge(newNode, oldEdge), Abs());
      var evicted := RegisterChange(InsertNodeAlongEdge(newNode, oldEdge), prior);
      return Ok(());
    }

    /** The two optional `insert_node_unregistered` calls of `insert_edge_with_nodes`: a bare
        node for each id given. */
    method InsertBareTerminals(newIn: Option<Id>, newOut: Option<Id>)
      requires StoreValid()
      requires newIn.Some? ==> Isolated(newIn.value)
      requires newOut.Some? ==> Isolated(newOut.value)
      modifies this`nodes, this`before, this`after
      ensures StoreValid()
      ensures nodes == WithBare(WithBare(old(nodes), newIn), newOut)
    {
      if newIn.Some? {
        InsertNodeUnregistered(BareNode(newIn.value));
      }
      if newOut.Some? {
        InsertNodeUnregistered(BareNode(newOut.value));
      }
    }

    /** The store part of `insert_edge_with_nodes`: the missing terminals, then the edge. */
    method InsertEdgeAndTerminals(e: Edge<TE>, newIn: Option<Id>, newOut: Option<Id>)
      requires StoreValid() && TerminalIds(e) !in pos
      requires NewTerminal(nodes, StartId(e), newIn) && NewTerminal(nodes, EndId(e), newOut)
      modifies this`nodes, this`edges, this`before, this`after, this`pos
      ensures StoreValid()
      ensures Abs() == Snapshot(WithBare(WithBare(old(nodes), newIn), newOut), old(EdgeMap())[TerminalIds(e) := e])
    {
      InsertBareTerminals(newIn, newOut);
      InsertEdgeUnregistered(e);
    }

    /** `insert_edge_with_nodes`: a duplicate pair is an error; otherwise create a bare node for
        each terminal not yet present, push the bare edge, and log `AddEdgeWith` naming the
        created terminals. */
    method InsertEdgeWithNodes(idIn: Id, idOut: Id) returns (r: Result<()>)
      requires Valid()
      modifies this`nodes, this`edges, this`before, this`after, this`pos, this`history, this`past
      ensures Valid()
      ensures r.Err? <==> (idIn, idOut) in old(EdgeMap())
      ensures r.Err? ==> r.msg == EDGE_EXISTS && unchanged(this)
      ensures r.Ok? ==> nodes == WithBare(WithBare(old(nodes), NewIdIfAbsent(old(nodes), idIn)), NewIdIfAbsent(old(nodes), idOut))
      ensures r.Ok? ==> EdgeMap() == old(EdgeMap())[(idIn, idOut) := BareEdge(idIn, idOut)]
      ensures r.Ok? ==> history == PushBack(old(history), limit, AddEdgeWith(BareEdge(idIn, idOut), NewIdIfAbsent(old(nodes), idIn), NewIdIfAbsent(old(nodes), idOut))).0
      ensures r.Ok? ==> LoggedFrom(old(Abs()))
    {
      PairPresence(idIn, idOut);
      var change := CheckAddEdgeWithNodes<TN, TE>(nodes, edges, idIn, idOut);
      var got := TryGetEdgeWithNodes(change);
      if got.Err? {
        return Err(got.msg);
      }
      var (newEdge, newIn, newOut) := got.value;
      ghost var prior := Abs();
      AbsWellFormed();
      InsertEdgeAndTerminals(newEdge, newIn, newOut);
      var evicted := RegisterChange(change, prior);
      return Ok(());
    }

    // -------------------------------------------------------------------------------------
    // Undo: each logged change is inverted through the same primitives. `g` is the state the
    // change was applied to; each step restores it as an edge set (vector order may differ).

    /** Undo of `AddNode(n)`: remove the node again. */
    method UndoAddNode(n: Node<TN>, ghost g: Snapshot<TN, TE>)
      requires StoreValid() && WellFormed(g) && Recorded(g, AddNode(n), Abs())
      modifies this`nodes, this`edges, this`before, this`after, this`pos
      ensures StoreValid() && Abs() == g
    {
      DetachAbsent(g, NodeId(n));
      DropAdded(g.nodes, NodeId(n), n);
      var _ := RemoveNodeUnregistered(NodeId(n));
    }

    /** Undo of `RemoveNode(n, es)`: put the node back, then push its logged edges in order. */
    method UndoRemoveNode(n: Node<TN>, es: seq<Edge<TE>>, ghost g: Snapshot<TN, TE>)
      requires StoreValid() && WellFormed(g) && Recorded(g, Components.RemoveNode(n, es), Abs())
      modifies this`nodes, this`edges, this`before, this`after, this`pos
      ensures StoreValid() && Abs() == g
    {
      var id := NodeId(n);
      ghost var rest := Detach(g.edges, id);
      RestoreIncident(g, id, es);
      assert EdgeMap() == rest;
      assert forall p :: p in pos ==> p in EdgeMap();
      InsertNodeUnregistered(n);
      RestoreKey(g.nodes, id, n);
      assert EdgeMap() == rest;
      InsertListedUnregistered(es, rest);
    }

    /** Push a list of edges with distinct pairs, none already present and all between nodes:
        the edge set gains exactly the listed edges. */
    method InsertListedUnregistered(es: seq<Edge<TE>>, ghost rest: EdgeSet<TE>)
      requires StoreValid() && EdgeMap() == rest && PairsDistinct(es)
      requires forall p :: p in rest ==> p !in ListedMap(es)
      requires forall i :: 0 <= i < |es| ==> StartId(es[i]) in nodes && EndId(es[i]) in nodes
      modifies this`edges, this`before, this`after, this`pos
      ensures StoreValid() && EdgeMap() == rest + ListedMap(es)
    {
      for i := 0 to |es|
        modifies this`edges, this`before, this`after, this`pos
        invariant StoreValid()
        invariant EdgeMap() == rest + ListedMap(es[..i])
      {
        ListedStep(rest, es, i);
        PairPresence(StartId(es[i]), EndId(es[i]));
        assert (StartId(es[i]), EndId(es[i])) == TerminalIds(es[i]);
        InsertEdgeUnregistered(es[i]);
      }
      assert es[..|es|] == es;
    }

    /** Undo of `AddEdge(e)`: find the edge by its terminals and remove it. */
    method UndoAddEdge(e: Edge<TE>, ghost g: Snapshot<TN, TE>)
      requires StoreValid() && WellFormed(g) && Recorded(g, AddEdge(e), Abs())
      modifies this`edges, this`before, this`after, this`pos
      ensures StoreValid() && Abs() == g
    {
      PairPresence(StartId(e), EndId(e));
      assert (StartId(e), EndId(e)) == TerminalIds(e) && TerminalIds(e) in EdgeMap();
      var edgeIndex := EdgeIndex(StartId(e), EndId(e));
      RemoveEdgeUnregistered(edgeIndex.value);
      RemoveAdded(g.edges, e);
      assert EdgeMap() == g.edges;
    }

    /** Undo of `AddEdgeWith(e, newStart, newEnd)`, as written: remove each created terminal
        (which takes the edge with it), then the edge if it is still there. For a self-loop on a
        created node both ids are the same node, and the second removal finds it gone: its
        `unwrap` panics, which is reported as `true`; the first removal has already restored the
        earlier state by then. */
    method UndoAddEdgeWith(e: Edge<TE>, newStart: Option<Id>, newEnd: Option<Id>, ghost g: Snapshot<TN, TE>) returns (panicked: bool)
      requires StoreValid() && WellFormed(g) && Recorded(g, AddEdgeWith(e, newStart, newEnd), Abs())
      modifies this`nodes, this`edges, this`before, this`after, this`pos
      ensures panicked <==> newStart.Some? && newEnd.Some? && newStart.value == newEnd.value
      ensures StoreValid() && Abs() == g
    {
      panicked := RemoveCreatedTerminals(e, newStart, newEnd, g);
      if panicked {
        return;
      }
      assert (StartId(e), EndId(e)) == TerminalIds(e);
      if newStart.None? && newEnd.None? {
        RemoveAdded(g.edges, e);
      }
      RemoveEdgeIfPresent(StartId(e), EndId(e));
    }

    /** Undo of `AddEdgeWith` as evidently intended: a created terminal is removed once, even
        when it is both the start and the end, so the undo always completes. */
    method UndoAddEdgeWithCorrected(e: Edge<TE>, newStart: Option<Id>, newEnd: Option<Id>, ghost g: Snapshot<TN, TE>)
      requires StoreValid() && WellFormed(g) && Recorded(g, AddEdgeWith(e, newStart, newEnd), Abs())
      modifies this`nodes, this`edges, this`before, this`after, this`pos
      ensures StoreValid() && Abs() == g
    {
      var skipped := RemoveCreatedTerminals(e, newStart, newEnd, g);
      assert (StartId(e), EndId(e)) == TerminalIds(e);
      if newStart.None? && newEnd.None? {
        RemoveAdded(g.edges, e);
      }
      RemoveEdgeIfPresent(StartId(e), EndId(e));
    }

    /** The node removals of undoing `AddEdgeWith`: each created terminal is removed, unless
        the second one is the first again, where the source panics. Afterwards the nodes are
        those before the change, and the edge is still there only if no terminal was created. */
    method RemoveCreatedTerminals(e: Edge<TE>, newStart: Option<Id>, newEnd: Option<Id>, ghost g: Snapshot<TN, TE>) returns (panicked: bool)
      requires StoreValid() && WellFormed(g) && Recorded(g, AddEdgeWith(e, newStart, newEnd), Abs())
      modifies this`nodes, this`edges, this`before, this`after, this`pos
      ensures panicked <==> newStart.Some? && newEnd.Some? && newStart.value == newEnd.value
      ensures StoreValid() && nodes == g.nodes
      ensures EdgeMap() == if newStart.None? && newEnd.None? then g.edges[TerminalIds(e) := e] else g.edges
    {
      if newStart.Some? {
        DetachAdded(g, e, newStart.value);
        RemoveCreated(g.nodes, newStart.value, newEnd);
        var _ := RemoveNodeUnregistered(newStart.value);
        if newEnd == newStart {
          return true;
        }
        if newEnd.Some? {
          DetachAbsent(g, newEnd.value);
          DropAdded(g.nodes, newEnd.value, BareNode(newEnd.value));
          var _ := RemoveNodeUnregistered(newEnd.value);
        }
      } else if newEnd.Some? {
        DetachAdded(g, e, newEnd.value);
        DropAdded(g.nodes, newEnd.value, BareNode(newEnd.value));
        var _ := RemoveNodeUnregistered(newEnd.value);
      }
      return false;
    }

    /** The last step of undoing `AddEdgeWith`: remove the edge `(s, t)` if there is one. */
    method RemoveEdgeIfPresent(s: Id, t: Id)
      requires StoreValid()
      modifies this`edges, this`before, this`after, this`pos
      ensures StoreValid()
      ensures (s, t) in old(EdgeMap()) ==> EdgeMap() == old(EdgeMap()) - {(s, t)}
      ensures (s, t) !in old(EdgeMap()) ==> EdgeMap() == old(EdgeMap())
    {
      PairPresence(s, t);
      var edgeIndex := EdgeIndex(s, t);
      if edgeIndex.Some? {
        RemoveEdgeUnregistered(edgeIndex.value);
      }
    }

    /** Undo of `RemoveEdge(e)`: push the logged edge back. */
    method UndoRemoveEdge(e: Edge<TE>, ghost g: Snapshot<TN, TE>)
      requires StoreValid() && WellFormed(g) && Recorded(g, Components.RemoveEdge(e), Abs())
      modifies this`edges, this`before, this`after, this`pos
      ensures StoreValid() && Abs() == g
    {
      InsertEdgeUnregistered(e);
      ReinsertRemoved(g.edges, e);
      assert EdgeMap() == g.edges;
    }

    /** Undo of `InsertNodeAlongEdge(n, e)`: remove the new node, which takes both halves with
        it, then push the original edge back. */
    method UndoInsertNodeAlong(n: Node<TN>, e: Edge<TE>, ghost g: Snapshot<TN, TE>)
      requires StoreValid() && WellFormed(g) && Recorded(g, InsertNodeAlongEdge(n, e), Abs())
      modifies this`nodes, this`edges, this`before, this`after, this`pos
      ensures StoreValid() && Abs() == g
    {
      DetachSubdivide(g, e, NodeId(n));
      DropAdded(g.nodes, NodeId(n), n);
      var _ := RemoveNodeUnregistered(NodeId(n));
      assert nodes == g.nodes && EdgeMap() == g.edges - {TerminalIds(e)};
      InsertEdgeUnregistered(e);
      ReinsertRemoved(g.edges, e);
      assert EdgeMap() == g.edges;
    }

    /** `undo`: pop the newest change and reverse it. An empty log is not an error. Apart from
        the self-loop case of `UndoPanics`, the graph is back to the state the change was applied
        to, and the log is one entry shorter; a logged `Failure` is returned as the error. */
    method Undo() returns (r: UndoOutcome)
      requires Valid()
      modifies this`nodes, this`edges, this`before, this`after, this`pos, this`history, this`past
      ensures old(history) == [] ==> r == Finished(Ok(())) && history == [] && Valid() && Abs() == old(Abs())
      ensures old(history) != [] ==> history == old(history)[..|old(history)| - 1]
      ensures r.Panicked? <==> old(history) != [] && UndoPanics(old(history)[|old(history)| - 1])
      ensures old(history) != [] ==>
        Valid() && Abs() == old(past)[|old(past)| - 1] && past == old(past)[..|old(past)| - 1]
      ensures r.Finished? && r.result.Err? <==> old(history) != [] && old(history)[|old(history)| - 1].Failure?
      ensures r.Finished? && r.result.Err? ==> r.result.msg == old(history)[|old(history)| - 1].reason
    {
      var c, g := PopLogged();
      if c.None? {
        return Finished(Ok(()));
      }
      r := ReverseChange(c.value, g);
    }

    /** `pop_change` together with the state the popped change was applied to, which the log
        before it leads up to. */
    method PopLogged() returns (c: Option<GraphChange<TN, TE>>, ghost g: Snapshot<TN, TE>)
      requires Valid()
      modifies this`history, this`past
      ensures c.None? <==> old(history) == []
      ensures c.None? ==> history == [] && Valid()
      ensures c.Some? ==> var n := |old(history)| - 1;
        c.value == old(history)[n] && history == old(history)[..n] && g == old(past)[n] &&
        past == old(past)[..n] && WellFormed(g) && Recorded(g, c.value, Abs()) && Chain(past, history, g)
    {
      g := Abs();
      c := PopChange();
      if c.Some? {
        ghost var n := |past| - 1;
        ChainPop(past, old(history), Abs());
        g := past[n];
        past := past[..n];
      }
    }

    /** The dispatch of `undo` on one popped change, reversing it against the state `g` it was
        applied to. */
    method ReverseChange(c: GraphChange<TN, TE>, ghost g: Snapshot<TN, TE>) returns (r: UndoOutcome)
      requires StoreValid() && WellFormed(g) && Recorded(g, c, Abs())
      modifies this`nodes, this`edges, this`before, this`after, this`pos
      ensures StoreValid() && Abs() == g
      ensures r.Panicked? <==> UndoPanics(c)
      ensures r.Finished? && r.result.Err? <==> c.Failure?
      ensures r.Finished? && r.result.Err? ==> r.result.msg == c.reason
    {
      r := Finished(Ok(()));
      match c {
        case AddNode(node) =>
          UndoAddNode(node, g);
        case RemoveNode(node, es) =>
          UndoRemoveNode(node, es, g);
        case AddEdge(e) =>
          UndoAddEdge(e, g);
        case AddEdgeWith(e, newStart, newEnd) =>
          var panicked := UndoAddEdgeWith(e, newStart, newEnd, g);
          if panicked {
            r := Panicked;
          }
        case RemoveEdge(e) =>
          UndoRemoveEdge(e, g);
        case InsertNodeAlongEdge(node, e) =>
          UndoInsertNodeAlong(node, e, g);
        case Failure(msg) =>
          r := Finished(Err(msg));
      }
    }
  }

  /** A removed node keeps its adjacency entries: right after `remove_node(0)` on a graph whose
      only node was 0, `in_degree(0)` and `out_degree(0)` are `Some(0)`, not `None`, and the
      documented degrees `NodeInDegree`/`NodeOutDegree` are `None`. */
  method StaleDegreeExample() returns (inDeg: Option<nat>, outDeg: Option<nat>, present: bool, documented: Option<nat>)
    ensures inDeg == Some(0) && outDeg == Some(0) && !present && documented == None
  {
    var g := new DiGraph<(), ()>.Default();
    var added := g.InsertNode(BareNode(0));
    var removed := g.RemoveNode(0);
    inDeg := g.InDegree(0);
    outDeg := g.OutDegree(0);
    present := g.GetNode(0).Some?;
    documented := g.NodeInDegree(0);
  }

  /** A self-loop on a new id: `insert_edge_with_nodes(0, 0)` on an empty graph logs the created
      id as both terminals, and the following `undo` panics. */
  method SelfLoopUndoExample() returns (r: UndoOutcome)
    ensures r == Panicked
  {
    var g := new DiGraph<(), ()>.Default();
    var inserted := g.InsertEdgeWithNodes(0, 0);
    r := g.Undo();
  }
}
