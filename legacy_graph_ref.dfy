/** Read-only validators of the flat-vector design (arboreal/src/graph_ref.rs): the nodes are a
    vector searched linearly by id, the edges a vector searched by terminal pair. */
module LegacyGraphRef {
  import opened Wrappers
  import opened LegacyComponents
  import Components
  import GraphRef

  const NODE_EXISTS := "Node with this id already exists."
  const NODE_NOT_FOUND := "Node with this id not found."
  const EDGE_EXISTS := "Edge with these terminals already exists."
  const TERMINALS_NOT_FOUND := "Terminals not found in graph."
  const EDGE_NOT_FOUND := "Edge not found in graph."

  /** The first index whose node has id `id`, or `None` if none has. */
  function FindNode<I(==), TN>(nodes: seq<Node<I, TN>>, id: I): (r: Option<nat>)
    ensures r.Some? ==> r.value < |nodes| && nodes[r.value].id == id
    ensures r.Some? ==> forall j :: 0 <= j < r.value ==> nodes[j].id != id
    ensures r.None? <==> forall j :: 0 <= j < |nodes| ==> nodes[j].id != id
  {
    if nodes == [] then None
    else if nodes[0].id == id then Some(0)
    else
      match FindNode(nodes[1..], id)
      case None =>
        assert forall j :: 1 <= j < |nodes| ==> nodes[j] == nodes[1..][j - 1];
        None
      case Some(k) =>
        assert forall j :: 1 <= j < k + 1 ==> nodes[j] == nodes[1..][j - 1];
        Some(k + 1)
  }

  /** `node_index`: scan the node vector, returning at the first node with that id. */
  method NodeIndex<I(==), TN>(nodes: seq<Node<I, TN>>, queryId: I) returns (r: Option<nat>)
    ensures r == FindNode(nodes, queryId)
  {
    for index := 0 to |nodes|
      invariant forall j :: 0 <= j < index ==> nodes[j].id != queryId
    {
      if nodes[index].id == queryId {
        return Some(index);
      }
    }
    return None;
  }

  /** The first index whose edge runs from `idIn` to `idOut`, or `None` if none does. */
  function FindEdge<I(==), TE>(edges: seq<Edge<I, TE>>, idIn: I, idOut: I): (r: Option<nat>)
    ensures r.Some? ==> r.value < |edges| && edges[r.value].start == idIn && edges[r.value].end == idOut
    ensures r.Some? ==> forall j :: 0 <= j < r.value ==> !(edges[j].start == idIn && edges[j].end == idOut)
    ensures r.None? <==> forall j :: 0 <= j < |edges| ==> !(edges[j].start == idIn && edges[j].end == idOut)
  {
    if edges == [] then None
    else if edges[0].start == idIn && edges[0].end == idOut then Some(0)
    else
      match FindEdge(edges[1..], idIn, idOut)
      case None =>
        assert forall j :: 1 <= j < |edges| ==> edges[j] == edges[1..][j - 1];
        None
      case Some(k) =>
        assert forall j :: 1 <= j < k + 1 ==> edges[j] == edges[1..][j - 1];
        Some(k + 1)
  }

  /** `edge_index`: scan the edge vector, returning at the first edge from `idIn` to `idOut`. */
  method EdgeIndex<I(==), TE>(edges: seq<Edge<I, TE>>, idIn: I, idOut: I) returns (r: Option<nat>)
    ensures r == FindEdge(edges, idIn, idOut)
  {
    for index := 0 to |edges|
      invariant forall j :: 0 <= j < index ==> !(edges[j].start == idIn && edges[j].end == idOut)
    {
      if edges[index].start == idIn && edges[index].end == idOut {
        return Some(index);
      }
    }
    return None;
  }

  /** `check_add_node`: a `Failure` exactly when some node already has the id, else `AddNode`
      of the node as given. */
  function CheckAddNode<I(==), TN, TE>(nodes: seq<Node<I, TN>>, newNode: Node<I, TN>): (r: GraphChange<I, TN, TE>)
    ensures r.Failure? <==> exists j :: 0 <= j < |nodes| && nodes[j].id == newNode.id
    ensures r.Failure? ==> r.reason == NODE_EXISTS
    ensures !r.Failure? ==> r == AddNode(newNode)
  {
    if FindNode(nodes, newNode.id).Some? then Failure(NODE_EXISTS) else AddNode(newNode)
  }

  /** Number of edges ending at `id`. */
  function InCount<I(==), TE>(edges: seq<Edge<I, TE>>, id: I): nat
  {
    if edges == [] then 0
    else InCount(edges[..|edges| - 1], id) + (if edges[|edges| - 1].end == id then 1 else 0)
  }

  /** Number of edges starting at `id`. */
  function OutCount<I(==), TE>(edges: seq<Edge<I, TE>>, id: I): nat
  {
    if edges == [] then 0
    else OutCount(edges[..|edges| - 1], id) + (if edges[|edges| - 1].start == id then 1 else 0)
  }

  /** A count is zero exactly when no edge has `id` at that end. */
  lemma {:induction false} CountsZeroIff<I, TE>(edges: seq<Edge<I, TE>>, id: I)
    ensures InCount(edges, id) == 0 <==> forall j :: 0 <= j < |edges| ==> edges[j].end != id
    ensures OutCount(edges, id) == 0 <==> forall j :: 0 <= j < |edges| ==> edges[j].start != id
  {
    if edges != [] {
      var p := edges[..|edges| - 1];
      CountsZeroIff(p, id);
      assert forall j :: 0 <= j < |p| ==> p[j] == edges[j];
    }
  }

  /** `check_node_degrees`: one pass over the edges counting (ends at `id`, starts at `id`);
      the in-degree comes first here. */
  method CheckNodeDegrees<I(==), TE>(edges: seq<Edge<I, TE>>, id: I) returns (degs: (nat, nat))
    ensures degs == (InCount(edges, id), OutCount(edges, id))
  {
    degs := (0, 0);
    for i := 0 to |edges|
      invariant degs == (InCount(edges[..i], id), OutCount(edges[..i], id))
    {
      assert edges[..i + 1][..i] == edges[..i];
      if edges[i].end == id {
        degs := (degs.0 + 1, degs.1);
      }
      if edges[i].start == id {
        degs := (degs.0, degs.1 + 1);
      }
    }
    assert edges[..|edges|] == edges;
  }

  /** One flat-vector edge as an edge of the map-keyed design. */
  function ToCanonical<TE>(e: Edge<Components.Id, TE>): (r: Components.Edge<TE>)
    ensures Components.TerminalIds(r) == (e.start, e.end)
  {
    Components.Edge(e.start, e.end, e.data)
  }

  /** The flat-vector edges as edges of the map-keyed design, in the same order. */
  function Canonical<TE>(edges: seq<Edge<Components.Id, TE>>): (r: seq<Components.Edge<TE>>)
    ensures |r| == |edges|
  {
    if edges == [] then []
    else Canonical(edges[..|edges| - 1]) + [ToCanonical(edges[|edges| - 1])]
  }

  /** The two designs count degrees alike but order the pair differently: the flat-vector
      validator puts the in-degree first, the map-keyed one the out-degree. */
  lemma {:induction false} DegreeOrderSwapped<TE>(edges: seq<Edge<Components.Id, TE>>, id: Components.Id)
    ensures InCount(edges, id) == GraphRef.InCount(Canonical(edges), id)
    ensures OutCount(edges, id) == GraphRef.OutCount(Canonical(edges), id)
  {
    if edges != [] {
      var p := edges[..|edges| - 1];
      DegreeOrderSwapped(p, id);
      var c := Canonical(edges);
      assert c == Canonical(p) + [ToCanonical(edges[|edges| - 1])];
      assert c[..|c| - 1] == Canonical(p);
    }
  }

  /** The edge has `id` as a terminal. */
  predicate Touches<I(==), TE>(e: Edge<I, TE>, id: I)
  {
    e.start == id || e.end == id
  }

  /** The edges with `id` as a terminal, in edge-vector order. */
  function IncidentEdges<I(==), TE>(edges: seq<Edge<I, TE>>, id: I): seq<Edge<I, TE>>
  {
    if edges == [] then []
    else
      var last := edges[|edges| - 1];
      IncidentEdges(edges[..|edges| - 1], id) + (if Touches(last, id) then [last] else [])
  }

  /** The incident edges are exactly the edges that touch `id`. */
  lemma {:induction false} IncidentEdgesMembers<I, TE>(edges: seq<Edge<I, TE>>, id: I)
    ensures forall e :: e in IncidentEdges(edges, id) <==> e in edges && Touches(e, id)
  {
    if edges != [] {
      var p := edges[..|edges| - 1];
      IncidentEdgesMembers(p, id);
      assert edges == p + [edges[|edges| - 1]];
    }
  }

  /** `check_remove_node`: a `Failure` when no node has the id; otherwise the first node with
      that id and every edge incident on it, gathered in one pass in edge-vector order. */
  method CheckRemoveNode<I(==), TN, TE>(nodes: seq<Node<I, TN>>, edges: seq<Edge<I, TE>>, id: I) returns (r: GraphChange<I, TN, TE>)
    ensures FindNode(nodes, id).None? ==> r == Failure(NODE_NOT_FOUND)
    ensures FindNode(nodes, id).Some? ==> r == RemoveNode(nodes[FindNode(nodes, id).value], IncidentEdges(edges, id))
  {
    var index := NodeIndex(nodes, id);
    if index.None? {
      return Failure(NODE_NOT_FOUND);
    }
    var nodeToDiscard := nodes[index.value];
    var edgesToDrop := [];
    for i := 0 to |edges|
      invariant edgesToDrop == IncidentEdges(edges[..i], id)
    {
      assert edges[..i + 1][..i] == edges[..i];
      if edges[i].start == id || edges[i].end == id {
        edgesToDrop := edgesToDrop + [edges[i]];
      }
    }
    assert edges[..|edges|] == edges;
    return RemoveNode(nodeToDiscard, edgesToDrop);
  }

  /** Some edge runs from `idIn` to `idOut`. */
  ghost predicate HasEdge<I, TE>(edges: seq<Edge<I, TE>>, idIn: I, idOut: I)
  {
    exists j :: 0 <= j < |edges| && edges[j].start == idIn && edges[j].end == idOut
  }

  /** Some node has id `id`. */
  ghost predicate HasNode<I, TN>(nodes: seq<Node<I, TN>>, id: I)
  {
    exists j :: 0 <= j < |nodes| && nodes[j].id == id
  }

  /** `check_add_edge`: a duplicate pair is reported first; then both terminals must be
      present. */
  function CheckAddEdge<I(==), TN, TE>(nodes: seq<Node<I, TN>>, edges: seq<Edge<I, TE>>, newEdge: Edge<I, TE>): (r: GraphChange<I, TN, TE>)
    ensures HasEdge(edges, newEdge.start, newEdge.end) ==> r == Failure(EDGE_EXISTS)
    ensures r == AddEdge(newEdge) <==>
      !HasEdge(edges, newEdge.start, newEdge.end) && HasNode(nodes, newEdge.start) && HasNode(nodes, newEdge.end)
    ensures !HasEdge(edges, newEdge.start, newEdge.end) && !(HasNode(nodes, newEdge.start) && HasNode(nodes, newEdge.end)) ==>
      r == Failure(TERMINALS_NOT_FOUND)
    ensures r == AddEdge(newEdge) || r == Failure(EDGE_EXISTS) || r == Failure(TERMINALS_NOT_FOUND)
  {
    if FindEdge(edges, newEdge.start, newEdge.end).Some? then Failure(EDGE_EXISTS)
    else if FindNode(nodes, newEdge.start).Some? && FindNode(nodes, newEdge.end).Some? then AddEdge(newEdge)
    else Failure(TERMINALS_NOT_FOUND)
  }

  /** The optional id recorded for a terminal that has no node yet. */
  function NewIdIfAbsent<I(==), TN>(nodes: seq<Node<I, TN>>, id: I): (r: Option<I>)
    ensures r == Some(id) <==> !HasNode(nodes, id)
    ensures r == None <==> HasNode(nodes, id)
  {
    match FindNode(nodes, id)
    case Some(_) => None
    case None => Some(id)
  }

  /** `check_add_edge_with_nodes`: fails only on a duplicate pair; otherwise proposes the bare
      edge and marks exactly the absent terminals as new. */
  function CheckAddEdgeWithNodes<I(==), TN, TE>(nodes: seq<Node<I, TN>>, edges: seq<Edge<I, TE>>, idIn: I, idOut: I): (r: GraphChange<I, TN, TE>)
    ensures r.Failure? <==> HasEdge(edges, idIn, idOut)
    ensures r.Failure? ==> r.reason == EDGE_EXISTS
    ensures !r.Failure? ==> r == AddEdgeWith(BareEdge(idIn, idOut), NewIdIfAbsent(nodes, idIn), NewIdIfAbsent(nodes, idOut))
  {
    if FindEdge(edges, idIn, idOut).Some? then Failure(EDGE_EXISTS)
    else AddEdgeWith(BareEdge(idIn, idOut), NewIdIfAbsent(nodes, idIn), NewIdIfAbsent(nodes, idOut))
  }

  /** `check_remove_edge`: a copy of the first edge from `idIn` to `idOut`, payload included, or
      `Failure("Edge not found in graph.")`. */
  function CheckRemoveEdge<I(==), TN, TE>(edges: seq<Edge<I, TE>>, idIn: I, idOut: I): (r: GraphChange<I, TN, TE>)
    ensures r.Failure? <==> !HasEdge(edges, idIn, idOut)
    ensures r.Failure? ==> r.reason == EDGE_NOT_FOUND
    ensures !r.Failure? ==> r.RemoveEdge? && r.edge.start == idIn && r.edge.end == idOut && r.edge in edges
    ensures !r.Failure? ==> exists j :: FindEdge(edges, idIn, idOut) == Some(j) && r.edge == edges[j]
  {
    match FindEdge(edges, idIn, idOut)
    case Some(index) => RemoveEdge(edges[index])
    case None => Failure(EDGE_NOT_FOUND)
  }
}
