/** Identifiers, node and edge types and the change descriptor of the map-keyed design
    (arboreal/src/graph_base/graph_components.rs).

    In the library, nodes and edges are caller types implementing two traits: a node can be built
    bare from an id and reports its id; an edge can be built bare from its two terminals, reports
    them, and can have either terminal rewritten. The model fixes one such type each, a record of
    the identifying fields and an optional payload, and proves the contracts the trait
    documentation asks callers to uphold. */
module Components {
  import opened Wrappers

  /** Number of distinct identifiers: `Id` is a 16-bit unsigned integer. */
  const ID_LIMIT: int := 0x1_0000

  type Id = x: int | 0 <= x < ID_LIMIT

  /** The node type: an id and an optional payload. */
  datatype Node<TN> = Node(id: Id, data: Option<TN>)

  /** The edge type: start and end terminals and an optional payload. */
  datatype Edge<TE> = Edge(start: Id, end: Id, data: Option<TE>)

  /** `Nodal::bare`: a node with this id and no payload. */
  function BareNode<TN>(id: Id): (n: Node<TN>)
    ensures NodeId(n) == id && n.data == None
  {
    Node(id, None)
  }

  /** `Nodal::node_id`. */
  function NodeId<TN>(n: Node<TN>): Id
  {
    n.id
  }

  /** `DirEdge::bare`: an edge with these terminals and no payload. */
  function BareEdge<TE>(start: Id, end: Id): (e: Edge<TE>)
    ensures TerminalIds(e) == (start, end) && e.data == None
  {
    Edge(start, end, None)
  }

  /** `DirEdge::terminal_ids`. */
  function TerminalIds<TE>(e: Edge<TE>): (Id, Id)
  {
    (e.start, e.end)
  }

  /** `DirEdge::change_start`: only the start terminal is rewritten. */
  function ChangeStart<TE>(e: Edge<TE>, newStart: Id): (r: Edge<TE>)
    ensures TerminalIds(r) == (newStart, EndId(e)) && r.data == e.data
  {
    e.(start := newStart)
  }

  /** `DirEdge::change_end`: only the end terminal is rewritten. */
  function ChangeEnd<TE>(e: Edge<TE>, newEnd: Id): (r: Edge<TE>)
    ensures TerminalIds(r) == (StartId(e), newEnd) && r.data == e.data
  {
    e.(end := newEnd)
  }

  /** `DirEdge::start_id`, the default method over `terminal_ids`. */
  function StartId<TE>(e: Edge<TE>): Id
  {
    TerminalIds(e).0
  }

  /** `DirEdge::end_id`, the default method over `terminal_ids`. */
  function EndId<TE>(e: Edge<TE>): Id
  {
    TerminalIds(e).1
  }

  /** The default terminal accessors agree with the stored terminals, and rewriting one terminal
      with its own value changes nothing. */
  lemma DefaultTerminalAccessors<TE>(e: Edge<TE>)
    ensures TerminalIds(e) == (StartId(e), EndId(e))
    ensures StartId(e) == e.start && EndId(e) == e.end
    ensures ChangeEnd(e, EndId(e)) == e && ChangeStart(e, StartId(e)) == e
  {
  }

  /** A record of one committed mutation, carrying what undo needs to invert it. */
  datatype GraphChange<TN, TE> =
    | AddNode(node: Node<TN>)
    | RemoveNode(node: Node<TN>, edges: seq<Edge<TE>>)
    | AddEdge(edge: Edge<TE>)
    | AddEdgeWith(edge: Edge<TE>, newStart: Option<Id>, newEnd: Option<Id>)
    | RemoveEdge(edge: Edge<TE>)
    | InsertNodeAlongEdge(node: Node<TN>, edge: Edge<TE>)
    | Failure(reason: string)

  /** The variants that carry a single edge. */
  predicate CarriesEdge<TN, TE>(c: GraphChange<TN, TE>)
  {
    c.AddEdge? || c.AddEdgeWith? || c.RemoveEdge? || c.InsertNodeAlongEdge?
  }

  /** The variants that carry a node. */
  predicate CarriesNode<TN, TE>(c: GraphChange<TN, TE>)
  {
    c.AddNode? || c.RemoveNode? || c.InsertNodeAlongEdge?
  }

  const NOT_AN_EDGE_VARIANT := "Not an edge variant."
  const USE_EDGE_VEC := "To get Vec of DirEdge, call try_get_edge_vec()."
  const NOT_A_NODE_VARIANT := "Not a node variant."
  const ONLY_REMOVE_NODE := "This method only works with the RemoveNode variant."
  const ONLY_ADD_EDGE_WITH := "This method only works with the AddEdgeWith variant."

  /** `try_get_edge`: the edge of an edge-carrying variant; otherwise an error, which for
      `Failure` is its own reason. */
  function TryGetEdge<TN, TE>(c: GraphChange<TN, TE>): (r: Result<Edge<TE>>)
    ensures r.Ok? <==> CarriesEdge(c)
    ensures r.Ok? ==> r.value == c.edge
    ensures c.Failure? ==> r == Err(c.reason)
    ensures c.RemoveNode? ==> r == Err(USE_EDGE_VEC)
    ensures c.AddNode? ==> r == Err(NOT_AN_EDGE_VARIANT)
  {
    match c
    case AddEdge(e) => Ok(e)
    case AddEdgeWith(e, _, _) => Ok(e)
    case RemoveEdge(e) => Ok(e)
    case InsertNodeAlongEdge(_, e) => Ok(e)
    case RemoveNode(_, _) => Err(USE_EDGE_VEC)
    case Failure(reason) => Err(reason)
    case AddNode(_) => Err(NOT_AN_EDGE_VARIANT)
  }

  /** `try_get_node`: the node of a node-carrying variant; otherwise an error. */
  function TryGetNode<TN, TE>(c: GraphChange<TN, TE>): (r: Result<Node<TN>>)
    ensures r.Ok? <==> CarriesNode(c)
    ensures r.Ok? ==> r.value == c.node
    ensures c.Failure? ==> r == Err(c.reason)
    ensures !CarriesNode(c) && !c.Failure? ==> r == Err(NOT_A_NODE_VARIANT)
  {
    match c
    case AddNode(n) => Ok(n)
    case RemoveNode(n, _) => Ok(n)
    case InsertNodeAlongEdge(n, _) => Ok(n)
    case Failure(reason) => Err(reason)
    case _ => Err(NOT_A_NODE_VARIANT)
  }

  /** `try_get_edge_vec`: only `RemoveNode` yields its edge list. */
  function TryGetEdgeVec<TN, TE>(c: GraphChange<TN, TE>): (r: Result<seq<Edge<TE>>>)
    ensures r.Ok? <==> c.RemoveNode?
    ensures r.Ok? ==> r.value == c.edges
    ensures c.Failure? ==> r == Err(c.reason)
    ensures !c.RemoveNode? && !c.Failure? ==> r == Err(ONLY_REMOVE_NODE)
  {
    match c
    case RemoveNode(_, ev) => Ok(ev)
    case Failure(reason) => Err(reason)
    case _ => Err(ONLY_REMOVE_NODE)
  }

  /** `try_get_edge_with_nodes`: only `AddEdgeWith` yields its edge and both optional ids. */
  function TryGetEdgeWithNodes<TN, TE>(c: GraphChange<TN, TE>): (r: Result<(Edge<TE>, Option<Id>, Option<Id>)>)
    ensures r.Ok? <==> c.AddEdgeWith?
    ensures r.Ok? ==> r.value == (c.edge, c.newStart, c.newEnd)
    ensures c.Failure? ==> r == Err(c.reason)
    ensures !c.AddEdgeWith? && !c.Failure? ==> r == Err(ONLY_ADD_EDGE_WITH)
  {
    match c
    case AddEdgeWith(e, nIn, nOut) => Ok((e, nIn, nOut))
    case Failure(reason) => Err(reason)
    case _ => Err(ONLY_ADD_EDGE_WITH)
  }

  /** Every accessor passes a `Failure` reason through unchanged, so `?` on any of them
      propagates the validator's message. */
  lemma AccessorsPropagateFailure<TN, TE>(reason: string)
    ensures TryGetEdge<TN, TE>(Failure(reason)) == Err(reason)
    ensures TryGetNode<TN, TE>(Failure(reason)) == Err(reason)
    ensures TryGetEdgeVec<TN, TE>(Failure(reason)) == Err(reason)
    ensures TryGetEdgeWithNodes<TN, TE>(Failure(reason)) == Err(reason)
  {
  }

  /** Only the subdivision descriptor answers both the node and the edge accessor. */
  lemma NodeAndEdgeOnlyForSubdivision<TN, TE>(c: GraphChange<TN, TE>)
    ensures TryGetNode(c).Ok? && TryGetEdge(c).Ok? <==> c.InsertNodeAlongEdge?
  {
  }
}
