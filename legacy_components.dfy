/** The concrete node, edge and change types of the flat-vector design
    (arboreal/src/graph_components.rs), generic in the identifier type `I`.

    `Node::empty`, `Edge::empty` and `Edge::reverse` take `&mut self` on owned, cloneable
    records; they are modelled as functions returning the updated record. */
module LegacyComponents {
  import opened Wrappers

  /** `Node(id, data)`: an id and an optional payload. */
  datatype Node<I, TN> = Node(id: I, data: Option<TN>)

  /** `Edge(start, end, data)`: two terminals and an optional payload. */
  datatype Edge<I, TE> = Edge(start: I, end: I, data: Option<TE>)

  /** `Node::new`. */
  function NewNode<I, TN>(id: I, data: Option<TN>): Node<I, TN>
  {
    Node(id, data)
  }

  /** `Node::bare`. */
  function BareNode<I, TN>(id: I): Node<I, TN>
  {
    Node(id, None)
  }

  /** `Node::empty`: the payload is cleared. */
  function EmptyNode<I, TN>(n: Node<I, TN>): Node<I, TN>
  {
    n.(data := None)
  }

  /** `Edge::new`. */
  function NewEdge<I, TE>(idIn: I, idOut: I, data: Option<TE>): Edge<I, TE>
  {
    Edge(idIn, idOut, data)
  }

  /** `Edge::bare`. */
  function BareEdge<I, TE>(idIn: I, idOut: I): Edge<I, TE>
  {
    Edge(idIn, idOut, None)
  }

  /** `Edge::empty`: the payload is cleared. */
  function EmptyEdge<I, TE>(e: Edge<I, TE>): Edge<I, TE>
  {
    e.(data := None)
  }

  /** `Edge::reverse`: the old end becomes the start and the old start the end. */
  function Reverse<I, TE>(e: Edge<I, TE>): Edge<I, TE>
  {
    Edge(e.end, e.start, e.data)
  }

  /** The node constructors store their arguments; `bare` is `new` without a payload, and
      emptying any node gives the bare node of its id. */
  lemma NodeConstructors<I, TN>(id: I, data: Option<TN>)
    ensures NewNode(id, data).id == id && NewNode(id, data).data == data
    ensures BareNode<I, TN>(id) == NewNode(id, None)
    ensures EmptyNode(NewNode(id, data)) == BareNode(id)
    ensures EmptyNode(EmptyNode(NewNode(id, data))) == EmptyNode(NewNode(id, data))
  {
  }

  /** The edge constructors store their arguments; emptying keeps both terminals; reversing
      swaps them, keeps the payload, is its own inverse, and commutes with emptying. */
  lemma EdgeConstructors<I, TE>(idIn: I, idOut: I, data: Option<TE>)
    ensures NewEdge(idIn, idOut, data) == Edge(idIn, idOut, data)
    ensures BareEdge<I, TE>(idIn, idOut) == NewEdge(idIn, idOut, None)
    ensures EmptyEdge(NewEdge(idIn, idOut, data)) == BareEdge(idIn, idOut)
    ensures Reverse(NewEdge(idIn, idOut, data)) == NewEdge(idOut, idIn, data)
  {
  }

  /** Reversing twice is the identity, and reversing commutes with emptying. */
  lemma ReverseInvolution<I, TE>(e: Edge<I, TE>)
    ensures Reverse(Reverse(e)) == e
    ensures EmptyEdge(Reverse(e)) == Reverse(EmptyEdge(e))
    ensures Reverse(e).start == e.end && Reverse(e).end == e.start && Reverse(e).data == e.data
  {
  }

  /** The change descriptor of the flat-vector design. Here the subdivision records only the
      new node's id, and there are two data-change variants. */
  datatype GraphChange<I, TN, TE> =
    | AddNode(node: Node<I, TN>)
    | RemoveNode(node: Node<I, TN>, edges: seq<Edge<I, TE>>)
    | ChangeNodeData(node: Node<I, TN>)
    | AddEdge(edge: Edge<I, TE>)
    | AddEdgeWith(edge: Edge<I, TE>, newIn: Option<I>, newOut: Option<I>)
    | RemoveEdge(edge: Edge<I, TE>)
    | ChangeEdgeData(edge: Edge<I, TE>)
    | InsertNodeAlongEdge(id: I, edge: Edge<I, TE>)
    | Failure(reason: string)

  /** The variants that carry a single edge. */
  predicate CarriesEdge<I, TN, TE>(c: GraphChange<I, TN, TE>)
  {
    c.AddEdge? || c.AddEdgeWith? || c.RemoveEdge? || c.ChangeEdgeData? || c.InsertNodeAlongEdge?
  }

  /** The variants that carry a whole node. */
  predicate CarriesNode<I, TN, TE>(c: GraphChange<I, TN, TE>)
  {
    c.AddNode? || c.RemoveNode? || c.ChangeNodeData?
  }

  const NOT_AN_EDGE_VARIANT := "Not an edge variant."
  const USE_EDGE_VEC := "To get Vec of Edge, call try_get_edge_vec()."
  const NOT_A_NODE_VARIANT := "Not a node variant."
  const ONLY_REMOVE_NODE := "This method only works with the RemoveNode variant."
  const ONLY_ADD_EDGE_WITH := "This method only works with the AddEdgeWith variant."

  /** `try_get_edge`: the edge of an edge-carrying variant; `RemoveNode` points to
      `try_get_edge_vec`, `Failure` returns its reason, the node variants are not edge
      variants. */
  function TryGetEdge<I, TN, TE>(c: GraphChange<I, TN, TE>): (r: Result<Edge<I, TE>>)
    ensures r.Ok? <==> CarriesEdge(c)
    ensures r.Ok? ==> r.value == c.edge
    ensures c.Failure? ==> r == Err(c.reason)
    ensures c.RemoveNode? ==> r == Err(USE_EDGE_VEC)
    ensures c.AddNode? || c.ChangeNodeData? ==> r == Err(NOT_AN_EDGE_VARIANT)
  {
    match c
    case AddEdge(e) => Ok(e)
    case AddEdgeWith(e, _, _) => Ok(e)
    case RemoveEdge(e) => Ok(e)
    case ChangeEdgeData(e) => Ok(e)
    case InsertNodeAlongEdge(_, e) => Ok(e)
    case RemoveNode(_, _) => Err(USE_EDGE_VEC)
    case Failure(reason) => Err(reason)
    case _ => Err(NOT_AN_EDGE_VARIANT)
  }

  /** `try_get_node`: the node of `AddNode`, `RemoveNode` or `ChangeNodeData`. The subdivision
      carries only an id, so it is not a node variant here. */
  function TryGetNode<I, TN, TE>(c: GraphChange<I, TN, TE>): (r: Result<Node<I, TN>>)
    ensures r.Ok? <==> CarriesNode(c)
    ensures r.Ok? ==> r.value == c.node
    ensures c.Failure? ==> r == Err(c.reason)
    ensures !CarriesNode(c) && !c.Failure? ==> r == Err(NOT_A_NODE_VARIANT)
  {
    match c
    case AddNode(n) => Ok(n)
    case RemoveNode(n, _) => Ok(n)
    case ChangeNodeData(n) => Ok(n)
    case Failure(reason) => Err(reason)
    case _ => Err(NOT_A_NODE_VARIANT)
  }

  /** `try_get_edge_vec`: only `RemoveNode` yields its edge list. */
  function TryGetEdgeVec<I, TN, TE>(c: GraphChange<I, TN, TE>): (r: Result<seq<Edge<I, TE>>>)
    ensures r.Ok? <==> c.RemoveNode?
    ensures r.Ok? ==> r.value == c.edges
    ensures c.Failure? ==> r == Err(c.reason)
    ensures !c.RemoveNode? && !c.Failure? ==> r == Err(ONLY_REMOVE_NODE)
  {
    match c
    case RemoveNode(_, ev) => Ok(ev)
    case Failure(reason) => Err(reason)
    case _ => Err(ONLY_REMOVE_NODE)
  }

  /** `try_get_edge_with_nodes`: only `AddEdgeWith` yields its edge and both optional ids. */
  function TryGetEdgeWithNodes<I, TN, TE>(c: GraphChange<I, TN, TE>): (r: Result<(Edge<I, TE>, Option<I>, Option<I>)>)
    ensures r.Ok? <==> c.AddEdgeWith?
    ensures r.Ok? ==> r.value == (c.edge, c.newIn, c.newOut)
    ensures c.Failure? ==> r == Err(c.reason)
    ensures !c.AddEdgeWith? && !c.Failure? ==> r == Err(ONLY_ADD_EDGE_WITH)
  {
    match c
    case AddEdgeWith(e, nIn, nOut) => Ok((e, nIn, nOut))
    case Failure(reason) => Err(reason)
    case _ => Err(ONLY_ADD_EDGE_WITH)
  }

  /** No descriptor answers both the node and the edge accessor: the subdivision, which does in
      the map-keyed design, answers only the edge accessor here. */
  lemma NodeAndEdgeDisjoint<I, TN, TE>(c: GraphChange<I, TN, TE>)
    ensures !(TryGetNode(c).Ok? && TryGetEdge(c).Ok?)
    ensures c.InsertNodeAlongEdge? ==> TryGetNode(c) == Err(NOT_A_NODE_VARIANT) && TryGetEdge(c) == Ok(c.edge)
  {
  }
}
