/** Read-only validators of the map-keyed design (arboreal/src/graph_base/graph_ref.rs): each
    turns a requested mutation into a change descriptor or a `Failure`, without changing
    anything; plus the forward-reachability census. */
module GraphRef {
  import opened Wrappers
  import opened Components
  import opened Seqs

  type NodeMap<TN> = map<Id, Node<TN>>

  const NODE_EXISTS := "Node with this id already exists."
  const NODE_NOT_FOUND := "Node with this id not found."
  const EDGE_EXISTS := "Edge with these terminals already exists."
  const TERMINALS_NOT_FOUND := "Terminals not found in graph."
  const EDGE_NOT_FOUND := "Edge not found in graph."

  /** Some edge of `edges` runs from `s` to `t`. */
  ghost predicate HasEdge<TE>(edges: seq<Edge<TE>>, s: Id, t: Id)
  {
    exists j :: 0 <= j < |edges| && TerminalIds(edges[j]) == (s, t)
  }

  /** The first index whose edge runs from `s` to `t`, or `None` if no edge does. */
  function FindEdge<TE>(edges: seq<Edge<TE>>, s: Id, t: Id): (r: Option<nat>)
    ensures r.Some? ==> r.value < |edges| && StartId(edges[r.value]) == s && EndId(edges[r.value]) == t
    ensures r.Some? ==> forall j :: 0 <= j < r.value ==> TerminalIds(edges[j]) != (s, t)
    ensures r.None? <==> forall j :: 0 <= j < |edges| ==> TerminalIds(edges[j]) != (s, t)
  {
    if edges == [] then None
    else if TerminalIds(edges[0]) == (s, t) then Some(0)
    else
      match FindEdge(edges[1..], s, t)
      case None =>
        assert forall j :: 1 <= j < |edges| ==> edges[j] == edges[1..][j - 1];
        None
      case Some(k) =>
        assert forall j :: 1 <= j < k + 1 ==> edges[j] == edges[1..][j - 1];
        Some(k + 1)
  }

  /** `edge_index`: scan the edge list, returning at the first edge from `idIn` to `idOut`. */
  method EdgeIndex<TE>(edges: seq<Edge<TE>>, idIn: Id, idOut: Id) returns (r: Option<nat>)
    ensures r == FindEdge(edges, idIn, idOut)
  {
    var index := 0;
    while index < |edges|
      invariant index <= |edges|
      invariant forall j :: 0 <= j < index ==> TerminalIds(edges[j]) != (idIn, idOut)
    {
      if StartId(edges[index]) == idIn && EndId(edges[index]) == idOut {
        return Some(index);
      }
      index := index + 1;
    }
    return None;
  }

  /** `node_id_present`: whether the node map has the id as a key. */
  predicate NodeIdPresent<TN>(nodes: NodeMap<TN>, id: Id): (r: bool)
    ensures r <==> id in nodes.Keys
  {
    id in nodes
  }

  /** `check_add_node`: a `Failure` exactly when the id is taken, else `AddNode` of the node as
      given. */
  function CheckAddNode<TN, TE>(nodes: NodeMap<TN>, newNode: Node<TN>): (r: GraphChange<TN, TE>)
    ensures r.Failure? <==> NodeId(newNode) in nodes
    ensures r.Failure? ==> r.reason == NODE_EXISTS
    ensures !r.Failure? ==> r == AddNode(newNode)
  {
    if NodeIdPresent(nodes, NodeId(newNode)) then Failure(NODE_EXISTS) else AddNode(newNode)
  }

  /** Number of edges starting at `id`. */
  function OutCount<TE>(edges: seq<Edge<TE>>, id: Id): nat
  {
    if edges == [] then 0
    else OutCount(edges[..|edges| - 1], id) + (if StartId(edges[|edges| - 1]) == id then 1 else 0)
  }

  /** Number of edges ending at `id`. */
  function InCount<TE>(edges: seq<Edge<TE>>, id: Id): nat
  {
    if edges == [] then 0
    else InCount(edges[..|edges| - 1], id) + (if EndId(edges[|edges| - 1]) == id then 1 else 0)
  }

  /** A count is zero exactly when no edge has `id` at that end; so a self-loop at `id` counts
      once on each side. */
  lemma {:induction false} CountsZeroIff<TE>(edges: seq<Edge<TE>>, id: Id)
    ensures OutCount(edges, id) == 0 <==> forall j :: 0 <= j < |edges| ==> StartId(edges[j]) != id
    ensures InCount(edges, id) == 0 <==> forall j :: 0 <= j < |edges| ==> EndId(edges[j]) != id
  {
    if edges != [] {
      var p := edges[..|edges| - 1];
      CountsZeroIff(p, id);
      assert forall j :: 0 <= j < |p| ==> p[j] == edges[j];
    }
  }

  /** `check_node_degrees`: one pass over the edges counting (starts at `id`, ends at `id`). */
  method CheckNodeDegrees<TE>(edges: seq<Edge<TE>>, id: Id) returns (degs: (nat, nat))
    ensures degs == (OutCount(edges, id), InCount(edges, id))
  {
    degs := (0, 0);
    for i := 0 to |edges|
      invariant degs == (OutCount(edges[..i], id), InCount(edges[..i], id))
    {
      assert edges[..i + 1][..i] == edges[..i];
      if StartId(edges[i]) == id {
        degs := (degs.0 + 1, degs.1);
      }
      if EndId(edges[i]) == id {
        degs := (degs.0, degs.1 + 1);
      }
    }
    assert edges[..|edges|] == edges;
  }

  /** The edge has `id` as a terminal. */
  predicate Touches<TE>(e: Edge<TE>, id: Id)
  {
    StartId(e) == id || EndId(e) == id
  }

  /** The edges with `id` as a terminal, in edge-list order. */
  function IncidentEdges<TE>(edges: seq<Edge<TE>>, id: Id): seq<Edge<TE>>
  {
    if edges == [] then []
    else
      var last := edges[|edges| - 1];
      IncidentEdges(edges[..|edges| - 1], id) + (if Touches(last, id) then [last] else [])
  }

  /** The incident edges are exactly the edges that touch `id`, and they are duplicate-free
      when the edge list is. */
  lemma {:induction false} IncidentEdgesMembers<TE>(edges: seq<Edge<TE>>, id: Id)
    ensures forall e :: e in IncidentEdges(edges, id) <==> e in edges && Touches(e, id)
    ensures forall k :: 0 <= k < |IncidentEdges(edges, id)| ==> IncidentEdges(edges, id)[k] in edges
    ensures NoDup(edges) ==> NoDup(IncidentEdges(edges, id))
  {
    if edges != [] {
      var p := edges[..|edges| - 1];
      var last := edges[|edges| - 1];
      IncidentEdgesMembers(p, id);
      assert edges == p + [last];
      if NoDup(edges) {
        assert NoDup(p) by {
          forall i, j | 0 <= i < j < |p| ensures p[i] != p[j] { assert p[i] == edges[i] && p[j] == edges[j]; }
        }
        assert last !in p by {
          forall k | 0 <= k < |p| ensures p[k] != last { assert p[k] == edges[k]; }
        }
        var q := IncidentEdges(p, id);
        var r := IncidentEdges(edges, id);
        if Touches(last, id) {
          forall i, j | 0 <= i < j < |r| ensures r[i] != r[j] {
            if j == |q| { assert r[i] == q[i] && q[i] in q; }
            else { assert r[i] == q[i] && r[j] == q[j]; }
          }
        }
      }
    }
  }

  /** `check_remove_node`: a `Failure` when the id is absent; otherwise the stored node and every
      edge incident on it, gathered in one pass in edge-list order. */
  method CheckRemoveNode<TN, TE>(nodes: NodeMap<TN>, edges: seq<Edge<TE>>, id: Id) returns (r: GraphChange<TN, TE>)
    ensures r == if id !in nodes then Failure(NODE_NOT_FOUND) else RemoveNode(nodes[id], IncidentEdges(edges, id))
  {
    if !NodeIdPresent(nodes, id) {
      return Failure(NODE_NOT_FOUND);
    }
    var nodeToDiscard := nodes[id];
    var edgesToDrop := [];
    for i := 0 to |edges|
      invariant edgesToDrop == IncidentEdges(edges[..i], id)
    {
      assert edges[..i + 1][..i] == edges[..i];
      if Touches(edges[i], id) {
        edgesToDrop := edgesToDrop + [edges[i]];
      }
    }
    assert edges[..|edges|] == edges;
    return RemoveNode(nodeToDiscard, edgesToDrop);
  }

  /** `check_add_edge`: a duplicate pair is reported first; then both terminals must be nodes. */
  function CheckAddEdge<TN, TE>(nodes: NodeMap<TN>, edges: seq<Edge<TE>>, newEdge: Edge<TE>): (r: GraphChange<TN, TE>)
    ensures HasEdge(edges, StartId(newEdge), EndId(newEdge)) ==> r == Failure(EDGE_EXISTS)
    ensures r == AddEdge(newEdge) <==>
      !HasEdge(edges, StartId(newEdge), EndId(newEdge)) && StartId(newEdge) in nodes && EndId(newEdge) in nodes
    ensures !HasEdge(edges, StartId(newEdge), EndId(newEdge)) && !(StartId(newEdge) in nodes && EndId(newEdge) in nodes) ==>
      r == Failure(TERMINALS_NOT_FOUND)
    ensures r == AddEdge(newEdge) || r == Failure(EDGE_EXISTS) || r == Failure(TERMINALS_NOT_FOUND)
  {
    var (idIn, idOut) := TerminalIds(newEdge);
    if FindEdge(edges, idIn, idOut).Some? then Failure(EDGE_EXISTS)
    else if NodeIdPresent(nodes, idIn) && NodeIdPresent(nodes, idOut) then AddEdge(newEdge)
    else Failure(TERMINALS_NOT_FOUND)
  }

  /** The optional id recorded for a terminal that `insert_edge_with_nodes` must create. */
  function NewIdIfAbsent<TN>(nodes: NodeMap<TN>, id: Id): (r: Option<Id>)
    ensures r == Some(id) <==> id !in nodes
    ensures r == None <==> id in nodes
  {
    if NodeIdPresent(nodes, id) then None else Some(id)
  }

  /** `check_add_edge_with_nodes`: fails only on a duplicate pair; otherwise proposes the bare
      edge and marks exactly the absent terminals as new. */
  function CheckAddEdgeWithNodes<TN, TE>(nodes: NodeMap<TN>, edges: seq<Edge<TE>>, idIn: Id, idOut: Id): (r: GraphChange<TN, TE>)
    ensures r.Failure? <==> HasEdge(edges, idIn, idOut)
    ensures r.Failure? ==> r.reason == EDGE_EXISTS
    ensures !r.Failure? ==> r == AddEdgeWith(BareEdge(idIn, idOut), NewIdIfAbsent(nodes, idIn), NewIdIfAbsent(nodes, idOut))
  {
    if FindEdge(edges, idIn, idOut).Some? then Failure(EDGE_EXISTS)
    else AddEdgeWith(BareEdge(idIn, idOut), NewIdIfAbsent(nodes, idIn), NewIdIfAbsent(nodes, idOut))
  }

  /** `check_remove_edge`: a copy of the first edge from `idIn` to `idOut`, payload included, or
      `Failure("Edge not found in graph.")`. */
  function CheckRemoveEdge<TN, TE>(edges: seq<Edge<TE>>, idIn: Id, idOut: Id): (r: GraphChange<TN, TE>)
    ensures r.Failure? <==> !HasEdge(edges, idIn, idOut)
    ensures r.Failure? ==> r.reason == EDGE_NOT_FOUND
    ensures !r.Failure? ==> r.RemoveEdge? && exists j :: FindEdge(edges, idIn, idOut) == Some(j) && r.edge == edges[j]
  {
    match FindEdge(edges, idIn, idOut)
    case Some(index) => RemoveEdge(edges[index])
    case None => Failure(EDGE_NOT_FOUND)
  }

  // ---------------------------------------------------------------------------------------
  // Forward reachability through the after-neighbour map

  /** `after.get(&x)`, with an absent key read as no successors. */
  function Successors(after: map<Id, seq<Id>>, x: Id): seq<Id>
  {
    if x in after then after[x] else []
  }

  /** `ids.retain(|&id| degree(id) == Some(0))`, where the degree of an id is the length of its
      list in `adj`, if it has one: the ids with an empty list, in their original order. */
  method RetainEmptyLists(ids: seq<Id>, adj: map<Id, seq<Id>>) returns (r: seq<Id>)
    ensures forall x :: x in r <==> x in ids && x in adj && adj[x] == []
    ensures Ascending(ids) ==> Ascending(r)
  {
    r := [];
    for i := 0 to |ids|
      invariant forall x :: x in r <==> x in ids[..i] && x in adj && adj[x] == []
      invariant forall k :: 0 <= k < |r| ==> r[k] in ids[..i]
      invariant Ascending(ids) ==> Ascending(r)
    {
      assert ids[..i + 1] == ids[..i] + [ids[i]];
      if ids[i] in adj && adj[ids[i]] == [] {
        if Ascending(ids) {
          forall k | 0 <= k < |r| ensures r[k] < ids[i] {
            var j :| 0 <= j < i && ids[j] == r[k];
          }
        }
        r := r + [ids[i]];
      }
    }
    assert ids[..|ids|] == ids;
  }

  /** A non-empty walk along successor lists. */
  ghost predicate IsPath(after: map<Id, seq<Id>>, p: seq<Id>)
  {
    |p| > 0 && forall k :: 0 <= k < |p| - 1 ==> p[k + 1] in Successors(after, p[k])
  }

  /** A path of more than one id starts with a step to a successor. */
  lemma PathStep(after: map<Id, seq<Id>>, p: seq<Id>)
    requires IsPath(after, p)
    ensures |p| == 1 || p[1] in Successors(after, p[0])
  {
  }

  ghost predicate Reachable(after: map<Id, seq<Id>>, s: Id, t: Id)
  {
    exists p :: IsPath(after, p) && p[0] == s && p[|p| - 1] == t
  }

  lemma ReachableSelf(after: map<Id, seq<Id>>, s: Id)
    ensures Reachable(after, s, s)
  {
    assert IsPath(after, [s]);
  }

  /** Stepping to a successor first keeps the target reachable. */
  lemma ReachablePrepend(after: map<Id, seq<Id>>, s: Id, y: Id, t: Id)
    requires y in Successors(after, s) && Reachable(after, y, t)
    ensures Reachable(after, s, t)
  {
    var p :| IsPath(after, p) && p[0] == y && p[|p| - 1] == t;
    var q := [s] + p;
    forall k | 0 <= k < |q| - 1 ensures q[k + 1] in Successors(after, q[k]) {
      if k > 0 { assert q[k] == p[k - 1] && q[k + 1] == p[k]; }
    }
    assert IsPath(after, q);
  }

  /** A set containing `s` and closed under successors contains everything reachable from `s`. */
  lemma ClosedContainsReachable(after: map<Id, seq<Id>>, r: set<Id>, s: Id, t: Id)
    requires s in r
    requires forall x, y :: x in r && y in Successors(after, x) ==> y in r
    requires Reachable(after, s, t)
    ensures t in r
  {
    var p :| IsPath(after, p) && p[0] == s && p[|p| - 1] == t;
    var k := 0;
    while k < |p| - 1
      invariant 0 <= k < |p| && p[k] in r
    {
      assert p[k + 1] in Successors(after, p[k]);
      k := k + 1;
    }
  }

  /** The identifiers below `n`. */
  ghost function IdsUpTo(n: nat): (r: set<Id>)
    requires n <= ID_LIMIT
    ensures forall x: Id :: x in r <==> x < n
  {
    if n == 0 then {} else IdsUpTo(n - 1) + {n - 1}
  }

  /** Every 16-bit identifier. */
  ghost function AllIds(): set<Id>
  {
    IdsUpTo(ID_LIMIT)
  }

  /** A subset is no larger than its superset. */
  lemma {:induction false} SubsetCard(a: set<Id>, b: set<Id>)
    requires a <= b
    ensures |a| <= |b|
    decreases |b|
  {
    if a != {} {
      var x :| x in a;
      SubsetCard(a - {x}, b - {x});
    }
  }

  /** Visiting a new id shrinks the set of ids not yet in the census. */
  lemma UnvisitedShrinks(c: seq<Id>, d: seq<Id>, x: Id)
    requires Elems(c) <= Elems(d) && x in d && x !in c
    ensures |AllIds() - Elems(d)| < |AllIds() - Elems(c)|
  {
    var a := AllIds() - Elems(d);
    var b := AllIds() - Elems(c);
    assert x in AllIds() && x in Elems(d) && x !in Elems(c);
    assert x in b && a <= b - {x};
    SubsetCard(a, b - {x});
  }

  /** Sequence prefix facts used by the census. */
  lemma PrefixElems(c: seq<Id>, d: seq<Id>)
    requires |c| <= |d| && d[..|c|] == c
    ensures Elems(c) <= Elems(d)
  {
    forall x | x in c ensures x in d {
      var k :| 0 <= k < |c| && c[k] == x;
      assert d[k] == x;
    }
  }

  /** `collect_reachable_neighbors`: depth-first, appending to the census every id it reaches
      that is not already there. Entries already present are kept and cut the search; the start
      is always present afterwards; everything added is reachable from the start; and every
      added id has all of its successors in the census. */
  method CollectReachableNeighbors(census: seq<Id>, start: Id, after: map<Id, seq<Id>>) returns (out: seq<Id>)
    ensures |census| <= |out| && out[..|census|] == census
    ensures start in out
    ensures NoDup(census) ==> NoDup(out)
    ensures forall x :: x in out && x !in census ==> Reachable(after, start, x)
    ensures forall x, y :: x in out && x !in census && y in Successors(after, x) ==> y in out
    decreases |AllIds() - Elems(census)|, 1
  {
    if start in census {
      return census;
    }
    ghost var visited := census + [start];
    assert NoDup(census) ==> NoDup(visited) by {
      if NoDup(census) {
        forall i, j | 0 <= i < j < |visited| ensures visited[i] != visited[j] {
          if j == |census| { assert visited[i] == census[i]; }
        }
      }
    }
    ReachableSelf(after, start);
    out := VisitNeighbors(census, start, after);
    assert out[|census|] == (census + [start])[|census|] == start;
    assert out[..|census|] == out[..|census| + 1][..|census|];
  }

  /** The neighbour loop of `collect_reachable_neighbors`, once `start` has been appended to the
      census: each successor of `start` is visited in turn. */
  method VisitNeighbors(census: seq<Id>, start: Id, after: map<Id, seq<Id>>) returns (out: seq<Id>)
    requires start !in census
    ensures |census| + 1 <= |out| && out[..|census| + 1] == census + [start]
    ensures NoDup(census + [start]) ==> NoDup(out)
    ensures forall x :: x in out && x !in census ==> Reachable(after, start, x)
    ensures forall x, y :: x in out && x !in census && y in Successors(after, x) ==> y in out
    decreases |AllIds() - Elems(census)|, 0
  {
    out := census + [start];
    ReachableSelf(after, start);
    var neighbors := Successors(after, start);
    for k := 0 to |neighbors|
      invariant |census| + 1 <= |out| && out[..|census| + 1] == census + [start]
      invariant NoDup(census + [start]) ==> NoDup(out)
      invariant forall x :: x in out && x !in census ==> Reachable(after, start, x)
      invariant forall x, y :: x in out && x !in census && x != start && y in Successors(after, x) ==> y in out
      invariant forall j :: 0 <= j < k ==> neighbors[j] in out
    {
      PrefixElems(census + [start], out);
      assert start in Elems(census + [start]);
      UnvisitedShrinks(census, out, start);
      var next := CollectReachableNeighbors(out, neighbors[k], after);
      CensusStep(after, census, start, neighbors, k, out, next);
      out := next;
    }
  }

  /** One recursive visit inside the neighbour loop keeps the loop's invariants. */
  lemma CensusStep(after: map<Id, seq<Id>>, census: seq<Id>, start: Id, neighbors: seq<Id>, k: nat, out: seq<Id>, next: seq<Id>)
    requires k < |neighbors| && neighbors == Successors(after, start)
    requires |census| + 1 <= |out| && out[..|census| + 1] == census + [start]
    requires forall x :: x in out && x !in census ==> Reachable(after, start, x)
    requires forall x, y :: x in out && x !in census && x != start && y in Successors(after, x) ==> y in out
    requires forall j :: 0 <= j < k ==> neighbors[j] in out
    requires |out| <= |next| && next[..|out|] == out
    requires neighbors[k] in next
    requires forall x :: x in next && x !in out ==> Reachable(after, neighbors[k], x)
    requires forall x, y :: x in next && x !in out && y in Successors(after, x) ==> y in next
    ensures |census| + 1 <= |next| && next[..|census| + 1] == census + [start]
    ensures forall x :: x in next && x !in census ==> Reachable(after, start, x)
    ensures forall x, y :: x in next && x !in census && x != start && y in Successors(after, x) ==> y in next
    ensures forall j :: 0 <= j < k + 1 ==> neighbors[j] in next
  {
    PrefixElems(out, next);
    assert neighbors[k] in Successors(after, start);
    forall x | x in next && x !in census ensures Reachable(after, start, x) {
      if x !in out {
        ReachablePrepend(after, start, neighbors[k], x);
      }
    }
    forall x, y | x in next && x !in census && x != start && y in Successors(after, x) ensures y in next {
      if x in out {
        assert y in out && y in Elems(out);
      }
    }
    assert next[..|census| + 1] == next[..|out|][..|census| + 1];
  }

  /** Started from an empty census, the census holds exactly the ids reachable from the start. */
  lemma CensusFromEmpty(after: map<Id, seq<Id>>, start: Id, out: seq<Id>)
    requires start in out
    requires forall x :: x in out ==> Reachable(after, start, x)
    requires forall x, y :: x in out && y in Successors(after, x) ==> y in out
    ensures forall x :: x in out <==> Reachable(after, start, x)
  {
    forall x | Reachable(after, start, x) ensures x in out {
      ClosedContainsReachable(after, Elems(out), start, x);
    }
  }
}
