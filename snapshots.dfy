/** What a graph state means, independent of vector order, and what each logged change records
    about the states before and after it. The store facts used by the graph's primitives are
    stated here on plain values. */
module Snapshots {
  import opened Wrappers
  import opened Components
  import opened Seqs
  import opened GraphRef

  /** Edges keyed by their terminal pair: the edge set, forgetting vector order. */
  type EdgeSet<TE> = map<(Id, Id), Edge<TE>>

  /** What a graph means, independent of edge order and adjacency-list order. */
  datatype Snapshot<TN, TE> = Snapshot(nodes: NodeMap<TN>, edges: EdgeSet<TE>)

  /** `Vec::swap_remove`: the element at `i` is replaced by the last one, which is dropped. */
  function SwapRemove<T>(s: seq<T>, i: nat): seq<T>
    requires i < |s|
  {
    if i == |s| - 1 then s[..i] else s[..i] + [s[|s| - 1]] + s[i + 1..|s| - 1]
  }

  /** What `swap_remove` promises: one element fewer, the last moved into the gap, the rest in
      place, and the same elements but the removed one. */
  lemma SwapRemoveFacts<T>(s: seq<T>, i: nat)
    requires i < |s|
    ensures var r := SwapRemove(s, i);
      |r| == |s| - 1 && (i < |r| ==> r[i] == s[|s| - 1]) &&
      (forall k :: 0 <= k < |r| && k != i ==> r[k] == s[k]) &&
      multiset(r) + multiset{s[i]} == multiset(s)
  {
    if i == |s| - 1 {
      assert s == s[..i] + [s[i]];
    } else {
      assert s == s[..i] + [s[i]] + s[i + 1..|s| - 1] + [s[|s| - 1]];
    }
  }

  /** `pos` gives, for each terminal pair present, the one index holding an edge with that pair;
      hence terminal pairs are unique. */
  ghost predicate Indexed<TE>(edges: seq<Edge<TE>>, pos: map<(Id, Id), nat>)
  {
    (forall p :: p in pos ==> pos[p] < |edges| && TerminalIds(edges[pos[p]]) == p) &&
    (forall i :: 0 <= i < |edges| ==> TerminalIds(edges[i]) in pos && pos[TerminalIds(edges[i])] == i)
  }

  /** The edge set an indexed vector holds. */
  ghost function EdgesOf<TE>(edges: seq<Edge<TE>>, pos: map<(Id, Id), nat>): EdgeSet<TE>
    requires Indexed(edges, pos)
  {
    map p | p in pos :: edges[pos[p]]
  }

  /** Node keys are the stored nodes' ids. */
  ghost predicate KeysMatch<TN>(nodes: NodeMap<TN>)
  {
    forall id :: id in nodes ==> NodeId(nodes[id]) == id
  }

  /** Every terminal of every pair is a node. */
  ghost predicate TerminalsAreNodes<TN>(pos: map<(Id, Id), nat>, nodes: NodeMap<TN>)
  {
    forall p :: p in pos ==> p.0 in nodes && p.1 in nodes
  }

  /** Dropping pairs from the index keeps every remaining terminal a node. */
  lemma TerminalsShrink<TN>(pos: map<(Id, Id), nat>, pos': map<(Id, Id), nat>, nodes: NodeMap<TN>)
    requires TerminalsAreNodes(pos, nodes) && pos'.Keys <= pos.Keys
    ensures TerminalsAreNodes(pos', nodes)
  {
  }

  /** Every adjacency list is duplicate-free. */
  ghost predicate ListsNoDup(adj: map<Id, seq<Id>>)
  {
    forall x :: x in adj ==> NoDup(adj[x])
  }

  /** `after[x]` lists exactly the ends of the pairs starting at `x`. */
  ghost predicate AfterMirrors(after: map<Id, seq<Id>>, pos: map<(Id, Id), nat>)
  {
    forall x, y :: x in after ==> (y in after[x] <==> (x, y) in pos)
  }

  /** `before[x]` lists exactly the starts of the pairs ending at `x`. */
  ghost predicate BeforeMirrors(before: map<Id, seq<Id>>, pos: map<(Id, Id), nat>)
  {
    forall x, y :: x in before ==> (y in before[x] <==> (y, x) in pos)
  }

  /** Pushing an edge with a new pair extends the index and the edge set. */
  lemma PushIndexed<TE>(edges: seq<Edge<TE>>, pos: map<(Id, Id), nat>, e: Edge<TE>)
    requires Indexed(edges, pos) && TerminalIds(e) !in pos
    ensures Indexed(edges + [e], pos[TerminalIds(e) := |edges|])
    ensures EdgesOf(edges + [e], pos[TerminalIds(e) := |edges|]) == EdgesOf(edges, pos)[TerminalIds(e) := e]
  {
    var edges' := edges + [e];
    var pos' := pos[TerminalIds(e) := |edges|];
    forall i | 0 <= i < |edges'| ensures TerminalIds(edges'[i]) in pos' && pos'[TerminalIds(edges'[i])] == i {
      if i < |edges| { assert edges'[i] == edges[i]; }
    }
    forall p | p in pos ensures edges'[pos[p]] == edges[pos[p]] {
    }
  }

  /** The index after a swap-remove at `index`. */
  ghost function SwapPos<TE>(edges: seq<Edge<TE>>, pos: map<(Id, Id), nat>, index: nat): map<(Id, Id), nat>
    requires index < |edges|
  {
    var gone := TerminalIds(edges[index]);
    if index == |edges| - 1 then pos - {gone}
    else (pos - {gone})[TerminalIds(edges[|edges| - 1]) := index]
  }

  /** Swap-removing an edge keeps the index and removes exactly that edge's pair. */
  lemma SwapRemoveIndexed<TE>(edges: seq<Edge<TE>>, pos: map<(Id, Id), nat>, index: nat)
    requires Indexed(edges, pos) && index < |edges|
    ensures Indexed(SwapRemove(edges, index), SwapPos(edges, pos, index))
    ensures SwapPos(edges, pos, index).Keys == pos.Keys - {TerminalIds(edges[index])}
    ensures EdgesOf(SwapRemove(edges, index), SwapPos(edges, pos, index)) == EdgesOf(edges, pos) - {TerminalIds(edges[index])}
  {
    SwapRemoveFacts(edges, index);
    var edges' := SwapRemove(edges, index);
    var pos' := SwapPos(edges, pos, index);
    var lastPair := TerminalIds(edges[|edges| - 1]);
    forall p | p in pos' ensures pos'[p] < |edges'| && TerminalIds(edges'[pos'[p]]) == p && edges'[pos'[p]] == edges[pos[p]] {
      if p != lastPair { assert pos[p] != |edges| - 1 && pos[p] != index; }
    }
    forall i | 0 <= i < |edges'| ensures TerminalIds(edges'[i]) in pos' && pos'[TerminalIds(edges'[i])] == i {
      if i != index { assert edges'[i] == edges[i]; }
    }
  }

  /** Adding the new pair `(s, t)` to the index is mirrored by appending `t` to `after[s]` and
      `s` to `before[t]`. */
  lemma AddPairMirrors(after: map<Id, seq<Id>>, before: map<Id, seq<Id>>, pos: map<(Id, Id), nat>, s: Id, t: Id, n: nat)
    requires AfterMirrors(after, pos) && BeforeMirrors(before, pos)
    requires ListsNoDup(after) && ListsNoDup(before)
    requires s in after && t in before && (s, t) !in pos
    ensures AfterMirrors(after[s := after[s] + [t]], pos[(s, t) := n])
    ensures BeforeMirrors(before[t := before[t] + [s]], pos[(s, t) := n])
    ensures ListsNoDup(after[s := after[s] + [t]]) && ListsNoDup(before[t := before[t] + [s]])
  {
    NoDupAppend(after[s], t);
    NoDupAppend(before[t], s);
  }

  /** Dropping the pair `(s, t)` from the index is mirrored by dropping `t` from `after[s]` and
      `s` from `before[t]`. */
  lemma DropPairMirrors(after: map<Id, seq<Id>>, before: map<Id, seq<Id>>, pos: map<(Id, Id), nat>, pos': map<(Id, Id), nat>, s: Id, t: Id)
    requires AfterMirrors(after, pos) && BeforeMirrors(before, pos)
    requires ListsNoDup(after) && ListsNoDup(before)
    requires s in after && t in before && pos'.Keys == pos.Keys - {(s, t)}
    ensures AfterMirrors(after[s := Without(after[s], t)], pos')
    ensures BeforeMirrors(before[t := Without(before[t], s)], pos')
    ensures ListsNoDup(after[s := Without(after[s], t)]) && ListsNoDup(before[t := Without(before[t], s)])
  {
    WithoutNoDup(after[s], t);
    WithoutNoDup(before[t], s);
  }

  /** Every edge of `a` is in `b`, unchanged. */
  ghost predicate SubEdgeSet<TE>(a: EdgeSet<TE>, b: EdgeSet<TE>)
  {
    forall p :: p in a ==> p in b && a[p] == b[p]
  }

  /** `b` keeps every edge of `a` not ending at `id` (and, if `bothEnds`, not starting there). */
  ghost predicate KeepsAwayFrom<TE>(a: EdgeSet<TE>, b: EdgeSet<TE>, id: Id, bothEnds: bool)
  {
    forall p :: p in a && p.1 != id && (!bothEnds || p.0 != id) ==> p in b
  }

  /** Dropping a pair that touches `id` from a sub-edge-set keeps the bookkeeping. */
  lemma DropKeeps<TE>(orig: EdgeSet<TE>, m: EdgeSet<TE>, m': EdgeSet<TE>, gone: (Id, Id), id: Id, bothEnds: bool)
    requires m' == m - {gone}
    requires gone.1 == id || (bothEnds && gone.0 == id)
    requires SubEdgeSet(m, orig) && KeepsAwayFrom(orig, m, id, bothEnds)
    ensures SubEdgeSet(m', orig) && KeepsAwayFrom(orig, m', id, bothEnds)
  {
  }

  /** With both of its lists empty, no pair touches `id`. */
  lemma EmptyListsIsolate(after: map<Id, seq<Id>>, before: map<Id, seq<Id>>, pos: map<(Id, Id), nat>, id: Id)
    requires AfterMirrors(after, pos) && BeforeMirrors(before, pos)
    requires id in after && id in before && after[id] == [] && before[id] == []
    ensures forall p :: p in pos ==> p.0 != id && p.1 != id
  {
    forall p | p in pos ensures p.0 != id && p.1 != id {
      assert p.1 !in after[id] && p.0 !in before[id];
    }
  }

  /** A sub-edge-set that keeps everything away from `id` and has nothing touching `id` is exactly
      the detached edge set. */
  lemma DetachExact<TE>(orig: EdgeSet<TE>, m: EdgeSet<TE>, id: Id)
    requires SubEdgeSet(m, orig) && KeepsAwayFrom(orig, m, id, true)
    requires forall p :: p in m ==> p.0 != id && p.1 != id
    ensures m == Detach(orig, id)
  {
  }

  /** Removing a node no pair touches keeps keys matching and terminals present. */
  lemma DropIsolatedNode<TN>(nodes: NodeMap<TN>, pos: map<(Id, Id), nat>, id: Id)
    requires KeysMatch(nodes) && TerminalsAreNodes(pos, nodes)
    requires forall p :: p in pos ==> p.0 != id && p.1 != id
    ensures KeysMatch(nodes - {id}) && TerminalsAreNodes(pos, nodes - {id})
  {
  }

  /** Under an index, the first edge with a pair is the one the index names. */
  lemma FindEdgeByPos<TE>(edges: seq<Edge<TE>>, pos: map<(Id, Id), nat>, s: Id, t: Id)
    requires Indexed(edges, pos)
    ensures FindEdge(edges, s, t) == if (s, t) in pos then Some(pos[(s, t)]) else None
  {
    if (s, t) in pos {
      assert TerminalIds(edges[pos[(s, t)]]) == (s, t);
    }
  }

  /** The edges that do not touch `id`. */
  ghost function Detach<TE>(m: EdgeSet<TE>, id: Id): EdgeSet<TE>
  {
    map p | p in m && p.0 != id && p.1 != id :: m[p]
  }

  /** A snapshot is well formed when node keys are node ids, edge keys are edge terminals, and
      every terminal is a node. */
  ghost predicate WellFormed<TN, TE>(g: Snapshot<TN, TE>)
  {
    (forall id :: id in g.nodes ==> NodeId(g.nodes[id]) == id) &&
    (forall p :: p in g.edges ==> TerminalIds(g.edges[p]) == p && p.0 in g.nodes && p.1 in g.nodes)
  }

  /** Updating one key leaves the rest of the map as it was. */
  lemma UpdateElsewhere(m: map<Id, seq<Id>>, k: Id, v: seq<Id>)
    ensures m[k := v] - {k} == m - {k}
  {
  }

  /** Appending a new element keeps a list duplicate-free. */
  lemma NoDupAppend(s: seq<Id>, x: Id)
    requires NoDup(s)
    ensures x !in s ==> NoDup(s + [x])
  {
  }
  /** No two edges of the list share a terminal pair. */
  ghost predicate PairsDistinct<TE>(es: seq<Edge<TE>>)
  {
    forall i, j :: 0 <= i < j < |es| ==> TerminalIds(es[i]) != TerminalIds(es[j])
  }

  /** The edge set a list of edges spells out, later entries winning. */
  ghost function ListedMap<TE>(es: seq<Edge<TE>>): EdgeSet<TE>
  {
    if es == [] then map[]
    else ListedMap(es[..|es| - 1])[TerminalIds(es[|es| - 1]) := es[|es| - 1]]
  }

  /** The keys of a listed edge set are the listed pairs; with distinct pairs each maps to its
      edge. */
  lemma {:induction false} ListedMapFacts<TE>(es: seq<Edge<TE>>)
    ensures forall p :: p in ListedMap(es) ==> exists j :: 0 <= j < |es| && TerminalIds(es[j]) == p
    ensures PairsDistinct(es) ==>
      forall j :: 0 <= j < |es| ==> TerminalIds(es[j]) in ListedMap(es) && ListedMap(es)[TerminalIds(es[j])] == es[j]
  {
    if es != [] {
      var p := es[..|es| - 1];
      ListedMapFacts(p);
      forall q | q in ListedMap(es) ensures exists j :: 0 <= j < |es| && TerminalIds(es[j]) == q {
        if q != TerminalIds(es[|es| - 1]) {
          assert q in ListedMap(p);
          var j :| 0 <= j < |p| && TerminalIds(p[j]) == q;
          assert es[j] == p[j];
        }
      }
      if PairsDistinct(es) {
        assert PairsDistinct(p) by {
          forall i, j | 0 <= i < j < |p| ensures TerminalIds(p[i]) != TerminalIds(p[j]) { assert p[i] == es[i] && p[j] == es[j]; }
        }
        forall j | 0 <= j < |es| - 1 ensures TerminalIds(es[j]) in ListedMap(es) && ListedMap(es)[TerminalIds(es[j])] == es[j] {
          assert es[j] == p[j];
        }
      }
    }
  }

  /** The listed edge set of one more entry adds that entry. */
  lemma ListedSnoc<TE>(es: seq<Edge<TE>>, i: nat)
    requires i < |es|
    ensures ListedMap(es[..i + 1]) == ListedMap(es[..i])[TerminalIds(es[i]) := es[i]]
  {
    assert es[..i + 1][..i] == es[..i];
  }

  /** With distinct pairs, an entry's pair is not among the earlier entries' pairs. */
  lemma ListedFresh<TE>(es: seq<Edge<TE>>, i: nat)
    requires i < |es| && PairsDistinct(es)
    ensures TerminalIds(es[i]) !in ListedMap(es[..i])
  {
    ListedMapFacts(es[..i]);
    forall j | 0 <= j < |es[..i]|
      ensures TerminalIds(es[..i][j]) != TerminalIds(es[i])
    {
      assert es[..i][j] == es[j];
    }
  }

  /** Updating a union updates its right operand. */
  lemma UnionUpdate<K, V>(a: map<K, V>, b: map<K, V>, k: K, v: V)
    ensures (a + b)[k := v] == a + b[k := v]
  {
  }

  /** One step of pushing a list of distinct edges onto an edge set that shares no pair with
      it: the next edge is new, and adding it extends the listed prefix by one. */
  lemma ListedStep<TE>(rest: EdgeSet<TE>, es: seq<Edge<TE>>, i: nat)
    requires i < |es| && PairsDistinct(es)
    requires forall p :: p in rest ==> p !in ListedMap(es)
    ensures TerminalIds(es[i]) in ListedMap(es)
    ensures TerminalIds(es[i]) !in rest + ListedMap(es[..i])
    ensures (rest + ListedMap(es[..i]))[TerminalIds(es[i]) := es[i]] == rest + ListedMap(es[..i + 1])
  {
    ListedMapFacts(es);
    ListedFresh(es, i);
    ListedSnoc(es, i);
    UnionUpdate(rest, ListedMap(es[..i]), TerminalIds(es[i]), es[i]);
  }

  /** An index of distinct pairs lists its own edge set. */
  lemma EdgesOfListed<TE>(edges: seq<Edge<TE>>, pos: map<(Id, Id), nat>)
    requires Indexed(edges, pos)
    ensures PairsDistinct(edges) && EdgesOf(edges, pos) == ListedMap(edges)
  {
    ListedMapFacts(edges);
    forall q | q in ListedMap(edges) ensures q in pos {
      var j :| 0 <= j < |edges| && TerminalIds(edges[j]) == q;
    }
    forall q | q in pos ensures q in ListedMap(edges) && ListedMap(edges)[q] == edges[pos[q]] {
      assert TerminalIds(edges[pos[q]]) == q;
    }
  }

  /** The edges that have `id` as a terminal. */
  ghost function Incident<TE>(m: EdgeSet<TE>, id: Id): EdgeSet<TE>
  {
    map p | p in m && (p.0 == id || p.1 == id) :: m[p]
  }

  /** Adding an edge that touches `id` adds it to the incident part; adding one that does not
      leaves the incident part alone. */
  lemma IncidentUpdate<TE>(m: EdgeSet<TE>, e: Edge<TE>, id: Id)
    ensures Touches(e, id) ==> Incident(m[TerminalIds(e) := e], id) == Incident(m, id)[TerminalIds(e) := e]
    ensures !Touches(e, id) ==> Incident(m[TerminalIds(e) := e], id) == Incident(m, id)
  {
  }

  /** `check_remove_node`'s edge list keeps pairs distinct. */
  lemma {:induction false} IncidentPairsDistinct<TE>(es: seq<Edge<TE>>, id: Id)
    requires PairsDistinct(es)
    ensures PairsDistinct(IncidentEdges(es, id))
  {
    if es != [] {
      var p := es[..|es| - 1];
      var last := es[|es| - 1];
      assert PairsDistinct(p) by {
        forall i, j | 0 <= i < j < |p| ensures TerminalIds(p[i]) != TerminalIds(p[j]) { assert p[i] == es[i] && p[j] == es[j]; }
      }
      IncidentPairsDistinct(p, id);
      IncidentEdgesMembers(p, id);
      var q := IncidentEdges(p, id);
      if Touches(last, id) {
        var r := q + [last];
        assert IncidentEdges(es, id) == r;
        forall i, j | 0 <= i < j < |r| ensures TerminalIds(r[i]) != TerminalIds(r[j]) {
          if j == |q| {
            assert r[i] == q[i];
            assert q[i] in p;
            var k :| 0 <= k < |p| && p[k] == q[i];
            assert es[k] == q[i];
          } else {
            assert r[i] == q[i] && r[j] == q[j];
          }
        }
      }
    }
  }

  /** `check_remove_node`'s edge list spells out exactly the incident part of the edge set. */
  lemma {:induction false} IncidentListed<TE>(es: seq<Edge<TE>>, id: Id)
    ensures ListedMap(IncidentEdges(es, id)) == Incident(ListedMap(es), id)
  {
    if es != [] {
      var p := es[..|es| - 1];
      var last := es[|es| - 1];
      IncidentListed(p, id);
      IncidentUpdate(ListedMap(p), last, id);
      var q := IncidentEdges(p, id);
      assert ListedMap(es) == ListedMap(p)[TerminalIds(last) := last];
      if Touches(last, id) {
        var r := q + [last];
        assert IncidentEdges(es, id) == r;
        assert r[..|r| - 1] == q;
        calc {
          ListedMap(IncidentEdges(es, id));
          ListedMap(r);
          ListedMap(q)[TerminalIds(last) := last];
          Incident(ListedMap(p), id)[TerminalIds(last) := last];
          Incident(ListedMap(p)[TerminalIds(last) := last], id);
          Incident(ListedMap(es), id);
        }
      } else {
        assert IncidentEdges(es, id) == q;
      }
    }
  }

  /** The detached and incident parts together make up the edge set. */
  lemma DetachIncident<TE>(m: EdgeSet<TE>, id: Id)
    ensures Detach(m, id) + Incident(m, id) == m
  {
  }

  /** A listed copy of the edges incident to `id` in a well-formed state is disjoint from the
      detached rest, joins it back to the whole edge set, and only joins nodes. */
  lemma RestoreIncident<TN, TE>(g: Snapshot<TN, TE>, id: Id, es: seq<Edge<TE>>)
    requires WellFormed(g) && PairsDistinct(es) && ListedMap(es) == Incident(g.edges, id)
    ensures forall p :: p in Detach(g.edges, id) ==> p !in ListedMap(es)
    ensures forall i :: 0 <= i < |es| ==> StartId(es[i]) in g.nodes && EndId(es[i]) in g.nodes
    ensures Detach(g.edges, id) + ListedMap(es) == g.edges
  {
    DetachIncident(g.edges, id);
    ListedMapFacts(es);
    forall i | 0 <= i < |es| ensures StartId(es[i]) in g.nodes && EndId(es[i]) in g.nodes {
      var p := TerminalIds(es[i]);
      assert p in g.edges && g.edges[p] == es[i];
    }
  }

  /** No edge of a well-formed state touches an id that is not a node. */
  lemma DetachAbsent<TN, TE>(g: Snapshot<TN, TE>, id: Id)
    requires WellFormed(g) && id !in g.nodes
    ensures Detach(g.edges, id) == g.edges
  {
  }

  /** Detaching a fresh terminal of an added edge takes exactly that edge away again. */
  lemma DetachAdded<TN, TE>(g: Snapshot<TN, TE>, e: Edge<TE>, id: Id)
    requires WellFormed(g) && id !in g.nodes && (StartId(e) == id || EndId(e) == id)
    ensures Detach(g.edges[TerminalIds(e) := e], id) == g.edges
  {
  }

  /** Detaching the node a subdivision created leaves the edge set without the split edge. */
  lemma DetachSubdivide<TN, TE>(g: Snapshot<TN, TE>, e: Edge<TE>, id: Id)
    requires WellFormed(g) && id !in g.nodes && TerminalIds(e) in g.edges
    ensures Detach(Subdivide(g.edges, e, id), id) == g.edges - {TerminalIds(e)}
  {
  }

  /** Putting back a dropped key restores the map. */
  lemma RestoreKey<K, V>(m: map<K, V>, k: K, v: V)
    requires k in m && m[k] == v
    ensures (m - {k})[k := v] == m
  {
  }

  /** Dropping a key just added to a map that lacked it gives the map back. */
  lemma DropAdded<K, V>(m: map<K, V>, k: K, v: V)
    requires k !in m
    ensures m[k := v] - {k} == m
  {
  }

  /** Putting a removed edge back restores the edge set. */
  lemma ReinsertRemoved<TE>(m: EdgeSet<TE>, e: Edge<TE>)
    requires TerminalIds(e) in m && m[TerminalIds(e)] == e
    ensures (m - {TerminalIds(e)})[TerminalIds(e) := e] == m
  {
  }

  /** Removing an added edge restores the edge set. */
  lemma RemoveAdded<TE>(m: EdgeSet<TE>, e: Edge<TE>)
    requires TerminalIds(e) !in m
    ensures m[TerminalIds(e) := e] - {TerminalIds(e)} == m
  {
  }

  /** Removing a created node restores the node map. */
  lemma RemoveCreated<TN>(nodes: NodeMap<TN>, x: Id, o: Option<Id>)
    requires x !in nodes && (o.Some? ==> o.value !in nodes)
    ensures o == Some(x) ==> WithBare(WithBare(nodes, Some(x)), o) - {x} == nodes
    ensures o != Some(x) ==> WithBare(WithBare(nodes, Some(x)), o) - {x} == WithBare(nodes, o)
  {
  }

  /** `insert_node_along`'s effect on the edge set: the edge `e` is replaced by the copy of `e`
      ending at `id` and a bare edge from `id` to the old end. */
  ghost function Subdivide<TE>(m: EdgeSet<TE>, e: Edge<TE>, id: Id): EdgeSet<TE>
  {
    (m - {TerminalIds(e)})[(StartId(e), id) := ChangeEnd(e, id)][(id, EndId(e)) := BareEdge(id, EndId(e))]
  }

  /** Either the terminal `x` existed and nothing was created, or it was created with id `x`. */
  ghost predicate NewTerminal<TN>(nodes: NodeMap<TN>, x: Id, o: Option<Id>)
  {
    (o == None && x in nodes) || (o == Some(x) && x !in nodes)
  }

  /** The node map after creating a bare node for the optional id. */
  ghost function WithBare<TN>(nodes: NodeMap<TN>, o: Option<Id>): NodeMap<TN>
  {
    if o.Some? then nodes[o.value := BareNode(o.value)] else nodes
  }

  /** The ids occurring in a list of terminal pairs. */
  ghost function PairIds(ps: seq<(Id, Id)>): set<Id>
  {
    if ps == [] then {} else PairIds(ps[..|ps| - 1]) + {ps[|ps| - 1].0, ps[|ps| - 1].1}
  }

  lemma {:induction false} PairIdsMembers(ps: seq<(Id, Id)>)
    ensures forall x :: x in PairIds(ps) <==> exists k :: 0 <= k < |ps| && (ps[k].0 == x || ps[k].1 == x)
  {
    if ps != [] {
      var q := ps[..|ps| - 1];
      PairIdsMembers(q);
      assert forall k :: 0 <= k < |q| ==> q[k] == ps[k];
    }
  }

  /** One more pair of a duplicate-free list of pairs: a new pair, and its two ids. */
  lemma PairsStep(ps: seq<(Id, Id)>, i: nat)
    requires i < |ps| && NoDup(ps)
    ensures ps[i] !in Elems(ps[..i])
    ensures Elems(ps[..i + 1]) == Elems(ps[..i]) + {ps[i]}
    ensures PairIds(ps[..i + 1]) == PairIds(ps[..i]) + {ps[i].0, ps[i].1}
  {
    assert ps[..i + 1][..i] == ps[..i];
    assert ps[..i + 1] == ps[..i] + [ps[i]];
    forall k | 0 <= k < i
      ensures ps[..i][k] != ps[i]
    {
    }
  }

  /** The edge set holds only bare edges. */
  ghost predicate AllBareEdges<TE>(m: EdgeSet<TE>)
  {
    forall p :: p in m ==> m[p] == BareEdge(p.0, p.1)
  }

  /** A node map holding only bare nodes. */
  ghost predicate AllBare<TN>(nodes: NodeMap<TN>)
  {
    forall x :: x in nodes ==> nodes[x] == BareNode(x)
  }

  /** Adding a bare edge keeps the edge set bare and adds its pair. */
  lemma BareEdgeAdded<TE>(m: EdgeSet<TE>, s: Id, t: Id)
    requires AllBareEdges(m)
    ensures m[(s, t) := BareEdge(s, t)].Keys == m.Keys + {(s, t)}
    ensures AllBareEdges(m[(s, t) := BareEdge(s, t)])
  {
  }

  /** Creating the missing terminals of `(s, t)` adds exactly those ids, as bare nodes. */
  lemma TerminalsCreated<TN>(nodes: NodeMap<TN>, s: Id, t: Id)
    requires AllBare(nodes)
    ensures WithBare(WithBare(nodes, NewIdIfAbsent(nodes, s)), NewIdIfAbsent(nodes, t)).Keys == nodes.Keys + {s, t}
    ensures AllBare(WithBare(WithBare(nodes, NewIdIfAbsent(nodes, s)), NewIdIfAbsent(nodes, t)))
  {
  }

  /** What a logged change says about the state `g` before it and `h` after it. A `Failure`
      entry, which the graph never logs, would stand for no change. */
  ghost predicate Recorded<TN, TE>(g: Snapshot<TN, TE>, c: GraphChange<TN, TE>, h: Snapshot<TN, TE>)
  {
    match c
    case AddNode(n) =>
      NodeId(n) !in g.nodes && h == Snapshot(g.nodes[NodeId(n) := n], g.edges)
    case RemoveNode(n, es) =>
      NodeId(n) in g.nodes && g.nodes[NodeId(n)] == n &&
      PairsDistinct(es) && ListedMap(es) == Incident(g.edges, NodeId(n)) &&
      h == Snapshot(g.nodes - {NodeId(n)}, Detach(g.edges, NodeId(n)))
    case AddEdge(e) =>
      TerminalIds(e) !in g.edges && StartId(e) in g.nodes && EndId(e) in g.nodes &&
      h == Snapshot(g.nodes, g.edges[TerminalIds(e) := e])
    case AddEdgeWith(e, newStart, newEnd) =>
      TerminalIds(e) !in g.edges &&
      NewTerminal(g.nodes, StartId(e), newStart) && NewTerminal(g.nodes, EndId(e), newEnd) &&
      h == Snapshot(WithBare(WithBare(g.nodes, newStart), newEnd), g.edges[TerminalIds(e) := e])
    case RemoveEdge(e) =>
      TerminalIds(e) in g.edges && g.edges[TerminalIds(e)] == e &&
      h == Snapshot(g.nodes, g.edges - {TerminalIds(e)})
    case InsertNodeAlongEdge(n, e) =>
      NodeId(n) !in g.nodes && TerminalIds(e) in g.edges && g.edges[TerminalIds(e)] == e &&
      h == Snapshot(g.nodes[NodeId(n) := n], Subdivide(g.edges, e, NodeId(n)))
    case Failure(_) =>
      h == g
  }

  /** Read from the newest entry back: `past[n]` is a well-formed state that `history[n]` turned
      into `cur`, and the shorter log leads up to `past[n]` the same way. */
  ghost predicate Chain<TN, TE>(past: seq<Snapshot<TN, TE>>, history: seq<GraphChange<TN, TE>>, cur: Snapshot<TN, TE>)
    decreases |past|
  {
    |past| == |history| &&
    (|past| > 0 ==>
      var n := |past| - 1;
      WellFormed(past[n]) && Recorded(past[n], history[n], cur) && Chain(past[..n], history[..n], past[n]))
  }

  lemma ChainPush<TN, TE>(past: seq<Snapshot<TN, TE>>, history: seq<GraphChange<TN, TE>>, cur: Snapshot<TN, TE>, c: GraphChange<TN, TE>, next: Snapshot<TN, TE>)
    requires Chain(past, history, cur) && WellFormed(cur) && Recorded(cur, c, next)
    ensures Chain(past + [cur], history + [c], next)
  {
    assert (past + [cur])[..|past|] == past;
    assert (history + [c])[..|history|] == history;
  }

  /** Forgetting the oldest entry leaves a chain to the same state. */
  lemma {:induction false} ChainDropFirst<TN, TE>(past: seq<Snapshot<TN, TE>>, history: seq<GraphChange<TN, TE>>, cur: Snapshot<TN, TE>)
    requires Chain(past, history, cur) && past != []
    ensures Chain(past[1..], history[1..], cur)
    decreases |past|
  {
    var n := |past| - 1;
    if n > 0 {
      ChainDropFirst(past[..n], history[..n], past[n]);
      assert past[1..][..n - 1] == past[..n][1..];
      assert history[1..][..n - 1] == history[..n][1..];
      assert past[1..][n - 1] == past[n] && history[1..][n - 1] == history[n];
    }
  }

  lemma ChainPop<TN, TE>(past: seq<Snapshot<TN, TE>>, history: seq<GraphChange<TN, TE>>, cur: Snapshot<TN, TE>)
    requires Chain(past, history, cur) && past != []
    ensures var n := |past| - 1;
      WellFormed(past[n]) && Recorded(past[n], history[n], cur) && Chain(past[..n], history[..n], past[n])
  {
  }

  /** The starts of the edges of `m` ending at `x`. */
  ghost function StartsInto<TE>(m: EdgeSet<TE>, x: Id): set<Id>
  {
    set p | p in m && p.1 == x :: p.0
  }

  /** The ends of the edges of `m` starting at `x`. */
  ghost function EndsFrom<TE>(m: EdgeSet<TE>, x: Id): set<Id>
  {
    set p | p in m && p.0 == x :: p.1
  }

  /** With distinct pairs, counting edge ends along the list counts distinct neighbours. */
  lemma {:induction false} CountsListed<TE>(es: seq<Edge<TE>>, x: Id)
    requires PairsDistinct(es)
    ensures InCount(es, x) == |StartsInto(ListedMap(es), x)|
    ensures OutCount(es, x) == |EndsFrom(ListedMap(es), x)|
  {
    if es != [] {
      var pre := es[..|es| - 1];
      var last := es[|es| - 1];
      assert PairsDistinct(pre) by {
        forall i, j | 0 <= i < j < |pre| ensures TerminalIds(pre[i]) != TerminalIds(pre[j]) { assert pre[i] == es[i] && pre[j] == es[j]; }
      }
      CountsListed(pre, x);
      ListedMapFacts(pre);
      var m := ListedMap(pre);
      var k := TerminalIds(last);
      assert k !in m by {
        forall q | q in m ensures q != k {
          var j :| 0 <= j < |pre| && TerminalIds(pre[j]) == q;
          assert pre[j] == es[j];
        }
      }
      assert ListedMap(es) == m[k := last];
      StartsIntoAdd(m, k, last, x);
      EndsFromAdd(m, k, last, x);
    }
  }

  /** A new pair ending at `x` adds one start into `x`; any other new pair adds none. */
  lemma StartsIntoAdd<TE>(m: EdgeSet<TE>, k: (Id, Id), v: Edge<TE>, x: Id)
    requires k !in m
    ensures |StartsInto(m[k := v], x)| == |StartsInto(m, x)| + (if k.1 == x then 1 else 0)
  {
    if k.1 == x {
      assert StartsInto(m[k := v], x) == StartsInto(m, x) + {k.0};
      assert k.0 !in StartsInto(m, x);
    } else {
      assert StartsInto(m[k := v], x) == StartsInto(m, x);
    }
  }

  /** A new pair starting at `x` adds one end from `x`; any other new pair adds none. */
  lemma EndsFromAdd<TE>(m: EdgeSet<TE>, k: (Id, Id), v: Edge<TE>, x: Id)
    requires k !in m
    ensures |EndsFrom(m[k := v], x)| == |EndsFrom(m, x)| + (if k.0 == x then 1 else 0)
  {
    if k.0 == x {
      assert EndsFrom(m[k := v], x) == EndsFrom(m, x) + {k.1};
      assert k.1 !in EndsFrom(m, x);
    } else {
      assert EndsFrom(m[k := v], x) == EndsFrom(m, x);
    }
  }
}
