/** Graphs given as lists of edges, as the sources hand them to the cycle detectors. */
module EdgeLists {
  import opened Digraph

  function EdgeSet<V(==)>(edges: seq<(V, V)>): set<(V, V)> {
    set e | e in edges
  }

  lemma EdgesGrow<V(!new)>(edges: seq<(V, V)>, i: nat)
    requires i < |edges|
    ensures EdgeSet(edges[..i + 1]) == EdgeSet(edges[..i]) + {edges[i]}
  {
    assert edges[..i + 1] == edges[..i] + [edges[i]];
  }

  lemma AllEdges<V(!new)>(edges: seq<(V, V)>)
    ensures EdgeSet(edges[..|edges|]) == EdgeSet(edges)
  {
    assert edges[..|edges|] == edges;
  }

  lemma NeighboursGrow<V(!new)>(nodes: set<V>, edges: set<(V, V)>, source: V, target: V, n: V)
    requires source in nodes && target in nodes
    ensures var after := edges + {(source, target)};
            && Succs(nodes, after, n) == Succs(nodes, edges, n) + (if n == source then {target} else {})
            && Preds(nodes, after, n) == Preds(nodes, edges, n) + (if n == target then {source} else {})
  {
  }

  ghost predicate IsAdjacency<V(!new)>(nodes: set<V>, edges: set<(V, V)>, adjacency: map<V, set<V>>) {
    adjacency.Keys == nodes && forall n <- nodes :: adjacency[n] == Succs(nodes, edges, n)
  }

  lemma AdjacencyGrows<V(!new)>(nodes: set<V>, edges: set<(V, V)>, source: V, target: V, adjacency: map<V, set<V>>)
    requires IsAdjacency(nodes, edges, adjacency) && source in nodes && target in nodes
    ensures IsAdjacency(nodes, edges + {(source, target)}, adjacency[source := adjacency[source] + {target}])
  {
    var after := edges + {(source, target)};
    forall n | n in nodes
      ensures adjacency[source := adjacency[source] + {target}][n] == Succs(nodes, after, n)
    {
      NeighboursGrow(nodes, edges, source, target, n);
    }
  }
}
