/**
 The cycle detector of the objective graph: Kahn's algorithm. It is proved to accept exactly the acyclic edge lists,
 as is the colouring detector of the Semantic Content IR, so the two always agree.

 Where the source walks a set in sorted order the methods below pick elements in any order: the verdict
 does not depend on it.
 */
module KahnDetector {
  import opened Sequences
  import opened Digraph
  import opened EdgeLists

  ghost predicate IsIndegree<V(!new)>(nodes: set<V>, edges: set<(V, V)>, indegree: map<V, int>) {
    indegree.Keys == nodes && forall n <- nodes :: indegree[n] == |Preds(nodes, edges, n)|
  }

  lemma IndegreeGrows<V(!new)>(nodes: set<V>, edges: set<(V, V)>, source: V, target: V, indegree: map<V, int>)
    requires IsIndegree(nodes, edges, indegree) && source in nodes && target in nodes && (source, target) !in edges
    ensures IsIndegree(nodes, edges + {(source, target)}, indegree[target := indegree[target] + 1])
  {
    var after := edges + {(source, target)};
    forall n | n in nodes
      ensures |Preds(nodes, after, n)| == |Preds(nodes, edges, n)| + (if n == target then 1 else 0)
    {
      PredCountGrows(nodes, edges, source, target, n);
    }
  }

  lemma PredCountGrows<V(!new)>(nodes: set<V>, edges: set<(V, V)>, source: V, target: V, n: V)
    requires source in nodes && target in nodes && (source, target) !in edges
    ensures var after := edges + {(source, target)};
            |Preds(nodes, after, n)| == |Preds(nodes, edges, n)| + if n == target then 1 else 0
  {
    NeighboursGrow(nodes, edges, source, target, n);
    if n == target {
      assert source !in Preds(nodes, edges, n);
    } else {
      assert Preds(nodes, edges, n) + {} == Preds(nodes, edges, n);
    }
  }

  /** The adjacency sets and the indegrees; a repeated edge counts once. */
  method Index<V(==, !new)>(nodes: set<V>, edges: seq<(V, V)>)
    returns (adjacency: map<V, set<V>>, indegree: map<V, int>)
    requires ClosedGraph(nodes, EdgeSet(edges))
    ensures IsAdjacency(nodes, EdgeSet(edges), adjacency)
    ensures IsIndegree(nodes, EdgeSet(edges), indegree)
  {
    adjacency := map n | n in nodes :: {};
    indegree := map n | n in nodes :: 0;
    ghost var seen: set<(V, V)> := {};
    forall n | n in nodes
      ensures Preds(nodes, seen, n) == {}
    {
    }
    for i := 0 to |edges|
      invariant seen == EdgeSet(edges[..i])
      invariant IsAdjacency(nodes, seen, adjacency) && IsIndegree(nodes, seen, indegree)
    {
      var (source, target) := edges[i];
      assert (source, target) in EdgeSet(edges);
      EdgesGrow(edges, i);
      if target !in adjacency[source] {
        AdjacencyGrows(nodes, seen, source, target, adjacency);
        IndegreeGrows(nodes, seen, source, target, indegree);
        adjacency := adjacency[source := adjacency[source] + {target}];
        indegree := indegree[target := indegree[target] + 1];
      } else {
        assert seen + {edges[i]} == seen;
      }
      seen := seen + {edges[i]};
    }
    AllEdges(edges);
  }

  /** `left[v]` are the predecessors of `v` not yet removed; the indegree only counts them. */
  ghost predicate Counts<V>(left: map<V, set<V>>, indegree: map<V, int>) {
    indegree.Keys == left.Keys && forall v <- left :: indegree[v] == |left[v]|
  }

  /** `done` has been removed from the graph and `waiting` holds the nodes that have just become free. */
  ghost predicate Pending<V(!new)>(nodes: set<V>, edges: set<(V, V)>, done: set<V>, waiting: set<V>,
                                   left: map<V, set<V>>)
  {
    && left.Keys == nodes && done <= nodes && waiting <= nodes && done !! waiting
    && (forall v, u :: v in nodes ==> (u in left[v] <==> u in nodes && (u, v) in edges && u !in done))
    && (forall v {:trigger left[v]} :: v in nodes ==> (left[v] == {} <==> v in done || v in waiting))
  }

  /** `node` has left the queue and is being taken away from its successors; those in `rest` are still to come. */
  ghost predicate Releasing<V(!new)>(nodes: set<V>, edges: set<(V, V)>, done: set<V>, node: V, rest: set<V>,
                                     waiting: set<V>, left: map<V, set<V>>)
  {
    && left.Keys == nodes && done <= nodes && waiting <= nodes && done !! waiting
    && node in nodes && node !in done && node !in waiting && rest <= Succs(nodes, edges, node)
    && (forall v, u :: v in nodes ==>
          (u in left[v] <==> u in nodes && (u, v) in edges && u !in done && (u == node ==> v in rest)))
    && (forall v {:trigger left[v]} :: v in nodes ==> (left[v] == {} <==> v == node || v in done || v in waiting))
  }

  lemma CountsDrop<V>(left: map<V, set<V>>, indegree: map<V, int>, target: V, node: V)
    requires Counts(left, indegree) && target in left && node in left[target]
    ensures Counts(left[target := left[target] - {node}], indegree[target := indegree[target] - 1])
    ensures indegree[target] == 1 <==> left[target] == {node}
  {
    assert |left[target] - {node}| == |left[target]| - 1;
    assert left[target] == (left[target] - {node}) + {node};
  }

  lemma ReleaseOne<V(!new)>(nodes: set<V>, edges: set<(V, V)>, done: set<V>, node: V, rest: set<V>,
                            waiting: set<V>, left: map<V, set<V>>, target: V)
    requires Releasing(nodes, edges, done, node, rest, waiting, left) && target in rest
    ensures node in left[target] && target !in waiting
    ensures Releasing(nodes, edges, done, node, rest - {target},
                      if left[target] == {node} then waiting + {target} else waiting,
                      left[target := left[target] - {node}])
  {
    assert left[target] != {};
    assert left[target] - {node} == {} <==> left[target] == {node};
  }

  /** Decrements the indegree of every successor of `node`, queueing those that reach zero. */
  method Release<V(==, !new)>(ghost nodes: set<V>, ghost edges: set<(V, V)>, ghost done: set<V>, node: V,
                              targets: set<V>, queue0: seq<V>, indegree0: map<V, int>, ghost left0: map<V, set<V>>)
    returns (queue: seq<V>, indegree: map<V, int>, ghost left: map<V, set<V>>)
    requires targets == Succs(nodes, edges, node)
    requires Distinct(queue0) && node !in queue0 && Counts(left0, indegree0)
    requires Pending(nodes, edges, done, Elements(queue0) + {node}, left0)
    ensures Distinct(queue) && Counts(left, indegree)
    ensures Pending(nodes, edges, done + {node}, Elements(queue), left)
  {
    hide Pending, Releasing, Counts;
    queue, indegree, left := queue0, indegree0, left0;
    var rest := targets;
    ReleaseStarts(nodes, edges, done, node, Elements(queue), left);
    while rest != {}
      invariant Releasing(nodes, edges, done, node, rest, Elements(queue), left)
      invariant Distinct(queue) && Counts(left, indegree)
      decreases rest
    {
      var target :| target in rest;
      TargetIsCounted(nodes, edges, done, node, rest, Elements(queue), left, indegree, target);
      ReleaseOne(nodes, edges, done, node, rest, Elements(queue), left, target);
      CountsDrop(left, indegree, target, node);
      rest := rest - {target};
      left := left[target := left[target] - {node}];
      indegree := indegree[target := indegree[target] - 1];
      if indegree[target] == 0 {
        ElementsAppend(queue, target);
        queue := queue + [target];
      }
    }
    ReleaseEnds(nodes, edges, done, node, Elements(queue), left);
  }

  lemma TargetIsCounted<V(!new)>(nodes: set<V>, edges: set<(V, V)>, done: set<V>, node: V, rest: set<V>,
                                 waiting: set<V>, left: map<V, set<V>>, indegree: map<V, int>, target: V)
    requires Releasing(nodes, edges, done, node, rest, waiting, left) && Counts(left, indegree) && target in rest
    ensures target in left && target in indegree
  {
  }

  lemma ReleaseStarts<V(!new)>(nodes: set<V>, edges: set<(V, V)>, done: set<V>, node: V, waiting: set<V>,
                               left: map<V, set<V>>)
    requires Pending(nodes, edges, done, waiting + {node}, left) && node !in waiting
    ensures Releasing(nodes, edges, done, node, Succs(nodes, edges, node), waiting, left)
  {
  }

  lemma ReleaseEnds<V(!new)>(nodes: set<V>, edges: set<(V, V)>, done: set<V>, node: V, waiting: set<V>,
                             left: map<V, set<V>>)
    requires Releasing(nodes, edges, done, node, {}, waiting, left)
    ensures Pending(nodes, edges, done + {node}, waiting, left)
  {
  }

  lemma TopologicalAppend<V(!new)>(nodes: set<V>, edges: set<(V, V)>, order: seq<V>, node: V)
    requires ClosedGraph(nodes, edges) && node in nodes
    requires Topological(edges, order) && node !in order && Preds(nodes, edges, node) <= Elements(order)
    ensures Topological(edges, order + [node])
  {
    var next := order + [node];
    forall i, u | 0 <= i < |next| && (u, next[i]) in edges
      ensures u in next[..i]
    {
      if i < |order| {
        assert next[..i] == order[..i];
      } else {
        assert next[..i] == order;
        assert u in Preds(nodes, edges, node);
      }
    }
  }

  lemma KahnStart<V(!new)>(nodes: set<V>, edges: set<(V, V)>, waiting: set<V>, indegree: map<V, int>)
    returns (left: map<V, set<V>>)
    requires IsIndegree(nodes, edges, indegree) && waiting == set n | n in nodes && indegree[n] == 0
    ensures Pending(nodes, edges, {}, waiting, left) && Counts(left, indegree)
  {
    left := map n | n in nodes :: Preds(nodes, edges, n);
  }

  lemma KahnStep<V(!new)>(nodes: set<V>, edges: set<(V, V)>, order: seq<V>, done: set<V>, queue: seq<V>,
                          left: map<V, set<V>>)
    requires ClosedGraph(nodes, edges) && Topological(edges, order) && done == Elements(order)
    requires Pending(nodes, edges, done, Elements(queue), left) && Distinct(queue) && queue != []
    ensures queue[0] in nodes - done && queue[0] !in queue[1..] && Distinct(queue[1..])
    ensures Pending(nodes, edges, done, Elements(queue[1..]) + {queue[0]}, left)
    ensures Topological(edges, order + [queue[0]]) && Elements(order + [queue[0]]) == done + {queue[0]}
  {
    var node := queue[0];
    HeadAndTail(queue);
    assert left[node] == {};
    TopologicalAppend(nodes, edges, order, node);
    ElementsAppend(order, node);
  }

  /** Kahn's algorithm: `ok` is false where the source raises. */
  method KahnAcyclic<V(==, !new)>(nodes: set<V>, edges: seq<(V, V)>) returns (ok: bool)
    requires ClosedGraph(nodes, EdgeSet(edges))
    ensures ok <==> Acyclic(EdgeSet(edges))
  {
    ghost var all := EdgeSet(edges);
    var adjacency, indegree := Index(nodes, edges);
    var queue := Enumerate(set n | n in nodes && indegree[n] == 0);
    var visited := 0;
    ghost var order: seq<V>, done := [], {};
    ghost var left := KahnStart(nodes, all, Elements(queue), indegree);
    while queue != []
      invariant Pending(nodes, all, done, Elements(queue), left) && Counts(left, indegree) && Distinct(queue)
      invariant Topological(all, order) && done == Elements(order) && visited == |order|
      decreases nodes - done
    {
      var node := queue[0];
      KahnStep(nodes, all, order, done, queue, left);
      visited := visited + 1;
      queue, indegree, left := Release(nodes, all, done, node, adjacency[node], queue[1..], indegree, left);
      order, done := order + [node], done + {node};
    }
    ok := visited == |nodes|;
    KahnVerdict(nodes, all, order, done, left);
  }

  /** With an empty queue all nodes have been removed exactly when there is no cycle. */
  lemma KahnVerdict<V(!new)>(nodes: set<V>, edges: set<(V, V)>, order: seq<V>, done: set<V>, left: map<V, set<V>>)
    requires ClosedGraph(nodes, edges) && Topological(edges, order) && done == Elements(order)
    requires Pending(nodes, edges, done, {}, left)
    ensures |order| == |nodes| <==> Acyclic(edges)
  {
    DistinctCount(order);
    if done == nodes {
      TopologicalIsAcyclic(edges, order);
    } else {
      if |done| == |nodes| {
        SubsetSameSize(done, nodes);
      }
      StuckIsCyclic(nodes, edges, done, left);
    }
  }

  lemma StuckIsCyclic<V(!new)>(nodes: set<V>, edges: set<(V, V)>, done: set<V>, left: map<V, set<V>>)
    requires Pending(nodes, edges, done, {}, left) && done != nodes
    ensures !Acyclic(edges)
  {
    var stuck := nodes - done;
    forall v | v in stuck
      ensures HasPred(edges, stuck, v)
    {
      assert left[v] != {};
      var u :| u in left[v];
      assert u in stuck && (u, v) in edges;
    }
    NoSourceIsCyclic(edges, stuck);
  }
}
