/**
 The cycle detector of the Semantic Content IR: a depth-first search that colours nodes as visiting and visited.
 Nodes and successors are taken in any order, where the source takes them sorted.
 */
module ColouringDetector {
  import opened Sequences
  import opened Digraph
  import opened EdgeLists

  /**
   The nested `visit` closure and the two sets it updates. `finished` records the order in which nodes
   were coloured `visited`, `stack` the nodes being visited, outermost first.
   */
  class Colouring<V(==, !new)> {
    const adjacency: map<V, set<V>>
    var visiting: set<V>
    var visited: set<V>
    ghost var stack: seq<V>
    ghost var finished: seq<V>

    constructor (adjacency: map<V, set<V>>)
      ensures this.adjacency == adjacency && visiting == {} && visited == {} && stack == [] && finished == []
    {
      this.adjacency := adjacency;
      visiting, visited, stack, finished := {}, {}, [], [];
    }

    ghost predicate Valid(nodes: set<V>, edges: set<(V, V)>)
      reads this
    {
      && ClosedGraph(nodes, edges)
      && IsAdjacency(nodes, edges, adjacency)
      && visiting == Elements(stack) && visiting <= nodes
      && Linear(edges, stack)
      && visited == Elements(finished) && visited <= nodes && visited !! visiting
      && Distinct(finished)
      && FinishOrder(edges, finished)
    }

    /** `visit(node)`; `ok` is false where the source raises. */
    method Visit(node: V, ghost nodes: set<V>, ghost edges: set<(V, V)>) returns (ok: bool)
      requires Valid(nodes, edges) && node in nodes
      requires stack == [] || (stack[|stack| - 1], node) in edges
      modifies this
      ensures Valid(nodes, edges)
      ensures ok ==> stack == old(stack) && node in visited && old(visited) <= visited
      ensures !ok ==> !Acyclic(edges)
      decreases nodes - visiting
    {
      if node in visiting {
        BackEdgeIsCycle(edges, stack, node);
        return false;
      }
      if node in visited {
        return true;
      }
      PushKeepsLinks(edges, stack, node);
      ElementsAppend(stack, node);
      visiting, stack := visiting + {node}, stack + [node];
      ghost var here := stack;
      var rest := adjacency[node];
      while rest != {}
        invariant Valid(nodes, edges) && stack == here && old(visited) <= visited
        invariant rest <= adjacency[node] && adjacency[node] - rest <= visited
        decreases rest
      {
        var target :| target in rest;
        var done := Visit(target, nodes, edges);
        if !done {
          return false;
        }
        rest := rest - {target};
      }
      assert Elements(stack) == Elements(old(stack)) + {node};
      ExtendFinishOrder(nodes, edges, finished, node);
      ElementsAppend(finished, node);
      visiting, stack := visiting - {node}, old(stack);
      visited, finished := visited + {node}, finished + [node];
      ok := true;
    }
  }

  ghost predicate Linear<V(!new)>(edges: set<(V, V)>, stack: seq<V>) {
    forall i: nat :: i < |stack| - 1 ==> Linked(edges, stack, i)
  }

  lemma PushKeepsLinks<V(!new)>(edges: set<(V, V)>, stack: seq<V>, node: V)
    requires Linear(edges, stack) && (stack == [] || (stack[|stack| - 1], node) in edges)
    ensures Linear(edges, stack + [node])
  {
    forall i: nat | i < |stack + [node]| - 1
      ensures Linked(edges, stack + [node], i)
    {
      if i < |stack| - 1 {
        assert Linked(edges, stack, i);
      }
    }
  }

  /** Every finished node comes after all its successors. */
  ghost predicate FinishOrder<V(!new)>(edges: set<(V, V)>, finished: seq<V>) {
    forall i, v :: 0 <= i < |finished| && (finished[i], v) in edges ==> v in finished[..i]
  }

  lemma ExtendFinishOrder<V(!new)>(nodes: set<V>, edges: set<(V, V)>, finished: seq<V>, node: V)
    requires ClosedGraph(nodes, edges)
    requires FinishOrder(edges, finished) && Succs(nodes, edges, node) <= Elements(finished)
    ensures FinishOrder(edges, finished + [node])
  {
    var next := finished + [node];
    forall i, v | 0 <= i < |next| && (next[i], v) in edges
      ensures v in next[..i]
    {
      if i < |finished| {
        assert next[..i] == finished[..i];
      } else {
        assert (node, v).1 in Succs(nodes, edges, node);
        assert next[..i] == finished;
      }
    }
  }

  lemma BackEdgeIsCycle<V(!new)>(edges: set<(V, V)>, stack: seq<V>, node: V)
    requires node in stack && (stack[|stack| - 1], node) in edges
    requires Linear(edges, stack)
    ensures !Acyclic(edges)
  {
    var i :| 0 <= i < |stack| && stack[i] == node;
    var cycle := stack[i..] + [node];
    forall k: nat | k < |cycle| - 1
      ensures Linked(edges, cycle, k)
    {
      if k < |stack| - i - 1 {
        assert Linked(edges, stack, i + k);
      }
    }
    assert WalkFromTo(edges, node, node, cycle);
    assert Reaches(edges, node, node);
  }

  lemma FinishOrderIsAcyclic<V(!new)>(nodes: set<V>, edges: set<(V, V)>, finished: seq<V>)
    requires ClosedGraph(nodes, edges) && nodes <= Elements(finished)
    requires FinishOrder(edges, finished)
    ensures Acyclic(edges)
  {
    var rank := (v: V) => -Position(finished, v);
    forall u, v | (u, v) in edges
      ensures rank(u) < rank(v)
    {
      assert (u, v).0 in Elements(finished);
      var i := Position(finished, u);
      assert v in finished[..i];
      var j :| 0 <= j < i && finished[..i][j] == v;
      FirstPosition(finished, j);
    }
    RankedIsAcyclic(edges, rank);
  }

  lemma FirstPosition<V>(order: seq<V>, j: nat)
    requires j < |order|
    ensures Position(order, order[j]) <= j
  {
    if j > 0 && order[0] != order[j] {
      FirstPosition(order[1..], j - 1);
    }
  }

  method Adjacency<V(==, !new)>(nodes: set<V>, edges: seq<(V, V)>) returns (adjacency: map<V, set<V>>)
    requires ClosedGraph(nodes, EdgeSet(edges))
    ensures IsAdjacency(nodes, EdgeSet(edges), adjacency)
  {
    adjacency := map n | n in nodes :: {};
    for i := 0 to |edges|
      invariant IsAdjacency(nodes, EdgeSet(edges[..i]), adjacency)
    {
      var (source, target) := edges[i];
      assert (source, target) in EdgeSet(edges);
      EdgesGrow(edges, i);
      AdjacencyGrows(nodes, EdgeSet(edges[..i]), source, target, adjacency);
      adjacency := adjacency[source := adjacency[source] + {target}];
    }
    AllEdges(edges);
  }

  /** The colouring depth-first search: `ok` is false where the source raises. */
  method ColouringAcyclic<V(==, !new)>(nodes: set<V>, edges: seq<(V, V)>) returns (ok: bool)
    requires ClosedGraph(nodes, EdgeSet(edges))
    ensures ok <==> Acyclic(EdgeSet(edges))
  {
    ghost var all := EdgeSet(edges);
    var adjacency := Adjacency(nodes, edges);
    var colouring := new Colouring(adjacency);
    var rest := nodes;
    while rest != {}
      invariant colouring.Valid(nodes, all) && colouring.stack == []
      invariant rest <= nodes && nodes - rest <= colouring.visited
      decreases rest
    {
      var node :| node in rest;
      var done := colouring.Visit(node, nodes, all);
      if !done {
        return false;
      }
      rest := rest - {node};
    }
    FinishOrderIsAcyclic(nodes, all, colouring.finished);
    ok := true;
  }
}
