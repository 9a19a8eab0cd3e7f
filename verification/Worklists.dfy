/**
 The two worklist closures of the pedagogical compiler: `prerequisite_closure` collects the proper ancestors
 of an objective, `impact_set` the least superset of the changed ids closed under the dependency edges.
 */
module Worklists {
  import opened Sequences
  import opened Wrappers
  import opened Digraph
  import opened EdgeLists

  /** A `dict` of sets in which a missing key stands for the empty set. */
  function Lookup<V(==)>(m: map<V, set<V>>, v: V): set<V> {
    if v in m then m[v] else {}
  }

  ghost function Ancestors<V(!new)>(nodes: set<V>, edges: set<(V, V)>, v: V): set<V> {
    set u | u in nodes && Reaches(edges, u, v)
  }

  ghost predicate IsParents<V(!new)>(edges: set<(V, V)>, parents: map<V, set<V>>) {
    forall u, v :: u in Lookup(parents, v) <==> (u, v) in edges
  }

  method Parents<V(==, !new)>(edges: seq<(V, V)>) returns (parents: map<V, set<V>>)
    ensures IsParents(EdgeSet(edges), parents)
  {
    parents := map[];
    for i := 0 to |edges|
      invariant IsParents(EdgeSet(edges[..i]), parents)
    {
      EdgesGrow(edges, i);
      var (source, target) := edges[i];
      parents := parents[target := Lookup(parents, target) + {source}];
    }
    AllEdges(edges);
  }

  /** What the search for ancestors of `v` keeps: all it holds are ancestors, and none below `seen` is lost. */
  ghost predicate Searching<V(!new)>(edges: set<(V, V)>, v: V, seen: set<V>, stack: seq<V>) {
    && (forall u :: u in seen || u in stack ==> Reaches(edges, u, v))
    && (forall u, w :: (u, w) in edges && (w == v || w in seen) ==> u in seen || u in stack)
  }

  lemma SearchStep<V(!new)>(edges: set<(V, V)>, v: V, seen: set<V>, stack: seq<V>, current: V, found: seq<V>)
    requires Searching(edges, v, seen, stack + [current])
    requires forall u :: u in found <==> (u, current) in edges
    ensures Searching(edges, v, seen + {current}, stack + found)
  {
    assert current in stack + [current];
    forall u | u in found
      ensures Reaches(edges, u, v)
    {
      ReachesEdge(edges, u, current);
      ReachesTransitive(edges, u, current, v);
    }
  }

  lemma BackwardWalkStaysIn<V(!new)>(edges: set<(V, V)>, seen: set<V>, v: V, p: seq<V>, k: nat)
    requires forall u, w :: (u, w) in edges && (w == v || w in seen) ==> u in seen
    requires Walk(edges, p) && p[|p| - 1] == v && k < |p| - 1
    ensures p[k] in seen
    decreases |p| - k
  {
    if k + 1 < |p| - 1 {
      BackwardWalkStaysIn(edges, seen, v, p, k + 1);
    }
    assert Linked(edges, p, k);
  }

  lemma SearchEnds<V(!new)>(nodes: set<V>, edges: set<(V, V)>, v: V, seen: set<V>)
    requires ClosedGraph(nodes, edges) && Searching(edges, v, seen, [])
    ensures seen == Ancestors(nodes, edges, v)
  {
    forall u
      ensures Reaches(edges, u, v) <==> u in seen
      ensures Reaches(edges, u, v) ==> u in nodes
    {
      if Reaches(edges, u, v) {
        var p :| WalkFromTo(edges, u, v, p);
        BackwardWalkStaysIn(edges, seen, v, p, 0);
        var w := ReachesFirstEdge(edges, u, v);
        assert (u, w).0 in nodes;
      }
    }
  }

  /** `ObjectiveGraph.prerequisite_closure`; `None` is the `KeyError` for an unknown objective. */
  method PrerequisiteClosure<V(==, !new)>(nodes: set<V>, edges: seq<(V, V)>, v: V) returns (r: Option<set<V>>)
    requires ClosedGraph(nodes, EdgeSet(edges))
    ensures r == if v in nodes then Some(Ancestors(nodes, EdgeSet(edges), v)) else None
  {
    if v !in nodes {
      return None;
    }
    ghost var all := EdgeSet(edges);
    var parents := Parents(edges);
    var seen: set<V> := {};
    var stack := Enumerate(Lookup(parents, v));
    StartSearch(all, v, parents, stack);
    while stack != []
      invariant Searching(all, v, seen, stack) && seen <= nodes && forall u <- stack :: u in nodes
      decreases nodes - seen, |stack|
    {
      var current := stack[|stack| - 1];
      ghost var popped := stack;
      stack := stack[..|stack| - 1];
      assert popped == stack + [current];
      if current !in seen {
        var found := Enumerate(Lookup(parents, current));
        SearchStep(all, v, seen, stack, current, found);
        seen := seen + {current};
        stack := stack + found;
      }
    }
    SearchEnds(nodes, all, v, seen);
    r := Some(seen);
  }

  lemma StartSearch<V(!new)>(edges: set<(V, V)>, v: V, parents: map<V, set<V>>, stack: seq<V>)
    requires IsParents(edges, parents) && Elements(stack) == Lookup(parents, v)
    ensures Searching(edges, v, {}, stack)
    ensures forall u <- stack :: (u, v) in edges
  {
    forall u | u in stack
      ensures (u, v) in edges && Reaches(edges, u, v)
    {
      assert u in Elements(stack);
      ReachesEdge(edges, u, v);
    }
    forall u | (u, v) in edges
      ensures u in stack
    {
      assert u in Elements(stack);
    }
  }

  /** In a graph its validator accepts, no objective is among its own prerequisites. */
  lemma ClosureExcludesSelf<V(!new)>(nodes: set<V>, edges: set<(V, V)>, v: V)
    requires Acyclic(edges)
    ensures v !in Ancestors(nodes, edges, v)
  {
  }

  /** Prerequisites of prerequisites are prerequisites. */
  lemma ClosureIsTransitive<V(!new)>(nodes: set<V>, edges: set<(V, V)>, u: V, v: V)
    requires u in Ancestors(nodes, edges, v)
    ensures Ancestors(nodes, edges, u) <= Ancestors(nodes, edges, v)
  {
    forall w | w in Ancestors(nodes, edges, u)
      ensures Reaches(edges, w, v)
    {
      ReachesTransitive(edges, w, u, v);
    }
  }

  ghost function Targets<V(!new)>(edges: set<(V, V)>): set<V> {
    set e | e in edges :: e.1
  }

  ghost predicate ReachedFrom<V(!new)>(edges: set<(V, V)>, s: set<V>, v: V) {
    exists w :: w in s && Reaches(edges, w, v)
  }

  ghost function Impact<V(!new)>(edges: set<(V, V)>, s: set<V>): (r: set<V>)
    ensures forall v :: v in r <==> v in s || ReachedFrom(edges, s, v)
  {
    var r := set v | v in s + Targets(edges) && (v in s || ReachedFrom(edges, s, v));
    assert forall v :: ReachedFrom(edges, s, v) ==> v in Targets(edges) by {
      forall v | ReachedFrom(edges, s, v)
        ensures v in Targets(edges)
      {
        var w :| w in s && Reaches(edges, w, v);
        var c := ReachesLastEdge(edges, w, v);
        assert (c, v).1 in Targets(edges);
      }
    }
    r
  }

  /** `Impact` is the least superset of `s` closed under the edges. */
  lemma ImpactIsLeast<V(!new)>(edges: set<(V, V)>, s: set<V>)
    ensures s <= Impact(edges, s) && ForwardClosed(edges, Impact(edges, s))
    ensures forall t :: s <= t && ForwardClosed(edges, t) ==> Impact(edges, s) <= t
  {
    forall u, v | u in Impact(edges, s) && (u, v) in edges
      ensures v in Impact(edges, s)
    {
      ReachesEdge(edges, u, v);
      if u !in s {
        var w :| w in s && Reaches(edges, w, u);
        ReachesTransitive(edges, w, u, v);
      }
    }
    forall t | s <= t && ForwardClosed(edges, t)
      ensures Impact(edges, s) <= t
    {
      forall v | v in Impact(edges, s)
        ensures v in t
      {
        if v !in s {
          var w :| w in s && Reaches(edges, w, v);
          ReachStaysIn(edges, t, w, v);
        }
      }
    }
  }

  lemma ImpactIsMonotone<V(!new)>(edges: set<(V, V)>, s: set<V>, t: set<V>)
    requires s <= t
    ensures Impact(edges, s) <= Impact(edges, t)
  {
    ImpactIsLeast(edges, s);
    ImpactIsLeast(edges, t);
  }

  lemma ImpactIsIdempotent<V(!new)>(edges: set<(V, V)>, s: set<V>)
    ensures Impact(edges, Impact(edges, s)) == Impact(edges, s)
  {
    ImpactIsLeast(edges, s);
    ImpactIsLeast(edges, Impact(edges, s));
  }

  lemma ImpactDistributes<V(!new)>(edges: set<(V, V)>, s: set<V>, t: set<V>)
    ensures Impact(edges, s + t) == Impact(edges, s) + Impact(edges, t)
  {
    ImpactIsLeast(edges, s);
    ImpactIsLeast(edges, t);
    ImpactIsLeast(edges, s + t);
    ImpactIsMonotone(edges, s, s + t);
    ImpactIsMonotone(edges, t, s + t);
  }

  ghost predicate IsChildren<V(!new)>(edges: set<(V, V)>, children: map<V, set<V>>) {
    forall u, v :: u in Lookup(children, v) <==> (v, u) in edges
  }

  method Children<V(==, !new)>(nodes: set<V>, edges: seq<(V, V)>) returns (children: map<V, set<V>>)
    requires ClosedGraph(nodes, EdgeSet(edges))
    ensures IsChildren(EdgeSet(edges), children)
  {
    children := map n | n in nodes :: {};
    for i := 0 to |edges|
      invariant children.Keys == nodes && IsChildren(EdgeSet(edges[..i]), children)
    {
      EdgesGrow(edges, i);
      var (source, target) := edges[i];
      assert (source, target) in EdgeSet(edges);
      children := children[source := children[source] + {target}];
    }
    AllEdges(edges);
  }

  /** What the spread keeps: it stays within the impact, and only ids still on the stack can have children outside. */
  ghost predicate Spreading<V(!new)>(edges: set<(V, V)>, s: set<V>, impacted: set<V>, stack: seq<V>) {
    && s <= impacted <= Impact(edges, s)
    && (forall u <- stack :: u in impacted)
    && (forall u, w :: u in impacted && (u, w) in edges ==> w in impacted || u in stack)
  }

  /** Pushes the children of `current` not met before. */
  method Spread<V(==, !new)>(ghost edges: set<(V, V)>, ghost s: set<V>, current: V, children: set<V>,
                             impacted0: set<V>, stack0: seq<V>)
    returns (impacted: set<V>, stack: seq<V>)
    requires Spreading(edges, s, impacted0, stack0 + [current])
    requires forall u :: u in children <==> (current, u) in edges
    ensures Spreading(edges, s, impacted, stack)
    ensures impacted0 <= impacted && (impacted == impacted0 ==> |stack| == |stack0|)
  {
    impacted, stack := impacted0, stack0;
    assert current in stack0 + [current];
    ImpactIsLeast(edges, s);
    var rest := children;
    while rest != {}
      invariant rest <= children && impacted0 <= impacted <= Impact(edges, s) && children - rest <= impacted
      invariant forall u <- stack :: u in impacted
      invariant forall u, w :: u in impacted && u != current && (u, w) in edges ==> w in impacted || u in stack
      invariant stack0 <= stack && (impacted == impacted0 ==> stack == stack0)
      decreases rest
    {
      var target :| target in rest;
      assert (current, target) in edges;
      rest := rest - {target};
      if target !in impacted {
        impacted := impacted + {target};
        stack := stack + [target];
      }
    }
  }

  /** `SemanticContentIR.impact_set`. */
  method ImpactSet<V(==, !new)>(nodes: set<V>, edges: seq<(V, V)>, changed: set<V>) returns (impacted: set<V>)
    requires ClosedGraph(nodes, EdgeSet(edges))
    ensures impacted == Impact(EdgeSet(edges), changed)
  {
    hide Impact;
    ghost var all := EdgeSet(edges);
    var children := Children(nodes, edges);
    impacted := changed;
    var stack := Enumerate(changed);
    assert forall u :: u in stack <==> u in Elements(stack);
    ImpactIsLeast(all, changed);
    while stack != []
      invariant Spreading(all, changed, impacted, stack)
      decreases Impact(all, changed) - impacted, |stack|
    {
      var current := stack[|stack| - 1];
      assert stack == stack[..|stack| - 1] + [current];
      impacted, stack := Spread(all, changed, current, Lookup(children, current), impacted, stack[..|stack| - 1]);
    }
    assert ForwardClosed(all, impacted);
  }
}
