/**
 Finite directed graphs given by their edge set: reachability by one or more edges, acyclicity, and the
 two standard ways of deciding it (a rank that every edge raises; a set without a source).
 */
module Digraph {
  import opened Sequences

  ghost predicate Linked<V>(edges: set<(V, V)>, p: seq<V>, i: nat)
    requires i + 1 < |p|
  {
    (p[i], p[i + 1]) in edges
  }

  /** `p` lists at least two vertices, each joined to the next by an edge. */
  ghost predicate Walk<V>(edges: set<(V, V)>, p: seq<V>) {
    |p| >= 2 && forall i: nat :: i < |p| - 1 ==> Linked(edges, p, i)
  }

  ghost predicate WalkFromTo<V>(edges: set<(V, V)>, a: V, b: V, p: seq<V>) {
    Walk(edges, p) && p[0] == a && p[|p| - 1] == b
  }

  /** `b` can be reached from `a` along one or more edges. */
  ghost predicate Reaches<V(!new)>(edges: set<(V, V)>, a: V, b: V) {
    exists p :: WalkFromTo(edges, a, b, p)
  }

  ghost predicate Acyclic<V(!new)>(edges: set<(V, V)>) {
    forall v :: !Reaches(edges, v, v)
  }

  /** Every edge joins two of `nodes`. */
  ghost predicate ClosedGraph<V>(nodes: set<V>, edges: set<(V, V)>) {
    forall e <- edges :: e.0 in nodes && e.1 in nodes
  }

  ghost predicate ForwardClosed<V(!new)>(edges: set<(V, V)>, s: set<V>) {
    forall u, v :: u in s && (u, v) in edges ==> v in s
  }

  ghost function Preds<V(!new)>(nodes: set<V>, edges: set<(V, V)>, v: V): set<V> {
    set u | u in nodes && (u, v) in edges
  }

  ghost function Succs<V(!new)>(nodes: set<V>, edges: set<(V, V)>, v: V): set<V> {
    set u | u in nodes && (v, u) in edges
  }

  lemma ReachesEdge<V(!new)>(edges: set<(V, V)>, a: V, b: V)
    requires (a, b) in edges
    ensures Reaches(edges, a, b)
  {
    assert WalkFromTo(edges, a, b, [a, b]);
  }

  lemma ReachesTransitive<V(!new)>(edges: set<(V, V)>, a: V, b: V, c: V)
    requires Reaches(edges, a, b) && Reaches(edges, b, c)
    ensures Reaches(edges, a, c)
  {
    var p :| WalkFromTo(edges, a, b, p);
    var q :| WalkFromTo(edges, b, c, q);
    var r := p + q[1..];
    forall i: nat | i < |r| - 1
      ensures Linked(edges, r, i)
    {
      if i < |p| - 1 {
        assert Linked(edges, p, i);
      } else {
        assert Linked(edges, q, i - (|p| - 1));
      }
    }
    assert WalkFromTo(edges, a, c, r);
  }

  /** A walk is one edge, or a walk followed by one edge. */
  lemma ReachesLastEdge<V(!new)>(edges: set<(V, V)>, a: V, b: V) returns (c: V)
    requires Reaches(edges, a, b)
    ensures (c, b) in edges && (c == a || Reaches(edges, a, c))
  {
    var p :| WalkFromTo(edges, a, b, p);
    var n := |p| - 1;
    c := p[n - 1];
    assert Linked(edges, p, n - 1);
    if n > 1 {
      forall i: nat | i < |p[..n]| - 1
        ensures Linked(edges, p[..n], i)
      {
        assert Linked(edges, p, i);
      }
      assert WalkFromTo(edges, a, c, p[..n]);
    }
  }

  /** A walk is one edge, or one edge followed by a walk. */
  lemma ReachesFirstEdge<V(!new)>(edges: set<(V, V)>, a: V, b: V) returns (c: V)
    requires Reaches(edges, a, b)
    ensures (a, c) in edges && (c == b || Reaches(edges, c, b))
  {
    var p :| WalkFromTo(edges, a, b, p);
    c := p[1];
    assert Linked(edges, p, 0);
    if |p| > 2 {
      forall i: nat | i < |p[1..]| - 1
        ensures Linked(edges, p[1..], i)
      {
        assert Linked(edges, p, i + 1);
      }
      assert WalkFromTo(edges, c, b, p[1..]);
    }
  }

  lemma WalkStaysIn<V(!new)>(edges: set<(V, V)>, s: set<V>, p: seq<V>, k: nat)
    requires ForwardClosed(edges, s) && Walk(edges, p) && p[0] in s && k < |p|
    ensures p[k] in s
  {
    if k > 0 {
      WalkStaysIn(edges, s, p, k - 1);
      assert Linked(edges, p, k - 1);
    }
  }

  /** A set closed under the edges contains all that can be reached from it. */
  lemma ReachStaysIn<V(!new)>(edges: set<(V, V)>, s: set<V>, a: V, b: V)
    requires ForwardClosed(edges, s) && a in s && Reaches(edges, a, b)
    ensures b in s
  {
    var p :| WalkFromTo(edges, a, b, p);
    WalkStaysIn(edges, s, p, |p| - 1);
  }

  ghost predicate Raises<V(!new)>(edges: set<(V, V)>, rank: V -> int) {
    forall u, v :: (u, v) in edges ==> rank(u) < rank(v)
  }

  lemma {:induction false} WalkRaisesRank<V(!new)>(edges: set<(V, V)>, rank: V -> int, p: seq<V>, k: nat)
    requires Raises(edges, rank) && Walk(edges, p) && 0 < k < |p|
    ensures rank(p[0]) < rank(p[k])
  {
    assert Linked(edges, p, k - 1);
    if k > 1 {
      WalkRaisesRank(edges, rank, p, k - 1);
    }
  }

  lemma ReachRaisesRank<V(!new)>(edges: set<(V, V)>, rank: V -> int, a: V, b: V)
    requires Raises(edges, rank) && Reaches(edges, a, b)
    ensures rank(a) < rank(b)
  {
    var p :| WalkFromTo(edges, a, b, p);
    WalkRaisesRank(edges, rank, p, |p| - 1);
  }

  /** A rank raised by every edge rules out cycles. */
  lemma RankedIsAcyclic<V(!new)>(edges: set<(V, V)>, rank: V -> int)
    requires Raises(edges, rank)
    ensures Acyclic(edges)
  {
    forall v ensures !Reaches(edges, v, v) {
      if Reaches(edges, v, v) {
        ReachRaisesRank(edges, rank, v, v);
      }
    }
  }

  function Position<V(==)>(order: seq<V>, v: V): (i: int)
    ensures v in order ==> 0 <= i < |order| && order[i] == v
    ensures v !in order ==> i == |order|
  {
    if order == [] then 0 else if order[0] == v then 0 else 1 + Position(order[1..], v)
  }

  /** In `order` every vertex comes after all its predecessors. */
  ghost predicate Topological<V(!new)>(edges: set<(V, V)>, order: seq<V>) {
    && Distinct(order)
    && forall i, u :: 0 <= i < |order| && (u, order[i]) in edges ==> u in order[..i]
  }

  lemma TopologicalIsAcyclic<V(!new)>(edges: set<(V, V)>, order: seq<V>)
    requires Topological(edges, order)
    requires forall e <- edges :: e.1 in order
    ensures Acyclic(edges)
  {
    var rank := (v: V) => Position(order, v);
    forall u, v | (u, v) in edges
      ensures rank(u) < rank(v)
    {
      assert (u, v).1 in order;
      var i := Position(order, v);
      assert u in order[..i];
      var j :| 0 <= j < i && order[..i][j] == u;
      assert order[j] == u;
      assert order[Position(order, u)] == u;
    }
    RankedIsAcyclic(edges, rank);
  }

  ghost predicate HasPred<V(!new)>(edges: set<(V, V)>, s: set<V>, v: V) {
    exists u :: u in s && (u, v) in edges
  }

  ghost predicate NoSource<V(!new)>(edges: set<(V, V)>, s: set<V>) {
    forall v {:trigger HasPred(edges, s, v)} :: v in s ==> HasPred(edges, s, v)
  }

  /** Following predecessors inside a set without a source gives walks of any length. */
  lemma BackwardWalk<V(!new)>(edges: set<(V, V)>, s: set<V>, n: nat) returns (p: seq<V>)
    requires s != {} && NoSource(edges, s)
    ensures |p| == n + 1 && (forall x <- p :: x in s) && forall i: nat :: i < n ==> Linked(edges, p, i)
  {
    if n == 0 {
      var v :| v in s;
      p := [v];
    } else {
      var q := BackwardWalk(edges, s, n - 1);
      assert HasPred(edges, s, q[0]);
      var u :| u in s && (u, q[0]) in edges;
      p := [u] + q;
      forall i: nat | i < n
        ensures Linked(edges, p, i)
      {
        if i > 0 {
          assert Linked(edges, q, i - 1);
        }
      }
    }
  }

  /** A non-empty finite set in which every vertex has a predecessor contains a cycle. */
  lemma NoSourceIsCyclic<V(!new)>(edges: set<(V, V)>, s: set<V>)
    requires s != {} && NoSource(edges, s)
    ensures !Acyclic(edges)
  {
    var p := BackwardWalk(edges, s, |s|);
    var i, j := Pigeonhole(p, s);
    var cycle := p[i..j + 1];
    forall k: nat | k < |cycle| - 1
      ensures Linked(edges, cycle, k)
    {
      assert Linked(edges, p, i + k);
    }
    assert WalkFromTo(edges, p[i], p[i], cycle);
    assert Reaches(edges, p[i], p[i]);
  }

  /** In an acyclic graph every non-empty finite set has a vertex none of whose predecessors is in the set. */
  lemma AcyclicHasSource<V(!new)>(edges: set<(V, V)>, s: set<V>) returns (v: V)
    requires Acyclic(edges) && s != {}
    ensures v in s && forall u :: u in s ==> (u, v) !in edges
  {
    if NoSource(edges, s) {
      NoSourceIsCyclic(edges, s);
    }
    v :| v in s && !HasPred(edges, s, v);
  }
}
