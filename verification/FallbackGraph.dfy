/**
 The component fallback graph: cycle detection by following each chain, and the checks of the knowledge source it
 relies on. Lifecycle, locale and renderer checks are not modelled.
 */
module FallbackGraph {
  import opened Wrappers
  import opened Sequences
  import opened Digraph
  import opened StrategyModels

  datatype Error = UnknownFallbackPolicy(bindingId: string) | UnknownComponent(component: string)
    | NoFallbackNeedsReason(policyId: string) | CircularFallback(start: string)
    | MissingRequiredFallback(bindingId: string)

  /** The policy map: a later policy for the same component replaces an earlier one. */
  function FallbackMap(policies: seq<Policy>): map<string, string> {
    if policies == [] then map[]
    else
      var last := policies[|policies| - 1];
      FallbackMap(policies[..|policies| - 1])[last.fromComponent := last.toComponent]
  }

  ghost function MapEdges<V(!new)>(m: map<V, V>): set<(V, V)> {
    set v | v in m :: (v, m[v])
  }

  /** The `k`-th component on the chain from `start`, as long as the chain stays in the map. */
  function Chain<V>(m: map<V, V>, start: V, k: nat): Option<V> {
    if k == 0 then Some(start)
    else
      var before := Chain(m, start, k - 1);
      if before.Some? && before.value in m then Some(m[before.value]) else None
  }

  lemma {:induction false} ChainReaches<V(!new)>(m: map<V, V>, start: V, k: nat)
    requires k > 0 && Chain(m, start, k).Some?
    ensures Reaches(MapEdges(m), start, Chain(m, start, k).value)
  {
    var before := Chain(m, start, k - 1).value;
    ReachesEdge(MapEdges(m), before, m[before]);
    if k > 1 {
      ChainReaches(m, start, k - 1);
      ReachesTransitive(MapEdges(m), start, before, m[before]);
    }
  }

  lemma ChainFrom<V>(m: map<V, V>, start: V, i: nat, j: nat)
    requires i <= j && Chain(m, start, j).Some?
    ensures Chain(m, start, i).Some? && Chain(m, Chain(m, start, i).value, j - i) == Chain(m, start, j)
  {
    if i < j {
      ChainFrom(m, start, i, j - 1);
    }
  }

  /** Following a chain through acyclic policies visits no component twice. */
  lemma ChainRepeatIsCycle<V(!new)>(m: map<V, V>, start: V, i: nat, j: nat)
    requires i < j && Chain(m, start, j).Some? && Chain(m, start, i) == Chain(m, start, j)
    ensures !Acyclic(MapEdges(m))
  {
    ChainFrom(m, start, i, j);
    ChainReaches(m, Chain(m, start, i).value, j - i);
  }

  /** The chain from `start` leaves the map within as many hops as the map has entries. */
  ghost predicate Leaves<V(!new)>(m: map<V, V>, start: V) {
    exists k: nat :: k <= |m| && Chain(m, start, k).Some? && Chain(m, start, k).value !in m
  }

  /** Once the policies are accepted, every fallback chain leaves the map. */
  lemma ChainsLeave<V(!new)>(m: map<V, V>, start: V)
    requires Acyclic(MapEdges(m))
    ensures Leaves(m, start)
  {
    if forall k: nat :: k <= |m| && Chain(m, start, k).Some? ==> Chain(m, start, k).value in m {
      var p := ChainPrefix(m, start, |m| + 1);
      assert forall x <- p :: x in m.Keys by {
        forall x | x in p
          ensures x in m.Keys
        {
          var k :| 0 <= k < |p| && p[k] == x;
        }
      }
      assert |m.Keys| == |m|;
      var i, j := Pigeonhole(p, m.Keys);
      ChainRepeatIsCycle(m, start, i, j);
    }
  }

  lemma ChainPrefix<V>(m: map<V, V>, start: V, n: nat) returns (p: seq<V>)
    requires forall k: nat :: k < n && Chain(m, start, k).Some? ==> Chain(m, start, k).value in m
    ensures |p| == n && forall k: nat :: k < n ==> Chain(m, start, k) == Some(p[k])
  {
    p := [];
    for k := 0 to n
      invariant |p| == k && forall i: nat :: i < k ==> Chain(m, start, i) == Some(p[i])
    {
      if k > 0 {
        assert Chain(m, start, k - 1).value in m;
      }
      p := p + [Chain(m, start, k).value];
    }
  }

  /** A reachable component lies on the chain. */
  lemma {:induction false} WalkIsChain<V(!new)>(m: map<V, V>, p: seq<V>, k: nat)
    requires Walk(MapEdges(m), p) && k < |p|
    ensures Chain(m, p[0], k) == Some(p[k])
  {
    if k > 0 {
      WalkIsChain(m, p, k - 1);
      assert Linked(MapEdges(m), p, k - 1);
    }
  }

  lemma CycleStaysInMap<V(!new)>(m: map<V, V>, v: V, k: nat)
    requires Reaches(MapEdges(m), v, v)
    ensures Chain(m, v, k).Some? && Chain(m, v, k).value in m
  {
    var p :| WalkFromTo(MapEdges(m), v, v, p);
    var n := |p| - 1;
    if k < n {
      WalkIsChain(m, p, k);
      assert Linked(MapEdges(m), p, k);
    } else {
      CycleStaysInMap(m, v, k - n);
      WalkIsChain(m, p, n);
      ChainAdds(m, v, n, k - n);
    }
  }

  lemma ChainAdds<V>(m: map<V, V>, start: V, i: nat, j: nat)
    requires Chain(m, start, i).Some?
    ensures Chain(m, start, i + j) == Chain(m, Chain(m, start, i).value, j)
  {
    if j > 0 {
      ChainAdds(m, start, i, j - 1);
    }
  }

  /** The policies are acyclic exactly when every fallback chain ends. */
  lemma AcyclicExactlyWhenChainsLeave<V(!new)>(m: map<V, V>)
    ensures Acyclic(MapEdges(m)) <==> forall start :: Leaves(m, start)
  {
    if Acyclic(MapEdges(m)) {
      forall start
        ensures Leaves(m, start)
      {
        ChainsLeave(m, start);
      }
    } else {
      var v :| Reaches(MapEdges(m), v, v);
      if Leaves(m, v) {
        var k: nat :| k <= |m| && Chain(m, v, k).Some? && Chain(m, v, k).value !in m;
        CycleStaysInMap(m, v, k);
      }
    }
  }

  /** Follows the chain from `start`; `ok` is false where the source raises. */
  method FollowChain<V(==, !new)>(graph: map<V, V>, start: V) returns (ok: bool)
    ensures !ok ==> !Acyclic(MapEdges(graph))
    ensures ok ==> !Reaches(MapEdges(graph), start, start)
  {
    var seen: set<V> := {};
    var current := start;
    ghost var hops := 0;
    while current in graph
      invariant Chain(graph, start, hops) == Some(current)
      invariant seen <= graph.Keys && forall v <- seen :: exists i: nat :: i < hops && Chain(graph, start, i) == Some(v)
      decreases graph.Keys - seen
    {
      if current in seen {
        ghost var i: nat :| i < hops && Chain(graph, start, i) == Some(current);
        ChainRepeatIsCycle(graph, start, i, hops);
        return false;
      }
      seen := seen + {current};
      current := graph[current];
      hops := hops + 1;
    }
    if Reaches(MapEdges(graph), start, start) {
      CycleStaysInMap(graph, start, hops);
    }
    ok := true;
  }

  /** `_require_acyclic_fallbacks`; the component a circular path was found from, if any. */
  method RequireAcyclic(policies: seq<Policy>) returns (bad: Option<string>)
    ensures bad == None <==> Acyclic(MapEdges(FallbackMap(policies)))
  {
    var graph := map[];
    for i := 0 to |policies|
      invariant graph == FallbackMap(policies[..i])
    {
      assert policies[..i + 1][..i] == policies[..i];
      graph := graph[policies[i].fromComponent := policies[i].toComponent];
    }
    assert policies[..|policies|] == policies;
    var rest := graph.Keys;
    while rest != {}
      invariant rest <= graph.Keys
      invariant forall v <- graph.Keys - rest :: !Reaches(MapEdges(graph), v, v)
      decreases rest
    {
      var start :| start in rest;
      var ok := FollowChain(graph, start);
      if !ok {
        return Some(start);
      }
      rest := rest - {start};
    }
    forall v
      ensures !Reaches(MapEdges(graph), v, v)
    {
      if Reaches(MapEdges(graph), v, v) {
        CycleStaysInMap(graph, v, 0);
      }
    }
    bad := None;
  }

  // ---- the knowledge source

  /** `policies_by_id`: a later policy with the same id replaces an earlier one. */
  function PoliciesById(policies: seq<Policy>): map<string, Policy> {
    if policies == [] then map[]
    else PoliciesById(policies[..|policies| - 1])[policies[|policies| - 1].policyId := policies[|policies| - 1]]
  }

  function RequiredSources(policies: seq<Policy>): set<string> {
    set p | p in policies && p.kind == Required :: p.fromComponent
  }

  predicate PolicyOk(known: set<string>, p: Policy) {
    && p.fromComponent in known
    && (p.kind != NoFallbackAllowed ==> p.toComponent in known)
    && (p.kind == NoFallbackAllowed ==> p.reasonCode != "" && p.severity != "" && p.teacherOptions != [])
  }

  ghost predicate PoliciesKnown(bindings: seq<Binding>, policies: seq<Policy>) {
    forall b <- bindings :: exists p :: p in policies && p.policyId == b.fallbackPolicyId
  }

  ghost predicate PoliciesOk(known: set<string>, policies: seq<Policy>) {
    forall p <- policies :: PolicyOk(known, p)
  }

  /** A binding under a required policy has a required fallback for its component. */
  ghost predicate RequiredCovered(bindings: seq<Binding>, policies: seq<Policy>) {
    forall b <- bindings ::
      b.fallbackPolicyId in PoliciesById(policies)
      && (PoliciesById(policies)[b.fallbackPolicyId].kind == Required ==> b.componentType in RequiredSources(policies))
  }

  /** What an accepted knowledge source guarantees about its fallbacks. */
  ghost predicate FallbacksOk(known: set<string>, bindings: seq<Binding>, policies: seq<Policy>) {
    && PoliciesKnown(bindings, policies)
    && PoliciesOk(known, policies)
    && Acyclic(MapEdges(FallbackMap(policies)))
    && RequiredCovered(bindings, policies)
  }

  lemma {:induction false} PoliciesByIdKeys(policies: seq<Policy>)
    ensures forall id :: id in PoliciesById(policies) <==> exists p :: p in policies && p.policyId == id
    ensures forall id <- PoliciesById(policies) ::
      PoliciesById(policies)[id] in policies && PoliciesById(policies)[id].policyId == id
  {
    if policies != [] {
      var n := |policies| - 1;
      PoliciesByIdKeys(policies[..n]);
      assert policies == policies[..n] + [policies[n]];
      forall id
        ensures id in PoliciesById(policies) <==> exists p :: p in policies && p.policyId == id
      {
        if p :| p in policies && p.policyId == id {
          assert p in policies[..n] || p == policies[n];
        }
        assert policies[n] in policies;
      }
    }
  }

  /** The policy at `k` is the last with this id. */
  ghost predicate LastWithPolicyId(policies: seq<Policy>, id: string, k: nat) {
    k < |policies| && policies[k].policyId == id && forall j :: k < j < |policies| ==> policies[j].policyId != id
  }

  lemma {:induction false} PolicyByIdIsLast(policies: seq<Policy>, id: string, k: nat)
    requires LastWithPolicyId(policies, id, k)
    ensures id in PoliciesById(policies) && PoliciesById(policies)[id] == policies[k]
  {
    var n := |policies| - 1;
    if k < n {
      PolicyByIdIsLast(policies[..n], id, k);
    }
  }

  lemma {:induction false} LastPolicyExists(policies: seq<Policy>, id: string) returns (k: nat)
    requires exists p :: p in policies && p.policyId == id
    ensures LastWithPolicyId(policies, id, k)
  {
    var n := |policies| - 1;
    if policies[n].policyId == id {
      k := n;
    } else {
      assert policies == policies[..n] + [policies[n]];
      k := LastPolicyExists(policies[..n], id);
    }
  }

  /** Where the last policy with the binding's id is required, some required policy is for the binding's component. */
  ghost predicate CoveredWhereRequired(bindings: seq<Binding>, policies: seq<Policy>) {
    forall b, k: nat ::
      b in bindings && LastWithPolicyId(policies, b.fallbackPolicyId, k) && policies[k].kind == Required ==>
        exists p :: p in policies && p.kind == Required && p.fromComponent == b.componentType
  }

  /**
   What an accepted knowledge source guarantees, policy by policy and binding by binding: every binding names a policy;
   policies lead from known components to known ones, or say why they lead nowhere; every fallback chain ends; bindings
   under a required policy are covered.
   */
  lemma FallbacksOkExactly(known: set<string>, bindings: seq<Binding>, policies: seq<Policy>)
    ensures FallbacksOk(known, bindings, policies)
       <==> (forall b <- bindings :: exists p :: p in policies && p.policyId == b.fallbackPolicyId)
            && (forall p <- policies ::
                  && p.fromComponent in known
                  && (p.kind in {Required, TerminalSafe} ==> p.toComponent in known)
                  && (p.kind == NoFallbackAllowed ==> p.reasonCode != "" && p.severity != "" && |p.teacherOptions| > 0))
            && (forall start :: Leaves(FallbackMap(policies), start))
            && CoveredWhereRequired(bindings, policies)
  {
    hide PoliciesById, MapEdges, FallbackMap, Acyclic, Leaves;
    AcyclicExactlyWhenChainsLeave(FallbackMap(policies));
    assert Acyclic(MapEdges(FallbackMap(policies))) <==> forall start :: Leaves(FallbackMap(policies), start);
    assert PoliciesKnown(bindings, policies)
      <==> forall b <- bindings :: exists p :: p in policies && p.policyId == b.fallbackPolicyId;
    PoliciesOkExactly(known, policies);
    if PoliciesKnown(bindings, policies) {
      RequiredCoveredExactly(bindings, policies);
    }
  }

  lemma PoliciesOkExactly(known: set<string>, policies: seq<Policy>)
    ensures PoliciesOk(known, policies)
       <==> forall p <- policies ::
              && p.fromComponent in known
              && (p.kind in {Required, TerminalSafe} ==> p.toComponent in known)
              && (p.kind == NoFallbackAllowed ==> p.reasonCode != "" && p.severity != "" && |p.teacherOptions| > 0)
  {
  }

  lemma RequiredCoveredExactly(bindings: seq<Binding>, policies: seq<Policy>)
    requires PoliciesKnown(bindings, policies)
    ensures RequiredCovered(bindings, policies) <==> CoveredWhereRequired(bindings, policies)
  {
    hide PoliciesById;
    var byId := PoliciesById(policies);
    forall b | b in bindings
      ensures b.fallbackPolicyId in byId
      ensures byId[b.fallbackPolicyId].kind == Required
         <==> exists k: nat :: LastWithPolicyId(policies, b.fallbackPolicyId, k) && policies[k].kind == Required
    {
      var k := LastPolicyExists(policies, b.fallbackPolicyId);
      PolicyByIdIsLast(policies, b.fallbackPolicyId, k);
      if j: nat :| LastWithPolicyId(policies, b.fallbackPolicyId, j) && policies[j].kind == Required {
        PolicyByIdIsLast(policies, b.fallbackPolicyId, j);
      }
    }
  }

  /** The known-id check of the bindings, then `validate_fallback_graph`. */
  method ValidateFallbacks(known: set<string>, bindings: seq<Binding>, policies: seq<Policy>)
    returns (error: Option<Error>)
    ensures error == None <==> FallbacksOk(known, bindings, policies)
    ensures error.Some? && error.value.UnknownFallbackPolicy? <==> !PoliciesKnown(bindings, policies)
    ensures error.Some? && (error.value.UnknownComponent? || error.value.NoFallbackNeedsReason?)
       <==> PoliciesKnown(bindings, policies) && !PoliciesOk(known, policies)
    ensures error.Some? && error.value.CircularFallback?
       <==> PoliciesKnown(bindings, policies) && PoliciesOk(known, policies)
            && !Acyclic(MapEdges(FallbackMap(policies)))
  {
    hide PoliciesById, RequiredSources, MapEdges, FallbackMap, Acyclic;
    var byId := PoliciesById(policies);
    PoliciesByIdKeys(policies);
    var fallbackIds := set p | p in policies :: p.policyId;
    for i := 0 to |bindings|
      invariant forall b <- bindings[..i] :: b.fallbackPolicyId in byId
    {
      if bindings[i].fallbackPolicyId !in fallbackIds {
        var b := bindings[i];
        assert b in bindings;
        return Some(UnknownFallbackPolicy(bindings[i].bindingId));
      }
    }
    assert bindings[..|bindings|] == bindings;
    for i := 0 to |policies|
      invariant forall p <- policies[..i] :: PolicyOk(known, p)
    {
      var p := policies[i];
      assert p in policies;
      if p.fromComponent !in known {
        return Some(UnknownComponent(p.fromComponent));
      }
      if p.kind != NoFallbackAllowed && p.toComponent !in known {
        return Some(UnknownComponent(p.toComponent));
      }
      if p.kind == NoFallbackAllowed && (p.reasonCode == "" || p.severity == "" || p.teacherOptions == []) {
        return Some(NoFallbackNeedsReason(p.policyId));
      }
    }
    assert policies[..|policies|] == policies;
    var circular := RequireAcyclic(policies);
    if circular.Some? {
      return Some(CircularFallback(circular.value));
    }
    var sources := RequiredSources(policies);
    for i := 0 to |bindings|
      invariant forall b <- bindings[..i] :: byId[b.fallbackPolicyId].kind == Required ==> b.componentType in sources
    {
      var b := bindings[i];
      assert b in bindings;
      // The lookup below cannot fail: the ids were checked first.
      var policy := byId[b.fallbackPolicyId];
      if policy.kind == Required && b.componentType !in sources {
        return Some(MissingRequiredFallback(b.bindingId));
      }
    }
    assert bindings[..|bindings|] == bindings;
    error := None;
  }
}
