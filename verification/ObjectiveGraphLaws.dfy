/**
 What the built objective graph contains, told by the requested objectives and the pinned nodes alone: which
 objectives, with what fields, and which prerequisites, in which direction and order.
 */
module ObjectiveGraphLaws {
  import opened Sequences
  import opened Wrappers
  import opened Ordering
  import opened Digraph
  import opened EdgeLists
  import opened Worklists
  import opened Ids
  import opened ObjectiveGraph

  // ---- the index of descriptions

  /** The objective at `i` is the last whose normalized description is `key`. */
  ghost predicate LastDescribed(p: Primitives, objectives: seq<Objective>, key: string, i: nat) {
    i < |objectives| && p.normalize(objectives[i].description) == key
    && forall j :: i < j < |objectives| ==> p.normalize(objectives[j].description) != key
  }

  /** `id` is the id of the last objective whose normalized description is `key`. */
  ghost predicate IndexedAs(p: Primitives, objectives: seq<Objective>, key: string, id: Id) {
    exists i: nat :: LastDescribed(p, objectives, key, i) && objectives[i].id == id
  }

  lemma {:induction false} IndexExactly(p: Primitives, objectives: seq<Objective>, key: string, id: Id)
    ensures key in IdByDescription(p, objectives) && IdByDescription(p, objectives)[key] == id
       <==> IndexedAs(p, objectives, key, id)
  {
    if objectives != [] {
      var n := |objectives| - 1;
      var init, last := objectives[..n], objectives[n];
      IndexExactly(p, init, key, id);
      if p.normalize(last.description) == key {
        assert LastDescribed(p, objectives, key, n);
      } else {
        forall i: nat
          ensures LastDescribed(p, init, key, i) <==> LastDescribed(p, objectives, key, i)
        {
        }
      }
    }
  }

  /** A description is in the index when some objective has it up to normalization. */
  lemma IndexKeysExactly(p: Primitives, objectives: seq<Objective>, key: string)
    ensures key in IdByDescription(p, objectives)
       <==> exists o :: o in objectives && p.normalize(o.description) == key
  {
    if objectives != [] {
      var n := |objectives| - 1;
      IndexKeysExactly(p, objectives[..n], key);
      assert objectives == objectives[..n] + [objectives[n]];
    }
  }

  // ---- the prerequisites

  lemma {:induction false} NodeEdgesExactly(p: Primitives, index: map<string, Id>, target: Id, raws: seq<string>,
                                            e: Prerequisite)
    ensures e in NodeEdges(p, index, target, raws).0
       <==> e.target == target
            && exists raw :: raw in raws && p.normalize(raw) in index && index[p.normalize(raw)] == e.prerequisite
  {
    if raws != [] {
      var init, last := raws[..|raws| - 1], raws[|raws| - 1];
      NodeEdgesExactly(p, index, target, init, e);
      assert raws == init + [last];
      assert last in raws;
    }
  }

  lemma {:induction false} NodeRejectsExactly(p: Primitives, index: map<string, Id>, target: Id, raws: seq<string>,
                                              s: string)
    ensures s in NodeEdges(p, index, target, raws).1
       <==> exists raw :: raw in raws && p.normalize(raw) !in index && s == "missing prerequisite node for " + raw
  {
    if raws != [] {
      var init, last := raws[..|raws| - 1], raws[|raws| - 1];
      NodeRejectsExactly(p, index, target, init, s);
      assert raws == init + [last];
      assert last in raws;
    }
  }

  /** The node is indexed to the target of the edge, and one of its prerequisite descriptions to the other end. */
  ghost predicate Names(p: Primitives, index: map<string, Id>, node: Node, e: Prerequisite) {
    && p.normalize(node.description) in index && index[p.normalize(node.description)] == e.target
    && exists raw :: raw in node.prerequisiteDescriptions
                     && p.normalize(raw) in index && index[p.normalize(raw)] == e.prerequisite
  }

  lemma {:induction false} AllEdgesExactly(p: Primitives, index: map<string, Id>, nodes: seq<Node>, e: Prerequisite)
    ensures e in AllEdgesOf(p, index, nodes).0 <==> exists node :: node in nodes && Names(p, index, node, e)
  {
    hide NodeEdges;
    if nodes != [] {
      var init, last := nodes[..|nodes| - 1], nodes[|nodes| - 1];
      AllEdgesExactly(p, index, init, e);
      assert nodes == init + [last];
      var key := p.normalize(last.description);
      if key in index {
        NodeEdgesExactly(p, index, index[key], last.prerequisiteDescriptions, e);
      }
      assert last in nodes;
    }
  }

  /** The node is indexed, and one of its prerequisite descriptions, which the text quotes, is not. */
  ghost predicate Misses(p: Primitives, index: map<string, Id>, node: Node, s: string) {
    && p.normalize(node.description) in index
    && exists raw :: raw in node.prerequisiteDescriptions
                     && p.normalize(raw) !in index && s == "missing prerequisite node for " + raw
  }

  lemma {:induction false} AllRejectsExactly(p: Primitives, index: map<string, Id>, nodes: seq<Node>, s: string)
    ensures s in AllEdgesOf(p, index, nodes).1 <==> exists node :: node in nodes && Misses(p, index, node, s)
  {
    hide NodeEdges;
    if nodes != [] {
      var init, last := nodes[..|nodes| - 1], nodes[|nodes| - 1];
      AllRejectsExactly(p, index, init, s);
      assert nodes == init + [last];
      var key := p.normalize(last.description);
      if key in index {
        NodeRejectsExactly(p, index, index[key], last.prerequisiteDescriptions, s);
      }
      assert last in nodes;
    }
  }

  /**
   A built graph makes `a` a prerequisite of `b` exactly when some pinned node's description belongs to `b` and one of
   its prerequisite descriptions belongs to `a`; a description belongs to the last objective with the same normalized
   one.
   */
  lemma BuiltPrerequisitesExactly(p: Primitives, intent: Intent, snapshot: string, nodes: seq<Node>, a: Id, b: Id)
    ensures var g := BuildGraph(p, intent, snapshot, nodes).body;
            Prerequisite(a, b) in g.prerequisites
            <==> exists node, raw :: node in nodes && raw in node.prerequisiteDescriptions
                                     && IndexedAs(p, g.objectives, p.normalize(node.description), b)
                                     && IndexedAs(p, g.objectives, p.normalize(raw), a)
  {
    hide AllEdgesOf, Objectives, IdByDescription, IndexedAs, SortBy;
    var g := BuildGraph(p, intent, snapshot, nodes).body;
    var index := IdByDescription(p, g.objectives);
    SortPermutes(PrerequisiteOrder(p), AllEdgesOf(p, index, nodes).0);
    AllEdgesExactly(p, index, nodes, Prerequisite(a, b));
    forall key, id
      ensures key in index && index[key] == id <==> IndexedAs(p, g.objectives, key, id)
    {
      IndexExactly(p, g.objectives, key, id);
    }
  }

  /** What is rejected: the prerequisite descriptions of an indexed node that no objective has, in sorted order. */
  lemma BuiltRejectionsExactly(p: Primitives, intent: Intent, snapshot: string, nodes: seq<Node>, s: string)
    ensures var g := BuildGraph(p, intent, snapshot, nodes).body;
            s in g.rejected
            <==> exists node, raw :: node in nodes && raw in node.prerequisiteDescriptions
                                     && s == "missing prerequisite node for " + raw
                                     && Described(p, g.objectives, node.description)
                                     && !Described(p, g.objectives, raw)
    ensures SortedBy(StringLe, BuildGraph(p, intent, snapshot, nodes).body.rejected)
  {
    hide AllEdgesOf, Objectives, IdByDescription, SortBy;
    var g := BuildGraph(p, intent, snapshot, nodes).body;
    var index := IdByDescription(p, g.objectives);
    SortPermutes(StringLe, AllEdgesOf(p, index, nodes).1);
    StringLeIsOrder();
    SortSorts(StringLe, AllEdgesOf(p, index, nodes).1);
    AllRejectsExactly(p, index, nodes, s);
    forall raw
      ensures p.normalize(raw) in index <==> Described(p, g.objectives, raw)
    {
      IndexKeysExactly(p, g.objectives, p.normalize(raw));
    }
  }

  /** Some objective has this description, up to normalization. */
  ghost predicate Described(p: Primitives, objectives: seq<Objective>, description: string) {
    exists o :: o in objectives && p.normalize(o.description) == p.normalize(description)
  }

  lemma IdsFollow(p: Primitives, x: Id, y: Id, z: Id)
    requires TotalPreorder(p.idLe)
    ensures p.idLe(x, y) && p.idLe(y, z) ==> p.idLe(x, z)
  {
  }

  lemma PrerequisiteOrderIsOrder(p: Primitives)
    requires TotalPreorder(p.idLe) && forall x, y :: p.idLe(x, y) && p.idLe(y, x) ==> x == y
    ensures TotalPreorder(PrerequisiteOrder(p))
  {
    var le := PrerequisiteOrder(p);
    forall a, b ensures le(a, b) || le(b, a) {
      assert p.idLe(a.target, b.target) || p.idLe(b.target, a.target);
      assert p.idLe(a.prerequisite, b.prerequisite) || p.idLe(b.prerequisite, a.prerequisite);
    }
    forall a, b, c | le(a, b) && le(b, c) ensures le(a, c) {
      IdsFollow(p, a.target, b.target, c.target);
      IdsFollow(p, a.prerequisite, b.prerequisite, c.prerequisite);
    }
  }

  /** With a total order of ids the prerequisites are sorted by target, and those of one target by prerequisite. */
  lemma BuiltPrerequisitesSorted(p: Primitives, intent: Intent, snapshot: string, nodes: seq<Node>)
    requires TotalPreorder(p.idLe) && forall x, y :: p.idLe(x, y) && p.idLe(y, x) ==> x == y
    ensures var edges := BuildGraph(p, intent, snapshot, nodes).body.prerequisites;
            forall i, j :: 0 <= i < j < |edges| ==>
              p.idLe(edges[i].target, edges[j].target)
              && (edges[i].target == edges[j].target ==> p.idLe(edges[i].prerequisite, edges[j].prerequisite))
  {
    hide AllEdgesOf, Objectives, IdByDescription;
    var edges := AllEdgesOf(p, IdByDescription(p, Objectives(p, intent, nodes, Requested(intent))), nodes).0;
    var le := PrerequisiteOrder(p);
    PrerequisiteOrderIsOrder(p);
    SortSorts(le, edges);
    var sorted := SortBy(le, edges);
    forall i, j | 0 <= i < j < |sorted|
      ensures p.idLe(sorted[i].target, sorted[j].target)
      ensures sorted[i].target == sorted[j].target ==> p.idLe(sorted[i].prerequisite, sorted[j].prerequisite)
    {
      assert le(sorted[i], sorted[j]);
      assert p.idLe(sorted[i].target, sorted[i].target);
    }
  }

  /** A prerequisite that a node names is found by the closure of the node's objective. */
  lemma NamedPrerequisiteIsInClosure(p: Primitives, intent: Intent, snapshot: string, nodes: seq<Node>, a: Id, b: Id)
    requires var g := BuildGraph(p, intent, snapshot, nodes).body;
             && Prerequisite(a, b) in g.prerequisites && a in ObjectiveIds(g.objectives)
    ensures var g := BuildGraph(p, intent, snapshot, nodes).body;
            a in Ancestors(Elements(ObjectiveIds(g.objectives)), EdgeSet(PrerequisiteEdges(g.prerequisites)), b)
  {
    var g := BuildGraph(p, intent, snapshot, nodes).body;
    var edges := PrerequisiteEdges(g.prerequisites);
    var i :| 0 <= i < |g.prerequisites| && g.prerequisites[i] == Prerequisite(a, b);
    assert edges[i] == (a, b);
    ReachesEdge(EdgeSet(edges), a, b);
  }

  // ---- the objectives

  /** A request is split after its white space is collapsed, and is its own only part when there is nothing to split. */
  lemma AtomicPartsExactly(p: Primitives, raw: string)
    ensures AtomicParts(p, raw) != []
    ensures p.split(p.squeeze(raw)) != [] ==> AtomicParts(p, raw) == p.split(p.squeeze(raw))
    ensures p.split(p.squeeze(raw)) == [] ==> AtomicParts(p, raw) == [p.squeeze(raw)]
  {
  }

  /** The objectives of a request follow those of the requests before it, one for each atomic part, in order. */
  lemma {:induction false} ObjectiveAt(p: Primitives, intent: Intent, nodes: seq<Node>, requested: seq<string>, i: nat,
                                       j: nat)
    requires i < |requested| && j < |AtomicParts(p, requested[i])|
    ensures var parts, before := AtomicParts(p, requested[i]), Objectives(p, intent, nodes, requested[..i]);
            var all := Objectives(p, intent, nodes, requested);
            && |before| + |parts| <= |all| && (i == |requested| - 1 ==> |before| + |parts| == |all|)
            && all[|before| + j] == MakeObjective(p, intent, nodes, i + 1, j + 1, requested[i], parts[j], |parts| > 1)
  {
    hide MakeObjective, AtomicParts;
    var n := |requested| - 1;
    if i < n {
      ObjectiveAt(p, intent, nodes, requested[..n], i, j);
      assert requested[..n][..i] == requested[..i];
    }
  }

  /** The node describes the objective, up to normalization. */
  predicate Describes(p: Primitives, node: Node, description: string) {
    p.normalize(node.description) == p.normalize(description)
  }

  lemma BestNodeExactly(p: Primitives, description: string, nodes: seq<Node>)
    requires TotalPreorder(p.idLe)
    ensures var best := BestNode(p, description, nodes);
            && (best.None? <==> forall n <- nodes :: !Describes(p, n, description))
            && (best.Some? ==>
                  && best.value in nodes && Describes(p, best.value, description)
                  && forall n <- nodes :: Describes(p, n, description) ==>
                       p.idLe(best.value.objectiveId, n.objectiveId))
  {
    var exact := Filter((n: Node) => p.normalize(n.description) == p.normalize(description), nodes);
    FilterMembers((n: Node) => p.normalize(n.description) == p.normalize(description), nodes);
    var le := (m: Node, n: Node) => p.idLe(m.objectiveId, n.objectiveId);
    if exact == [] {
      assert forall n <- nodes :: n in exact <==> Describes(p, n, description);
    } else {
      forall m, n ensures le(m, n) || le(n, m) {
        assert p.idLe(m.objectiveId, n.objectiveId) || p.idLe(n.objectiveId, m.objectiveId);
      }
      forall l, m, n | le(l, m) && le(m, n) ensures le(l, n) {
        IdsFollow(p, l.objectiveId, m.objectiveId, n.objectiveId);
      }
      SortHeadIsLeast(le, exact);
      var best := BestNode(p, description, nodes).value;
      forall n | n in nodes && Describes(p, n, description)
        ensures p.idLe(best.objectiveId, n.objectiveId)
      {
        assert le(SortBy(le, exact)[0], n);
      }
      assert exact[0] in exact;
    }
  }

  /**
   An objective takes id, components and evidence from the pinned node with the least id among those that describe it,
   and is certified when that node is reviewed; without such a node it has a generated id and is generic.
   */
  lemma ObjectiveFields(p: Primitives, intent: Intent, nodes: seq<Node>, parentIndex: int, partIndex: int, raw: string,
                        description: string, divided: bool)
    requires TotalPreorder(p.idLe)
    ensures var o := MakeObjective(p, intent, nodes, parentIndex, partIndex, raw, description, divided);
            && o.description == description && o.partIndex == partIndex
            && o.parent == (if divided then Some(Digest("objective-parent", [Normalized(p, intent.intentHash),
                                                                              Text(p.normalize(raw))]))
                            else None)
            && (o.risk == High <==> o.alignment == Certified && o.evidenceIds == []) && o.risk != Low
            && ((forall n <- nodes :: !Describes(p, n, description)) ==>
                  && o.alignment == Generic && o.evidenceIds == [] && |o.kcIds| == 1
                  && o.id == Digest("objective", [Normalized(p, intent.intentHash), Number(parentIndex),
                                                  Number(partIndex), Text(p.normalize(description))]))
            && ((exists n :: n in nodes && Describes(p, n, description)) ==>
                  exists n :: n in nodes && Describes(p, n, description) && TakenFrom(o, n)
                              && forall m <- nodes :: Describes(p, m, description) ==>
                                   p.idLe(n.objectiveId, m.objectiveId))
  {
    BestNodeExactly(p, description, nodes);
    var o := MakeObjective(p, intent, nodes, parentIndex, partIndex, raw, description, divided);
    var best := BestNode(p, description, nodes);
    assert o.parent.Some? ==> o.parent.value.parts == [Normalized(p, intent.intentHash), Text(p.normalize(raw))];
    if best.Some? {
      assert TakenFrom(o, best.value);
    } else {
      assert o.id.parts == [Normalized(p, intent.intentHash), Number(parentIndex), Number(partIndex),
                            Text(p.normalize(description))];
    }
  }

  /** The fields an objective takes from the node that describes it. */
  ghost predicate TakenFrom(o: Objective, n: Node) {
    && o.id == n.objectiveId && o.evidenceIds == n.evidenceIds
    && (o.alignment == Certified <==> n.reviewed)
    && (n.kcIds != [] ==> o.kcIds == n.kcIds) && (n.kcIds == [] ==> |o.kcIds| == 1 && o.kcIds[0].Digest?)
  }

  /** What else the graph records, and the claims: the objectives' ids in order. */
  lemma BuiltGraphFields(p: Primitives, intent: Intent, snapshot: string, nodes: seq<Node>)
    ensures var g := BuildGraph(p, intent, snapshot, nodes).body;
            && g.graphId == Digest("objective-graph", [Normalized(p, intent.intentHash), Text(p.normalize(snapshot))])
            && g.intentId == intent.intentId && g.intentRevision == intent.revision && g.snapshot == snapshot
            && |g.claims| == |g.objectives|
            && (forall i :: 0 <= i < |g.claims| ==> g.claims[i] == g.objectives[i].id)
            && (intent.requested == [] ==>
                  g.objectives == Objectives(p, intent, nodes, ["Explain and apply " + intent.topic + "."]))
            && (intent.requested != [] ==> g.objectives == Objectives(p, intent, nodes, intent.requested))
  {
    hide Objectives, AllEdgesOf;
    var parts := [intent.intentHash, Text(snapshot)];
    assert Map(id => Normalized(p, id), parts) == [Normalized(p, intent.intentHash), Text(p.normalize(snapshot))];
  }
}
