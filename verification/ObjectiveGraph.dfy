/**
 The objective graph: its validator, and the builder that resolves requested objectives against pinned graph
 nodes. Misconceptions, transfer targets and vocabulary ride along without being validated and are not modelled.
 */
module ObjectiveGraph {
  import opened Sequences
  import opened Wrappers
  import opened Digraph
  import opened Ordering
  import opened EdgeLists
  import opened KahnDetector
  import opened Ids

  datatype Intent = Intent(intentHash: Id, intentId: Id, revision: int, topic: string, requested: seq<string>,
                           duration: int, artifactTypes: seq<string>)

  datatype Node = Node(objectiveId: Id, description: string, reviewed: bool, kcIds: seq<Id>, evidenceIds: seq<Id>,
                       prerequisiteDescriptions: seq<string>)

  datatype Alignment = Certified | Generic

  datatype Risk = Low | Medium | High

  datatype Objective = Objective(id: Id, description: string, parent: Option<Id>, partIndex: int,
                                 alignment: Alignment, kcIds: seq<Id>, evidenceIds: seq<Id>, risk: Risk)

  datatype Prerequisite = Prerequisite(prerequisite: Id, target: Id)

  datatype GraphBody = GraphBody(graphId: Id, intentId: Id, intentRevision: int, snapshot: string,
                                 objectives: seq<Objective>, prerequisites: seq<Prerequisite>, claims: seq<Id>,
                                 rejected: seq<string>)

  /** The hash of a payload is identified with the payload. */
  datatype Graph = Graph(body: GraphBody, hashed: GraphBody)

  function ObjectiveIds(objectives: seq<Objective>): seq<Id> {
    Map((o: Objective) => o.id, objectives)
  }

  function PrerequisiteEdges(prerequisites: seq<Prerequisite>): seq<(Id, Id)> {
    Map((p: Prerequisite) => (p.prerequisite, p.target), prerequisites)
  }

  // ---- the validator

  datatype Defect = TooShort | DuplicateIds | Dangling | Cycle | ClaimsMismatch | HashMismatch

  /** What the field constraints and `_validate_graph` first object to, if anything. */
  ghost function FirstDefect(g: Graph): Option<Defect> {
    var ids := ObjectiveIds(g.body.objectives);
    var edges := EdgeSet(PrerequisiteEdges(g.body.prerequisites));
    if g.body.objectives == [] || g.body.claims == [] || exists o <- g.body.objectives :: o.kcIds == [] then
      Some(TooShort)
    else if !Distinct(ids) then Some(DuplicateIds)
    else if !ClosedGraph(Elements(ids), edges) then Some(Dangling)
    else if !Acyclic(edges) then Some(Cycle)
    else if Elements(g.body.claims) != Elements(ids) then Some(ClaimsMismatch)
    else if g.hashed != g.body then Some(HashMismatch)
    else None
  }

  method ValidateGraph(g: Graph) returns (defect: Option<Defect>)
    ensures defect == FirstDefect(g)
  {
    var ids := ObjectiveIds(g.body.objectives);
    if g.body.objectives == [] || g.body.claims == [] || exists o <- g.body.objectives :: o.kcIds == [] {
      return Some(TooShort);
    }
    RepeatsMeans(ids);
    if Repeats(ids) {
      return Some(DuplicateIds);
    }
    var edges := PrerequisiteEdges(g.body.prerequisites);
    for i := 0 to |edges|
      invariant forall j :: 0 <= j < i ==> edges[j].0 in Elements(ids) && edges[j].1 in Elements(ids)
    {
      if edges[i].0 !in Elements(ids) || edges[i].1 !in Elements(ids) {
        assert edges[i] in EdgeSet(edges);
        return Some(Dangling);
      }
    }
    var acyclic := KahnAcyclic(Elements(ids), edges);
    if !acyclic {
      return Some(Cycle);
    }
    if Elements(g.body.claims) != Elements(ids) {
      return Some(ClaimsMismatch);
    }
    defect := if g.hashed != g.body then Some(HashMismatch) else None;
  }

  // ---- the builder

  /** `_atomic_parts`: a text without parts is its own only part, with its white space collapsed. */
  function AtomicParts(p: Primitives, raw: string): seq<string> {
    var parts := p.split(p.squeeze(raw));
    if parts == [] then [p.squeeze(raw)] else parts
  }

  function BestNode(p: Primitives, description: string, nodes: seq<Node>): Option<Node> {
    var exact := Filter((n: Node) => p.normalize(n.description) == p.normalize(description), nodes);
    var ranked := SortBy((m: Node, n: Node) => p.idLe(m.objectiveId, n.objectiveId), exact);
    if ranked == [] then None else Some(ranked[0])
  }

  function GeneratedId(p: Primitives, intent: Intent, parentIndex: int, partIndex: int, description: string): Id {
    StableId(p, "objective", [intent.intentHash, Number(parentIndex), Number(partIndex), Text(description)])
  }

  function MakeObjective(p: Primitives, intent: Intent, nodes: seq<Node>, parentIndex: int, partIndex: int,
                         raw: string, description: string, divided: bool): Objective
  {
    var matched := BestNode(p, description, nodes);
    var id := if matched.Some? then matched.value.objectiveId
              else GeneratedId(p, intent, parentIndex, partIndex, description);
    var alignment := if matched.Some? && matched.value.reviewed then Certified else Generic;
    var known := if matched.Some? then matched.value.kcIds else [];
    var evidence := if matched.Some? then matched.value.evidenceIds else [];
    Objective(id, description,
              if divided then Some(StableId(p, "objective-parent", [intent.intentHash, Text(raw)])) else None,
              partIndex, alignment,
              if known == [] then [StableId(p, "kc", [id, Text("atomic-scope")])] else known, evidence,
              if evidence == [] && alignment == Certified then High else Medium)
  }

  function ObjectivesOf(p: Primitives, intent: Intent, nodes: seq<Node>, parentIndex: int, raw: string,
                        parts: seq<string>, n: nat): (r: seq<Objective>)
    requires n <= |parts|
    ensures |r| == n
    ensures forall i :: 0 <= i < n ==>
      r[i] == MakeObjective(p, intent, nodes, parentIndex, i + 1, raw, parts[i], |parts| > 1)
  {
    seq(n, i requires 0 <= i < n =>
      MakeObjective(p, intent, nodes, parentIndex, i + 1, raw, parts[i], |parts| > 1))
  }

  function Requested(intent: Intent): seq<string> {
    if intent.requested == [] then ["Explain and apply " + intent.topic + "."] else intent.requested
  }

  function Objectives(p: Primitives, intent: Intent, nodes: seq<Node>, requested: seq<string>): seq<Objective> {
    if requested == [] then []
    else
      var n := |requested|;
      var parts := AtomicParts(p, requested[n - 1]);
      Objectives(p, intent, nodes, requested[..n - 1])
      + ObjectivesOf(p, intent, nodes, n, requested[n - 1], parts, |parts|)
  }

  /** `id_by_description`: a later objective with the same normalized description replaces an earlier one. */
  function IdByDescription(p: Primitives, objectives: seq<Objective>): map<string, Id> {
    if objectives == [] then map[]
    else
      var last := objectives[|objectives| - 1];
      IdByDescription(p, objectives[..|objectives| - 1])[p.normalize(last.description) := last.id]
  }

  /** The edges of one node and the prerequisite descriptions nothing answers to. */
  function NodeEdges(p: Primitives, index: map<string, Id>, target: Id, raws: seq<string>): (seq<Prerequisite>,
                     seq<string>)
  {
    if raws == [] then ([], [])
    else
      var (edges, rejected) := NodeEdges(p, index, target, raws[..|raws| - 1]);
      var raw := raws[|raws| - 1];
      var key := p.normalize(raw);
      if key in index then (edges + [Prerequisite(index[key], target)], rejected)
      else (edges, rejected + ["missing prerequisite node for " + raw])
  }

  function AllEdgesOf(p: Primitives, index: map<string, Id>, nodes: seq<Node>): (seq<Prerequisite>, seq<string>) {
    if nodes == [] then ([], [])
    else
      var node := nodes[|nodes| - 1];
      var (edges, rejected) := AllEdgesOf(p, index, nodes[..|nodes| - 1]);
      var key := p.normalize(node.description);
      if key in index then
        var (more, missing) := NodeEdges(p, index, index[key], node.prerequisiteDescriptions);
        (edges + more, rejected + missing)
      else (edges, rejected)
  }

  function PrerequisiteOrder(p: Primitives): (Prerequisite, Prerequisite) -> bool {
    (a: Prerequisite, b: Prerequisite) =>
      if a.target == b.target then p.idLe(a.prerequisite, b.prerequisite) else p.idLe(a.target, b.target)
  }

  function GraphFrom(p: Primitives, intent: Intent, snapshot: string, objectives: seq<Objective>, claims: seq<Id>,
                     edges: seq<Prerequisite>, rejected: seq<string>): Graph
  {
    var body := GraphBody(StableId(p, "objective-graph", [intent.intentHash, Text(snapshot)]), intent.intentId,
                          intent.revision, snapshot, objectives, SortBy(PrerequisiteOrder(p), edges), claims,
                          SortBy(StringLe, rejected));
    Graph(body, body)
  }

  function BuildGraph(p: Primitives, intent: Intent, snapshot: string, nodes: seq<Node>): Graph {
    var objectives := Objectives(p, intent, nodes, Requested(intent));
    var (edges, rejected) := AllEdgesOf(p, IdByDescription(p, objectives), nodes);
    GraphFrom(p, intent, snapshot, objectives, ObjectiveIds(objectives), edges, rejected)
  }

  /** `build_objective_graph` up to its final validation. */
  method BuildObjectiveGraph(p: Primitives, intent: Intent, snapshot: string, nodes: seq<Node>)
    returns (graph: Graph, defect: Option<Defect>)
    ensures graph == BuildGraph(p, intent, snapshot, nodes) && defect == FirstDefect(graph)
  {
    var objectives, claims := ResolveObjectives(p, intent, nodes, Requested(intent));
    var edges, rejected := ResolvePrerequisites(p, IdByDescription(p, objectives), nodes);
    graph := GraphFrom(p, intent, snapshot, objectives, claims, edges, rejected);
    defect := ValidateGraph(graph);
  }

  method ResolveObjectives(p: Primitives, intent: Intent, nodes: seq<Node>, requested: seq<string>)
    returns (objectives: seq<Objective>, claims: seq<Id>)
    ensures objectives == Objectives(p, intent, nodes, requested) && claims == ObjectiveIds(objectives)
  {
    objectives, claims := [], [];
    for i := 0 to |requested|
      invariant objectives == Objectives(p, intent, nodes, requested[..i]) && claims == ObjectiveIds(objectives)
    {
      var parts := AtomicParts(p, requested[i]);
      objectives, claims := AddParts(p, intent, nodes, i + 1, requested[i], parts, objectives, claims);
      assert requested[..i + 1][..i] == requested[..i];
    }
    assert requested[..|requested|] == requested;
  }

  method AddParts(p: Primitives, intent: Intent, nodes: seq<Node>, parentIndex: int, raw: string, parts: seq<string>,
                  objectives0: seq<Objective>, claims0: seq<Id>)
    returns (objectives: seq<Objective>, claims: seq<Id>)
    requires claims0 == ObjectiveIds(objectives0)
    ensures objectives == objectives0 + ObjectivesOf(p, intent, nodes, parentIndex, raw, parts, |parts|)
    ensures claims == ObjectiveIds(objectives)
  {
    hide MakeObjective;
    objectives, claims := objectives0, claims0;
    for j := 0 to |parts|
      invariant objectives == objectives0 + ObjectivesOf(p, intent, nodes, parentIndex, raw, parts, j)
      invariant claims == ObjectiveIds(objectives)
    {
      var objective := MakeObjective(p, intent, nodes, parentIndex, j + 1, raw, parts[j], |parts| > 1);
      objectives := objectives + [objective];
      claims := claims + [objective.id];
    }
  }

  method ResolvePrerequisites(p: Primitives, index: map<string, Id>, nodes: seq<Node>)
    returns (edges: seq<Prerequisite>, rejected: seq<string>)
    ensures (edges, rejected) == AllEdgesOf(p, index, nodes)
  {
    edges, rejected := [], [];
    for i := 0 to |nodes|
      invariant (edges, rejected) == AllEdgesOf(p, index, nodes[..i])
    {
      assert nodes[..i + 1][..i] == nodes[..i];
      var key := p.normalize(nodes[i].description);
      if key in index {
        edges, rejected := AddNodeEdges(p, index, index[key], nodes[i].prerequisiteDescriptions, edges, rejected);
      }
    }
    assert nodes[..|nodes|] == nodes;
  }

  method AddNodeEdges(p: Primitives, index: map<string, Id>, target: Id, raws: seq<string>,
                      edges0: seq<Prerequisite>, rejected0: seq<string>)
    returns (edges: seq<Prerequisite>, rejected: seq<string>)
    ensures var (more, missing) := NodeEdges(p, index, target, raws);
            edges == edges0 + more && rejected == rejected0 + missing
  {
    edges, rejected := edges0, rejected0;
    for j := 0 to |raws|
      invariant var (more, missing) := NodeEdges(p, index, target, raws[..j]);
                edges == edges0 + more && rejected == rejected0 + missing
    {
      assert raws[..j + 1][..j] == raws[..j];
      var key := p.normalize(raws[j]);
      if key in index {
        edges := edges + [Prerequisite(index[key], target)];
      } else {
        rejected := rejected + ["missing prerequisite node for " + raws[j]];
      }
    }
    assert raws[..|raws|] == raws;
  }

  // ---- the builder's output meets the validator, up to two resolvable conditions

  lemma {:induction false} IndexHoldsObjectiveIds(p: Primitives, objectives: seq<Objective>)
    ensures forall key <- IdByDescription(p, objectives) ::
      IdByDescription(p, objectives)[key] in ObjectiveIds(objectives)
  {
    if objectives != [] {
      var n := |objectives| - 1;
      IndexHoldsObjectiveIds(p, objectives[..n]);
      assert objectives == objectives[..n] + [objectives[n]];
      assert ObjectiveIds(objectives) == ObjectiveIds(objectives[..n]) + [objectives[n].id];
    }
  }

  ghost predicate EdgesWithin(ids: seq<Id>, edges: seq<Prerequisite>) {
    forall e <- edges :: e.prerequisite in ids && e.target in ids
  }

  lemma {:induction false} NodeEdgesWithin(p: Primitives, index: map<string, Id>, target: Id, raws: seq<string>,
                                           ids: seq<Id>)
    requires target in ids && forall key <- index :: index[key] in ids
    ensures EdgesWithin(ids, NodeEdges(p, index, target, raws).0)
  {
    if raws != [] {
      NodeEdgesWithin(p, index, target, raws[..|raws| - 1], ids);
    }
  }

  lemma {:induction false} AllEdgesWithin(p: Primitives, index: map<string, Id>, nodes: seq<Node>, ids: seq<Id>)
    requires forall key <- index :: index[key] in ids
    ensures EdgesWithin(ids, AllEdgesOf(p, index, nodes).0)
  {
    if nodes != [] {
      var node := nodes[|nodes| - 1];
      AllEdgesWithin(p, index, nodes[..|nodes| - 1], ids);
      var key := p.normalize(node.description);
      if key in index {
        NodeEdgesWithin(p, index, index[key], node.prerequisiteDescriptions, ids);
      }
    }
  }

  lemma {:induction false} ObjectivesAreNamed(p: Primitives, intent: Intent, nodes: seq<Node>, requested: seq<string>)
    ensures requested != [] ==> Objectives(p, intent, nodes, requested) != []
    ensures forall o <- Objectives(p, intent, nodes, requested) :: o.kcIds != []
  {
    if requested != [] {
      var n := |requested|;
      ObjectivesAreNamed(p, intent, nodes, requested[..n - 1]);
      var parts := AtomicParts(p, requested[n - 1]);
      var added := ObjectivesOf(p, intent, nodes, n, requested[n - 1], parts, |parts|);
      assert |added| > 0;
      forall o | o in added
        ensures o.kcIds != []
      {
      }
    }
  }

  /**
   Whatever the intent and the nodes, the graph built is rejected only when two objectives resolve to one id or
   their prerequisites form a cycle: no edge dangles, no claim is missing, and the hash matches.
   */
  lemma BuiltGraphDefects(p: Primitives, intent: Intent, snapshot: string, nodes: seq<Node>)
    ensures var g := BuildGraph(p, intent, snapshot, nodes);
            FirstDefect(g) ==
              if !Distinct(ObjectiveIds(g.body.objectives)) then Some(DuplicateIds)
              else if !Acyclic(EdgeSet(PrerequisiteEdges(g.body.prerequisites))) then Some(Cycle)
              else None
  {
    hide AllEdgesOf, IdByDescription, SortBy, Objectives, PrerequisiteOrder, Acyclic;
    var g := BuildGraph(p, intent, snapshot, nodes);
    var objectives, ids := g.body.objectives, ObjectiveIds(g.body.objectives);
    var index := IdByDescription(p, objectives);
    var edges := AllEdgesOf(p, index, nodes).0;
    ObjectivesAreNamed(p, intent, nodes, Requested(intent));
    IndexHoldsObjectiveIds(p, objectives);
    AllEdgesWithin(p, index, nodes, ids);
    SortPermutes(PrerequisiteOrder(p), edges);
    var pairs := PrerequisiteEdges(g.body.prerequisites);
    forall e | e in EdgeSet(pairs)
      ensures e.0 in Elements(ids) && e.1 in Elements(ids)
    {
      var i :| 0 <= i < |pairs| && pairs[i] == e;
      var edge := g.body.prerequisites[i];
      assert edge in edges;
    }
  }

  lemma GeneratedIdsDiffer(p: Primitives, intent: Intent, parent: int, part: int, description: string,
                           parent': int, part': int, description': string)
    requires parent != parent' || part != part'
    ensures GeneratedId(p, intent, parent, part, description) != GeneratedId(p, intent, parent', part', description')
  {
    var a, b := GeneratedId(p, intent, parent, part, description), GeneratedId(p, intent, parent', part', description');
    assert a.parts[1] == Number(parent) && b.parts[1] == Number(parent');
    assert a.parts[2] == Number(part) && b.parts[2] == Number(part');
  }

  ghost predicate GeneratedAt(p: Primitives, intent: Intent, o: Objective, parent: int, part: int) {
    o.id == GeneratedId(p, intent, parent, part, o.description)
  }

  ghost predicate GeneratedBefore(p: Primitives, intent: Intent, o: Objective, limit: int) {
    exists parent: int, part: int :: parent < limit && GeneratedAt(p, intent, o, parent, part)
  }

  lemma DistinctAppend(p: Primitives, intent: Intent, before: seq<Objective>, added: seq<Objective>, n: int)
    requires Distinct(ObjectiveIds(before))
    requires forall i :: 0 <= i < |before| ==> GeneratedBefore(p, intent, before[i], n)
    requires forall i :: 0 <= i < |added| ==> GeneratedAt(p, intent, added[i], n, i + 1)
    ensures Distinct(ObjectiveIds(before + added))
  {
    forall i, j | 0 <= i < j < |before + added|
      ensures (before + added)[i].id != (before + added)[j].id
    {
      var a, b := (before + added)[i], (before + added)[j];
      if j < |before| {
        assert ObjectiveIds(before)[i] != ObjectiveIds(before)[j];
      } else {
        var parent: int, part: int := n, i - |before| + 1;
        if i < |before| {
          assert GeneratedBefore(p, intent, before[i], n);
          parent, part :| parent < n && GeneratedAt(p, intent, a, parent, part);
        }
        GeneratedIdsDiffer(p, intent, parent, part, a.description, n, j - |before| + 1, b.description);
      }
    }
  }

  lemma {:induction false} UnpinnedIdsDiffer(p: Primitives, intent: Intent, requested: seq<string>)
    ensures var objectives := Objectives(p, intent, [], requested);
            && Distinct(ObjectiveIds(objectives))
            && forall i :: 0 <= i < |objectives| ==> GeneratedBefore(p, intent, objectives[i], |requested| + 1)
  {
    if requested != [] {
      var n := |requested|;
      var before := Objectives(p, intent, [], requested[..n - 1]);
      UnpinnedIdsDiffer(p, intent, requested[..n - 1]);
      var parts := AtomicParts(p, requested[n - 1]);
      var added := ObjectivesOf(p, intent, [], n, requested[n - 1], parts, |parts|);
      forall i | 0 <= i < |added|
        ensures GeneratedAt(p, intent, added[i], n, i + 1)
      {
      }
      DistinctAppend(p, intent, before, added, n);
      forall i | 0 <= i < |before + added|
        ensures GeneratedBefore(p, intent, (before + added)[i], n + 1)
      {
        if i < |before| {
          assert GeneratedBefore(p, intent, before[i], n);
        } else {
          assert GeneratedAt(p, intent, added[i - |before|], n, i - |before| + 1);
        }
      }
    }
  }

  /** Without pinned nodes, as by default, every intent gives an accepted graph. */
  lemma UnpinnedGraphIsAccepted(p: Primitives, intent: Intent, snapshot: string)
    ensures FirstDefect(BuildGraph(p, intent, snapshot, [])) == None
  {
    var g := BuildGraph(p, intent, snapshot, []);
    BuiltGraphDefects(p, intent, snapshot, []);
    UnpinnedIdsDiffer(p, intent, Requested(intent));
    var edges := EdgeSet(PrerequisiteEdges(g.body.prerequisites));
    assert edges == {};
    RankedIsAcyclic(edges, (v: Id) => 0);
  }

  /** Without pinned nodes the objective ids are digests, which normalization leaves alone, and all different. */
  lemma UnpinnedIdsStayDifferent(p: Primitives, intent: Intent, snapshot: string)
    ensures var objectives := BuildGraph(p, intent, snapshot, []).body.objectives;
            && objectives != []
            && forall i, j :: 0 <= i < j < |objectives| ==>
                 Normalized(p, objectives[i].id) != Normalized(p, objectives[j].id)
  {
    var objectives := Objectives(p, intent, [], Requested(intent));
    UnpinnedIdsDiffer(p, intent, Requested(intent));
    ObjectivesAreNamed(p, intent, [], Requested(intent));
    forall i, j | 0 <= i < j < |objectives|
      ensures Normalized(p, objectives[i].id) != Normalized(p, objectives[j].id)
    {
      assert GeneratedBefore(p, intent, objectives[i], |Requested(intent)| + 1);
      assert GeneratedBefore(p, intent, objectives[j], |Requested(intent)| + 1);
      assert objectives[i].id.Digest? && objectives[j].id.Digest?;
      assert ObjectiveIds(objectives)[i] != ObjectiveIds(objectives)[j];
    }
  }
}
