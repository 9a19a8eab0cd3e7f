/**
 What the built Semantic Content IR contains, entity by entity and dependency by dependency, and how the two agree: an
 entity declares exactly the entities it follows from.
 */
module SemanticIrLaws {
  import opened Wrappers
  import opened Sequences
  import opened Digraph
  import opened Ordering
  import opened EdgeLists
  import opened Ids
  import opened SemanticIr
  import OG = ObjectiveGraph

  const KINDS := [Claim, Example, QuestionStem, AnswerDerivation, SummaryUnit, VisualSemanticSpec]
  const PREFIXES := ["semantic-claim", "semantic-example", "semantic-task", "semantic-answer", "semantic-summary",
                     "semantic-visual"]

  /** The six entities of the `i`-th objective: their kinds, who sees them, how far they are backed, and where from. */
  lemma BuiltEntityFields(p: Primitives, programId: Id, programHash: Id, graph: OG.Graph, graphHash: Id,
                          language: string, version: int, i: nat, k: nat)
    requires i < |graph.body.objectives| && k < 6
    ensures var entities := BuildIr(p, programId, programHash, graph, graphHash, language, version).body.entities;
            var o := graph.body.objectives[i];
            && |entities| == 6 * |graph.body.objectives|
            && var e := entities[6 * i + k];
               && e.kind == KINDS[k]
               && (e.audience == Teacher <==> e.kind == AnswerDerivation)
               && (e.audience == Shared <==> e.kind == Claim)
               && (o.evidenceIds == [] ==> e.authority == ReviewRequired)
               && (o.evidenceIds != [] ==> e.authority == Verified)
               && e.objectiveIds == [o.id] && e.kcIds == o.kcIds && e.evidenceIds == o.evidenceIds
               && e.risk == o.risk && e.language == language
               && (e.kind == Claim ==> e.text == o.description)
               && e.id == Digest(PREFIXES[k], [Normalized(p, graphHash), Normalized(p, o.id)])
  {
    hide SortBy;
    EntityAt(p, graphHash, graph.body.objectives, language, i, k);
    var id := EntityId(p, graphHash, graph.body.objectives[i].id, k);
    assert id.parts == [Normalized(p, graphHash), Normalized(p, graph.body.objectives[i].id)];
  }

  /** Entities that follow from the claim of their objective alone, or, as the answer does, from the task. */
  ghost predicate IsDependency(p: Primitives, graphHash: Id, o: OG.Objective, d: Dependency, k: nat) {
    && 0 < k < 6 && d.target == EntityId(p, graphHash, o.id, k)
    && (KINDS[k] == AnswerDerivation ==> d.source == EntityId(p, graphHash, o.id, 2) && d.relation == Answers)
    && (KINDS[k] != AnswerDerivation ==> d.source == EntityId(p, graphHash, o.id, 0))
    && (KINDS[k] in {Example, QuestionStem} ==> d.relation == Supports)
    && (KINDS[k] == SummaryUnit ==> d.relation == Summarizes)
    && (KINDS[k] == VisualSemanticSpec ==> d.relation == Visualizes)
  }

  lemma DependenciesOfExactly(p: Primitives, graphHash: Id, o: OG.Objective, d: Dependency)
    ensures d in DependenciesOf(p, graphHash, o.id) <==> exists k: nat :: IsDependency(p, graphHash, o, d, k)
  {
    hide EntityId;
    var all := DependenciesOf(p, graphHash, o.id);
    if d in all {
      var m :| 0 <= m < 5 && all[m] == d;
      assert IsDependency(p, graphHash, o, d, m + 1);
    }
    if k: nat :| IsDependency(p, graphHash, o, d, k) {
      assert all[k - 1] == d;
    }
  }

  lemma {:induction false} DependenciesMembers(p: Primitives, graphHash: Id, objectives: seq<OG.Objective>,
                                               d: Dependency)
    ensures d in Dependencies(p, graphHash, objectives)
       <==> exists o, k: nat :: o in objectives && IsDependency(p, graphHash, o, d, k)
  {
    hide DependenciesOf, IsDependency;
    if objectives != [] {
      var init, last := objectives[..|objectives| - 1], objectives[|objectives| - 1];
      DependenciesMembers(p, graphHash, init, d);
      DependenciesOfExactly(p, graphHash, last, d);
      assert objectives == init + [last];
      assert last in objectives;
    }
  }

  /** The dependencies of the built IR are these of each objective, and no others. */
  lemma BuiltDependenciesExactly(p: Primitives, programId: Id, programHash: Id, graph: OG.Graph, graphHash: Id,
                                 language: string, version: int, d: Dependency)
    ensures d in BuildIr(p, programId, programHash, graph, graphHash, language, version).body.dependencies
       <==> exists o, k: nat :: o in graph.body.objectives && IsDependency(p, graphHash, o, d, k)
  {
    hide Entities, Dependencies, IsDependency;
    SortPermutes(DependencyOrder(p), Dependencies(p, graphHash, graph.body.objectives));
    DependenciesMembers(p, graphHash, graph.body.objectives, d);
  }

  lemma IdsFollow(p: Primitives, x: Id, y: Id, z: Id)
    requires TotalPreorder(p.idLe)
    ensures p.idLe(x, y) && p.idLe(y, z) ==> p.idLe(x, z)
  {
  }

  lemma DependencyOrderIsOrder(p: Primitives)
    requires TotalPreorder(p.idLe) && forall x, y :: p.idLe(x, y) && p.idLe(y, x) ==> x == y
    ensures TotalPreorder(DependencyOrder(p))
  {
    hide RelationName, StringLe;
    var le := DependencyOrder(p);
    forall a, b ensures le(a, b) || le(b, a) {
      assert p.idLe(a.source, b.source) || p.idLe(b.source, a.source);
      assert p.idLe(a.target, b.target) || p.idLe(b.target, a.target);
      StringLeTotal(RelationName(a.relation), RelationName(b.relation));
    }
    forall a, b, c | le(a, b) && le(b, c) ensures le(a, c) {
      IdsFollow(p, a.source, b.source, c.source);
      IdsFollow(p, a.target, b.target, c.target);
      if StringLe(RelationName(a.relation), RelationName(b.relation))
         && StringLe(RelationName(b.relation), RelationName(c.relation)) {
        StringLeTransitive(RelationName(a.relation), RelationName(b.relation), RelationName(c.relation));
      }
    }
  }

  /** With a total order of ids the dependencies are sorted by source, then by target, then by relation. */
  lemma BuiltDependenciesSorted(p: Primitives, programId: Id, programHash: Id, graph: OG.Graph, graphHash: Id,
                                language: string, version: int)
    requires TotalPreorder(p.idLe) && forall x, y :: p.idLe(x, y) && p.idLe(y, x) ==> x == y
    ensures var ds := BuildIr(p, programId, programHash, graph, graphHash, language, version).body.dependencies;
            forall i, j :: 0 <= i < j < |ds| ==>
              && p.idLe(ds[i].source, ds[j].source)
              && (ds[i].source == ds[j].source ==> p.idLe(ds[i].target, ds[j].target))
              && (ds[i].source == ds[j].source && ds[i].target == ds[j].target ==>
                    StringLe(RelationName(ds[i].relation), RelationName(ds[j].relation)))
  {
    hide Entities, Dependencies, RelationName, StringLe, SortBy;
    var le, dependencies := DependencyOrder(p), Dependencies(p, graphHash, graph.body.objectives);
    DependencyOrderIsOrder(p);
    SortSorts(le, dependencies);
    var ds := SortBy(le, dependencies);
    forall i, j | 0 <= i < j < |ds|
      ensures p.idLe(ds[i].source, ds[j].source)
      ensures ds[i].source == ds[j].source ==> p.idLe(ds[i].target, ds[j].target)
      ensures ds[i].source == ds[j].source && ds[i].target == ds[j].target ==>
                StringLe(RelationName(ds[i].relation), RelationName(ds[j].relation))
    {
      assert le(ds[i], ds[j]);
      assert p.idLe(ds[i].source, ds[i].source) && p.idLe(ds[i].target, ds[i].target);
    }
  }

  /** An entity declares as its dependencies exactly the entities from which the edges lead to it. */
  lemma DeclaredDependenciesExactly(p: Primitives, graphHash: Id, objectives: seq<OG.Objective>, language: string,
                                    i: nat, k: nat, u: Id)
    requires i < |objectives| && k < 6
    ensures |Entities(p, graphHash, objectives, language)| == 6 * |objectives|
    ensures var e := Entities(p, graphHash, objectives, language)[6 * i + k];
            u in e.dependencyIds <==> Reaches(BuiltEdges(p, graphHash, objectives), u, e.id)
  {
    hide BuiltEdges, Entities, EntityId;
    EntityAt(p, graphHash, objectives, language, i, k);
    var o, edges := objectives[i], BuiltEdges(p, graphHash, objectives);
    var v := EntityId(p, graphHash, o.id, k);
    if Reaches(edges, u, v) {
      var i', j', k' := ReachedIsDownstream(p, graphHash, objectives, u, v);
      EntityIdsEqualExactly(p, graphHash, objectives[i'].id, o.id, k', k);
      EntityIdsEqualExactly(p, graphHash, objectives[i'].id, o.id, j', j');
    }
    if k != 0 {
      DownstreamIsReached(p, graphHash, objectives, EntityId(p, graphHash, o.id, 0), v, i, 0, k);
    }
    if k == 3 {
      DownstreamIsReached(p, graphHash, objectives, EntityId(p, graphHash, o.id, 2), v, i, 2, 3);
    }
  }

  /** What else the IR records. */
  lemma BuiltIrFields(p: Primitives, programId: Id, programHash: Id, graph: OG.Graph, graphHash: Id, language: string,
                      version: int)
    ensures var ir := BuildIr(p, programId, programHash, graph, graphHash, language, version);
            && ir.body.irId == Digest("semantic-ir", [Normalized(p, programHash), Normalized(p, graphHash),
                                                      Text(p.normalize(language)), Number(version)])
            && ir.body.version == version && ir.body.programId == programId && ir.body.graphId == graph.body.graphId
            && ir.body.language == language && ir.hashed == ir.body
  {
    hide Entities, Dependencies, SortBy;
    var parts := [programHash, graphHash, Text(language), Number(version)];
    assert Map(id => Normalized(p, id), parts)
        == [Normalized(p, programHash), Normalized(p, graphHash), Text(p.normalize(language)), Number(version)];
  }
}
