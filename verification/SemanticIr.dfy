/**
 The Semantic Content IR: its validator, the builder that expands an objective graph into six entities per
 objective, and scoped repair of a single entity.
 */
module SemanticIr {
  import opened Wrappers
  import opened Sequences
  import opened Digraph
  import opened Ordering
  import opened EdgeLists
  import opened ColouringDetector
  import opened Worklists
  import opened Ids
  import OG = ObjectiveGraph

  datatype Kind = ConceptExplanation | Claim | Definition | TermUsage | Example | NonExample | Analogy
    | MisconceptionContrast | WorkedExample | ProcedureStep | TaskModel | QuestionStem | AnswerDerivation
    | DistractorRationale | Hint | Feedback | SummaryUnit | VisualSemanticSpec

  datatype Audience = Student | Teacher | Shared

  datatype Authority = Verified | ReviewRequired | TeacherAuthored | UnsupportedAuthority

  datatype Entity = Entity(id: Id, kind: Kind, objectiveIds: seq<Id>, kcIds: seq<Id>, audience: Audience,
                           language: string, evidenceIds: seq<Id>, dependencyIds: seq<Id>, authority: Authority,
                           risk: OG.Risk, text: string)

  datatype Relation = Supports | Derives | Contrasts | Answers | Visualizes | Summarizes

  datatype Dependency = Dependency(source: Id, target: Id, relation: Relation)

  datatype IrBody = IrBody(irId: Id, version: int, programId: Id, graphId: Id, language: string,
                           entities: seq<Entity>, dependencies: seq<Dependency>)

  /** The semantic hash is identified with the payload it was computed from. */
  datatype Ir = Ir(body: IrBody, hashed: IrBody)

  function EntityIds(entities: seq<Entity>): seq<Id> {
    Map((e: Entity) => e.id, entities)
  }

  function DependencyEdges(dependencies: seq<Dependency>): seq<(Id, Id)> {
    Map((d: Dependency) => (d.source, d.target), dependencies)
  }

  // ---- the validator

  datatype Defect = FieldConstraint | DuplicateIds | Dangling | Cycle | MissingEvidence | AnswerLeak | HashMismatch

  predicate LacksEvidence(e: Entity) {
    (e.kind == Claim || e.kind == Definition) && e.authority == Verified && e.evidenceIds == []
  }

  predicate LeaksAnswer(e: Entity) {
    (e.kind == AnswerDerivation || e.kind == DistractorRationale) && e.audience != Teacher
  }

  /** The checks `_validate_ir` makes on one entity alone. */
  predicate EntityOk(e: Entity) {
    !LacksEvidence(e) && !LeaksAnswer(e)
  }

  /** The objection to the first entity that has one. */
  function EntityDefect(entities: seq<Entity>): Option<Defect> {
    if entities == [] then None
    else if LacksEvidence(entities[0]) then Some(MissingEvidence)
    else if LeaksAnswer(entities[0]) then Some(AnswerLeak)
    else EntityDefect(entities[1..])
  }

  ghost function FirstDefect(ir: Ir): Option<Defect> {
    var ids, edges := EntityIds(ir.body.entities), EdgeSet(DependencyEdges(ir.body.dependencies));
    if ir.body.version < 1 || ir.body.entities == [] then Some(FieldConstraint)
    else if !Distinct(ids) then Some(DuplicateIds)
    else if !ClosedGraph(Elements(ids), edges) then Some(Dangling)
    else if !Acyclic(edges) then Some(Cycle)
    else if EntityDefect(ir.body.entities).Some? then EntityDefect(ir.body.entities)
    else if ir.hashed != ir.body then Some(HashMismatch)
    else None
  }

  lemma {:induction false} EntityDefectMeans(entities: seq<Entity>)
    ensures EntityDefect(entities) == None <==> forall e <- entities :: EntityOk(e)
  {
    if entities != [] {
      EntityDefectMeans(entities[1..]);
      assert entities == [entities[0]] + entities[1..];
      assert entities[0] in entities;
      assert forall e <- entities[1..] :: e in entities;
    }
  }

  method ValidateIr(ir: Ir) returns (defect: Option<Defect>)
    ensures defect == FirstDefect(ir)
  {
    var ids := EntityIds(ir.body.entities);
    if ir.body.version < 1 || ir.body.entities == [] {
      return Some(FieldConstraint);
    }
    RepeatsMeans(ids);
    if Repeats(ids) {
      return Some(DuplicateIds);
    }
    var edges := DependencyEdges(ir.body.dependencies);
    for i := 0 to |edges|
      invariant forall j :: 0 <= j < i ==> edges[j].0 in Elements(ids) && edges[j].1 in Elements(ids)
    {
      if edges[i].0 !in Elements(ids) || edges[i].1 !in Elements(ids) {
        assert edges[i] in EdgeSet(edges);
        return Some(Dangling);
      }
    }
    var acyclic := ColouringAcyclic(Elements(ids), edges);
    if !acyclic {
      return Some(Cycle);
    }
    var entities := ir.body.entities;
    for i := 0 to |entities|
      invariant EntityDefect(entities[i..]) == EntityDefect(entities)
    {
      assert entities[i..][0] == entities[i] && entities[i..][1..] == entities[i + 1..];
      if LacksEvidence(entities[i]) {
        return Some(MissingEvidence);
      }
      if LeaksAnswer(entities[i]) {
        return Some(AnswerLeak);
      }
    }
    defect := if ir.hashed != ir.body then Some(HashMismatch) else None;
  }

  // ---- the builder

  const BLOCK: nat := 6

  /** The prefix of the id of the `k`-th entity of an objective. */
  function Prefix(k: nat): string
    requires k < BLOCK
  {
    if k == 0 then "semantic-claim" else if k == 1 then "semantic-example" else if k == 2 then "semantic-task"
    else if k == 3 then "semantic-answer" else if k == 4 then "semantic-summary" else "semantic-visual"
  }

  function EntityId(p: Primitives, graphHash: Id, objectiveId: Id, k: nat): Id
    requires k < BLOCK
  {
    StableId(p, Prefix(k), [graphHash, objectiveId])
  }

  /** Claim, example, task, answer, summary and visual of one objective, in the order they are appended. */
  function MakeEntity(p: Primitives, graphHash: Id, o: OG.Objective, language: string, k: nat): Entity
    requires k < BLOCK
  {
    var claim, task := EntityId(p, graphHash, o.id, 0), EntityId(p, graphHash, o.id, 2);
    var authority := if o.evidenceIds != [] then Verified else ReviewRequired;
    var (kind, audience, dependencyIds, text) :=
      if k == 0 then (Claim, Shared, [], o.description)
      else if k == 1 then (Example, Student, [claim], "A bounded example illustrating: " + o.description)
      else if k == 2 then (QuestionStem, Student, [claim], "Produce observable evidence for: " + o.description)
      else if k == 3 then (AnswerDerivation, Teacher, [task, claim], "Teacher-only derivation for evidence claim")
      else if k == 4 then (SummaryUnit, Student, [claim], "Summary of " + o.description)
      else (VisualSemanticSpec, Student, [claim], "Visual representation preserving the meaning of: " + o.description);
    Entity(EntityId(p, graphHash, o.id, k), kind, [o.id], o.kcIds, audience, language, o.evidenceIds, dependencyIds,
           authority, o.risk, text)
  }

  function EntitiesOf(p: Primitives, graphHash: Id, o: OG.Objective, language: string): (r: seq<Entity>)
    ensures |r| == BLOCK && forall k :: 0 <= k < BLOCK ==> r[k] == MakeEntity(p, graphHash, o, language, k)
  {
    seq(BLOCK, k requires 0 <= k < BLOCK => MakeEntity(p, graphHash, o, language, k))
  }

  function DependenciesOf(p: Primitives, graphHash: Id, id: Id): seq<Dependency> {
    var claim, task := EntityId(p, graphHash, id, 0), EntityId(p, graphHash, id, 2);
    [Dependency(claim, EntityId(p, graphHash, id, 1), Supports),
     Dependency(claim, task, Supports),
     Dependency(task, EntityId(p, graphHash, id, 3), Answers),
     Dependency(claim, EntityId(p, graphHash, id, 4), Summarizes),
     Dependency(claim, EntityId(p, graphHash, id, 5), Visualizes)]
  }

  function Flatten<A, B>(f: A -> seq<B>, s: seq<A>): seq<B> {
    if s == [] then [] else Flatten(f, s[..|s| - 1]) + f(s[|s| - 1])
  }

  lemma {:induction false} FlattenAt<A, B>(f: A -> seq<B>, s: seq<A>, i: nat, k: nat)
    requires i < |s| && k < BLOCK && forall a <- s :: |f(a)| == BLOCK
    ensures |Flatten(f, s)| == BLOCK * |s| && Flatten(f, s)[BLOCK * i + k] == f(s[i])[k]
  {
    var n := |s| - 1;
    if n == 0 {
      assert Flatten(f, s[..0]) == [];
    } else {
      FlattenAt(f, s[..n], if i < n then i else 0, k);
    }
  }

  function Entities(p: Primitives, graphHash: Id, objectives: seq<OG.Objective>, language: string): seq<Entity> {
    Flatten((o: OG.Objective) => EntitiesOf(p, graphHash, o, language), objectives)
  }

  function Dependencies(p: Primitives, graphHash: Id, objectives: seq<OG.Objective>): seq<Dependency> {
    if objectives == [] then []
    else
      Dependencies(p, graphHash, objectives[..|objectives| - 1])
      + DependenciesOf(p, graphHash, objectives[|objectives| - 1].id)
  }

  /** Dependencies are sorted by source, target and relation; the order of digests is left open. */
  function DependencyOrder(p: Primitives): (Dependency, Dependency) -> bool {
    (a: Dependency, b: Dependency) =>
      if a.source != b.source then p.idLe(a.source, b.source)
      else if a.target != b.target then p.idLe(a.target, b.target)
      else StringLe(RelationName(a.relation), RelationName(b.relation))
  }

  function RelationName(relation: Relation): string {
    match relation
    case Supports => "supports"
    case Derives => "derives"
    case Contrasts => "contrasts"
    case Answers => "answers"
    case Visualizes => "visualizes"
    case Summarizes => "summarizes"
  }

  function IrFrom(p: Primitives, programId: Id, programHash: Id, graph: OG.Graph, graphHash: Id, language: string,
                  version: int, entities: seq<Entity>, dependencies: seq<Dependency>): Ir
  {
    var body := IrBody(StableId(p, "semantic-ir", [programHash, graphHash, Text(language), Number(version)]), version,
                       programId, graph.body.graphId, language, entities, SortBy(DependencyOrder(p), dependencies));
    Ir(body, body)
  }

  function BuildIr(p: Primitives, programId: Id, programHash: Id, graph: OG.Graph, graphHash: Id, language: string,
                   version: int): Ir
  {
    IrFrom(p, programId, programHash, graph, graphHash, language, version,
           Entities(p, graphHash, graph.body.objectives, language),
           Dependencies(p, graphHash, graph.body.objectives))
  }

  /** `build_semantic_ir`. */
  method BuildSemanticIr(p: Primitives, programId: Id, programHash: Id, graph: OG.Graph, graphHash: Id,
                         language: string, version: int)
    returns (ir: Ir, defect: Option<Defect>)
    ensures ir == BuildIr(p, programId, programHash, graph, graphHash, language, version)
    ensures defect == FirstDefect(ir)
  {
    var objectives := graph.body.objectives;
    var entities: seq<Entity>, dependencies: seq<Dependency> := [], [];
    for i := 0 to |objectives|
      invariant entities == Entities(p, graphHash, objectives[..i], language)
      invariant dependencies == Dependencies(p, graphHash, objectives[..i])
    {
      assert objectives[..i + 1][..i] == objectives[..i];
      entities := entities + EntitiesOf(p, graphHash, objectives[i], language);
      dependencies := dependencies + DependenciesOf(p, graphHash, objectives[i].id);
    }
    assert objectives[..|objectives|] == objectives;
    ir := IrFrom(p, programId, programHash, graph, graphHash, language, version, entities, dependencies);
    defect := ValidateIr(ir);
  }

  // ---- when the built IR is accepted

  lemma EntityIdsEqualExactly(p: Primitives, graphHash: Id, id: Id, id': Id, j: nat, k: nat)
    requires j < BLOCK && k < BLOCK
    ensures EntityId(p, graphHash, id, j) == EntityId(p, graphHash, id', k)
       <==> j == k && Normalized(p, id) == Normalized(p, id')
  {
    var a, b := EntityId(p, graphHash, id, j), EntityId(p, graphHash, id', k);
    assert a.parts[1] == Normalized(p, id) && b.parts[1] == Normalized(p, id');
    assert a.parts[0] == b.parts[0];
    if j == k && Normalized(p, id) == Normalized(p, id') {
      assert a.parts == b.parts;
    }
  }

  lemma EntityAt(p: Primitives, graphHash: Id, objectives: seq<OG.Objective>, language: string, i: nat, k: nat)
    requires i < |objectives| && k < BLOCK
    ensures |Entities(p, graphHash, objectives, language)| == BLOCK * |objectives|
    ensures Entities(p, graphHash, objectives, language)[BLOCK * i + k]
         == MakeEntity(p, graphHash, objectives[i], language, k)
  {
    FlattenAt((o: OG.Objective) => EntitiesOf(p, graphHash, o, language), objectives, i, k);
  }

  lemma EntityIdAt(p: Primitives, graphHash: Id, objectives: seq<OG.Objective>, language: string, i: nat, k: nat)
    requires i < |objectives| && k < BLOCK
    ensures var ids := EntityIds(Entities(p, graphHash, objectives, language));
            && |ids| == BLOCK * |objectives| && ids[BLOCK * i + k] == EntityId(p, graphHash, objectives[i].id, k)
            && EntityId(p, graphHash, objectives[i].id, k) in Elements(ids)
  {
    EntityAt(p, graphHash, objectives, language, i, k);
    var ids := EntityIds(Entities(p, graphHash, objectives, language));
    assert ids[BLOCK * i + k] in ids;
  }

  lemma EntityCount(p: Primitives, graphHash: Id, objectives: seq<OG.Objective>, language: string)
    ensures |Entities(p, graphHash, objectives, language)| == BLOCK * |objectives|
  {
    if objectives != [] {
      EntityAt(p, graphHash, objectives, language, 0, 0);
    }
  }

  /** No two objectives have ids that `normalize_text` makes equal. */
  ghost predicate IdsDifferNormalized(p: Primitives, objectives: seq<OG.Objective>) {
    forall i, j :: 0 <= i < j < |objectives| ==> Normalized(p, objectives[i].id) != Normalized(p, objectives[j].id)
  }

  lemma EntityIdsDistinctExactly(p: Primitives, graphHash: Id, objectives: seq<OG.Objective>, language: string)
    ensures Distinct(EntityIds(Entities(p, graphHash, objectives, language))) <==> IdsDifferNormalized(p, objectives)
  {
    hide Entities, EntityId;
    var ids := EntityIds(Entities(p, graphHash, objectives, language));
    EntityCount(p, graphHash, objectives, language);
    if IdsDifferNormalized(p, objectives) {
      forall m, n | 0 <= m < n < |ids|
        ensures ids[m] != ids[n]
      {
        DifferentObjectivesDiffer(p, graphHash, objectives, language, m / BLOCK, m % BLOCK, n / BLOCK, n % BLOCK);
      }
    } else {
      var i, j :| 0 <= i < j < |objectives| && Normalized(p, objectives[i].id) == Normalized(p, objectives[j].id);
      EntityIdAt(p, graphHash, objectives, language, i, 0);
      EntityIdAt(p, graphHash, objectives, language, j, 0);
      EntityIdsEqualExactly(p, graphHash, objectives[i].id, objectives[j].id, 0, 0);
      assert ids[BLOCK * i] == ids[BLOCK * j];
    }
  }

  lemma DifferentObjectivesDiffer(p: Primitives, graphHash: Id, objectives: seq<OG.Objective>, language: string,
                                  i: nat, j: nat, i': nat, j': nat)
    requires IdsDifferNormalized(p, objectives) && i < |objectives| && i' < |objectives| && j < BLOCK && j' < BLOCK
    requires i != i' || j != j'
    ensures var ids := EntityIds(Entities(p, graphHash, objectives, language));
            |ids| == BLOCK * |objectives| && ids[BLOCK * i + j] != ids[BLOCK * i' + j']
  {
    EntityIdAt(p, graphHash, objectives, language, i, j);
    EntityIdAt(p, graphHash, objectives, language, i', j');
    EntityIdsEqualExactly(p, graphHash, objectives[i].id, objectives[i'].id, j, j');
  }

  /** Every dependency joins two entities of one objective, from a lower to a higher layer. */
  ghost predicate LocalEdge(p: Primitives, graphHash: Id, objectives: seq<OG.Objective>, d: Dependency, i: nat,
                            j: nat, k: nat)
  {
    && i < |objectives| && j < BLOCK && k < BLOCK && Layer(Prefix(j)) < Layer(Prefix(k))
    && d.source == EntityId(p, graphHash, objectives[i].id, j)
    && d.target == EntityId(p, graphHash, objectives[i].id, k)
  }

  function Layer(prefix: string): int {
    if prefix == "semantic-claim" then 0 else if prefix == "semantic-answer" then 2 else 1
  }

  function LayerOf(id: Id): int {
    if id.Digest? then Layer(id.prefix) else 0
  }

  /** The dependencies of a block: the claim supports all but the answer, the task is answered. */
  predicate Feeds(j: nat, k: nat) {
    (j == 0 && 0 < k < BLOCK && k != 3) || (j == 2 && k == 3)
  }

  /** What follows from an entity of a block: everything from the claim, the answer from the task. */
  predicate Downstream(j: nat, k: nat) {
    (j == 0 && 0 < k < BLOCK) || (j == 2 && k == 3)
  }

  /** `u` and `v` are the `j`-th and the `k`-th entity of the `i`-th objective. */
  ghost predicate InBlock(p: Primitives, graphHash: Id, objectives: seq<OG.Objective>, u: Id, v: Id, i: nat, j: nat,
                          k: nat)
  {
    && i < |objectives| && j < BLOCK && k < BLOCK
    && u == EntityId(p, graphHash, objectives[i].id, j) && v == EntityId(p, graphHash, objectives[i].id, k)
  }

  lemma {:induction false} DependencyFeeds(p: Primitives, graphHash: Id, objectives: seq<OG.Objective>, d: Dependency)
    returns (i: nat, j: nat, k: nat)
    requires d in Dependencies(p, graphHash, objectives)
    ensures InBlock(p, graphHash, objectives, d.source, d.target, i, j, k) && Feeds(j, k)
  {
    hide EntityId;
    var n := |objectives| - 1;
    if d in DependenciesOf(p, graphHash, objectives[n].id) {
      var m :| 0 <= m < 5 && DependenciesOf(p, graphHash, objectives[n].id)[m] == d;
      i, j, k := n, if m == 2 then 2 else 0, m + 1;
    } else {
      i, j, k := DependencyFeeds(p, graphHash, objectives[..n], d);
    }
  }

  lemma DependenciesAreLocal(p: Primitives, graphHash: Id, objectives: seq<OG.Objective>, d: Dependency)
    returns (i: nat, j: nat, k: nat)
    requires d in Dependencies(p, graphHash, objectives)
    ensures LocalEdge(p, graphHash, objectives, d, i, j, k)
  {
    hide Dependencies, EntityId;
    i, j, k := DependencyFeeds(p, graphHash, objectives, d);
  }

  lemma BuiltDependenciesClosedAcyclic(p: Primitives, graphHash: Id, objectives: seq<OG.Objective>, language: string)
    ensures var edges := EdgeSet(DependencyEdges(SortBy(DependencyOrder(p), Dependencies(p, graphHash, objectives))));
            && ClosedGraph(Elements(EntityIds(Entities(p, graphHash, objectives, language))), edges)
            && Acyclic(edges)
  {
    hide Dependencies, EntityId, DependencyOrder, SortBy;
    var dependencies := Dependencies(p, graphHash, objectives);
    var sorted := SortBy(DependencyOrder(p), dependencies);
    var ids := EntityIds(Entities(p, graphHash, objectives, language));
    var edges := EdgeSet(DependencyEdges(sorted));
    SortPermutes(DependencyOrder(p), dependencies);
    forall u, v | (u, v) in edges
      ensures u in Elements(ids) && v in Elements(ids) && LayerOf(u) < LayerOf(v)
    {
      var m :| 0 <= m < |sorted| && (sorted[m].source, sorted[m].target) == (u, v);
      var d := sorted[m];
      assert d in sorted;
      BuiltEdge(p, graphHash, objectives, language, d);
    }
    RankedIsAcyclic(edges, LayerOf);
  }

  lemma BuiltEdge(p: Primitives, graphHash: Id, objectives: seq<OG.Objective>, language: string, d: Dependency)
    requires d in Dependencies(p, graphHash, objectives)
    ensures var ids := Elements(EntityIds(Entities(p, graphHash, objectives, language)));
            d.source in ids && d.target in ids && LayerOf(d.source) < LayerOf(d.target)
  {
    var i, j, k := DependenciesAreLocal(p, graphHash, objectives, d);
    EntityIdAt(p, graphHash, objectives, language, i, j);
    EntityIdAt(p, graphHash, objectives, language, i, k);
  }

  lemma MadeEntityOk(p: Primitives, graphHash: Id, o: OG.Objective, language: string, k: nat)
    requires k < BLOCK
    ensures EntityOk(MakeEntity(p, graphHash, o, language, k))
  {
  }

  lemma BuiltEntitiesOk(p: Primitives, graphHash: Id, objectives: seq<OG.Objective>, language: string)
    ensures EntityDefect(Entities(p, graphHash, objectives, language)) == None
  {
    hide Entities, MakeEntity, EntityOk;
    var entities := Entities(p, graphHash, objectives, language);
    EntityDefectMeans(entities);
    EntityCount(p, graphHash, objectives, language);
    forall e | e in entities
      ensures EntityOk(e)
    {
      var m :| 0 <= m < |entities| && entities[m] == e;
      EntityAt(p, graphHash, objectives, language, m / BLOCK, m % BLOCK);
      MadeEntityOk(p, graphHash, objectives[m / BLOCK], language, m % BLOCK);
    }
  }

  /**
   The IR built from any objectives is closed, acyclic and answer-separated. It can only be rejected for a version
   that is not positive, for want of an objective, or because two objective ids become equal under `normalize_text`:
   distinct objective ids are not enough, because the entity ids are digests of normalized parts.
   */
  lemma BuiltIrDefects(p: Primitives, programId: Id, programHash: Id, graph: OG.Graph, graphHash: Id, language: string,
                       version: int)
    ensures var ir := BuildIr(p, programId, programHash, graph, graphHash, language, version);
            var edges := EdgeSet(DependencyEdges(ir.body.dependencies));
            && ClosedGraph(Elements(EntityIds(ir.body.entities)), edges) && Acyclic(edges)
            && (forall e <- ir.body.entities :: EntityOk(e))
            && FirstDefect(ir) ==
               if version < 1 || graph.body.objectives == [] then Some(FieldConstraint)
               else if !IdsDifferNormalized(p, graph.body.objectives) then Some(DuplicateIds)
               else None
  {
    hide Entities, Dependencies, SortBy, DependencyOrder, EntityOk, IdsDifferNormalized, EntityIds, DependencyEdges;
    var objectives := graph.body.objectives;
    EntityCount(p, graphHash, objectives, language);
    EntityIdsDistinctExactly(p, graphHash, objectives, language);
    BuiltDependenciesClosedAcyclic(p, graphHash, objectives, language);
    BuiltEntitiesOk(p, graphHash, objectives, language);
    EntityDefectMeans(Entities(p, graphHash, objectives, language));
  }

  /** Every accepted graph in which two ids normalize alike gives an IR rejected for duplicate ids. */
  lemma CollidingIdsAreRejected(p: Primitives, programId: Id, programHash: Id, graph: OG.Graph, graphHash: Id,
                                language: string, version: int, i: nat, j: nat)
    requires OG.FirstDefect(graph) == None && version >= 1 && i < j < |graph.body.objectives|
    requires Normalized(p, graph.body.objectives[i].id) == Normalized(p, graph.body.objectives[j].id)
    ensures FirstDefect(BuildIr(p, programId, programHash, graph, graphHash, language, version)) == Some(DuplicateIds)
  {
    BuiltIrDefects(p, programId, programHash, graph, graphHash, language, version);
  }

  function CaseTwins(): OG.Graph {
    var first := OG.Objective(Text("KC-A"), "first", None, 1, OG.Generic, [Text("kc")], [], OG.Medium);
    var second := OG.Objective(Text("kc-a"), "second", None, 1, OG.Generic, [Text("kc")], [], OG.Medium);
    var body := OG.GraphBody(Text("graph"), Text("intent"), 1, "snapshot", [first, second], [],
                             [Text("KC-A"), Text("kc-a")], []);
    OG.Graph(body, body)
  }

  /** Such graphs exist: here two ids differ only in letter case. */
  lemma CaseOnlyDifferenceIsRejected(p: Primitives, programId: Id, programHash: Id, graphHash: Id, language: string)
    requires p.normalize("KC-A") == p.normalize("kc-a")
    ensures OG.FirstDefect(CaseTwins()) == None
    ensures FirstDefect(BuildIr(p, programId, programHash, CaseTwins(), graphHash, language, 1)) == Some(DuplicateIds)
  {
    CaseTwinsAreAccepted();
    CollidingIdsAreRejected(p, programId, programHash, CaseTwins(), graphHash, language, 1, 0, 1);
  }

  lemma CaseTwinsAreAccepted()
    ensures OG.FirstDefect(CaseTwins()) == None
  {
    var graph := CaseTwins();
    assert "KC-A"[0] == 'K' && "kc-a"[0] == 'k';
    assert OG.ObjectiveIds(graph.body.objectives) == [Text("KC-A"), Text("kc-a")] == graph.body.claims;
    var edges := EdgeSet(OG.PrerequisiteEdges(graph.body.prerequisites));
    assert edges == {};
    RankedIsAcyclic(edges, (v: Id) => 0);
  }

  // ---- how far a change reaches

  ghost function BuiltEdges(p: Primitives, graphHash: Id, objectives: seq<OG.Objective>): set<(Id, Id)> {
    EdgeSet(DependencyEdges(SortBy(DependencyOrder(p), Dependencies(p, graphHash, objectives))))
  }

  function IdsOf(p: Primitives, graphHash: Id, objectiveId: Id): set<Id> {
    set k: nat | k < BLOCK :: EntityId(p, graphHash, objectiveId, k)
  }

  lemma DependencyIsEdge(p: Primitives, graphHash: Id, objectives: seq<OG.Objective>, d: Dependency)
    ensures d in Dependencies(p, graphHash, objectives) ==> (d.source, d.target) in BuiltEdges(p, graphHash, objectives)
  {
    hide Dependencies, EntityId, DependencyOrder, SortBy;
    var dependencies := Dependencies(p, graphHash, objectives);
    var sorted := SortBy(DependencyOrder(p), dependencies);
    SortPermutes(DependencyOrder(p), dependencies);
    if d in dependencies {
      var m :| 0 <= m < |sorted| && sorted[m] == d;
      assert DependencyEdges(sorted)[m] == (d.source, d.target);
    }
  }

  lemma {:induction false} DependenciesInclude(p: Primitives, graphHash: Id, objectives: seq<OG.Objective>, i: nat,
                                               m: nat)
    requires i < |objectives| && m < 5
    ensures DependenciesOf(p, graphHash, objectives[i].id)[m] in Dependencies(p, graphHash, objectives)
  {
    hide EntityId;
    var n := |objectives| - 1;
    if i < n {
      DependenciesInclude(p, graphHash, objectives[..n], i, m);
    }
  }

  lemma ClaimReaches(p: Primitives, graphHash: Id, objectives: seq<OG.Objective>, i: nat, k: nat)
    requires i < |objectives| && 0 < k < BLOCK
    ensures Reaches(BuiltEdges(p, graphHash, objectives), EntityId(p, graphHash, objectives[i].id, 0),
                    EntityId(p, graphHash, objectives[i].id, k))
  {
    var id, edges := objectives[i].id, BuiltEdges(p, graphHash, objectives);
    DependenciesInclude(p, graphHash, objectives, i, k - 1);
    var d := DependenciesOf(p, graphHash, id)[k - 1];
    DependencyIsEdge(p, graphHash, objectives, d);
    ReachesEdge(edges, d.source, d.target);
    if k == 3 {
      ClaimReaches(p, graphHash, objectives, i, 2);
      ReachesTransitive(edges, EntityId(p, graphHash, id, 0), d.source, d.target);
    }
  }

  lemma BlockIsForwardClosed(p: Primitives, graphHash: Id, objectives: seq<OG.Objective>, id: Id)
    ensures ForwardClosed(BuiltEdges(p, graphHash, objectives), IdsOf(p, graphHash, id))
  {
    hide Dependencies, EntityId, DependencyOrder, SortBy;
    var dependencies := Dependencies(p, graphHash, objectives);
    var sorted := SortBy(DependencyOrder(p), dependencies);
    SortPermutes(DependencyOrder(p), dependencies);
    forall u, v | u in IdsOf(p, graphHash, id) && (u, v) in BuiltEdges(p, graphHash, objectives)
      ensures v in IdsOf(p, graphHash, id)
    {
      var m :| 0 <= m < |sorted| && (sorted[m].source, sorted[m].target) == (u, v);
      var d := sorted[m];
      assert d in sorted;
      var i, j, k := DependenciesAreLocal(p, graphHash, objectives, d);
      var j': nat :| j' < BLOCK && u == EntityId(p, graphHash, id, j');
      EntityIdsEqualExactly(p, graphHash, objectives[i].id, id, j, j');
      EntityIdsEqualExactly(p, graphHash, objectives[i].id, id, k, k);
    }
  }

  /** Changing the claim of an objective impacts exactly that objective's six entities. */
  lemma ClaimImpactsItsObjective(p: Primitives, graphHash: Id, objectives: seq<OG.Objective>, i: nat)
    requires i < |objectives|
    ensures Impact(BuiltEdges(p, graphHash, objectives), {EntityId(p, graphHash, objectives[i].id, 0)})
         == IdsOf(p, graphHash, objectives[i].id)
  {
    var id, edges := objectives[i].id, BuiltEdges(p, graphHash, objectives);
    var claim := EntityId(p, graphHash, id, 0);
    BlockIsForwardClosed(p, graphHash, objectives, id);
    ImpactIsLeast(edges, {claim});
    forall k: nat | k < BLOCK
      ensures EntityId(p, graphHash, id, k) in Impact(edges, {claim})
    {
      if k > 0 {
        ClaimReaches(p, graphHash, objectives, i, k);
      }
    }
  }

  // ---- the impact of any change

  lemma EdgeFeeds(p: Primitives, graphHash: Id, objectives: seq<OG.Objective>, u: Id, v: Id)
    returns (i: nat, j: nat, k: nat)
    requires (u, v) in BuiltEdges(p, graphHash, objectives)
    ensures InBlock(p, graphHash, objectives, u, v, i, j, k) && Feeds(j, k)
  {
    hide Dependencies, EntityId, DependencyOrder, SortBy, Feeds, InBlock;
    var dependencies := Dependencies(p, graphHash, objectives);
    var sorted := SortBy(DependencyOrder(p), dependencies);
    SortPermutes(DependencyOrder(p), dependencies);
    var m :| 0 <= m < |sorted| && (sorted[m].source, sorted[m].target) == (u, v);
    var d := sorted[m];
    assert d in sorted;
    i, j, k := DependencyFeeds(p, graphHash, objectives, d);
  }

  /** Whatever is reached from an entity lies downstream of it in its own block. */
  lemma ReachedIsDownstream(p: Primitives, graphHash: Id, objectives: seq<OG.Objective>, u: Id, v: Id)
    returns (i: nat, j: nat, k: nat)
    requires Reaches(BuiltEdges(p, graphHash, objectives), u, v)
    ensures InBlock(p, graphHash, objectives, u, v, i, j, k) && Downstream(j, k)
  {
    var edges := BuiltEdges(p, graphHash, objectives);
    hide BuiltEdges, EntityId;
    var w := ReachesFirstEdge(edges, u, v);
    i, j, k := EdgeFeeds(p, graphHash, objectives, u, w);
    if w != v {
      var x := ReachesFirstEdge(edges, w, v);
      var i', j', k' := EdgeFeeds(p, graphHash, objectives, w, x);
      EntityIdsEqualExactly(p, graphHash, objectives[i].id, objectives[i'].id, k, j');
      EntityIdsEqualExactly(p, graphHash, objectives[i].id, objectives[i'].id, k', k');
      if x != v {
        var y := ReachesFirstEdge(edges, x, v);
        var i'', j'', k'' := EdgeFeeds(p, graphHash, objectives, x, y);
        EntityIdsEqualExactly(p, graphHash, objectives[i'].id, objectives[i''].id, k', j'');
        assert false;
      }
      k := k';
    }
  }

  lemma DownstreamIsReached(p: Primitives, graphHash: Id, objectives: seq<OG.Objective>, u: Id, v: Id, i: nat,
                            j: nat, k: nat)
    requires InBlock(p, graphHash, objectives, u, v, i, j, k) && Downstream(j, k)
    ensures Reaches(BuiltEdges(p, graphHash, objectives), u, v)
  {
    if j == 0 {
      ClaimReaches(p, graphHash, objectives, i, k);
    } else {
      DependenciesInclude(p, graphHash, objectives, i, 2);
      var d := DependenciesOf(p, graphHash, objectives[i].id)[2];
      DependencyIsEdge(p, graphHash, objectives, d);
      ReachesEdge(BuiltEdges(p, graphHash, objectives), d.source, d.target);
    }
  }

  /** `v` follows from one of the changed ids. */
  ghost predicate Follows(p: Primitives, graphHash: Id, objectives: seq<OG.Objective>, changed: set<Id>, v: Id) {
    exists u, i: nat, j: nat, k: nat ::
      u in changed && InBlock(p, graphHash, objectives, u, v, i, j, k) && Downstream(j, k)
  }

  /**
   The impact of any change to a built IR: the changed ids, with the whole block of a changed claim and the answer of a
   changed task. All other entities impact themselves only, and no change crosses from one objective to another.
   */
  lemma ImpactExactly(p: Primitives, graphHash: Id, objectives: seq<OG.Objective>, changed: set<Id>, v: Id)
    ensures v in Impact(BuiltEdges(p, graphHash, objectives), changed)
       <==> v in changed || Follows(p, graphHash, objectives, changed, v)
  {
    hide BuiltEdges, InBlock, Downstream;
    var edges := BuiltEdges(p, graphHash, objectives);
    if ReachedFrom(edges, changed, v) {
      var u :| u in changed && Reaches(edges, u, v);
      var i, j, k := ReachedIsDownstream(p, graphHash, objectives, u, v);
      assert Follows(p, graphHash, objectives, changed, v);
    }
    if Follows(p, graphHash, objectives, changed, v) {
      var u, i: nat, j: nat, k: nat :|
        u in changed && InBlock(p, graphHash, objectives, u, v, i, j, k) && Downstream(j, k);
      DownstreamIsReached(p, graphHash, objectives, u, v, i, j, k);
      assert ReachedFrom(edges, changed, v);
    }
  }
}
