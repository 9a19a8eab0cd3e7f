/**
 The Pedagogical Program IR: its validator, and the builder that lays six phases over an accepted objective graph.
 Purely descriptive texts (actions, purposes, conditions) are constants of the builder and are not modelled.
 */
module ProgramIr {
  import opened Sequences
  import opened Wrappers
  import opened Ordering
  import opened Ids
  import opened ObjectiveGraph
  import opened Apportionment
  import Optimizer

  datatype Evidence = Evidence(opportunityId: Id, objectiveIds: seq<Id>, evidenceType: string)

  datatype Move = Move(moveId: Id, kind: string, objectiveIds: seq<Id>, kcIds: seq<Id>, prerequisiteIds: seq<Id>,
                       evidence: seq<Evidence>, feedback: Option<Id>, surfaces: seq<string>)

  datatype Transition = Transition(ruleId: Id, nextPhaseId: Id)

  datatype Phase = Phase(phaseId: Id, order: int, title: string, moves: seq<Move>, minutes: int, loadUnits: int,
                         transition: Option<Transition>)

  datatype ProgramBody = ProgramBody(programId: Id, version: int, intentId: Id, graphId: Id, methodology: string,
                                     phases: seq<Phase>, variantPhaseIds: seq<Id>, hardInvariants: seq<string>,
                                     totalDuration: int)

  datatype Program = Program(body: ProgramBody, hashed: ProgramBody)

  function PhaseIds(phases: seq<Phase>): seq<Id> {
    Map((phase: Phase) => phase.phaseId, phases)
  }

  function Minutes(phases: seq<Phase>): seq<int> {
    Map((phase: Phase) => phase.minutes, phases)
  }

  function AllMoves(phases: seq<Phase>): seq<Move> {
    if phases == [] then [] else AllMoves(phases[..|phases| - 1]) + phases[|phases| - 1].moves
  }

  function MoveIds(moves: seq<Move>): seq<Id> {
    Map((move: Move) => move.moveId, moves)
  }

  ghost predicate Taught(phases: seq<Phase>, id: Id) {
    exists move :: move in AllMoves(phases) && id in move.objectiveIds
  }

  ghost predicate Evidenced(phases: seq<Phase>, id: Id) {
    exists move, e :: move in AllMoves(phases) && e in move.evidence && id in e.objectiveIds
  }

  // ---- the validator

  predicate MoveFieldsOk(move: Move) {
    && move.objectiveIds != [] && move.kcIds != [] && move.surfaces != []
    && forall e <- move.evidence :: e.objectiveIds != []
  }

  predicate PhaseFieldsOk(phase: Phase) {
    && phase.order >= 1 && 1 <= phase.minutes <= 240 && 1 <= phase.loadUnits <= 10 && phase.moves != []
    && forall move <- phase.moves :: MoveFieldsOk(move)
  }

  predicate FieldsOk(b: ProgramBody) {
    && b.version >= 1 && b.phases != [] && 1 <= b.totalDuration <= 240
    && forall phase <- b.phases :: PhaseFieldsOk(phase)
  }

  predicate Contiguous(phases: seq<Phase>) {
    forall i :: 0 <= i < |phases| ==> phases[i].order == i + 1
  }

  /** The field constraints and `_validate_program` accept the program. */
  ghost predicate Accepted(g: Program) {
    var phases := g.body.phases;
    && FieldsOk(g.body)
    && Distinct(PhaseIds(phases))
    && Distinct(MoveIds(AllMoves(phases)))
    && Contiguous(phases)
    && Sum(Minutes(phases)) <= g.body.totalDuration
    && (exists id :: Taught(phases, id))
    && (forall id :: Taught(phases, id) ==> Evidenced(phases, id))
    && g.hashed == g.body
  }

  function MoveObjectives(moves: seq<Move>): set<Id> {
    set move, id | move in moves && id in move.objectiveIds :: id
  }

  function EvidenceObjectives(evidence: seq<Evidence>): set<Id> {
    set e, id | e in evidence && id in e.objectiveIds :: id
  }

  function EvidencedObjectives(moves: seq<Move>): set<Id> {
    set move, e, id | move in moves && e in move.evidence && id in e.objectiveIds :: id
  }

  lemma OneMoreMove(moves: seq<Move>, move: Move)
    ensures MoveObjectives(moves + [move]) == MoveObjectives(moves) + Elements(move.objectiveIds)
    ensures EvidencedObjectives(moves + [move]) == EvidencedObjectives(moves) + EvidenceObjectives(move.evidence)
  {
    forall id
      ensures id in MoveObjectives(moves + [move]) <==> id in MoveObjectives(moves) || id in move.objectiveIds
    {
      assert move in moves + [move];
    }
    forall id
      ensures id in EvidencedObjectives(moves + [move])
         <==> id in EvidencedObjectives(moves) || id in EvidenceObjectives(move.evidence)
    {
      assert move in moves + [move];
    }
  }

  method CollectEvidence(evidence: seq<Evidence>, evidenced0: set<Id>) returns (evidenced: set<Id>)
    ensures evidenced == evidenced0 + EvidenceObjectives(evidence)
  {
    evidenced := evidenced0;
    for i := 0 to |evidence|
      invariant evidenced == evidenced0 + EvidenceObjectives(evidence[..i])
    {
      assert evidence[..i + 1] == evidence[..i] + [evidence[i]];
      evidenced := evidenced + Elements(evidence[i].objectiveIds);
    }
    assert evidence[..|evidence|] == evidence;
  }

  method CollectMoves(moves: seq<Move>, ghost before: seq<Move>, taught0: set<Id>, evidenced0: set<Id>)
    returns (taught: set<Id>, evidenced: set<Id>)
    requires taught0 == MoveObjectives(before) && evidenced0 == EvidencedObjectives(before)
    ensures taught == MoveObjectives(before + moves) && evidenced == EvidencedObjectives(before + moves)
  {
    hide MoveObjectives, EvidencedObjectives, EvidenceObjectives;
    taught, evidenced := taught0, evidenced0;
    assert before + moves[..0] == before;
    for i := 0 to |moves|
      invariant taught == MoveObjectives(before + moves[..i])
      invariant evidenced == EvidencedObjectives(before + moves[..i])
    {
      assert before + moves[..i + 1] == before + moves[..i] + [moves[i]];
      OneMoreMove(before + moves[..i], moves[i]);
      taught := taught + Elements(moves[i].objectiveIds);
      evidenced := CollectEvidence(moves[i].evidence, evidenced);
    }
    assert before + moves[..|moves|] == before + moves;
  }

  /** The field constraints, then `_validate_program`. */
  method ValidateProgram(g: Program) returns (ok: bool)
    ensures ok <==> Accepted(g)
  {
    hide FieldsOk, AllMoves, Minutes, Sum, Contiguous, MoveObjectives, EvidencedObjectives;
    var phases := g.body.phases;
    RepeatsMeans(PhaseIds(phases));
    RepeatsMeans(MoveIds(AllMoves(phases)));
    if !FieldsOk(g.body) || Repeats(PhaseIds(phases)) || Repeats(MoveIds(AllMoves(phases))) {
      return false;
    }
    if !Contiguous(phases) || Sum(Minutes(phases)) > g.body.totalDuration {
      return false;
    }
    var taught: set<Id>, evidenced: set<Id> := {}, {};
    NothingCollected();
    for i := 0 to |phases|
      invariant taught == MoveObjectives(AllMoves(phases[..i]))
      invariant evidenced == EvidencedObjectives(AllMoves(phases[..i]))
    {
      OneMorePhase(phases, i);
      taught, evidenced := CollectMoves(phases[i].moves, AllMoves(phases[..i]), taught, evidenced);
    }
    assert phases[..|phases|] == phases;
    CollectedExactly(phases);
    ok := taught != {} && taught - evidenced == {} && g.hashed == g.body;
  }

  lemma NothingCollected()
    ensures AllMoves([]) == [] && MoveObjectives([]) == {} && EvidencedObjectives([]) == {}
  {
  }

  lemma OneMorePhase(phases: seq<Phase>, i: nat)
    requires i < |phases|
    ensures AllMoves(phases[..i + 1]) == AllMoves(phases[..i]) + phases[i].moves
  {
    assert phases[..i + 1][..i] == phases[..i];
  }

  lemma CollectedExactly(phases: seq<Phase>)
    ensures var taught, evidenced := MoveObjectives(AllMoves(phases)), EvidencedObjectives(AllMoves(phases));
            && (taught != {} <==> exists id :: Taught(phases, id))
            && (taught - evidenced == {} <==> forall id :: Taught(phases, id) ==> Evidenced(phases, id))
  {
    hide AllMoves;
    var taught, evidenced := MoveObjectives(AllMoves(phases)), EvidencedObjectives(AllMoves(phases));
    forall id
      ensures id in taught <==> Taught(phases, id)
      ensures id in evidenced <==> Evidenced(phases, id)
    {
    }
    if taught != {} {
      var id :| id in taught;
      assert Taught(phases, id);
    }
    if forall id :: id in taught ==> id in evidenced {
      assert taught - evidenced == {};
    }
    forall id | taught - evidenced == {} && id in taught
      ensures id in evidenced
    {
      assert id !in taught - evidenced;
    }
  }

  // ---- the builder

  const PHASE_SPECS: seq<(string, string)> := [
    ("activation", "Activate prior knowledge"),
    ("modeling", "Model the target thinking"),
    ("guided_practice", "Guided practice with feedback"),
    ("independent_practice", "Independent performance"),
    ("formative_assessment", "Check evidence of learning"),
    ("closure", "Consolidate and transfer")]

  function PhaseId(p: Primitives, graphHash: Id, index: nat): Id
    requires 1 <= index <= |PHASE_SPECS|
  {
    StableId(p, "phase", [graphHash, Number(index), Text(PHASE_SPECS[index - 1].0)])
  }

  function KcIds(objectives: seq<Objective>): seq<Id> {
    if objectives == [] then [] else KcIds(objectives[..|objectives| - 1]) + objectives[|objectives| - 1].kcIds
  }

  function MakeEvidence(p: Primitives, moveId: Id, kind: string, id: Id): Evidence {
    Evidence(StableId(p, "evidence-opportunity", [moveId, id]), [id],
             if kind == "activation" || kind == "closure" then "elicitation" else "bounded_performance")
  }

  function MakePhase(p: Primitives, intent: Intent, graph: Graph, graphHash: Id, index: nat, minutes: int): Phase
    requires 1 <= index <= |PHASE_SPECS|
  {
    var (kind, title) := PHASE_SPECS[index - 1];
    var ids := ObjectiveIds(graph.body.objectives);
    var phaseId := PhaseId(p, graphHash, index);
    var moveId := StableId(p, "move", [phaseId] + ids);
    var move := Move(
      moveId, kind, ids, KcIds(graph.body.objectives),
      SortBy(p.idLe, Dedup(Map((e: Prerequisite) => e.prerequisite, graph.body.prerequisites))),
      Map(id => MakeEvidence(p, moveId, kind, id), ids),
      if kind in {"guided_practice", "independent_practice", "formative_assessment"}
      then Some(StableId(p, "feedback", [moveId])) else None,
      if intent.artifactTypes == [] then ["lesson"] else intent.artifactTypes);
    Phase(phaseId, index, title, [move], minutes, if kind in {"activation", "closure"} then 3 else 6,
          if index < |PHASE_SPECS| then
            var next := PhaseId(p, graphHash, index + 1);
            Some(Transition(StableId(p, "transition", [phaseId, next]), next))
          else None)
  }

  function Phases(p: Primitives, intent: Intent, graph: Graph, graphHash: Id, minutes: seq<int>,
                  n: nat): (r: seq<Phase>)
    requires n <= |minutes| == |PHASE_SPECS|
    ensures |r| == n && forall i :: 0 <= i < n ==> r[i] == MakePhase(p, intent, graph, graphHash, i + 1, minutes[i])
  {
    seq(n, i requires 0 <= i < n => MakePhase(p, intent, graph, graphHash, i + 1, minutes[i]))
  }

  function ProgramFrom(p: Primitives, intent: Intent, graph: Graph, graphHash: Id, methodology: string, version: int,
                       phases: seq<Phase>): Program
  {
    var body := ProgramBody(
      StableId(p, "program", [intent.intentHash, graphHash, Text(methodology), Number(version)]), version,
      intent.intentId, graph.body.graphId, methodology, phases, PhaseIds(phases),
      ["objective_lineage", "prerequisite_order", "evidence_coverage", "answer_separation"], intent.duration);
    Program(body, body)
  }

  function BuildProgram(p: Primitives, intent: Intent, graph: Graph, graphHash: Id, methodology: string,
                        version: int): Program
  {
    AllocationConserves(intent.duration, PHASE_WEIGHTS);
    ProgramFrom(p, intent, graph, graphHash, methodology, version,
                Phases(p, intent, graph, graphHash, Allocation(intent.duration, PHASE_WEIGHTS), |PHASE_SPECS|))
  }

  /** `build_program_ir` up to its final validation. */
  method BuildProgramIr(p: Primitives, intent: Intent, graph: Graph, graphHash: Id, methodology: string, version: int)
    returns (program: Program)
    ensures program == BuildProgram(p, intent, graph, graphHash, methodology, version)
  {
    AllocationConserves(intent.duration, PHASE_WEIGHTS);
    var allocations := AllocateMinutes(intent.duration, PHASE_WEIGHTS);
    var phases: seq<Phase> := [];
    for index := 1 to |PHASE_SPECS| + 1
      invariant phases == Phases(p, intent, graph, graphHash, allocations, index - 1)
    {
      PhasesGrow(p, intent, graph, graphHash, allocations, index - 1);
      phases := phases + [MakePhase(p, intent, graph, graphHash, index, allocations[index - 1])];
    }
    program := ProgramFrom(p, intent, graph, graphHash, methodology, version, phases);
  }

  lemma PhasesGrow(p: Primitives, intent: Intent, graph: Graph, graphHash: Id, minutes: seq<int>, n: nat)
    requires n < |minutes| == |PHASE_SPECS|
    ensures Phases(p, intent, graph, graphHash, minutes, n + 1)
         == Phases(p, intent, graph, graphHash, minutes, n)
            + [MakePhase(p, intent, graph, graphHash, n + 1, minutes[n])]
  {
  }

  // ---- what is built is accepted

  lemma {:induction false} SingleMoves(phases: seq<Phase>)
    requires forall i :: 0 <= i < |phases| ==> |phases[i].moves| == 1
    ensures |AllMoves(phases)| == |phases|
    ensures forall i :: 0 <= i < |phases| ==> AllMoves(phases)[i] == phases[i].moves[0]
  {
    if phases != [] {
      SingleMoves(phases[..|phases| - 1]);
    }
  }

  lemma {:induction false} KcIdsExist(objectives: seq<Objective>)
    requires objectives != [] && forall o <- objectives :: o.kcIds != []
    ensures KcIds(objectives) != []
  {
    assert objectives[|objectives| - 1] in objectives;
  }

  lemma PhaseIdsDiffer(p: Primitives, graphHash: Id, i: nat, j: nat)
    requires 1 <= i < j <= |PHASE_SPECS|
    ensures PhaseId(p, graphHash, i) != PhaseId(p, graphHash, j)
  {
    var a, b := PhaseId(p, graphHash, i), PhaseId(p, graphHash, j);
    assert a.parts[1] == Number(i) && b.parts[1] == Number(j);
  }

  lemma MoveIdsDiffer(p: Primitives, graphHash: Id, i: nat, j: nat, ids: seq<Id>)
    requires 1 <= i < j <= |PHASE_SPECS|
    ensures StableId(p, "move", [PhaseId(p, graphHash, i)] + ids)
         != StableId(p, "move", [PhaseId(p, graphHash, j)] + ids)
  {
    var a := StableId(p, "move", [PhaseId(p, graphHash, i)] + ids);
    var b := StableId(p, "move", [PhaseId(p, graphHash, j)] + ids);
    PhaseIdsDiffer(p, graphHash, i, j);
    assert a.parts[0] == PhaseId(p, graphHash, i) && b.parts[0] == PhaseId(p, graphHash, j);
  }

  lemma PartOfSum(s: seq<int>, i: nat)
    requires AtLeastOne(s) && i < |s|
    ensures s[i] <= Sum(s)
  {
    if i > 0 {
      PartOfSum(s[1..], i - 1);
    } else {
      SumAtLeastLength(s[1..]);
    }
  }

  lemma BuiltIdsDiffer(p: Primitives, intent: Intent, graph: Graph, graphHash: Id, minutes: seq<int>, i: nat, j: nat)
    requires i < j < |PHASE_SPECS| == |minutes|
    ensures var phases := Phases(p, intent, graph, graphHash, minutes, |PHASE_SPECS|);
            && |phases[i].moves| == |phases[j].moves| == 1
            && phases[i].phaseId != phases[j].phaseId && phases[i].moves[0].moveId != phases[j].moves[0].moveId
  {
    PhaseIdsDiffer(p, graphHash, i + 1, j + 1);
    MoveIdsDiffer(p, graphHash, i + 1, j + 1, ObjectiveIds(graph.body.objectives));
  }

  ghost predicate CoversObjectives(move: Move, ids: seq<Id>) {
    && move.objectiveIds == ids && |move.evidence| == |ids|
    && forall k :: 0 <= k < |ids| ==> move.evidence[k].objectiveIds == [ids[k]]
  }

  ghost predicate PhaseShape(phase: Phase, order: int, minutes: int, ids: seq<Id>, kcIds: seq<Id>) {
    && phase.order == order && phase.minutes == minutes && 1 <= phase.loadUnits <= 10
    && |phase.moves| == 1 && CoversObjectives(phase.moves[0], ids)
    && phase.moves[0].kcIds == kcIds && phase.moves[0].surfaces != []
  }

  ghost predicate Shaped(phases: seq<Phase>, minutes: seq<int>, ids: seq<Id>, kcIds: seq<Id>) {
    && |phases| == |minutes|
    && forall i {:trigger phases[i]} :: 0 <= i < |phases| ==> PhaseShape(phases[i], i + 1, minutes[i], ids, kcIds)
  }

  ghost predicate DifferentIds(phases: seq<Phase>) {
    forall i, j :: 0 <= i < j < |phases| ==>
      && |phases[i].moves| == |phases[j].moves| == 1
      && phases[i].phaseId != phases[j].phaseId && phases[i].moves[0].moveId != phases[j].moves[0].moveId
  }

  lemma ShapedPhases(phases: seq<Phase>, minutes: seq<int>, ids: seq<Id>, kcIds: seq<Id>)
    requires Shaped(phases, minutes, ids, kcIds) && DifferentIds(phases)
    ensures Distinct(PhaseIds(phases)) && Distinct(MoveIds(AllMoves(phases))) && Contiguous(phases)
    ensures Minutes(phases) == minutes && |AllMoves(phases)| == |phases|
    ensures forall move <- AllMoves(phases) :: CoversObjectives(move, ids)
  {
    SingleMoves(phases);
  }

  lemma ShapedFieldsOk(phases: seq<Phase>, minutes: seq<int>, ids: seq<Id>, kcIds: seq<Id>)
    requires Shaped(phases, minutes, ids, kcIds) && ids != [] && kcIds != []
    requires AtLeastOne(minutes) && Sum(minutes) <= 240
    ensures forall phase <- phases :: PhaseFieldsOk(phase)
  {
    forall phase | phase in phases
      ensures PhaseFieldsOk(phase)
    {
      var i :| 0 <= i < |phases| && phases[i] == phase;
      PartOfSum(minutes, i);
    }
  }

  lemma BuiltShapes(p: Primitives, intent: Intent, graph: Graph, graphHash: Id, minutes: seq<int>)
    requires |minutes| == |PHASE_SPECS|
    ensures Shaped(Phases(p, intent, graph, graphHash, minutes, |PHASE_SPECS|), minutes,
                   ObjectiveIds(graph.body.objectives), KcIds(graph.body.objectives))
  {
  }

  lemma BuiltPhases(p: Primitives, intent: Intent, graph: Graph, graphHash: Id, minutes: seq<int>)
    returns (phases: seq<Phase>)
    requires |minutes| == |PHASE_SPECS|
    ensures phases == Phases(p, intent, graph, graphHash, minutes, |PHASE_SPECS|)
    ensures DifferentIds(phases)
    ensures Shaped(phases, minutes, ObjectiveIds(graph.body.objectives), KcIds(graph.body.objectives))
  {
    hide PhaseShape;
    phases := Phases(p, intent, graph, graphHash, minutes, |PHASE_SPECS|);
    BuiltShapes(p, intent, graph, graphHash, minutes);
    forall i, j | 0 <= i < j < |phases|
      ensures |phases[i].moves| == |phases[j].moves| == 1
      ensures phases[i].phaseId != phases[j].phaseId && phases[i].moves[0].moveId != phases[j].moves[0].moveId
    {
      BuiltIdsDiffer(p, intent, graph, graphHash, minutes, i, j);
    }
  }

  lemma EveryObjectiveEvidenced(phases: seq<Phase>, ids: seq<Id>)
    requires AllMoves(phases) != [] && ids != []
    requires forall move <- AllMoves(phases) :: CoversObjectives(move, ids)
    ensures forall id :: Taught(phases, id) <==> id in ids
    ensures forall id :: Taught(phases, id) ==> Evidenced(phases, id)
  {
    var move := AllMoves(phases)[0];
    assert move in AllMoves(phases);
    forall id | id in ids
      ensures Taught(phases, id) && Evidenced(phases, id)
    {
      var k :| 0 <= k < |ids| && ids[k] == id;
      var e := move.evidence[k];
      assert e in move.evidence && id in e.objectiveIds;
    }
  }

  /**
   For every intent and every accepted objective graph the built program is accepted exactly when its version is a
   positive number.
   */
  lemma BuiltProgramIsAccepted(p: Primitives, intent: Intent, graph: Graph, graphHash: Id, methodology: string,
                               version: int)
    requires FirstDefect(graph) == None && 10 <= intent.duration <= 240
    ensures Accepted(BuildProgram(p, intent, graph, graphHash, methodology, version)) <==> version >= 1
  {
    if version >= 1 {
      PhaseMinutes(intent.duration);
      AcceptedWithMinutes(p, intent, graph, graphHash, methodology, version,
                          Allocation(intent.duration, PHASE_WEIGHTS));
    }
  }

  lemma AcceptedWithMinutes(p: Primitives, intent: Intent, graph: Graph, graphHash: Id, methodology: string,
                            version: int, minutes: seq<int>)
    requires FirstDefect(graph) == None && 10 <= intent.duration <= 240 && version >= 1
    requires |minutes| == |PHASE_SPECS| && AtLeastOne(minutes) && Sum(minutes) == intent.duration
    ensures Accepted(ProgramFrom(p, intent, graph, graphHash, methodology, version,
                                 Phases(p, intent, graph, graphHash, minutes, |PHASE_SPECS|)))
  {
    var ids := ObjectiveIds(graph.body.objectives);
    var phases := Phases(p, intent, graph, graphHash, minutes, |PHASE_SPECS|);
    phases := BuiltPhases(p, intent, graph, graphHash, minutes);
    KcIdsExist(graph.body.objectives);
    ShapedPhases(phases, minutes, ids, KcIds(graph.body.objectives));
    ShapedFieldsOk(phases, minutes, ids, KcIds(graph.body.objectives));
    EveryObjectiveEvidenced(phases, ids);
    var id := ids[0];
    assert Taught(phases, id);
  }

  /** The transitions lead through all six phases once, in order, and end at the last; the minutes are all given out. */
  lemma BuiltTransitionsVisitAllPhases(p: Primitives, intent: Intent, graph: Graph, graphHash: Id,
                                       methodology: string, version: int)
    requires intent.duration >= 10
    ensures var phases := BuildProgram(p, intent, graph, graphHash, methodology, version).body.phases;
            && |phases| == 6 && Distinct(PhaseIds(phases)) && Sum(Minutes(phases)) == intent.duration
            && WithinQuota(Minutes(phases), intent.duration, PHASE_WEIGHTS)
            && (forall i :: 0 <= i < 5 ==>
                  phases[i].transition.Some? && phases[i].transition.value.nextPhaseId == phases[i + 1].phaseId)
            && phases[5].transition == None
  {
    var minutes := Allocation(intent.duration, PHASE_WEIGHTS);
    PhaseMinutes(intent.duration);
    var phases := BuiltPhases(p, intent, graph, graphHash, minutes);
    ShapedPhases(phases, minutes, ObjectiveIds(graph.body.objectives), KcIds(graph.body.objectives));
  }

  // ---- a built program as an optimizer candidate

  function EvidenceCount(moves: seq<Move>): nat {
    if moves == [] then 0 else EvidenceCount(moves[..|moves| - 1]) + |moves[|moves| - 1].evidence|
  }

  function UnitRatio(part: nat, whole: nat): real {
    var ratio := part as real / (if whole == 0 then 1 else whole) as real;
    if ratio > 1.0 then 1.0 else ratio
  }

  /** `candidate_from_program`; `render` writes an id as the string the optimizer orders candidates by. */
  function CandidateFrom(p: Primitives, render: Id -> string, program: Program, programHash: Id,
                         variant: string): Optimizer.Candidate
  {
    var phases := program.body.phases;
    var moves := AllMoves(phases);
    Optimizer.Candidate(
      render(StableId(p, "candidate", [programHash, Text(variant)])),
      [Optimizer.ConstraintResult("hard:duration", Sum(Minutes(phases)) <= program.body.totalDuration),
       Optimizer.ConstraintResult("hard:evidence", EvidenceCount(moves) >= |MoveObjectives(moves)|),
       Optimizer.ConstraintResult("hard:answer-separation", "answer_separation" in program.body.hardInvariants)],
      [Optimizer.Metric("coverage", UnitRatio(|MoveObjectives(moves)|, |MoveObjectives(moves)|)),
       Optimizer.Metric("evidence_density", UnitRatio(EvidenceCount(moves), |moves|)),
       Optimizer.Metric("sequencing",
                        if forall i :: 0 <= i < |phases| ==> phases[i].order == i + 1 then 1.0 else 0.0)],
      |moves|)
  }

  lemma {:induction false} UniformEvidence(moves: seq<Move>, evidence: nat)
    requires forall move <- moves :: |move.evidence| == evidence
    ensures EvidenceCount(moves) == |moves| * evidence
  {
    if moves != [] {
      var n := |moves| - 1;
      assert moves[n] in moves;
      UniformEvidence(moves[..n], evidence);
      assert (n + 1) * evidence == n * evidence + evidence;
    }
  }

  lemma EvidenceOfUniformMoves(moves: seq<Move>, ids: seq<Id>)
    requires forall move <- moves :: move.objectiveIds == ids && |move.evidence| == |ids|
    ensures EvidenceCount(moves) == |moves| * |ids|
    ensures |MoveObjectives(moves)| <= |ids|
  {
    UniformEvidence(moves, |ids|);
    assert MoveObjectives(moves) <= Elements(ids);
    SubsetIsSmaller(MoveObjectives(moves), Elements(ids));
    RepeatsMeans(ids);
  }

  /**
   The candidate made from a built program meets all hard constraints, so the optimizer, given nothing else,
   selects it exactly when the policy affords its six moves.
   */
  lemma BuiltProgramIsSelected(p: Primitives, render: Id -> string, intent: Intent, graph: Graph, graphHash: Id,
                               methodology: string, version: int, programHash: Id, variant: string,
                               policy: Optimizer.Policy)
    requires FirstDefect(graph) == None && 10 <= intent.duration <= 240 && version >= 1 && policy.Valid()
    ensures var candidate := CandidateFrom(p, render, BuildProgram(p, intent, graph, graphHash, methodology, version),
                                           programHash, variant);
            && candidate.Feasible()
            && Optimizer.OptimizePrograms([candidate], policy).selected
               == (if policy.maxCost >= 6 then Some(candidate.id) else None)
  {
    var program := BuildProgram(p, intent, graph, graphHash, methodology, version);
    BuiltCandidateIsFeasible(p, render, intent, graph, graphHash, methodology, version, programHash, variant);
    SingletonIsSelected(CandidateFrom(p, render, program, programHash, variant), policy);
  }

  lemma BuiltCandidateIsFeasible(p: Primitives, render: Id -> string, intent: Intent, graph: Graph, graphHash: Id,
                                 methodology: string, version: int, programHash: Id, variant: string)
    requires intent.duration >= 10
    ensures var program := BuildProgram(p, intent, graph, graphHash, methodology, version);
            var candidate := CandidateFrom(p, render, program, programHash, variant);
            candidate.Feasible() && candidate.cost == 6
  {
    var minutes := Allocation(intent.duration, PHASE_WEIGHTS);
    PhaseMinutes(intent.duration);
    var phases := BuiltPhases(p, intent, graph, graphHash, minutes);
    ShapedPhases(phases, minutes, ObjectiveIds(graph.body.objectives), KcIds(graph.body.objectives));
    CoveringCandidateIsFeasible(p, render, ProgramFrom(p, intent, graph, graphHash, methodology, version, phases),
                                programHash, variant, phases, ObjectiveIds(graph.body.objectives));
  }

  lemma CoveringCandidateIsFeasible(p: Primitives, render: Id -> string, program: Program, programHash: Id,
                                    variant: string, phases: seq<Phase>, ids: seq<Id>)
    requires program.body.phases == phases && |AllMoves(phases)| == 6
    requires forall move <- AllMoves(phases) :: CoversObjectives(move, ids)
    requires Sum(Minutes(phases)) <= program.body.totalDuration
    requires "answer_separation" in program.body.hardInvariants
    ensures CandidateFrom(p, render, program, programHash, variant).Feasible()
    ensures CandidateFrom(p, render, program, programHash, variant).cost == 6
  {
    EvidenceOfUniformMoves(AllMoves(phases), ids);
  }

  lemma SingletonIsSelected(c: Optimizer.Candidate, policy: Optimizer.Policy)
    requires c.Feasible() && policy.Valid()
    ensures Optimizer.OptimizePrograms([c], policy).selected == if c.cost <= policy.maxCost then Some(c.id) else None
  {
    assert [c][1..] == [];
    assert SortBy(Optimizer.ById(), [c]) == [c];
    Optimizer.FeasibleIsSelected([c], policy);
    if c.cost <= policy.maxCost {
      var feasible := Optimizer.FeasibleOnes([c], policy);
      assert Filter((x: Optimizer.Candidate) => x.cost <= policy.maxCost, [c]) == [c];
      assert Filter((x: Optimizer.Candidate) => x.Feasible(), [c]) == [c];
      assert feasible == [c];
      FilterMembers(x => !Optimizer.BeatenByAnother(feasible, x), feasible);
    } else {
      assert Filter((x: Optimizer.Candidate) => x.cost <= policy.maxCost, [c]) == [];
    }
  }
}
