/** What the built program contains, phase by phase, and what its candidate tells the optimizer. */
module ProgramIrLaws {
  import opened Sequences
  import opened Wrappers
  import opened Ordering
  import opened Ids
  import opened ObjectiveGraph
  import opened Apportionment
  import opened ProgramIr
  import Optimizer
  import OptimizerLaws

  const KINDS := ["activation", "modeling", "guided_practice", "independent_practice", "formative_assessment",
                  "closure"]
  const TITLES := ["Activate prior knowledge", "Model the target thinking", "Guided practice with feedback",
                   "Independent performance", "Check evidence of learning", "Consolidate and transfer"]

  lemma {:induction false} KcIdsExactly(objectives: seq<Objective>, id: Id)
    ensures id in KcIds(objectives) <==> exists o :: o in objectives && id in o.kcIds
  {
    if objectives != [] {
      var init, last := objectives[..|objectives| - 1], objectives[|objectives| - 1];
      KcIdsExactly(init, id);
      assert objectives == init + [last];
      assert last in objectives;
    }
  }

  /** The move works on all objectives, and elicits one piece of evidence for each, in order. */
  ghost predicate WorksOnAll(move: Move, objectives: seq<Objective>) {
    && |move.objectiveIds| == |move.evidence| == |objectives|
    && (forall k :: 0 <= k < |objectives| ==>
          && move.objectiveIds[k] == objectives[k].id && move.evidence[k].objectiveIds == [objectives[k].id]
          && move.evidence[k].evidenceType
             == (if move.kind == "activation" || move.kind == "closure" then "elicitation" else "bounded_performance"))
    && (forall id :: id in move.kcIds <==> exists o :: o in objectives && id in o.kcIds)
  }

  lemma PrerequisiteIdsExactly(p: Primitives, prerequisites: seq<Prerequisite>)
    ensures var ids := SortBy(p.idLe, Dedup(Map((e: Prerequisite) => e.prerequisite, prerequisites)));
            && Distinct(ids) && (TotalPreorder(p.idLe) ==> SortedBy(p.idLe, ids))
            && forall id :: id in ids <==> exists e :: e in prerequisites && e.prerequisite == id
  {
    var sources := Map((e: Prerequisite) => e.prerequisite, prerequisites);
    DedupMembers(sources);
    SortPermutes(p.idLe, Dedup(sources));
    SortKeepsDistinct(p.idLe, Dedup(sources));
    if TotalPreorder(p.idLe) {
      SortSorts(p.idLe, Dedup(sources));
    }
    forall id
      ensures id in sources <==> exists e :: e in prerequisites && e.prerequisite == id
    {
      if e :| e in prerequisites && e.prerequisite == id {
        var i :| 0 <= i < |prerequisites| && prerequisites[i] == e;
        assert sources[i] == id;
      }
      if id in sources {
        var i :| 0 <= i < |sources| && sources[i] == id;
        assert prerequisites[i] in prerequisites;
      }
    }
  }

  /**
   The phases of a built program: kind and title by position, one move each, which works on all objectives and names the
   graph's prerequisites; feedback in guided and independent practice and in assessment; a light load at both ends.
   */
  lemma BuiltPhaseFields(p: Primitives, intent: Intent, graph: Graph, graphHash: Id, methodology: string, version: int,
                         i: nat)
    requires i < 6
    ensures var phases := BuildProgram(p, intent, graph, graphHash, methodology, version).body.phases;
            && |phases| == 6 && |phases[i].moves| == 1
            && phases[i].order == i + 1 && phases[i].title == TITLES[i]
            && phases[i].loadUnits == (if i == 0 || i == 5 then 3 else 6)
            && phases[i].phaseId == Digest("phase", [Normalized(p, graphHash), Number(i + 1),
                                                     Text(p.normalize(KINDS[i]))])
            && var move := phases[i].moves[0];
               && move.kind == KINDS[i] && WorksOnAll(move, graph.body.objectives)
               && (forall id :: id in move.prerequisiteIds
                           <==> exists e :: e in graph.body.prerequisites && e.prerequisite == id)
               && Distinct(move.prerequisiteIds)
               && (TotalPreorder(p.idLe) ==> SortedBy(p.idLe, move.prerequisiteIds))
               && (move.feedback.Some? <==> 2 <= i <= 4)
               && move.surfaces == (if intent.artifactTypes == [] then ["lesson"] else intent.artifactTypes)
  {
    hide WorksOnAll, MakePhase, Allocation;
    AllocationConserves(intent.duration, PHASE_WEIGHTS);
    var minutes := Allocation(intent.duration, PHASE_WEIGHTS);
    assert BuildProgram(p, intent, graph, graphHash, methodology, version).body.phases[i]
        == MakePhase(p, intent, graph, graphHash, i + 1, minutes[i]);
    MadePhaseFields(p, intent, graph, graphHash, i, minutes[i]);
    MadeMoveFields(p, intent, graph, graphHash, i, minutes[i]);
  }

  lemma MadePhaseFields(p: Primitives, intent: Intent, graph: Graph, graphHash: Id, i: nat, minutes: int)
    requires i < 6
    ensures var phase := MakePhase(p, intent, graph, graphHash, i + 1, minutes);
            && |phase.moves| == 1 && phase.order == i + 1 && phase.title == TITLES[i]
            && phase.loadUnits == (if i == 0 || i == 5 then 3 else 6)
            && phase.phaseId == Digest("phase", [Normalized(p, graphHash), Number(i + 1), Text(p.normalize(KINDS[i]))])
            && phase.moves[0].kind == KINDS[i]
            && (phase.moves[0].feedback.Some? <==> 2 <= i <= 4)
            && phase.moves[0].surfaces == (if intent.artifactTypes == [] then ["lesson"] else intent.artifactTypes)
  {
    hide KcIds, SortBy, Dedup, MakeEvidence;
    assert PHASE_SPECS[i] == (KINDS[i], TITLES[i]);
    var phase := MakePhase(p, intent, graph, graphHash, i + 1, minutes);
    assert phase.phaseId.parts == [Normalized(p, graphHash), Number(i + 1), Text(p.normalize(KINDS[i]))];
  }

  lemma MadeMoveFields(p: Primitives, intent: Intent, graph: Graph, graphHash: Id, i: nat, minutes: int)
    requires i < 6
    ensures var move := MakePhase(p, intent, graph, graphHash, i + 1, minutes).moves[0];
            && WorksOnAll(move, graph.body.objectives) && Distinct(move.prerequisiteIds)
            && (TotalPreorder(p.idLe) ==> SortedBy(p.idLe, move.prerequisiteIds))
            && (forall id :: id in move.prerequisiteIds
                        <==> exists e :: e in graph.body.prerequisites && e.prerequisite == id)
  {
    hide KcIds, SortBy, Dedup, StableId;
    PrerequisiteIdsExactly(p, graph.body.prerequisites);
    forall id
      ensures id in KcIds(graph.body.objectives) <==> exists o :: o in graph.body.objectives && id in o.kcIds
    {
      KcIdsExactly(graph.body.objectives, id);
    }
  }

  /** What else the program records. */
  lemma BuiltProgramFields(p: Primitives, intent: Intent, graph: Graph, graphHash: Id, methodology: string,
                           version: int)
    ensures var g := BuildProgram(p, intent, graph, graphHash, methodology, version);
            && g.body.programId == Digest("program", [Normalized(p, intent.intentHash), Normalized(p, graphHash),
                                                      Text(p.normalize(methodology)), Number(version)])
            && g.body.version == version && g.body.intentId == intent.intentId
            && g.body.graphId == graph.body.graphId && g.body.methodology == methodology
            && g.body.totalDuration == intent.duration && g.hashed == g.body
            && |g.body.variantPhaseIds| == |g.body.phases|
            && (forall i :: 0 <= i < |g.body.phases| ==> g.body.variantPhaseIds[i] == g.body.phases[i].phaseId)
            && "answer_separation" in g.body.hardInvariants
  {
    hide MakePhase, Allocation;
    AllocationConserves(intent.duration, PHASE_WEIGHTS);
    var parts := [intent.intentHash, graphHash, Text(methodology), Number(version)];
    assert Map(id => Normalized(p, id), parts)
        == [Normalized(p, intent.intentHash), Normalized(p, graphHash), Text(p.normalize(methodology)),
            Number(version)];
    var phases := BuildProgram(p, intent, graph, graphHash, methodology, version).body.phases;
    assert forall i :: 0 <= i < |phases| ==> PhaseIds(phases)[i] == phases[i].phaseId;
    assert ["objective_lineage", "prerequisite_order", "evidence_coverage", "answer_separation"][3]
        == "answer_separation";
  }

  /** A program's candidate is feasible when it keeps its duration, its evidence and its answer separation. */
  lemma CandidateFeasibleExactly(p: Primitives, render: Id -> string, program: Program, programHash: Id,
                                 variant: string)
    ensures var c := CandidateFrom(p, render, program, programHash, variant);
            var moves := AllMoves(program.body.phases);
            var worked := set move, id | move in moves && id in move.objectiveIds :: id;
            && (c.Feasible()
                <==> Sum(Minutes(program.body.phases)) <= program.body.totalDuration
                     && EvidenceCount(moves) >= |worked| && "answer_separation" in program.body.hardInvariants)
            && c.cost == |moves|
            && Map((r: Optimizer.ConstraintResult) => r.constraintId, c.constraints)
               == ["hard:duration", "hard:evidence", "hard:answer-separation"]
  {
    hide AllMoves, Minutes, Sum, EvidenceCount;
    var c := CandidateFrom(p, render, program, programHash, variant);
    var moves := AllMoves(program.body.phases);
    assert MoveObjectives(moves) == set move, id | move in moves && id in move.objectiveIds :: id;
    assert c.constraints[0] in c.constraints && c.constraints[1] in c.constraints && c.constraints[2] in c.constraints;
  }

  lemma BuiltMetric(c: Optimizer.Candidate, k: nat)
    requires |c.metrics| == 3 && k < 3
    requires forall i, j :: 0 <= i < j < 3 ==> c.metrics[i].name != c.metrics[j].name
    ensures Optimizer.Value(c, c.metrics[k].name) == c.metrics[k].value
  {
    OptimizerLaws.ValueIsLast(c, c.metrics[k].name);
    assert OptimizerLaws.LastOfItsName(c.metrics, k);
  }

  /** The candidate of a built program over an accepted graph scores one in every metric, at the cost of six moves. */
  lemma BuiltCandidateScoresOne(p: Primitives, render: Id -> string, intent: Intent, graph: Graph, graphHash: Id,
                                methodology: string, version: int, programHash: Id, variant: string)
    requires FirstDefect(graph) == None && intent.duration >= 10
    ensures var program := BuildProgram(p, intent, graph, graphHash, methodology, version);
            var c := CandidateFrom(p, render, program, programHash, variant);
            && Optimizer.Value(c, "coverage") == 1.0 && Optimizer.Value(c, "evidence_density") == 1.0
            && Optimizer.Value(c, "sequencing") == 1.0 && c.cost == 6
            && c.id == render(Digest("candidate", [Normalized(p, programHash), Text(p.normalize(variant))]))
  {
    hide SortBy, Dedup, KcIds, MakePhase, WithinQuota, CandidateFrom, CoversObjectives, Optimizer.Value;
    var minutes := Allocation(intent.duration, PHASE_WEIGHTS);
    PhaseMinutes(intent.duration);
    var ids := ObjectiveIds(graph.body.objectives);
    var phases := BuiltPhases(p, intent, graph, graphHash, minutes);
    ShapedPhases(phases, minutes, ids, KcIds(graph.body.objectives));
    var program := ProgramFrom(p, intent, graph, graphHash, methodology, version, phases);
    CoveringCandidateScoresOne(p, render, program, programHash, variant, ids);
  }

  /** What the metrics of any program's candidate measure. */
  lemma CandidateMetricsExactly(p: Primitives, render: Id -> string, program: Program, programHash: Id,
                                variant: string)
    ensures var c := CandidateFrom(p, render, program, programHash, variant);
            var phases, moves := program.body.phases, AllMoves(program.body.phases);
            var evidence, n := EvidenceCount(moves), |moves|;
            && (MoveObjectives(moves) != {} ==> Optimizer.Value(c, "coverage") == 1.0)
            && (MoveObjectives(moves) == {} ==> Optimizer.Value(c, "coverage") == 0.0)
            && (evidence >= n > 0 ==> Optimizer.Value(c, "evidence_density") == 1.0)
            && (evidence <= n ==> Optimizer.Value(c, "evidence_density") * n as real == evidence as real)
            && ((forall i :: 0 <= i < |phases| ==> phases[i].order == i + 1) ==>
                  Optimizer.Value(c, "sequencing") == 1.0)
            && (!(forall i :: 0 <= i < |phases| ==> phases[i].order == i + 1) ==>
                  Optimizer.Value(c, "sequencing") == 0.0)
  {
    hide AllMoves, Minutes, EvidenceCount, MoveObjectives, Optimizer.Value;
    var c, moves := CandidateFrom(p, render, program, programHash, variant), AllMoves(program.body.phases);
    assert "coverage"[0] == 'c' && "evidence_density"[0] == 'e' && "sequencing"[0] == 's';
    BuiltMetric(c, 0);
    BuiltMetric(c, 1);
    BuiltMetric(c, 2);
    var worked := |MoveObjectives(moves)|;
    RatioExactly(worked, worked);
    RatioExactly(EvidenceCount(moves), |moves|);
  }

  lemma RatioExactly(part: nat, whole: nat)
    ensures part >= whole > 0 ==> UnitRatio(part, whole) == 1.0
    ensures part <= whole ==> UnitRatio(part, whole) * whole as real == part as real
    ensures part == 0 ==> UnitRatio(part, whole) == 0.0
  {
    if part >= whole > 0 {
      RatioIsOne(part, whole);
    } else if whole > 0 {
      var ratio, w := part as real / whole as real, whole as real;
      assert ratio * w == part as real;
      assert (1.0 - ratio) * w == w - part as real >= 0.0;
      assert ratio <= 1.0;
    }
  }

  lemma CoveringCandidateScoresOne(p: Primitives, render: Id -> string, program: Program, programHash: Id,
                                   variant: string, ids: seq<Id>)
    requires ids != [] && |AllMoves(program.body.phases)| == 6 && Contiguous(program.body.phases)
    requires forall move <- AllMoves(program.body.phases) :: CoversObjectives(move, ids)
    ensures var c := CandidateFrom(p, render, program, programHash, variant);
            && Optimizer.Value(c, "coverage") == 1.0 && Optimizer.Value(c, "evidence_density") == 1.0
            && Optimizer.Value(c, "sequencing") == 1.0 && c.cost == 6
            && c.id == render(Digest("candidate", [Normalized(p, programHash), Text(p.normalize(variant))]))
  {
    hide AllMoves, Minutes, Optimizer.Value;
    var c, moves := CandidateFrom(p, render, program, programHash, variant), AllMoves(program.body.phases);
    EvidenceOfUniformMoves(moves, ids);
    assert moves[0] in moves && ids[0] in moves[0].objectiveIds;
    assert ids[0] in MoveObjectives(moves);
    RatioIsOne(|MoveObjectives(moves)|, |MoveObjectives(moves)|);
    RatioIsOne(EvidenceCount(moves), 6);
    assert "coverage"[0] == 'c' && "evidence_density"[0] == 'e' && "sequencing"[0] == 's';
    BuiltMetric(c, 0);
    BuiltMetric(c, 1);
    BuiltMetric(c, 2);
    var parts := [programHash, Text(variant)];
    assert Map(id => Normalized(p, id), parts) == [Normalized(p, programHash), Text(p.normalize(variant))];
  }

  lemma RatioIsOne(part: nat, whole: nat)
    requires part >= whole > 0
    ensures UnitRatio(part, whole) == 1.0
  {
    var w, extra := whole as real, (part - whole) as real;
    assert part as real / w == w / w + extra / w && w / w == 1.0 && extra / w >= 0.0;
  }
}
