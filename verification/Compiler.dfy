/** The pedagogical compiler end to end: from a teaching intent to graph, program, selection and IR. */
module Compiler {
  import opened Wrappers
  import opened Ids
  import OG = ObjectiveGraph
  import PI = ProgramIr
  import IR = SemanticIr
  import OP = Optimizer

  /**
   Without pinned nodes every intent of 10 to 240 minutes compiles: its graph, its program and its IR are all
   accepted, and the optimizer, given the program's candidate, selects it exactly when the policy affords six moves.
   */
  lemma UnpinnedIntentCompiles(p: Primitives, render: Id -> string, intent: OG.Intent, snapshot: string, graphHash: Id,
                               methodology: string, programHash: Id, variant: string, policy: OP.Policy,
                               programId: Id, language: string, version: int)
    requires 10 <= intent.duration <= 240 && version >= 1 && policy.Valid()
    ensures var graph := OG.BuildGraph(p, intent, snapshot, []);
            var program := PI.BuildProgram(p, intent, graph, graphHash, methodology, version);
            var candidate := PI.CandidateFrom(p, render, program, programHash, variant);
            var ir := IR.BuildIr(p, programId, programHash, graph, graphHash, language, version);
            && OG.FirstDefect(graph) == None
            && PI.Accepted(program)
            && OP.OptimizePrograms([candidate], policy).selected
               == (if policy.maxCost >= 6 then Some(candidate.id) else None)
            && IR.FirstDefect(ir) == None
  {
    hide OG.BuildGraph, PI.BuildProgram, PI.CandidateFrom, PI.Accepted, OP.OptimizePrograms, IR.BuildIr, IR.FirstDefect;
    var graph := OG.BuildGraph(p, intent, snapshot, []);
    OG.UnpinnedGraphIsAccepted(p, intent, snapshot);
    OG.UnpinnedIdsStayDifferent(p, intent, snapshot);
    PI.BuiltProgramIsAccepted(p, intent, graph, graphHash, methodology, version);
    PI.BuiltProgramIsSelected(p, render, intent, graph, graphHash, methodology, version, programHash, variant, policy);
    IR.BuiltIrDefects(p, programId, programHash, graph, graphHash, language, version);
  }
}
