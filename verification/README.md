# Verified model of the pedagogical compiler and its surrounding contracts

This project models the deterministic core of a lesson-authoring platform and proves what it promises:

- the *pedagogical compiler* whose modules are carried as text by `continue_epic_460_compiler_waves.py`: the objective
  graph, the program IR and the minute allocation behind it, the Pareto optimizer over programs, the Semantic Content
  IR with scoped repair, the cached tool runtime, the aggregation of effectiveness events, and the script's own
  apply/rollback over the files of a checkout;
- the issue dispatcher `scripts/create_program_super_epic.py`, as a scheduler over a blocker graph;
- answer separation: the projection of assessment content to student documents and back, the teacher-only answer set
  and the answer key;
- the component strategy selector with its fallback graph, the artifact dependency plan, and the provider circuit
  breaker.

Every file holds one module. `Sequences`, `Digraph`, `EdgeLists`, `Ordering`, `Json`, `Ids` and `Wrappers` are the
shared ground (finite graphs and acyclicity, stable sorting, JSON values, collision-free identifiers); the other modules
follow the program's components; those whose names end in `Laws` say what specification functions mean in terms of plain
fields. Code that updates state in place is modelled by classes and methods with loops
(`ColouringDetector.Colouring`, `ToolRuntime.Runtime`, `Rollback.Checkout`, `CircuitBreaker.ProviderCircuitBreaker`, the
builders, worklists and aggregations), each proved against a specification function whose laws are lemmas. Run
`dafny verify dfyconfig.toml` to check all of it.

Reading conventions: hashes and generated ids are free constructors over their inputs, so they never collide; text
normalization is an arbitrary function; float weights and metrics are exact reals; JSON objects keep their keys in
order; files are a map from path to content and mode; time is a real number passed to each operation; a Python
exception is an error result, or no result where only its occurrence matters. Iteration over a Python `set` takes any
order, so what is proved holds for the sorted order the code uses.

## What the code does not quite promise

Places where a natural reading of the code or its documentation is false. Each has its exact condition and a concrete
input for which it fails.

- `optimize_programs`: the winner is best by merit among all feasible candidates exactly when no metric outside the
  priority list has a negative weight, or the policy considers one candidate only (`WinnerIsBestExactly`; input:
  `PenalizedMetricHidesBest`).
- `_allocate_minutes`: with weights adding up to one, the shares are rounded proportions exactly when the initial shares
  fit the total, or there are fewer minutes than phases, at least one, and no proportion reaches two (`QuotaExactly`;
  input: `SmallPhasesBreakQuota`). The six phase weights always fit (`PhasesNeverShrink`).
- `build_semantic_ir` rejects a valid objective graph exactly when two of its ids differ only in what normalization
  removes (`BuiltIrDefects`, `CollidingIdsAreRejected`; input: `CaseOnlyDifferenceIsRejected`).
- The tool cache answers a request whose smaller output budget the handler's answer would exceed
  (`CacheIsTransparentExactly`; input: `SmallerBudgetExposesCache`).
- The projection strips seven teacher-only keys and the leak check looks for eight (`StrippedLeaksExactly`; input:
  `RubricSolutionLeaks`).
- Option ids that equal a stripped key vanish from student documents (`AssessmentRoundTripsExactly` and
  `IntegritySurvivesProjectionExactly`; inputs: `AnswerOptionIsLost` and `TrapAnswerIsLost`).
- `DependencyPlan` accepts a type listed in two waves, and then its first wave may start it too early
  (`WavesRespectDependenciesExactly`; input: `ListedTwiceSlipsThrough`).
- A breaker can be closed with failures at or above its threshold exactly when the threshold is below one; the empty
  history is the input (`ClosedBelowThresholdExactly`).
- A breaker whose store expires entries promptly is never half-open exactly when entries live no longer than the recovery
  timeout (`NeverHalfOpenExactly`; input where they live longer: `LongTimeToLiveHalfOpens`). With the Redis store, which
  rounds the timeout down to whole seconds but at least one, that means a timeout of a second or more
  (`RedisNeverHalfOpenExactly`).
- A fallback is a single hop: a binding ends on a component the teacher rejected exactly when its policy leads to one
  (`FallbackLandsExactly`; input: `FallbackLandsOnRejected`).
- After a failed run and its rollback the whole checkout is as before exactly when the run failed while applying, or
  verification commands changed touched paths only and no patch or torn file is new (`FullRestorationExactly`, over the
  state `RunScript` promises; input: `PatchStaysBehind`).

## Model

| member | source | states |
|---|---|---|
| KahnDetector.KahnAcyclic | continue_epic_460_compiler_waves.py:1499-1518 | the Kahn detector accepts exactly the acyclic relations over a closed node set; duplicate edges and self-loops included |
| ColouringDetector.Colouring.Visit | continue_epic_460_compiler_waves.py:2307-2327 | the recursive visit finishes a node with the stack as before, or has found a genuine cycle; its three-way colouring invariant holds throughout |
| ColouringDetector.ColouringAcyclic | continue_epic_460_compiler_waves.py:2307-2327 | the colouring detector accepts exactly the acyclic relations, hence always agrees with the Kahn detector |
| Worklists.PrerequisiteClosure | continue_epic_460_compiler_waves.py:1325-1340 | the closure is exactly the set of proper ancestors along one or more edges; an unknown objective is a KeyError |
| Worklists.ClosureExcludesSelf | continue_epic_460_compiler_waves.py:1311-1340 | in an acyclic graph no objective is among its own prerequisites |
| Worklists.ClosureIsTransitive | continue_epic_460_compiler_waves.py:1325-1340 | prerequisites of a prerequisite are prerequisites |
| Worklists.ImpactSet | continue_epic_460_compiler_waves.py:2190-2203 | the worklist returns the changed ids and everything reachable from them |
| Worklists.ImpactIsLeast | continue_epic_460_compiler_waves.py:2190-2203 | the impact is the least superset of the changed ids closed under source-to-target edges |
| Worklists.ImpactIsMonotone | continue_epic_460_compiler_waves.py:2190-2203 | more changed ids impact no less |
| Worklists.ImpactIsIdempotent | continue_epic_460_compiler_waves.py:2190-2203 | the impact of an impact is the impact |
| Worklists.ImpactDistributes | continue_epic_460_compiler_waves.py:2190-2203 | the impact of a union is the union of the impacts |
| Optimizer.DominanceIsStrictOrder | continue_epic_460_compiler_waves.py:1706-1714 | Pareto dominance is irreflexive and transitive, even with metrics missing on either side |
| Optimizer.FrontierCovers | continue_epic_460_compiler_waves.py:1634-1637 | every feasible candidate is on the frontier or dominated by a member of it |
| Optimizer.FeasibleIsSelected | continue_epic_460_compiler_waves.py:1601-1653 | something is selected exactly when a bounded candidate is feasible, and it outranks the whole frontier by prioritized metrics, weighted sum, cost and id |
| Optimizer.DecisionListsFrontier | continue_epic_460_compiler_waves.py:1634-1653 | a decision lists the frontier's ids and, as alternatives, the next ones in rank: by prioritized metrics, weighted sum, rising cost, falling id |
| Optimizer.RanksAboveExactly | continue_epic_460_compiler_waves.py:1717-1723 | one candidate ranks above another exactly when it is greater in the first prioritized metric that differs, or has the greater weighted sum, or the lower cost, or the greater id, in this order |
| Optimizer.WinnerBreaksTies | continue_epic_460_compiler_waves.py:1638-1640 | of all frontier members as good as the winner none is cheaper, and none as cheap has a greater id |
| Optimizer.EqualMeritGoesByCost | continue_epic_460_compiler_waves.py:1638-1640 | winner and alternatives of equal merit are listed by rising cost, then by falling id |
| OptimizerLaws.BoundedExactly | continue_epic_460_compiler_waves.py:1605-1607 | with distinct ids a candidate is considered exactly when it is cheap enough and fewer than the policy's number of candidates have smaller ids |
| OptimizerLaws.FrontierExactly | continue_epic_460_compiler_waves.py:1634-1637 | a feasible candidate is on the frontier exactly when no other one is nowhere lower and somewhere higher over all metric names |
| OptimizerLaws.ValueIsLast | continue_epic_460_compiler_waves.py:1702-1703 | a repeated metric counts with its last value, a missing one with zero |
| OptimizerLaws.WeightedAdds | continue_epic_460_compiler_waves.py:1717-1723 | the weighted sum adds up value times weight |
| Optimizer.InfeasibilityIsExplained | continue_epic_460_compiler_waves.py:1610-1632 | without a feasible candidate the decision names exactly the constraints that fail, sorted and once each |
| Optimizer.PenalizedMetricHidesBest | continue_epic_460_compiler_waves.py:1601-1653 | two candidates for which a negative weight makes the winner worse than a dominated one |
| Optimizer.WinnerIsBestExactly | continue_epic_460_compiler_waves.py:1601-1653 | for every input the winner has the greatest (lexicographic tuple, weighted sum) of all feasible candidates, exactly when no unprioritized metric has a negative weight or the policy considers one candidate only |
| Optimizer.DecisionIgnoresInputOrder | continue_epic_460_compiler_waves.py:1601-1653 | with distinct candidate ids the whole decision is the same for every order of the input |
| Apportionment.AllocateMinutes | continue_epic_460_compiler_waves.py:1996-2009 | both loops terminate and compute the specified allocation |
| Apportionment.AllocationConserves | continue_epic_460_compiler_waves.py:1996-2009 | for positive weights every share is at least one and the shares add up to the total, or are all one when there are fewer minutes than phases |
| ApportionmentLaws.AllocationByNeed | continue_epic_460_compiler_waves.py:1996-2009 | minutes are taken from the largest share and given to the one smallest in proportion to its weight, the first among equals: no other share exceeds a reduced one by more than that, none stays needier than an increased one was |
| Apportionment.QuotaExactly | continue_epic_460_compiler_waves.py:1996-2009 | with weights adding up to one, each share is its exact proportion rounded down or up exactly when the initial shares fit the total, or there are fewer minutes than phases, at least one, and no proportion reaches two |
| Apportionment.SmallPhasesBreakQuota | continue_epic_460_compiler_waves.py:1996-2009 | ten minutes over weights 0.9 and four times 0.025 come out as 6, 1, 1, 1, 1, though the proportion of the first is nine |
| Apportionment.PhasesNeverShrink | continue_epic_460_compiler_waves.py:1892-1901 | for the six phase weights the initial shares fit every duration of ten minutes or more, so the shrink loop never starts |
| ApportionmentLaws.HundredMinutes | continue_epic_460_compiler_waves.py:1892-1901 | a hundred minutes come out as 12, 22, 24, 20, 14, 8 |
| Apportionment.PhaseMinutes | continue_epic_460_compiler_waves.py:1892-1901 | the six phases' minutes add up to the lesson's and each is its proportion rounded down or up |
| ObjectiveGraph.ValidateGraph | continue_epic_460_compiler_waves.py:1300-1323 | the validator raises the first of: duplicate ids, dangling edge, cycle, claims not matching objectives, hash mismatch |
| ObjectiveGraph.BuildObjectiveGraph | continue_epic_460_compiler_waves.py:1343-1480 | the append loops build the specified graph, whose objectives and edges the rows below characterize, and validation reports its first defect |
| ObjectiveGraph.BuiltGraphDefects | continue_epic_460_compiler_waves.py:1343-1480 | a built graph is rejected exactly for two objectives with one id or a prerequisite cycle, never for a dangling edge, a missing claim or its hash |
| ObjectiveGraphLaws.BuiltPrerequisitesExactly | continue_epic_460_compiler_waves.py:1443-1459 | one objective is a prerequisite of another exactly when a node's description belongs to the other and one of its prerequisite descriptions to the one; a description belongs to the last objective with the same normalized one |
| ObjectiveGraphLaws.BuiltPrerequisitesSorted | continue_epic_460_compiler_waves.py:1461-1478 | prerequisites are sorted by target, then by prerequisite |
| ObjectiveGraphLaws.BuiltRejectionsExactly | continue_epic_460_compiler_waves.py:1443-1459 | rejected are exactly the prerequisite descriptions of indexed nodes that no objective has |
| ObjectiveGraphLaws.NamedPrerequisiteIsInClosure | continue_epic_460_compiler_waves.py:1325-1340 | a prerequisite a node names is in the prerequisite closure of the node's objective |
| ObjectiveGraphLaws.ObjectiveAt | continue_epic_460_compiler_waves.py:1361-1366 | each atomic part of each request becomes one objective, in order |
| ObjectiveGraphLaws.ObjectiveFields | continue_epic_460_compiler_waves.py:1361-1410 | an objective takes id, components and evidence from the matching pinned node with the least id and is certified when that is reviewed; without one it has a generated id and is generic |
| ObjectiveGraph.UnpinnedGraphIsAccepted | continue_epic_460_compiler_waves.py:1343-1480 | without pinned nodes every intent gives an accepted graph |
| ProgramIr.BuildProgramIr | continue_epic_460_compiler_waves.py:1882-1993 | the append loops build the specified program |
| ProgramIr.ValidateProgram | continue_epic_460_compiler_waves.py:1842-1871 | the validator's set loops accept exactly distinct ids, contiguous order, kept duration, evidence for everything taught, and the right hash |
| ProgramIrLaws.BuiltPhaseFields | continue_epic_460_compiler_waves.py:1888-1950 | phase by phase: kind, title, one move that works on all objectives with evidence for each and names the graph's prerequisites; feedback exactly in guided and independent practice and assessment; a light load exactly at both ends |
| ProgramIr.BuiltProgramIsAccepted | continue_epic_460_compiler_waves.py:1842-1871 | over any accepted objective graph and any duration of 10 to 240 minutes the built program passes its validator exactly when its version is at least one |
| ProgramIr.BuiltTransitionsVisitAllPhases | continue_epic_460_compiler_waves.py:1882-1993 | the transitions lead through all six phases once and in order, and the minutes are all given out |
| ProgramIr.BuiltProgramIsSelected | continue_epic_460_compiler_waves.py:1656-1699 | the candidate of a built program meets all hard constraints, and alone is selected exactly when the policy affords its six moves |
| ProgramIrLaws.BuiltCandidateScoresOne | continue_epic_460_compiler_waves.py:1656-1699 | the candidate of a built program over an accepted graph scores one in every metric |
| ProgramIrLaws.CandidateFeasibleExactly | continue_epic_460_compiler_waves.py:1656-1699 | a program's candidate is feasible exactly when the program keeps its duration, has enough evidence and declares answer separation |
| ProgramIrLaws.CandidateMetricsExactly | continue_epic_460_compiler_waves.py:1683-1697 | coverage is one with objectives, evidence density the evidence for each move up to one, sequencing one exactly when the order is contiguous |
| SemanticIr.ValidateIr | continue_epic_460_compiler_waves.py:2155-2182 | the validator raises the first of: duplicate ids, dangling dependency, cycle, missing evidence or leaked answer, hash mismatch |
| SemanticIr.BuildSemanticIr | continue_epic_460_compiler_waves.py:2206-2304 | the loops expand every objective into its six entities and five dependencies |
| SemanticIrLaws.BuiltEntityFields | continue_epic_460_compiler_waves.py:2213-2278 | each objective's six entities, with kind, audience, authority, lineage and id |
| SemanticIrLaws.BuiltDependenciesExactly | continue_epic_460_compiler_waves.py:2279-2290 | the dependencies are exactly these: the claim supports example and task, is summarized and visualized, and the task is answered |
| SemanticIrLaws.BuiltDependenciesSorted | continue_epic_460_compiler_waves.py:2292-2304 | dependencies are sorted by source, then target, then relation |
| SemanticIrLaws.DeclaredDependenciesExactly | continue_epic_460_compiler_waves.py:2206-2287 | the ids an entity declares as its dependencies are exactly those from which the dependency edges lead to it |
| SemanticIr.BuiltIrDefects | continue_epic_460_compiler_waves.py:2206-2304 | the built IR of any objectives is closed, acyclic and answer-separated; it is rejected only for its version, for want of an objective, or for duplicate ids, and that exactly when objective ids collide after normalization |
| SemanticIr.CollidingIdsAreRejected | continue_epic_460_compiler_waves.py:2206-2304 | every accepted graph with two ids that normalize alike gives an IR rejected for duplicate ids |
| SemanticIr.CaseOnlyDifferenceIsRejected | continue_epic_460_compiler_waves.py:873-883 | a concrete accepted graph of that kind, with two ids that differ in letter case |
| Compiler.UnpinnedIntentCompiles | continue_epic_460_compiler_waves.py:1343-2304 | without pinned nodes every intent of 10 to 240 minutes yields an accepted graph, an accepted and selectable program and an accepted IR |
| SemanticIr.ClaimImpactsItsObjective | continue_epic_460_compiler_waves.py:2190-2304 | changing an objective's claim impacts exactly that objective's six entities |
| SemanticIr.ImpactExactly | continue_epic_460_compiler_waves.py:2190-2304 | the impact of any set of changed ids on a built IR is that set, the blocks of changed claims and the answers of changed tasks, and nothing else |
| ScopedRepair.ScopedRepairStep | continue_epic_460_compiler_waves.py:2503-2543 | one repair, with its guards, whole-IR validation and receipt loop, computes the specified result or error |
| ScopedRepair.RepairSucceedsExactly | continue_epic_460_compiler_waves.py:2503-2543 | on a valid IR a repair succeeds exactly when the id and lineage guards pass and the replacement alone passes the entity-local checks |
| ScopedRepair.RepairAllowedExactly | continue_epic_460_compiler_waves.py:2510-2525 | on a valid IR a repair succeeds exactly when the IR has an entity with the id, objectives and components of the replacement, which has evidence where it claims and keeps answers to teachers |
| ScopedRepair.RepairsPreserve | continue_epic_460_compiler_waves.py:2503-2543 | after any number of successful repairs the IR is valid, its version has grown by that number, ids, order, lineage and dependencies are as before, and each entity is its last replacement |
| ScopedRepair.UnnamedIsCurrent | continue_epic_460_compiler_waves.py:2503-2543 | an entity no repair names is unchanged |
| ScopedRepair.RepairsAreLogged | continue_epic_460_compiler_waves.py:2526-2543 | each receipt gains one plan for every repair of one of its candidates, in order, and changes in nothing else |
| ScopedRepair.RepairPlanExactly | continue_epic_460_compiler_waves.py:2526-2541 | a receipt that selected a candidate for the entity gains one plan with the failure codes and, once each, the ids of all other entities; other receipts stay |
| ToolRuntime.Runtime.RegisterTool | continue_epic_460_compiler_waves.py:2655-2660 | registering adds a tool, or fails and changes nothing when the id is taken |
| ToolRuntime.Runtime.ExecuteRequest | continue_epic_460_compiler_waves.py:2662-2702 | one execution computes the specified response and new dictionaries |
| ToolRuntime.RunsAreConsistent | continue_epic_460_compiler_waves.py:2655-2702 | after every run of calls each cache entry is a verified result of a registered deterministic tool whose receipt matches its key |
| ToolRuntime.RunsOnlyExtend | continue_epic_460_compiler_waves.py:2655-2702 | tools and cache entries, once there, never change |
| ToolRuntime.CacheIsTransparentExactly | continue_epic_460_compiler_waves.py:2662-2702 | with pure deterministic tools the answer equals the uncached one exactly unless a cached output exceeds the request's budget |
| ToolRuntime.SmallerBudgetExposesCache | continue_epic_460_compiler_waves.py:2662-2702 | after a concrete run a request with a budget of 128 bytes gets an object of 200 characters from the cache, where without the cache it gets an error |
| ToolRuntime.ReceiptsMatchRequests | continue_epic_460_compiler_waves.py:2724-2738 | whatever ran before, a receipt names the tenant, tool, policy and input of the request it answers |
| ToolRuntime.AnswerExactly | continue_epic_460_compiler_waves.py:2662-2702 | away from the cache, the outcome of the handler decides status, output and failure: too large an output and expected exceptions are invalid input, other exceptions failures |
| ToolRuntime.VerifiedIsRemembered | continue_epic_460_compiler_waves.py:2673-2702 | a verified answer of a deterministic tool is given again to every later request with the same tenant, policy and input |
| ToolRuntime.DeniedNeverReachesCache | continue_epic_460_compiler_waves.py:2669-2676 | a network-denied request neither reads nor writes the cache |
| ToolRuntime.NonDeterministicNeverCached | continue_epic_460_compiler_waves.py:2673-2702 | a non-deterministic tool runs anew each time and has no cache entry after any run |
| ItemObservations.AggregateItemObservations | continue_epic_460_compiler_waves.py:500-553 | the grouping loop and the observation loop yield, in key order, one observation for each exact item version |
| ItemObservations.Measure | continue_epic_460_compiler_waves.py:531-551 | the counting loop of one group computes its difficulty, omission rate, distractor rates and timing counts |
| ItemObservationLaws.DifficultyExactly | continue_epic_460_compiler_waves.py:531-546 | difficulty times the answers given to a version in the log is the number of right ones, and zero without answers |
| ItemObservationLaws.OmissionRateExactly | continue_epic_460_compiler_waves.py:547-547 | the omission rate times the sample size is the number of omitted events of the version in the log |
| ItemObservationLaws.DistractorRateExactly | continue_epic_460_compiler_waves.py:534-548 | a distractor is listed exactly when an event of the version names it, and its rate times the sample size is the number of those events |
| ItemObservationLaws.TimingExactly | continue_epic_460_compiler_waves.py:535-549 | each timing count is the number of the version's events in that band |
| ItemObservationLaws.SampleExactly | continue_epic_460_compiler_waves.py:505-515 | the sample of a version are its answers and omissions in the log by those who have not opted out |
| ItemObservationLaws.VersionsExactly | continue_epic_460_compiler_waves.py:505-515 | the observed versions are exactly those with such an event, once each |
| ItemObservationLaws.VersionsInOrder | continue_epic_460_compiler_waves.py:512-513 | observations come in the order of tenant, document, document version, item, answer set version |
| ItemObservations.SampleSizesConserveEvents | continue_epic_460_compiler_waves.py:500-553 | the sample sizes add up to the number of eligible events |
| ItemObservations.EachEventHasOneObservation | continue_epic_460_compiler_waves.py:505-553 | each eligible event's exact version has one observation, whose sample size counts just that version's events |
| ItemObservations.ObservationLaws | continue_epic_460_compiler_waves.py:516-553 | metrics appear exactly at the minimum sample; then timing counts add up to the sample size and all rates lie in their declared ranges |
| ItemObservations.ObservationsIgnoreOrderAndOptOut | continue_epic_460_compiler_waves.py:500-553 | logs whose eligible events agree up to order have identical observations |
| Rollback.ReplaceOnce | continue_epic_460_compiler_waves.py:4048-4062 | an anchor counted once is replaced in one place and the text around it stays |
| Rollback.Checkout.BackupPaths | continue_epic_460_compiler_waves.py:4024-4034 | the manifest says which paths existed, and the backup holds a copy of each of those |
| Rollback.Checkout.RestorePaths | continue_epic_460_compiler_waves.py:4037-4045 | every path of the manifest gets back its exact initial content or absence, all others stay |
| Rollback.Checkout.ApplyBundle | continue_epic_460_compiler_waves.py:4048-4062 | failing at any write, a bundle has changed touched paths only; completed, it leaves exactly the specified files |
| Rollback.Checkout.RunScript | continue_epic_460_compiler_waves.py:4219-4265 | a failed run without keep-on-failure leaves touched paths as they were and all others exactly as the stage it reached had left them, hence everything as before when it failed while applying; issue updates start only after everything succeeded, and then nothing is rolled back |
| Rollback.FullRestorationExactly | continue_epic_460_compiler_waves.py:4243-4256 | rollback restores the whole checkout exactly when nothing outside the touched paths remains, spelled out for each stage at which a run can fail |
| Rollback.PatchStaysBehind | continue_epic_460_compiler_waves.py:4065-4115 | a run that fails writing the evidence leaves a new patch file behind |
| Rollback.LaterNewFilesWin | continue_epic_460_compiler_waves.py:4049-4052 | a new file ends up with the content the bundle gives it |
| Rollback.TransformsKeepOthers | continue_epic_460_compiler_waves.py:4053-4060 | transforms leave the files they do not name alone |
| Rollback.TransformsApply | continue_epic_460_compiler_waves.py:4053-4060 | a transformed file is its former text with every anchor replaced in turn |
| RollbackLaws.AppliedModesExactly | continue_epic_460_compiler_waves.py:4048-4062 | after a bundle exactly the listed scripts and the files that were so before are executable |
| RollbackLaws.AppliedContentExactly | continue_epic_460_compiler_waves.py:4048-4062 | a path without transforms holds the last new content given for it, and else what it held before |
| RollbackLaws.AppliedTransformExactly | continue_epic_460_compiler_waves.py:4048-4062 | a transformed path holds its new or former content with all anchors replaced in turn |
| RollbackLaws.CountOneExactly | continue_epic_460_compiler_waves.py:4053-4060 | an anchor counts as unambiguous exactly when it occurs and does not occur again behind its first place |
| RollbackLaws.FinalFilesExactly | continue_epic_460_compiler_waves.py:4065-4115 | a finished run leaves patch and evidence at their paths, and else what bundle and verification made |
| Dispatcher.ComputeReadiness | scripts/create_program_super_epic.py:224-234 | the loop classifies every effective blocker as closed, open or unknown |
| Dispatcher.DependentCounts | scripts/create_program_super_epic.py:256-263 | for every number the count is how many open children name it among their effective blockers |
| Dispatcher.FrontierIsReadyChildren | scripts/create_program_super_epic.py:271-284 | the frontier lists exactly the ready tracked children, each once, sorted by priority, certification, dependents and number |
| Dispatcher.FrontierMembersExactly | scripts/create_program_super_epic.py:224-284 | on the frontier are exactly the open issues of a known program that are no epic and whose declared and gating blockers are all known and closed |
| Dispatcher.FrontierOrderExactly | scripts/create_program_super_epic.py:256-284 | along the frontier the program priority does not fall; then certification comes last; then more open dependents first; then the smaller number |
| Dispatcher.ReadinessReportsExactly | scripts/create_program_super_epic.py:224-239 | the open and the unknown blockers reported are exactly those among the declared and gating ones, once each |
| Dispatcher.DependentCountExactly | scripts/create_program_super_epic.py:256-263 | the dependents counted are the open tracked issues that name the number or are gated by it |
| Dispatcher.ClosingKeepsReady | scripts/create_program_super_epic.py:224-234 | closing an issue never makes another one unready |
| Dispatcher.DrainableHasFrontier | scripts/create_program_super_epic.py:271-284 | while a tracked child is open in a drainable repository, the frontier is not empty |
| Dispatcher.DrainRespectsBlockers | scripts/create_program_super_epic.py:224-284 | in any repository closing the frontier's head again and again closes open tracked children only, each once and after all its effective blockers |
| Dispatcher.DrainCompletesExactly | scripts/create_program_super_epic.py:224-284 | the drain closes every open tracked child, in as many steps, exactly when their blockers are known, acyclic, and closed or tracked |
| Json.StripRemoves | common/contracts/artifact_projection_mapper.py:220-238 | stripping leaves no forbidden key at any depth and changes exactly the values that had one |
| Json.StripKeepsOrder | common/contracts/artifact_projection_mapper.py:220-238 | the keys that stay keep their order |
| Json.LookupStripped | common/contracts/artifact_projection_mapper.py:220-238 | along a path that avoids forbidden keys one finds what was there, stripped; along any other path nothing |
| Json.SurvivesStripping | common/contracts/artifact_document.py:187-205 | a key is still found after stripping exactly when it is not stripped itself and a path without stripped keys leads to it |
| ProjectionLaws.StudentValueLaws | common/contracts/artifact_projection_mapper.py:213-238 | the student projection is idempotent, and the identity exactly on values without a forbidden key |
| ProjectionLaws.StrippedLeaksExactly | common/contracts/artifact_document.py:187-205 | a projected value still counts as leaking exactly when a reachable `rubric_solution` was there |
| ProjectionLaws.RubricSolutionLeaks | common/contracts/artifact_document.py:187-205 | an object whose only key is `rubric_solution` is projected unchanged and counts as leaking |
| DocumentLaws.StudentDocumentHidesAnswers | common/contracts/artifact_projection_mapper.py:22-63 | no path into the metadata or the components of a document made for students leads to any of the eight teacher-only keys; only answer keys are made for teachers |
| DocumentLaws.DocumentFields | common/contracts/artifact_projection_mapper.py:22-63 | the other fields of a document come from the content, Vietnamese exactly when declared |
| ArtifactProjection.BuildAssessmentPayload | common/contracts/artifact_projection_mapper.py:128-154 | the nested loops yield the questions of all cards in order, or the error of the first bad card |
| DocumentLaws.QuestionExactly | common/contracts/artifact_projection_mapper.py:128-154 | a card becomes a question exactly when it has an id, a text, and options with names and texts, all not empty |
| DocumentLaws.AssessmentMadeExactly | common/contracts/artifact_projection_mapper.py:22-63 | a quiz, drill or exit ticket becomes a document exactly when its sections are accepted as they are and stripped, it has a question card, each stripped card reads as a question, and no rubric solution is in its metadata |
| DocumentLaws.CardsExactly | common/contracts/artifact_projection_mapper.py:128-154 | the question cards of a content are the components of that type in the component lists of its sections |
| ArtifactProjection.BuildRichPayload | common/contracts/artifact_projection_mapper.py:157-172 | the loop yields one section each, with its defaults, or the index of the first empty section |
| DocumentLaws.RichSectionExactly | common/contracts/artifact_projection_mapper.py:157-172 | a section needs components or a text; a missing id or title is made from its number, missing components from its text |
| ProjectionLaws.AssessmentRoundTripsExactly | common/contracts/artifact_projection_mapper.py:22-154 | a student assessment document makes the trip through content exactly when the registry accepts its question cards with and without stripped options, and then keeps title, theme, language and metadata; its payload comes back unchanged exactly when option ids are distinct and none is a stripped key |
| DocumentLaws.RoundMetadataExactly | common/contracts/artifact_projection_mapper.py:66-125 | the trip adds the old document's id and version to the metadata and changes nothing else in it |
| DocumentLaws.WrittenOptionsExactly | common/contracts/artifact_projection_mapper.py:66-125 | of two options with one id the later is written to the card |
| ProjectionLaws.StringCardsAreEnough | common/contracts/components/questions.py:9-13 | a registry that accepts every question card with string options accepts all cards of a document |
| ProjectionLaws.AnswerOptionIsLost | common/contracts/artifact_projection_mapper.py:220-238 | a quiz with options "answer" and "B" comes back with option "B" only |
| ProjectionLaws.RichRoundTripsExactly | common/contracts/artifact_projection_mapper.py:22-172 | a student rich document makes the trip exactly when the registry accepts its typed components, and then with equal payload, title, theme and language |
| DocumentLaws.BlocksComeBackRich | common/contracts/artifact_projection_mapper.py:22-172 | a student document of blocks makes the trip exactly when the registry accepts its blocks, and comes back rich, with every block as a component |
| AnswerSets.DeriveAnswerSet | common/contracts/answer_set.py:41-79 | the nested loops derive the specified answer set or error |
| AnswerSetLaws.EntryExactly | common/contracts/answer_set.py:54-71 | a card bears an answer exactly when it has an id and an answer; it is a correct option if the card has one of that name and free text otherwise, with the explanation as rationale |
| AnswerSetLaws.EntriesExactly | common/contracts/answer_set.py:47-71 | the entries are those of all cards that bear an answer, in order |
| AnswerSets.VerifyAnswerSet | common/contracts/answer_set.py:82-104 | verification raises the first objection, with last-wins lookup of entries and questions |
| AnswerSetLaws.VerificationPassesExactly | common/contracts/answer_set.py:82-104 | any answer set passes exactly when the last entry for each question offers only options of the last card with that id, no blank text, and something |
| AnswerSets.DerivationFailsExactly | common/contracts/answer_set.py:41-104 | with unique ids, valid rationales and at least one answer, derivation succeeds exactly when no free-text answer is blank |
| AnswerSets.IntegritySurvivesProjectionExactly | common/contracts/answer_set.py:41-104 | when the answer set and the student document both come out, every answer names a question of the document, and all its correct options are offered there exactly when none of them is a stripped key |
| AnswerSets.TrapAnswerIsLost | common/contracts/answer_set.py:41-104 | an assessment whose answer refers to an option the student document does not offer |
| AnswerSets.DocumentQuestionsUnique | common/contracts/artifact_projection_mapper.py:128-154 | unique question ids stay unique in the student document |
| AnswerSets.StripCommutesWithCards | common/contracts/artifact_projection_mapper.py:213-238 | the projection strips each question card in place and neither adds nor loses one |
| AnswerKeys.KeySections | common/contracts/answer_set.py:107-137 | the loop makes one section for each entry from its card, or reports the first question that is missing |
| AnswerKeys.DerivedKeyExists | common/contracts/answer_set.py:107-137 | no question of a derived answer set is missing from its own assessment |
| AnswerKeys.DerivedKeyIsTeacherDocument | common/contracts/answer_set.py:107-144 | the key of a derived answer set is always a valid teacher document with one section an answer, in order |
| AnswerSetLaws.KeySpellsAnswer | common/contracts/answer_set.py:120-135 | each section of a derived key spells out the answer of the card whose id it names |
| AnswerSetLaws.KeySectionExactly | common/contracts/answer_set.py:120-135 | a section carries the question's text as summary and the joined options, or free texts where there are none |
| AnswerSetLaws.KeyContentExactly | common/contracts/answer_set.py:136-143 | the key's title names the assessment's and its metadata count the sections |
| FallbackGraph.RequireAcyclic | common/contracts/component_strategy_fallback_validation.py:37-46 | following each chain raises exactly when the last-wins policy map has a cycle |
| FallbackGraph.AcyclicExactlyWhenChainsLeave | common/contracts/component_strategy_fallback_validation.py:37-46 | the policy map is acyclic exactly when every fallback chain leaves it within as many hops as it has entries |
| FallbackGraph.ValidateFallbacks | common/contracts/component_strategy_fallback_validation.py:14-58 | validation accepts exactly the known, complete, acyclic policies in which every binding under a required policy has a required source, and otherwise raises for the first of these that fails; the lookup by id cannot fail |
| FallbackGraph.FallbacksOkExactly | common/contracts/component_strategy_fallback_validation.py:14-58 | what acceptance guarantees, policy by policy and binding by binding, with chains that all end |
| FallbackGraph.PoliciesByIdKeys | common/contracts/component_strategy_knowledge.py:99-124 | the last-wins lookup has exactly the ids the known-id check admits |
| CircuitBreaker.ProviderCircuitBreaker.IsOpen | common/contracts/provider_circuit_breaker.py:36-43 | a poll answers as specified and moves an overdue open record to half-open |
| CircuitBreaker.ProviderCircuitBreaker.RecordSuccess | common/contracts/provider_circuit_breaker.py:45-46 | a success resets the record |
| CircuitBreaker.ProviderCircuitBreaker.RecordFailure | common/contracts/provider_circuit_breaker.py:48-55 | a failure counts one more and opens at the threshold |
| CircuitBreaker.RecordFollowsHistory | common/contracts/provider_circuit_breaker.py:36-65 | over every interleaving of failures, successes, polls and expiries the record is what the history since the last reset asks for |
| CircuitBreaker.OpenExactly | common/contracts/provider_circuit_breaker.py:36-43 | the breaker is open exactly with a long enough streak, within the recovery timeout of its last failure, and no recovery begun |
| CircuitBreaker.OpenNeedsThreshold | common/contracts/provider_circuit_breaker.py:48-55 | open and half-open records have at least threshold failures |
| CircuitBreaker.ClosedBelowThresholdExactly | common/contracts/provider_circuit_breaker.py:48-61 | closed always means fewer failures than the threshold, exactly when the threshold is at least one |
| CircuitBreaker.HalfOpenReopens | common/contracts/provider_circuit_breaker.py:36-55 | one failure while half-open opens the breaker for a full recovery timeout |
| CircuitBreaker.NeverHalfOpenExactly | common/contracts/provider_circuit_breaker.py:36-65 | with a store that expires entries promptly, over all histories no record is ever half-open exactly when there is no store or entries live no longer than the recovery timeout |
| CircuitBreaker.LongTimeToLiveHalfOpens | common/contracts/provider_circuit_breaker.py:36-65 | when entries live longer, enough failures and a poll after the recovery timeout end half-open |
| CircuitBreaker.RedisTtl | packages/agents/healing/redis_breaker_store.py:42-47 | the Redis time to live is at least a second, and within the recovery timeout exactly when that is a second or more |
| CircuitBreaker.RedisNeverHalfOpenExactly | packages/agents/healing/redis_breaker_store.py:42-47 | with the Redis store the breaker is never half-open exactly when the recovery timeout is a second or more |
| CircuitBreaker.PromptExpiryForgetsFailures | common/contracts/provider_circuit_breaker.py:48-65 | where entries live no longer than the recovery timeout, a failure after an open record has expired starts a new count |
| DependencyPlan.Validate | common/contracts/dependency_plan.py:61-76 | the validator raises exactly when some dependency is in no wave or not in an earlier one than a waved dependent, and the error names a real offender |
| DependencyPlan.DependencyOkExactly | common/contracts/dependency_plan.py:61-76 | a dependency is in order exactly when some wave lists it, the last such before the last that lists the type |
| DependencyPlan.WaveIndexOf | common/contracts/dependency_plan.py:78-82 | the lookup returns the first wave that lists the type |
| DependencyPlan.DependenciesOf | common/contracts/dependency_plan.py:84-85 | the lookup gives exactly the sources of the edges into the type, none for an unknown one |
| DependencyPlan.AcceptedIsAcyclic | common/contracts/dependency_plan.py:61-76 | in an accepted plan the wave index strictly falls along all direct and indirect dependencies, so there is no cycle |
| DependencyPlan.LookupsAgreeExactly | common/contracts/dependency_plan.py:61-82 | `wave_index_of` agrees with the validator's index for all types exactly when no type is in two waves |
| DependencyPlan.WavesRespectDependenciesExactly | common/contracts/dependency_plan.py:42-85 | running an accepted plan's waves in order starts every type after its whole transitive dependency set exactly when `wave_index_of` puts each direct dependency earlier |
| DependencyPlan.OneWaveRespectsDependencies | common/contracts/dependency_plan.py:42-85 | which is so when no type is in two waves |
| DependencyPlan.ListedTwiceSlipsThrough | common/contracts/dependency_plan.py:61-82 | the plan that lists the quiz before and after its lesson is accepted, and starts it first |
| StrategyModels.ScoresCompare | common/contracts/component_strategy_selector_support.py:44-52 | scores compare by matched evidence; a preferred learning move makes up for exactly one matched item plus a tenth for each item of its own |
| SelectorLaws.ScoreExactly | common/contracts/component_strategy_selector_support.py:44-52 | a score is one and a tenth for each item of evidence that research mentions, and a tenth more of all that for a preferred move |
| SelectorLaws.FamilyAndTagExactly | common/contracts/component_strategy_selector_support.py:13-33 | family and subject tag by exam intent, then language subjects, then the rest |
| Selector.DiversePrefix | common/contracts/component_strategy_selector.py:230-240 | the loop takes the first binding of each component type, three at most |
| Selector.SelectedAreBest | common/contracts/component_strategy_selector.py:115-128 | the selection has as many different component types as candidates allow, up to three; each binding ranks before all candidates of its type and of the types left out |
| Selector.EligibleExactly | common/contracts/component_strategy_selector.py:152-169 | an entry is eligible exactly when it serves family, subject, grade band and an artifact type of the request, fits its duration and is no high risk |
| Selector.SelectedServeRequest | common/contracts/component_strategy_selector.py:152-169 | every selected binding serves family, subject, grade band and an artifact type of the request, fits its duration and is no high risk |
| Selector.PoolExactly | common/contracts/component_strategy_selector.py:80-97 | candidates are the eligible entries with no rejected move, or all of them when every move is rejected |
| SelectorLaws.SelectedOutscore | common/contracts/component_strategy_selector.py:115-128 | a selected binding has the best score among the candidates of its and the left-out component types, by id at equal scores |
| Selector.SelectionIgnoresCatalogueOrder | common/contracts/component_strategy_selector.py:152-169 | with distinct binding ids the selection does not depend on the order of the catalogue |
| SelectorFallback.ApplyComponentRejections | common/contracts/component_strategy_selector_fallback.py:22-53 | the loop fails exactly when a teacher-rejected component has no policy; otherwise it keeps count and order, replaces exactly the teacher-rejected bindings, and warns of exactly the others that were rejected |
| SelectorFallback.ReapprovalExactly | common/contracts/component_strategy_selector_fallback.py:72-89 | metadata and teacher re-approval appear exactly when some binding was replaced |
| SelectorLaws.ReplacementExactly | common/contracts/component_strategy_selector_fallback.py:33-53 | a binding whose component a teacher rejected takes identity and component from the last policy for it and keeps all else; no other binding changes |
| SelectorLaws.MetadataExactly | common/contracts/component_strategy_selector_fallback.py:72-110 | the metadata tells both components, reason and severity of the last replacement |
| SelectorLaws.WarningsExactly | common/contracts/component_strategy_selector_fallback.py:33-53 | warnings name exactly the components that were rejected, but by no teacher |
| SelectorLaws.RejectionsExactly | common/contracts/component_strategy_selector_fallback.py:56-100 | rejections count by type and value, and are explicit only from a teacher |
| SelectorFallback.FallbackLandsExactly | common/contracts/component_strategy_selector_fallback.py:33-53 | a selected binding ends on a teacher-rejected component exactly when its own was rejected and the policy for that leads to a rejected one |
| SelectorFallback.FallbackLandsOnRejected | common/contracts/component_strategy_selector_fallback.py:33-53 | two rejections and a policy from the first component to the second, on which the fallback lands |
| SelectorFallback.AcceptedFallbacksReplace | common/contracts/component_strategy_selector_fallback.py:42-53 | with an accepted knowledge source a replacement never keeps the rejected component |
| SelectorFallback.RequiredPoliciesPresent | common/contracts/component_strategy_fallback_validation.py:49-58 | with an accepted knowledge source the fallback step cannot fail on bindings whose own policy is a required one |
| StrategyCoverage.CoverageFor | common/contracts/component_strategy_coverage.py:16-47 | the branching loop gives each objective, in order, its state and covering slots |
| StrategyCoverage.CoverageMeans | common/contracts/component_strategy_coverage.py:11-47 | against the request's own slots an objective is covered exactly when assessable and no extension, and then by all slots |
| StrategyCoverage.UncoveredCoreIds | common/contracts/component_strategy_coverage.py:16-47 | the uncovered core objectives are exactly the core objectives that are not assessable |
| SelectorLaws.SlotObjectivesExactly | common/contracts/component_strategy_coverage.py:11-13 | slots serve the assessable objectives that are no extension, or all when there are none of these |
| SelectorLaws.SlotsExactly | common/contracts/component_strategy_selector.py:201-227 | one slot a binding in order, after one of scaffolding exactly when prerequisites need it; minutes are the greatest that fit binding and share; ids differ |
| SelectorLaws.BudgetFitsExactly | common/contracts/component_strategy_slot_policy.py:36-44 | a slot budget can be built exactly when the binding's least time fits its greatest and its share of the lesson |
| Selector.QualityInRange | common/contracts/component_strategy_selector_support.py:55-102 | the quality scores lie in their declared ranges, with full diversity exactly when no component type repeats |
| SelectorLaws.QualityExactly | common/contracts/component_strategy_selector_support.py:55-102 | what each quality score is the share or the mean of |
| Selector.PlanComponentStrategy | common/contracts/component_strategy_selector.py:52-149 | in final mode a plan comes out exactly when a selection exists, its teacher-rejected components have policies, its slot budgets can be built and every core objective is assessable; each block has its exact cause, the lack of an eligible component that no catalogue entry serves family, subject, grade band, an artifact type, duration and risk |
| Selector.PlansRestOnBestBindings | common/contracts/component_strategy_selector.py:52-149 | every plan rests on one to three best-of-type bindings, each kept or replaced in its place, and all bindings in it serve the request's family, subject, grade band, an artifact type, duration and risk |

## Left out

- Collisions: `stable_hash` and `stable_id` are free constructors over normalized parts, and hash-match validators become equalities the builders meet.
- Text primitives: normalization, splitting at " and ", the order of digests and Python's `str` of a JSON value are parameters.
- Floating point: rounding of metrics to four digits and of weighted sums; all arithmetic on weights and rates is exact.
- Python's recursion limit, which the recursive cycle detector can exceed on deep graphs.
- Worklists.PrerequisiteClosure: gives the closure as a set; the sorted tuple of ids it is returned as is not modelled. The same holds for ImpactSet.
- Misconceptions, transfer targets, vocabulary and descriptive texts of objectives, phases and entities.
- Optimizer: the decision's own id and hash.
- Tool handlers are total functions of the request's input and an arbitrary outside world, and return objects. Canonical JSON is identified with its text, so inputs it merges (a tuple and a list, integer and string keys) are one input here, while in the code they share one cache key and a handler may tell them apart.
- ItemObservations.AggregateItemObservations: an observation's id, a function of its key and sample size, and the quality signals made from observations.
- Rollback.Checkout.RunScript: starts after the preflight checks; directories created on the way, an interrupt from the keyboard (not caught by the handler), failures of the restore itself, and the GitHub calls are left out.
- Dispatcher: issue numbers are distinct, and an issue's title matters only as its certification flag; Markdown rendering and GitHub calls are left out.
- Slide decks, the component union and string length limits; which typed components the registry accepts is a parameter.
- Knowledge sources: lifecycle, labels, locales, renderer capabilities and family coverage, whose checks test one entry at a time.
- Selector.PlanComponentStrategy: text, labels, export states and delivery context of a plan; subject text arrives in lower case and the grade band resolved.
- CircuitBreaker: operations are atomic; a breaker without a store, whose record never changes, is included.
- `max_repairs_per_entity` is never read by the code.
- Generated schemas, lint scripts, databases, HTTP, subprocesses, and fixed finite tables.
