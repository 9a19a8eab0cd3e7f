/** Slots of a strategy, the objectives they serve, and the coverage that follows from them. */
module StrategyCoverage {
  import opened Sequences
  import opened StrategyModels

  datatype Slot = Slot(slotId: string, componentType: string, bindingId: string, objectiveRefs: seq<ObjectiveRef>,
                       targetArtifacts: seq<string>, idealMinutes: nat, maxMinutes: nat)

  datatype CoverageState = Covered | Deferred | Uncovered

  datatype Coverage = Coverage(objectiveRef: ObjectiveRef, state: CoverageState, slotIds: seq<string>)

  /** `slot_objective_refs`: the assessable objectives that are not extensions, or all when there are none. */
  function SlotObjectiveRefs(request: Request): seq<ObjectiveRef> {
    var refs := Filter((r: ObjectiveRef) => r.assessable && r.importance != Extension, request.objectiveRefs);
    if refs != [] then refs else request.objectiveRefs
  }

  predicate Serves(slot: Slot, objectiveId: string) {
    exists r :: r in slot.objectiveRefs && r.objectiveId == objectiveId
  }

  function CoveringSlots(slots: seq<Slot>, objectiveId: string): seq<string> {
    Map((s: Slot) => s.slotId, Filter((s: Slot) => Serves(s, objectiveId), slots))
  }

  /** `coverage_for`. */
  method CoverageFor(request: Request, slots: seq<Slot>) returns (coverage: seq<Coverage>)
    ensures |coverage| == |request.objectiveRefs|
    ensures forall i :: 0 <= i < |coverage| ==> coverage[i] == CoverageOf(slots, request.objectiveRefs[i])
  {
    coverage := [];
    for i := 0 to |request.objectiveRefs|
      invariant |coverage| == i
      invariant forall j :: 0 <= j < i ==> coverage[j] == CoverageOf(slots, request.objectiveRefs[j])
    {
      var ref := request.objectiveRefs[i];
      var slotIds := CoveringSlots(slots, ref.objectiveId);
      if ref.importance == Extension {
        coverage := coverage + [Coverage(ref, Deferred, [])];
      } else if slotIds != [] && ref.assessable {
        coverage := coverage + [Coverage(ref, Covered, slotIds)];
      } else {
        coverage := coverage + [Coverage(ref, Uncovered, [])];
      }
    }
  }

  /** The coverage of one objective. */
  function CoverageOf(slots: seq<Slot>, ref: ObjectiveRef): Coverage {
    var slotIds := CoveringSlots(slots, ref.objectiveId);
    if ref.importance == Extension then Coverage(ref, Deferred, [])
    else if slotIds != [] && ref.assessable then Coverage(ref, Covered, slotIds)
    else Coverage(ref, Uncovered, [])
  }

  /** Every slot serves the objectives `slot_objective_refs` picks. */
  ghost predicate SlotsServe(request: Request, slots: seq<Slot>) {
    slots != [] && forall s <- slots :: s.objectiveRefs == SlotObjectiveRefs(request)
  }

  /**
   Against slots built for the request, an objective is covered exactly when it is assessable and not an extension, and
   then every slot is listed as covering it; uncovered means neither.
   */
  lemma CoverageMeans(request: Request, slots: seq<Slot>, ref: ObjectiveRef)
    requires SlotsServe(request, slots) && ref in request.objectiveRefs
    ensures var c := CoverageOf(slots, ref);
            && (c.state == Covered <==> ref.assessable && ref.importance != Extension)
            && (c.state == Deferred <==> ref.importance == Extension)
            && (c.state == Covered ==> c.slotIds == Map((s: Slot) => s.slotId, slots))
            && (c.state != Covered ==> c.slotIds == []) && c.objectiveRef == ref
  {
    if ref.assessable && ref.importance != Extension {
      FilterMembers((r: ObjectiveRef) => r.assessable && r.importance != Extension, request.objectiveRefs);
      assert ref in SlotObjectiveRefs(request);
      forall s | s in slots
        ensures Serves(s, ref.objectiveId)
      {
        assert ref in s.objectiveRefs;
      }
      FilterAll((s: Slot) => Serves(s, ref.objectiveId), slots);
    }
  }

  predicate CoreUncovered(c: Coverage) {
    c.state == Uncovered && c.objectiveRef.importance == Core
  }

  predicate UnassessableCore(r: ObjectiveRef) {
    r.importance == Core && !r.assessable
  }

  /** The ids of the core objectives that cannot be assessed. */
  function UnassessableCoreIds(refs: seq<ObjectiveRef>): seq<string> {
    Map((r: ObjectiveRef) => r.objectiveId, Filter(UnassessableCore, refs))
  }

  /** The coverage step reports as uncovered core objectives exactly the core objectives that cannot be assessed. */
  lemma {:induction false} UncoveredCoreIds(request: Request, slots: seq<Slot>, refs: seq<ObjectiveRef>,
                                            coverage: seq<Coverage>)
    requires SlotsServe(request, slots) && (forall r <- refs :: r in request.objectiveRefs)
    requires |coverage| == |refs| && forall i :: 0 <= i < |refs| ==> coverage[i] == CoverageOf(slots, refs[i])
    ensures Map((c: Coverage) => c.objectiveRef.objectiveId, Filter(CoreUncovered, coverage))
         == UnassessableCoreIds(refs)
    ensures Filter(CoreUncovered, coverage) == [] <==> Filter(UnassessableCore, refs) == []
  {
    hide CoverageOf, SlotsServe, Filter;
    if refs == [] {
      NothingUncovered();
      assert coverage == [];
    } else {
      CoverageMeans(request, slots, refs[0]);
      UncoveredCoreIds(request, slots, refs[1..], coverage[1..]);
      OneMoreCoverage(coverage);
      OneMoreRef(refs);
    }
  }

  lemma NothingUncovered()
    ensures Filter(CoreUncovered, []) == [] && Filter(UnassessableCore, []) == []
  {
  }

  lemma OneMoreCoverage(coverage: seq<Coverage>)
    requires coverage != []
    ensures var rest := Filter(CoreUncovered, coverage[1..]);
            Filter(CoreUncovered, coverage) == if CoreUncovered(coverage[0]) then [coverage[0]] + rest else rest
  {
  }

  lemma OneMoreRef(refs: seq<ObjectiveRef>)
    requires refs != []
    ensures var rest := Filter(UnassessableCore, refs[1..]);
            Filter(UnassessableCore, refs) == if UnassessableCore(refs[0]) then [refs[0]] + rest else rest
  {
  }

  lemma DeferredExactly(request: Request, slots: seq<Slot>, coverage: seq<Coverage>)
    requires SlotsServe(request, slots) && |coverage| == |request.objectiveRefs|
    requires forall i :: 0 <= i < |coverage| ==> coverage[i] == CoverageOf(slots, request.objectiveRefs[i])
    ensures (exists c :: c in coverage && c.state == Deferred)
       <==> exists r :: r in request.objectiveRefs && r.importance == Extension
  {
    if c :| c in coverage && c.state == Deferred {
      var i :| 0 <= i < |coverage| && coverage[i] == c;
      assert request.objectiveRefs[i] in request.objectiveRefs;
    }
    if r :| r in request.objectiveRefs && r.importance == Extension {
      var i :| 0 <= i < |coverage| && request.objectiveRefs[i] == r;
      assert coverage[i] in coverage;
    }
  }
}
