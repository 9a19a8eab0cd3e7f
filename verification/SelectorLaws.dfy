/**
 What the selector's signals, scores, slots, budgets, quality and fallback records mean in terms of the fields of the
 request, the bindings and the policies.
 */
module SelectorLaws {
  import opened Wrappers
  import opened Sequences
  import opened Ordering
  import opened StrategyModels
  import opened StrategyCoverage
  import opened SelectorFallback
  import opened Selector

  // ---- signals

  /** Family and subject tag: exams by quiz and intent, then language subjects, then concepts, mathematics, science. */
  lemma FamilyAndTagExactly(request: Request)
    ensures var exam := "quiz" in request.artifactTypes
                        && ("exam_prep" in request.assessmentIntent || "summative" in request.assessmentIntent);
            var language := request.subject in ["language", "english", "vietnamese", "literature"];
            var family, tag := FamilyIdFor(request), SubjectTagFor(request);
            && (exam ==> family == "exam_assessment_prep" && tag == "exam_prep")
            && (!exam && language ==> family == "vocabulary_language" && tag == "language")
            && (!exam && !language ==> family == "concept_math_science")
            && (!exam && request.subject == "math" ==> tag == "math")
            && (!exam && request.subject == "science" ==> tag == "science")
            && (!exam && !language && request.subject !in ["math", "science"] ==> tag == "concept")
  {
  }

  /** The feedback log of a request. */
  function Log(request: Request): seq<FeedbackEvent> {
    match request.teacherPreferences
    case Some(events) => events
    case None => []
  }

  /** Rejections count by type and value; only a teacher's are explicit. */
  lemma RejectionsExactly(request: Request, binding: Binding)
    ensures Rejected(request, binding)
       <==> exists e :: e in Log(request) && e.eventType == RejectComponentFamily && e.value == binding.componentType
    ensures ExplicitReject(request, binding)
       <==> exists e :: e in Log(request) && e.eventType == RejectComponentFamily && e.value == binding.componentType
                        && e.byTeacher
    ensures HasExplicitFeedback(request, RejectLearningMove)
       <==> exists e :: e in Log(request) && e.eventType == RejectLearningMove && e.byTeacher
    ensures FamilyIdFor(request) in PreferenceValues(request, RejectComponentFamily)
       <==> exists e :: e in Log(request) && e.eventType == RejectComponentFamily && e.value == FamilyIdFor(request)
    ensures binding.learningMoveId in PreferenceValues(request, RejectLearningMove)
       <==> exists e :: e in Log(request) && e.eventType == RejectLearningMove && e.value == binding.learningMoveId
  {
    hide FamilyIdFor;
  }

  /** The score: a tenth more for each mentioned item of evidence, and a tenth of all that for a preferred move. */
  lemma ScoreExactly(binding: Binding, request: Request)
    ensures var mentioned := set e | e in binding.evidenceIds && request.researchSignals.Some?
                                     && e in request.researchSignals.value.evidenceTags;
            var preferred := exists e :: e in Log(request) && e.eventType == PreferLearningMove
                                         && e.value == binding.learningMoveId;
            100.0 * Score(binding, request) == ((if preferred then 11 else 10) * (10 + |mentioned|)) as real
  {
    var mentioned := set e | e in binding.evidenceIds && request.researchSignals.Some?
                             && e in request.researchSignals.value.evidenceTags;
    assert mentioned == Matched(binding, request);
    assert Preferred(binding, request) <==>
           exists e :: e in Log(request) && e.eventType == PreferLearningMove && e.value == binding.learningMoveId;
  }

  /** A selected binding has the best score among all candidates of its component type, by id at equal scores. */
  lemma SelectedOutscore(request: Request, pool: seq<Binding>, b: Binding, c: Binding)
    requires b in Selected(request, pool) && c in pool
    requires c.componentType == b.componentType || c.componentType !in ComponentTypes(Selected(request, pool))
    ensures Score(b, request) > Score(c, request)
            || (Score(b, request) == Score(c, request) && StringLe(b.bindingId, c.bindingId))
  {
    hide Score, Selected;
    SelectedAreBest(request, pool);
    assert RanksBefore(request, b, c);
  }

  // ---- slots

  /** The budget of a slot can be built when the binding's least time fits its greatest and its share of the lesson. */
  lemma BudgetFitsExactly(request: Request, b: Binding, index: nat)
    ensures BudgetFits(request, b, index)
       <==> b.durationMin <= 1
            || (b.durationMin <= b.durationMax && b.durationMin * (index + 1) <= request.durationMinutes)
  {
    ShareExactly(request.durationMinutes, index + 1, b.durationMin);
  }

  lemma ShareExactly(total: nat, d: nat, m: nat)
    requires d > 0
    ensures m <= total / d <==> m * d <= total
  {
    var share := total / d;
    assert share * d <= total < (share + 1) * d;
    if m <= share {
      assert m * d <= share * d;
    } else {
      assert (share + 1) * d <= m * d;
    }
  }

  /** The slot's fields, for the binding at `index` counted from one. */
  ghost predicate SlotServes(request: Request, b: Binding, index: nat, slot: Slot) {
    && slot.bindingId == b.bindingId && slot.componentType == b.componentType
    && (b.durationMin == 0 ==> slot.idealMinutes == 1) && (b.durationMin > 0 ==> slot.idealMinutes == b.durationMin)
    && slot.maxMinutes >= 1
    && (slot.maxMinutes > 1 ==>
          slot.maxMinutes <= b.durationMax && slot.maxMinutes * (index + 1) <= request.durationMinutes)
    && (slot.maxMinutes >= b.durationMax || (slot.maxMinutes + 1) * (index + 1) > request.durationMinutes)
    && (forall a :: a in slot.targetArtifacts <==> a in request.artifactTypes && a in b.artifactTypes)
  }

  lemma SlotForServes(request: Request, b: Binding, index: nat)
    requires 1 <= index < 10
    ensures SlotServes(request, b, index, SlotFor(request, b, index))
  {
    FilterMembers((a: string) => a in b.artifactTypes, request.artifactTypes);
    SlotMinutesExactly(request, b, index, SlotMinutes(request, b, index));
  }

  lemma SlotMinutesExactly(request: Request, b: Binding, index: nat, minutes: nat)
    requires minutes == SlotMinutes(request, b, index)
    ensures minutes >= 1
    ensures minutes > 1 ==> minutes <= b.durationMax && minutes * (index + 1) <= request.durationMinutes
    ensures minutes >= b.durationMax || (minutes + 1) * (index + 1) > request.durationMinutes
  {
    ShareExactly(request.durationMinutes, index + 1, minutes);
    ShareExactly(request.durationMinutes, index + 1, minutes + 1);
  }

  /** The objectives a slot serves: the assessable ones that are no extension, or all when there are none of these. */
  lemma SlotObjectivesExactly(request: Request, r: ObjectiveRef)
    ensures r in SlotObjectiveRefs(request)
       <==> r in request.objectiveRefs
            && ((r.assessable && r.importance != Extension)
                || forall q <- request.objectiveRefs :: q.assessable ==> q.importance == Extension)
  {
    FilterMembers((r: ObjectiveRef) => r.assessable && r.importance != Extension, request.objectiveRefs);
    var refs := Filter((r: ObjectiveRef) => r.assessable && r.importance != Extension, request.objectiveRefs);
    if refs != [] {
      assert refs[0] in refs;
    }
  }

  /**
   The slots of a plan: one for each binding, in order, after one of scaffolding when prerequisites need it; all with
   different ids.
   */
  lemma SlotsExactly(request: Request, bindings: seq<Binding>)
    requires 0 < |bindings| <= MAX_SELECTED
    ensures var slots := Sequence(request, bindings);
            var scaffold := request.researchSignals.Some?
                            && request.researchSignals.value.prerequisiteRisk == MissingScaffoldable;
            var first := if scaffold then 1 else 0;
            && |slots| == first + |bindings|
            && (forall i :: 0 <= i < |bindings| ==> SlotServes(request, bindings[i], i + 1, slots[first + i]))
            && (scaffold ==> slots[0].componentType == "active_recall_prompt" && slots[0].idealMinutes == 5
                             && slots[0].maxMinutes == 8 && slots[0].bindingId == "scaffold-prerequisite@1.0.0"
                             && slots[0].targetArtifacts == slots[1].targetArtifacts)
            && (forall i, j :: 0 <= i < j < |slots| ==> slots[i].slotId != slots[j].slotId)
  {
    hide SlotServes, SlotFor, ScaffoldSlot, EndsIn;
    var slots := SlotsFor(request, bindings);
    forall i | 0 <= i < |bindings|
      ensures SlotServes(request, bindings[i], i + 1, slots[i])
      ensures EndsIn(slots[i].slotId, '1' + i as char)
    {
      SlotForServes(request, bindings[i], i + 1);
      SlotIdEnds(request, bindings[i], i + 1);
    }
    ScaffoldSlotFields(request, slots[0]);
    var all := Sequence(request, bindings);
    var zero := if Risk(request) == MissingScaffoldable then '0' else '1';
    forall i, j | 0 <= i < j < |all|
      ensures all[i].slotId != all[j].slotId
    {
      DifferentEnds(all[i].slotId, zero + i as char, all[j].slotId, zero + j as char);
    }
  }

  predicate EndsIn(s: string, c: char) {
    s != "" && s[|s| - 1] == c
  }

  lemma DifferentEnds(s: string, c: char, t: string, d: char)
    requires EndsIn(s, c) && EndsIn(t, d) && c != d
    ensures s != t
  {
  }

  lemma SlotIdEnds(request: Request, b: Binding, index: nat)
    requires 1 <= index < 10
    ensures EndsIn(SlotFor(request, b, index).slotId, '0' + index as char)
  {
    assert "0123456789"[index..index + 1] == ['0' + index as char];
  }

  lemma ScaffoldSlotFields(request: Request, parent: Slot)
    ensures var slot := ScaffoldSlot(request, parent);
            && slot.componentType == "active_recall_prompt" && slot.idealMinutes == 5 && slot.maxMinutes == 8
            && slot.bindingId == "scaffold-prerequisite@1.0.0" && slot.targetArtifacts == parent.targetArtifacts
            && EndsIn(slot.slotId, '0')
  {
  }

  /** The core objectives that block a plan: the ids of those that are not assessable. */
  lemma UnassessableCoreExactly(refs: seq<ObjectiveRef>, id: string)
    ensures id in UnassessableCoreIds(refs)
       <==> exists r :: r in refs && r.objectiveId == id && r.importance == Core && !r.assessable
  {
    var cores := Filter(UnassessableCore, refs);
    FilterMembers(UnassessableCore, refs);
    if r :| r in refs && r.objectiveId == id && UnassessableCore(r) {
      var i :| 0 <= i < |cores| && cores[i] == r;
      assert UnassessableCoreIds(refs)[i] == id;
    }
    if id in UnassessableCoreIds(refs) {
      var i :| 0 <= i < |cores| && cores[i].objectiveId == id;
      assert cores[i] in cores;
    }
  }

  // ---- quality

  /**
   What the quality scores measure: the share of the bindings' evidence that research mentions, a half without research,
   the share of different component types, and the mean of these two and one.
   */
  lemma QualityExactly(request: Request, bindings: seq<Binding>)
    requires bindings != [] && forall b <- bindings :: b.evidenceIds != []
    ensures var evidence := set b, e | b in bindings && e in b.evidenceIds :: e;
            var types := set b | b in bindings :: b.componentType;
            var tags := if request.researchSignals.Some? then request.researchSignals.value.evidenceTags else [];
            && AllEvidence(bindings) == evidence != {}
            && (tags == [] ==> EvidenceScore(request, bindings) == 0.5)
            && (tags != [] ==> EvidenceScore(request, bindings) * |evidence| as real
                               == |set e | e in evidence && e in tags| as real)
            && Diversity(bindings) * |bindings| as real == |types| as real
            && OverallQuality(request, bindings) * 3.0
               == 1.0 + EvidenceScore(request, bindings) + Diversity(bindings)
  {
    hide EvidenceScore, Diversity;
    QualityInRange(request, bindings);
    EvidenceScoreExactly(request, bindings);
    DiversityExactly(bindings);
  }

  lemma EvidenceScoreExactly(request: Request, bindings: seq<Binding>)
    requires AllEvidence(bindings) != {}
    ensures var evidence, tags := AllEvidence(bindings), EvidenceTags(request);
            && (tags == [] ==> EvidenceScore(request, bindings) == 0.5)
            && (tags != [] ==> EvidenceScore(request, bindings) * |evidence| as real
                               == |set e | e in evidence && e in tags| as real)
  {
  }

  lemma DiversityExactly(bindings: seq<Binding>)
    requires bindings != []
    ensures Diversity(bindings) * |bindings| as real == |ComponentTypes(bindings)| as real
  {
  }

  // ---- fallback

  /** The policy at `k` is the last one for the component. */
  ghost predicate LastPolicyFor(policies: seq<Policy>, component: string, k: nat) {
    k < |policies| && policies[k].fromComponent == component
    && forall j :: k < j < |policies| ==> policies[j].fromComponent != component
  }

  lemma {:induction false} PolicyIsLast(policies: seq<Policy>, component: string) returns (k: nat)
    requires component in PolicyByComponent(policies)
    ensures LastPolicyFor(policies, component, k) && PolicyByComponent(policies)[component] == policies[k]
  {
    var n := |policies| - 1;
    if policies[n].fromComponent == component {
      k := n;
    } else {
      k := PolicyIsLast(policies[..n], component);
      assert LastPolicyFor(policies, component, k);
    }
  }

  /** The binding after fallback: identity and component come from the policy, all else from the binding. */
  ghost predicate FollowsPolicy(before: Binding, after: Binding, policy: Policy) {
    && after.bindingId == before.bindingId + ".fallback." + policy.policyId
    && after.componentType == policy.toComponent && after.fallbackPolicyId == policy.policyId
    && after.learningMoveId == before.learningMoveId && after.strategyFamilyIds == before.strategyFamilyIds
    && after.artifactTypes == before.artifactTypes && after.subjectTags == before.subjectTags
    && after.gradeBands == before.gradeBands && after.evidenceIds == before.evidenceIds
    && after.durationMin == before.durationMin && after.durationMax == before.durationMax
    && after.highRisk == before.highRisk
  }

  /** A binding whose component a teacher rejected follows the last policy for that component, and no other changes. */
  lemma ReplacementExactly(request: Request, bindings: seq<Binding>, policies: seq<Policy>, s: Selection, i: nat)
    requires SelectionMatches(request, bindings, policies, s) && i < |bindings|
    ensures var rejected := exists e :: e in Log(request) && e.eventType == RejectComponentFamily && e.byTeacher
                                        && e.value == bindings[i].componentType;
            && (!rejected ==> s.bindings[i] == bindings[i])
            && (rejected ==> exists k: nat :: LastPolicyFor(policies, bindings[i].componentType, k)
                                         && FollowsPolicy(bindings[i], s.bindings[i], policies[k]))
  {
    assert IsReplaced(request, policies, bindings[i], s.bindings[i]);
    RejectionsExactly(request, bindings[i]);
    if ExplicitReject(request, bindings[i]) {
      var k := PolicyIsLast(policies, bindings[i].componentType);
      assert FollowsPolicy(bindings[i], s.bindings[i], policies[k]);
    }
  }

  /** The binding at `i` is the last whose component a teacher rejected. */
  ghost predicate LastRejected(request: Request, bindings: seq<Binding>, i: nat) {
    i < |bindings| && ExplicitReject(request, bindings[i])
    && forall j :: i < j < |bindings| ==> !ExplicitReject(request, bindings[j])
  }

  lemma {:induction false} LastExplicitIsLast(request: Request, bindings: seq<Binding>) returns (i: nat)
    requires LastExplicit(request, bindings).Some?
    ensures LastRejected(request, bindings, i) && LastExplicit(request, bindings).value == bindings[i]
  {
    var n := |bindings| - 1;
    if ExplicitReject(request, bindings[n]) {
      i := n;
    } else {
      i := LastExplicitIsLast(request, bindings[..n]);
      assert LastRejected(request, bindings, i);
    }
  }

  /** The metadata tells of the last replacement: both components, and the reason and severity its policy gives. */
  ghost predicate Tells(m: Metadata, before: Binding, after: Binding, policy: Policy) {
    && m.originalComponent == before.componentType && m.fallbackComponent == after.componentType
    && m.reasonCode == policy.reasonCode && m.severity == policy.severity
  }

  lemma MetadataExactly(request: Request, bindings: seq<Binding>, policies: seq<Policy>, s: Selection)
    requires SelectionMatches(request, bindings, policies, s) && s.metadata.Some?
    ensures exists i: nat, k: nat :: LastRejected(request, bindings, i)
                                     && LastPolicyFor(policies, bindings[i].componentType, k)
                                     && Tells(s.metadata.value, bindings[i], s.bindings[i], policies[k])
    ensures var revision := RevisionFor(s.metadata);
            revision.teacherVisible && revision.reason == "fallback applied: " + s.metadata.value.reasonCode
  {
    var i := LastExplicitIsLast(request, bindings);
    var k := PolicyIsLast(policies, bindings[i].componentType);
    assert IsReplaced(request, policies, bindings[i], s.bindings[i]);
    assert LastRejected(request, bindings, i) && LastPolicyFor(policies, bindings[i].componentType, k)
           && Tells(s.metadata.value, bindings[i], s.bindings[i], policies[k]);
  }

  lemma ImplicitExactly(request: Request, b: Binding)
    ensures ImplicitReject(request, b)
       <==> (exists e :: e in Log(request) && e.eventType == RejectComponentFamily && e.value == b.componentType)
            && !exists e :: e in Log(request) && e.eventType == RejectComponentFamily && e.byTeacher
                            && e.value == b.componentType
  {
    hide Rejected, ExplicitReject;
    RejectionsExactly(request, b);
  }

  /** Warnings name exactly the components that were rejected, but by no teacher. */
  lemma WarningsExactly(request: Request, bindings: seq<Binding>, policies: seq<Policy>, s: Selection, w: Warning)
    requires SelectionMatches(request, bindings, policies, s)
    ensures w in s.warnings
       <==> exists b :: b in bindings && w == RelaxedComponent(b.componentType)
                        && (exists e :: e in Log(request) && e.eventType == RejectComponentFamily
                                        && e.value == b.componentType)
                        && !exists e :: e in Log(request) && e.eventType == RejectComponentFamily && e.byTeacher
                                        && e.value == b.componentType
  {
    hide ImplicitReject, AllReplaced, ExpectedMetadata;
    var implicit := Filter((b: Binding) => ImplicitReject(request, b), bindings);
    FilterMembers((b: Binding) => ImplicitReject(request, b), bindings);
    forall b
      ensures ImplicitReject(request, b)
         <==> (exists e :: e in Log(request) && e.eventType == RejectComponentFamily && e.value == b.componentType)
              && !exists e :: e in Log(request) && e.eventType == RejectComponentFamily && e.byTeacher
                              && e.value == b.componentType
    {
      ImplicitExactly(request, b);
    }
    if w in s.warnings {
      var i :| 0 <= i < |s.warnings| && s.warnings[i] == w;
      assert implicit[i] in implicit;
    }
    if b :| b in implicit && w == RelaxedComponent(b.componentType) {
      var i :| 0 <= i < |implicit| && implicit[i] == b;
      assert s.warnings[i] == w;
    }
  }
}
