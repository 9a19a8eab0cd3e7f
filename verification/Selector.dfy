/**
 The component strategy selector: hard filters, ranking, a short selection of different components, fallback,
 slots, and coverage. The wording of rationales, export states and delivery context are not modelled.
 */
module Selector {
  import opened Wrappers
  import opened Sequences
  import opened Ordering
  import opened StrategyModels
  import opened SelectorFallback
  import opened StrategyCoverage

  const MAX_SELECTED := 3

  datatype BlockCode = FeedbackConflict | PrerequisiteMissing | NoEligibleComponent | CoreObjectiveUncovered

  datatype Failure = NoPolicyForComponent | BudgetNotConstructible

  datatype Plan = Plan(bindings: seq<Binding>, slots: seq<Slot>, coverage: seq<Coverage>, warnings: seq<Warning>,
                       metadata: Option<Metadata>, revision: Revision)

  datatype Outcome = Provisional | Blocked(code: BlockCode, affected: seq<string>) | Planned(plan: Plan)
    | Raised(failure: Failure)

  // ---- filtering and ranking

  /** The hard filters of `_eligible_bindings`. */
  predicate IsEligible(request: Request, b: Binding) {
    && FamilyIdFor(request) in b.strategyFamilyIds
    && (exists a :: a in request.artifactTypes && a in b.artifactTypes)
    && SubjectTagFor(request) in b.subjectTags
    && request.gradeBand.Some? && request.gradeBand.value in b.gradeBands
    && b.durationMin <= request.durationMinutes
    && !b.highRisk
  }

  function Eligible(request: Request, catalogue: seq<Binding>): seq<Binding> {
    Filter((b: Binding) => IsEligible(request, b), catalogue)
  }

  /** The eligible bindings whose learning move nobody rejected. */
  function Welcome(request: Request, catalogue: seq<Binding>): seq<Binding> {
    var rejected := PreferenceValues(request, RejectLearningMove);
    Filter((b: Binding) => b.learningMoveId !in rejected, Eligible(request, catalogue))
  }

  /** The candidates: rejections of learning moves are relaxed when they would leave nothing. */
  function Pool(request: Request, catalogue: seq<Binding>): seq<Binding> {
    if Welcome(request, catalogue) != [] then Welcome(request, catalogue) else Eligible(request, catalogue)
  }

  predicate MovesRejected(request: Request, catalogue: seq<Binding>) {
    PreferenceValues(request, RejectLearningMove) != {} && Welcome(request, catalogue) == []
  }

  /** Nothing is left because a teacher rejected every learning move. */
  predicate MovesConflict(request: Request, catalogue: seq<Binding>) {
    MovesRejected(request, catalogue) && HasExplicitFeedback(request, RejectLearningMove)
  }

  /**
   A catalogue entry is eligible when it serves the request's family, subject and grade band and one of its artifact
   types, fits its duration and is no high risk.
   */
  lemma EligibleExactly(request: Request, catalogue: seq<Binding>, b: Binding)
    ensures b in Eligible(request, catalogue)
       <==> b in catalogue
            && FamilyIdFor(request) in b.strategyFamilyIds && SubjectTagFor(request) in b.subjectTags
            && request.gradeBand.Some? && request.gradeBand.value in b.gradeBands
            && (exists a :: a in request.artifactTypes && a in b.artifactTypes)
            && b.durationMin <= request.durationMinutes && !b.highRisk
  {
    FilterMembers((x: Binding) => IsEligible(request, x), catalogue);
  }

  /** Candidates are eligible, and have a rejected learning move only when all eligible entries do. */
  lemma PoolExactly(request: Request, catalogue: seq<Binding>, b: Binding)
    ensures b in Pool(request, catalogue)
       <==> b in Eligible(request, catalogue)
            && (b.learningMoveId !in PreferenceValues(request, RejectLearningMove)
                || forall c <- Eligible(request, catalogue) ::
                     c.learningMoveId in PreferenceValues(request, RejectLearningMove))
    ensures MovesRejected(request, catalogue)
       <==> PreferenceValues(request, RejectLearningMove) != {}
            && forall c <- Eligible(request, catalogue) ::
                 c.learningMoveId in PreferenceValues(request, RejectLearningMove)
  {
    var rejected := PreferenceValues(request, RejectLearningMove);
    FilterMembers((x: Binding) => x.learningMoveId !in rejected, Eligible(request, catalogue));
    var welcome := Welcome(request, catalogue);
    if welcome != [] {
      assert welcome[0] in welcome;
    }
  }

  /** There are no candidates exactly when no catalogue entry passes the six filters. */
  lemma PoolEmptyExactly(request: Request, catalogue: seq<Binding>)
    ensures Pool(request, catalogue) == []
       <==> forall b <- catalogue ::
              !(FamilyIdFor(request) in b.strategyFamilyIds && SubjectTagFor(request) in b.subjectTags
                && request.gradeBand.Some? && request.gradeBand.value in b.gradeBands
                && (exists a :: a in request.artifactTypes && a in b.artifactTypes)
                && b.durationMin <= request.durationMinutes && !b.highRisk)
  {
    hide Eligible;
    var eligible := Eligible(request, catalogue);
    assert Pool(request, catalogue) == [] <==> eligible == [] by {
      var rejected := PreferenceValues(request, RejectLearningMove);
      FilterMembers((x: Binding) => x.learningMoveId !in rejected, eligible);
      if Welcome(request, catalogue) != [] {
        assert Welcome(request, catalogue)[0] in eligible;
      }
    }
    forall b
      ensures b in eligible
         <==> b in catalogue
              && FamilyIdFor(request) in b.strategyFamilyIds && SubjectTagFor(request) in b.subjectTags
              && request.gradeBand.Some? && request.gradeBand.value in b.gradeBands
              && (exists a :: a in request.artifactTypes && a in b.artifactTypes)
              && b.durationMin <= request.durationMinutes && !b.highRisk
    {
      EligibleExactly(request, catalogue, b);
    }
    if eligible != [] {
      assert eligible[0] in eligible;
    }
  }

  predicate RanksBefore(request: Request, a: Binding, b: Binding) {
    Score(a, request) > Score(b, request)
    || (Score(a, request) == Score(b, request) && StringLe(a.bindingId, b.bindingId))
  }

  function Ranking(request: Request): (Binding, Binding) -> bool {
    (a: Binding, b: Binding) => RanksBefore(request, a, b)
  }

  lemma RankingIsOrder(request: Request)
    ensures TotalPreorder(Ranking(request))
  {
    StringLeIsOrder();
    forall a: Binding, b: Binding
      ensures Ranking(request)(a, b) || Ranking(request)(b, a)
    {
      assert StringLe(a.bindingId, b.bindingId) || StringLe(b.bindingId, a.bindingId);
    }
    forall a: Binding, b: Binding, c: Binding | Ranking(request)(a, b) && Ranking(request)(b, c)
      ensures Ranking(request)(a, c)
    {
      if StringLe(a.bindingId, b.bindingId) && StringLe(b.bindingId, c.bindingId) {
        StringLeTransitive(a.bindingId, b.bindingId, c.bindingId);
      }
    }
  }

  // ---- one binding for each component type

  function FirstOfEachType(s: seq<Binding>): seq<Binding> {
    if s == [] then []
    else
      var init, last := FirstOfEachType(s[..|s| - 1]), s[|s| - 1];
      if last.componentType in ComponentTypes(init) then init else init + [last]
  }

  lemma ComponentTypesAppend(s: seq<Binding>, b: Binding)
    ensures ComponentTypes(s + [b]) == ComponentTypes(s) + {b.componentType}
  {
    forall t | t in ComponentTypes(s) + {b.componentType}
      ensures t in ComponentTypes(s + [b])
    {
      if t == b.componentType {
        assert b in s + [b];
      } else {
        var c :| c in s && c.componentType == t;
        assert c in s + [b];
      }
    }
  }

  lemma {:induction false} FirstsCoverTypes(s: seq<Binding>)
    ensures ComponentTypes(FirstOfEachType(s)) == ComponentTypes(s)
    ensures |FirstOfEachType(s)| == |ComponentTypes(s)|
  {
    if s != [] {
      var init, last := s[..|s| - 1], s[|s| - 1];
      FirstsCoverTypes(init);
      assert s == init + [last];
      ComponentTypesAppend(init, last);
      ComponentTypesAppend(FirstOfEachType(init), last);
    }
  }

  ghost predicate DifferentTypes(s: seq<Binding>) {
    forall i, j :: 0 <= i < j < |s| ==> s[i].componentType != s[j].componentType
  }

  lemma {:induction false} FirstsAreDifferent(s: seq<Binding>)
    ensures DifferentTypes(FirstOfEachType(s))
    ensures forall b <- FirstOfEachType(s) :: b in s
  {
    if s != [] {
      var init, last := s[..|s| - 1], s[|s| - 1];
      FirstsAreDifferent(init);
      assert s == init + [last];
      var f := FirstOfEachType(init);
      if last.componentType !in ComponentTypes(f) {
        assert forall b <- f :: b.componentType in ComponentTypes(f);
        assert forall i :: 0 <= i < |f| ==> f[i] in f;
      }
    }
  }

  lemma RanksBeforeLast(request: Request, s: seq<Binding>, b: Binding)
    requires s != [] && SortedBy(Ranking(request), s) && b in s
    ensures RanksBefore(request, b, s[|s| - 1])
  {
    var i :| 0 <= i < |s| && s[i] == b;
    RankingIsOrder(request);
    assert Ranking(request)(s[i], s[|s| - 1]);
  }

  lemma {:induction false} FirstsAreSorted(request: Request, s: seq<Binding>)
    requires SortedBy(Ranking(request), s)
    ensures SortedBy(Ranking(request), FirstOfEachType(s))
  {
    if s != [] {
      var init, last := s[..|s| - 1], s[|s| - 1];
      FirstsAreSorted(request, init);
      FirstsAreDifferent(init);
      var f := FirstOfEachType(init);
      forall i | 0 <= i < |f|
        ensures Ranking(request)(f[i], last)
      {
        assert f[i] in f;
        assert f[i] in init;
        RanksBeforeLast(request, s, f[i]);
      }
    }
  }

  /** In a ranked list the first binding of each type is the best of that type. */
  lemma {:induction false} FirstIsBest(request: Request, s: seq<Binding>, b: Binding, c: Binding)
    requires SortedBy(Ranking(request), s)
    requires b in FirstOfEachType(s) && c in s && b.componentType == c.componentType
    ensures RanksBefore(request, b, c)
  {
    var init, last := s[..|s| - 1], s[|s| - 1];
    assert s == init + [last];
    FirstsAreDifferent(init);
    if b !in FirstOfEachType(init) {
      FirstsCoverTypes(init);
      assert b == last && c !in init;
      RanksBeforeLast(request, s, b);
    } else if c in init {
      FirstIsBest(request, init, b, c);
    } else {
      assert b in init;
      RanksBeforeLast(request, s, b);
    }
  }

  lemma {:induction false} FirstsOfPrefix(s: seq<Binding>, n: nat)
    requires n <= |s|
    ensures FirstOfEachType(s[..n]) <= FirstOfEachType(s)
  {
    if n < |s| {
      FirstsOfPrefix(s[..|s| - 1], n);
      assert s[..|s| - 1][..n] == s[..n];
    } else {
      assert s[..n] == s;
    }
  }

  /** `_diverse_prefix`. */
  method DiversePrefix(bindings: seq<Binding>) returns (selected: seq<Binding>)
    ensures selected == Take(FirstOfEachType(bindings), MAX_SELECTED)
  {
    selected := [];
    var seen: set<string> := {};
    for i := 0 to |bindings|
      invariant selected == FirstOfEachType(bindings[..i]) && |selected| < MAX_SELECTED
      invariant seen == ComponentTypes(selected)
    {
      assert bindings[..i + 1][..i] == bindings[..i];
      FirstsOfPrefix(bindings, i + 1);
      if bindings[i].componentType !in seen {
        ComponentTypesAppend(selected, bindings[i]);
        selected := selected + [bindings[i]];
        seen := seen + {bindings[i].componentType};
        if |selected| == MAX_SELECTED {
          break;
        }
      }
    }
    if |selected| < MAX_SELECTED {
      assert bindings[..|bindings|] == bindings;
    }
    if selected == [] {
      selected := Take(bindings, 1);
    }
  }

  /** The selection before fallback. */
  function Selected(request: Request, pool: seq<Binding>): seq<Binding> {
    Take(FirstOfEachType(SortBy(Ranking(request), pool)), MAX_SELECTED)
  }

  /**
   One to three bindings of different component types, as many as the candidates allow; each ranks before all
   candidates of its type and before all candidates of the types left out.
   */
  ghost predicate BestOfTheirTypes(request: Request, pool: seq<Binding>, selected: seq<Binding>) {
    && |selected| == (if |ComponentTypes(pool)| < 3 then |ComponentTypes(pool)| else 3)
    && DifferentTypes(selected)
    && (forall b <- selected :: b in pool)
    && (forall b, c :: b in selected && c in pool && c.componentType == b.componentType ==> RanksBefore(request, b, c))
    && (forall b, c :: b in selected && c in pool && c.componentType !in ComponentTypes(selected) ==>
          RanksBefore(request, b, c))
  }

  lemma SelectedAreBest(request: Request, pool: seq<Binding>)
    ensures BestOfTheirTypes(request, pool, Selected(request, pool))
    ensures Selected(request, pool) == [] <==> pool == []
  {
    var ranked := SortBy(Ranking(request), pool);
    var selected := Selected(request, pool);
    RankingIsOrder(request);
    SortPermutes(Ranking(request), pool);
    SortSorts(Ranking(request), pool);
    FirstsAreDifferent(ranked);
    FirstsCoverTypes(ranked);
    assert ComponentTypes(ranked) == ComponentTypes(pool);
    forall b, c | b in selected && c in pool
                  && (b.componentType == c.componentType || c.componentType !in ComponentTypes(selected))
      ensures RanksBefore(request, b, c)
    {
      SelectedRankFirst(request, ranked, b, c);
    }
    if pool != [] {
      assert pool[0].componentType in ComponentTypes(pool);
    } else {
      assert ComponentTypes(pool) == {};
    }
  }

  lemma SelectedRankFirst(request: Request, ranked: seq<Binding>, b: Binding, c: Binding)
    requires SortedBy(Ranking(request), ranked)
    requires var selected := Take(FirstOfEachType(ranked), MAX_SELECTED);
             && b in selected && c in ranked
             && (b.componentType == c.componentType || c.componentType !in ComponentTypes(selected))
    ensures RanksBefore(request, b, c)
  {
    if b.componentType == c.componentType {
      FirstIsBest(request, ranked, b, c);
    } else {
      LeftOutRanksLater(request, ranked, b, c);
    }
  }

  lemma LeftOutRanksLater(request: Request, ranked: seq<Binding>, b: Binding, c: Binding)
    requires SortedBy(Ranking(request), ranked)
    requires var selected := Take(FirstOfEachType(ranked), MAX_SELECTED);
             b in selected && c in ranked && c.componentType !in ComponentTypes(selected)
    ensures RanksBefore(request, b, c)
  {
    RankingIsOrder(request);
    FirstsCoverTypes(ranked);
    FirstsAreSorted(request, ranked);
    var firsts := FirstOfEachType(ranked);
    assert c.componentType in ComponentTypes(ranked);
    var f :| f in firsts && f.componentType == c.componentType;
    FirstIsBest(request, ranked, f, c);
    var k :| 0 <= k < |firsts| && firsts[k] == f;
    var i :| 0 <= i < |Take(firsts, MAX_SELECTED)| && Take(firsts, MAX_SELECTED)[i] == b;
    assert Ranking(request)(firsts[i], firsts[k]) && Ranking(request)(f, c);
    assert Ranking(request)(b, c);
  }

  // ---- the order of the catalogue

  lemma PoolPermutes(request: Request, a: seq<Binding>, b: seq<Binding>)
    requires multiset(a) == multiset(b)
    ensures multiset(Pool(request, a)) == multiset(Pool(request, b))
    ensures forall x :: x in Pool(request, a) ==> x in a
  {
    var eligible := (x: Binding) => IsEligible(request, x);
    var rejected := PreferenceValues(request, RejectLearningMove);
    var welcome := (x: Binding) => x.learningMoveId !in rejected;
    FilterPermutes(eligible, a, b);
    FilterPermutes(welcome, Eligible(request, a), Eligible(request, b));
    SameMembers(Welcome(request, a), Welcome(request, b));
    FilterMembers(eligible, a);
    FilterMembers(welcome, Eligible(request, a));
  }

  /** With distinct binding ids the selection does not depend on the order of the catalogue. */
  lemma SelectionIgnoresCatalogueOrder(request: Request, a: seq<Binding>, b: seq<Binding>)
    requires multiset(a) == multiset(b)
    requires forall x, y :: x in a && y in a && x.bindingId == y.bindingId ==> x == y
    ensures Selected(request, Pool(request, a)) == Selected(request, Pool(request, b))
  {
    PoolPermutes(request, a, b);
    RankingIsOrder(request);
    forall x, y | x in Pool(request, a) && y in Pool(request, a) && Ranking(request)(x, y) && Ranking(request)(y, x)
      ensures x == y
    {
      StringLeTotal(x.bindingId, y.bindingId);
    }
    SortIsInvariant(Ranking(request), Pool(request, a), Pool(request, b));
  }

  // ---- slots

  function Max(a: int, b: int): int {
    if a < b then b else a
  }

  function Min(a: int, b: int): int {
    if a < b then a else b
  }

  /** The time limit of the slot at `index`, which counts from one. */
  function SlotMinutes(request: Request, b: Binding, index: nat): nat {
    Max(1, Min(b.durationMax, request.durationMinutes / (index + 1)))
  }

  /** The slot's ideal time does not exceed its limit, so its budget can be constructed. */
  predicate BudgetFits(request: Request, b: Binding, index: nat) {
    Max(1, b.durationMin) <= SlotMinutes(request, b, index)
  }

  predicate BudgetsFit(request: Request, bindings: seq<Binding>) {
    forall i :: 0 <= i < |bindings| ==> BudgetFits(request, bindings[i], i + 1)
  }

  function SlotFor(request: Request, b: Binding, index: nat): Slot
    requires index < 10
  {
    Slot(request.runId + "/" + b.componentType + "/slot-" + "0123456789"[index..index + 1],
         b.componentType, b.bindingId, SlotObjectiveRefs(request),
         Filter((a: string) => a in b.artifactTypes, request.artifactTypes),
         Max(1, b.durationMin), SlotMinutes(request, b, index))
  }

  function ScaffoldSlot(request: Request, parent: Slot): Slot {
    parent.(slotId := request.runId + "/scaffold/slot-0", componentType := "active_recall_prompt",
            bindingId := "scaffold-prerequisite@1.0.0", idealMinutes := 5, maxMinutes := 8)
  }

  function SlotsFor(request: Request, bindings: seq<Binding>): (slots: seq<Slot>)
    requires |bindings| <= MAX_SELECTED
    ensures |slots| == |bindings| && forall i :: 0 <= i < |slots| ==> slots[i] == SlotFor(request, bindings[i], i + 1)
  {
    seq(|bindings|, i requires 0 <= i < |bindings| => SlotFor(request, bindings[i], i + 1))
  }

  /** The slots of the recommended variant; scaffolding goes first when prerequisites need it. */
  function Sequence(request: Request, bindings: seq<Binding>): (slots: seq<Slot>)
    requires 0 < |bindings| <= MAX_SELECTED
    ensures SlotsServe(request, slots)
  {
    var slots := SlotsFor(request, bindings);
    if Risk(request) == MissingScaffoldable then [ScaffoldSlot(request, slots[0])] + slots else slots
  }

  // ---- quality

  /** `evidence_score`: the share of the bindings' evidence that the research signals mention. */
  function EvidenceScore(request: Request, bindings: seq<Binding>): real
    requires AllEvidence(bindings) != {}
  {
    var tags, all := EvidenceTags(request), AllEvidence(bindings);
    if tags == [] then 0.5 else |set e | e in all && e in tags| as real / |all| as real
  }

  function Diversity(bindings: seq<Binding>): real
    requires bindings != []
  {
    |ComponentTypes(bindings)| as real / |bindings| as real
  }

  /** The overall score of `quality_for`. */
  function OverallQuality(request: Request, bindings: seq<Binding>): real
    requires bindings != [] && AllEvidence(bindings) != {}
  {
    var mean := (1.0 + EvidenceScore(request, bindings) + Diversity(bindings)) / 3.0;
    if mean < 1.0 then mean else 1.0
  }

  lemma ShareInUnit(part: nat, whole: nat)
    requires part <= whole && whole > 0
    ensures 0.0 <= part as real / whole as real <= 1.0
    ensures part as real / whole as real == 1.0 <==> part == whole
  {
    var share := part as real / whole as real;
    assert share * whole as real == part as real;
  }

  lemma TypesCount(bindings: seq<Binding>)
    ensures |ComponentTypes(bindings)| <= |bindings|
    ensures |ComponentTypes(bindings)| == |bindings| <==> DifferentTypes(bindings)
  {
    var types := Map((b: Binding) => b.componentType, bindings);
    RepeatsMeans(types);
    forall t
      ensures t in Elements(types) <==> t in ComponentTypes(bindings)
    {
      if t in Elements(types) {
        var i :| 0 <= i < |types| && types[i] == t;
        assert bindings[i] in bindings;
      }
      if t in ComponentTypes(bindings) {
        var b :| b in bindings && b.componentType == t;
        var i :| 0 <= i < |bindings| && bindings[i] == b;
        assert types[i] == t;
      }
    }
    assert Elements(types) == ComponentTypes(bindings);
  }

  /**
   The quality scores of a plan always lie between zero and one, and the diversity is full exactly when no component
   type occurs twice, which fallback may bring about.
   */
  lemma QualityInRange(request: Request, bindings: seq<Binding>)
    requires bindings != [] && forall b <- bindings :: b.evidenceIds != []
    ensures AllEvidence(bindings) != {}
    ensures 0.0 <= EvidenceScore(request, bindings) <= 1.0
    ensures 0.0 <= Diversity(bindings) <= 1.0 && (Diversity(bindings) == 1.0 <==> DifferentTypes(bindings))
    ensures 1.0 / 3.0 <= OverallQuality(request, bindings) <= 1.0
  {
    var b := bindings[0];
    assert b in bindings && b.evidenceIds[0] in b.evidenceIds;
    var all, tags := AllEvidence(bindings), EvidenceTags(request);
    assert b.evidenceIds[0] in all;
    var matched := set e | e in all && e in tags;
    SubsetIsSmaller(matched, all);
    ShareInUnit(|matched|, |all|);
    TypesCount(bindings);
    ShareInUnit(|ComponentTypes(bindings)|, |bindings|);
  }

  // ---- the whole selector

  /** The request gets as far as looking for bindings. */
  predicate Proceeds(request: Request) {
    && FamilyIdFor(request) !in PreferenceValues(request, RejectComponentFamily)
    && !request.provisional
    && Risk(request) != MissingBlocking
  }

  /** The request gets as far as selecting bindings. */
  predicate Selects(request: Request, catalogue: seq<Binding>) {
    Proceeds(request) && !MovesConflict(request, catalogue) && Pool(request, catalogue) != []
  }

  function AllIds(refs: seq<ObjectiveRef>): seq<string> {
    Map((r: ObjectiveRef) => r.objectiveId, refs)
  }

  /** The fallback and slot steps go through. */
  predicate Constructible(request: Request, catalogue: seq<Binding>, policies: seq<Policy>) {
    var selected := Selected(request, Pool(request, catalogue));
    Selects(request, catalogue) && PoliciesPresent(request, selected, policies) && BudgetsFit(request, selected)
  }

  /** What a plan contains. */
  ghost predicate PlanMatches(request: Request, catalogue: seq<Binding>, policies: seq<Policy>, plan: Plan) {
    var selected := Selected(request, Pool(request, catalogue));
    && 0 < |selected| <= MAX_SELECTED
    && AllReplaced(request, policies, selected, plan.bindings)
    && plan.metadata == ExpectedMetadata(request, selected, policies)
    && plan.revision == RevisionFor(plan.metadata)
    && plan.slots == Sequence(request, plan.bindings)
    && |plan.coverage| == |request.objectiveRefs|
    && (forall i :: 0 <= i < |plan.coverage| ==> plan.coverage[i] == CoverageOf(plan.slots, request.objectiveRefs[i]))
    && plan.warnings
       == (if MovesRejected(request, catalogue) then [RelaxedMovePreference] else [])
          + ImplicitWarnings(request, selected)
          + (if exists r :: r in request.objectiveRefs && r.importance == Extension then [ObjectiveDeferred] else [])
  }

  /**
   `plan_component_strategy` over the production bindings and fallback policies of a knowledge source. A plan comes out
   exactly when a selection exists, every component a teacher rejected in it has a policy, every slot budget can be
   constructed, and every core objective is assessable.
   */
  method PlanComponentStrategy(request: Request, catalogue: seq<Binding>, policies: seq<Policy>)
    returns (outcome: Outcome)
    ensures outcome.Planned?
       <==> Constructible(request, catalogue, policies) && UnassessableCoreIds(request.objectiveRefs) == []
    ensures outcome.Planned? ==> PlanMatches(request, catalogue, policies, outcome.plan)
    ensures outcome.Raised? <==> Selects(request, catalogue) && !Constructible(request, catalogue, policies)
    ensures outcome == Raised(NoPolicyForComponent)
       <==> Selects(request, catalogue)
            && !PoliciesPresent(request, Selected(request, Pool(request, catalogue)), policies)
    ensures outcome.Blocked? && outcome.code == NoEligibleComponent
       <==> Proceeds(request) && !MovesConflict(request, catalogue) && Pool(request, catalogue) == []
    ensures outcome.Blocked? && outcome.code == NoEligibleComponent
       <==> Proceeds(request) && !MovesConflict(request, catalogue)
            && forall b <- catalogue ::
                 !(FamilyIdFor(request) in b.strategyFamilyIds && SubjectTagFor(request) in b.subjectTags
                   && request.gradeBand.Some? && request.gradeBand.value in b.gradeBands
                   && (exists a :: a in request.artifactTypes && a in b.artifactTypes)
                   && b.durationMin <= request.durationMinutes && !b.highRisk)
    ensures outcome.Blocked? && outcome.code == PrerequisiteMissing
       <==> FamilyIdFor(request) !in PreferenceValues(request, RejectComponentFamily) && !request.provisional
            && request.researchSignals.Some?
            && request.researchSignals.value.prerequisiteRisk == MissingBlocking
    ensures outcome.Blocked? && outcome.code == FeedbackConflict
       <==> FamilyIdFor(request) in PreferenceValues(request, RejectComponentFamily)
            || (Proceeds(request) && MovesConflict(request, catalogue))
    ensures outcome.Provisional? <==> request.provisional
                                      && FamilyIdFor(request) !in PreferenceValues(request, RejectComponentFamily)
    ensures outcome.Blocked? && outcome.code == CoreObjectiveUncovered
       <==> Constructible(request, catalogue, policies) && UnassessableCoreIds(request.objectiveRefs) != []
    ensures outcome.Blocked? ==> outcome.affected == if outcome.code == CoreObjectiveUncovered
                                                     then UnassessableCoreIds(request.objectiveRefs)
                                                     else AllIds(request.objectiveRefs)
  {
    PoolEmptyExactly(request, catalogue);
    if FamilyIdFor(request) in PreferenceValues(request, RejectComponentFamily) {
      return Blocked(FeedbackConflict, AllIds(request.objectiveRefs));
    }
    if request.provisional {
      return Provisional;
    }
    if Risk(request) == MissingBlocking {
      return Blocked(PrerequisiteMissing, AllIds(request.objectiveRefs));
    }
    var candidates := Eligible(request, catalogue);
    var rejectedMoves := PreferenceValues(request, RejectLearningMove);
    var warnings := [];
    if rejectedMoves != {} {
      var filtered := Filter((b: Binding) => b.learningMoveId !in rejectedMoves, candidates);
      if filtered != [] {
        candidates := filtered;
      } else if HasExplicitFeedback(request, RejectLearningMove) {
        return Blocked(FeedbackConflict, AllIds(request.objectiveRefs));
      } else {
        warnings := [RelaxedMovePreference];
      }
    } else {
      FilterAll((b: Binding) => b.learningMoveId !in rejectedMoves, candidates);
    }
    if candidates == [] {
      return Blocked(NoEligibleComponent, AllIds(request.objectiveRefs));
    }
    var ranked := SortBy(Ranking(request), candidates);
    var selected := DiversePrefix(ranked);
    SelectedAreBest(request, candidates);
    outcome := BuildPlan(request, selected, policies, warnings);
  }

  /** The part of `plan_component_strategy` after the selection. */
  method BuildPlan(request: Request, selected: seq<Binding>, policies: seq<Policy>, relaxed: seq<Warning>)
    returns (outcome: Outcome)
    requires 0 < |selected| <= MAX_SELECTED
    ensures !outcome.Provisional?
    ensures outcome.Raised? <==> !(PoliciesPresent(request, selected, policies) && BudgetsFit(request, selected))
    ensures outcome == Raised(NoPolicyForComponent) <==> !PoliciesPresent(request, selected, policies)
    ensures outcome.Planned? ==> UnassessableCoreIds(request.objectiveRefs) == []
    ensures outcome.Blocked? ==> outcome == Blocked(CoreObjectiveUncovered, UnassessableCoreIds(request.objectiveRefs))
                                 && outcome.affected != []
    ensures outcome.Planned? ==>
      var plan := outcome.plan;
      && AllReplaced(request, policies, selected, plan.bindings)
      && plan.metadata == ExpectedMetadata(request, selected, policies)
      && plan.revision == RevisionFor(plan.metadata)
      && plan.slots == Sequence(request, plan.bindings)
      && |plan.coverage| == |request.objectiveRefs|
      && (forall i :: 0 <= i < |plan.coverage| ==> plan.coverage[i] == CoverageOf(plan.slots, request.objectiveRefs[i]))
      && plan.warnings
         == relaxed + ImplicitWarnings(request, selected)
            + (if exists r :: r in request.objectiveRefs && r.importance == Extension then [ObjectiveDeferred] else [])
  {
    var fallback := ApplyComponentRejections(request, selected, policies);
    if fallback.None? {
      return Raised(NoPolicyForComponent);
    }
    var bindings := fallback.value.bindings;
    if !BudgetsFit(request, bindings) {
      return Raised(BudgetNotConstructible);
    }
    var warnings := relaxed + fallback.value.warnings;
    var slots := Sequence(request, bindings);
    var coverage := CoverageFor(request, slots);
    UncoveredCoreIds(request, slots, request.objectiveRefs, coverage);
    DeferredExactly(request, slots, coverage);
    var uncovered := Filter(CoreUncovered, coverage);
    if uncovered != [] {
      return Blocked(CoreObjectiveUncovered, Map((c: Coverage) => c.objectiveRef.objectiveId, uncovered));
    }
    if exists c :: c in coverage && c.state == Deferred {
      warnings := warnings + [ObjectiveDeferred];
    }
    outcome := Planned(Plan(bindings, slots, coverage, warnings, fallback.value.metadata,
                            RevisionFor(fallback.value.metadata)));
  }

  /** Every plan rests on one to three best-of-type bindings, each kept or replaced in its place. */
  lemma PlansRestOnBestBindings(request: Request, catalogue: seq<Binding>, policies: seq<Policy>, plan: Plan)
    requires PlanMatches(request, catalogue, policies, plan)
    ensures var pool := Pool(request, catalogue);
            && BestOfTheirTypes(request, pool, Selected(request, pool))
            && 1 <= |plan.bindings| <= 3
            && (forall b <- plan.bindings ::
                  && FamilyIdFor(request) in b.strategyFamilyIds && SubjectTagFor(request) in b.subjectTags
                  && request.gradeBand.Some? && request.gradeBand.value in b.gradeBands
                  && (exists a :: a in request.artifactTypes && a in b.artifactTypes)
                  && b.durationMin <= request.durationMinutes && !b.highRisk)
            && (plan.revision.reapprovalRequired
                <==> exists i :: 0 <= i < |plan.bindings| && plan.bindings[i] != Selected(request, pool)[i])
  {
    var selected := Selected(request, Pool(request, catalogue));
    SelectedAreBest(request, Pool(request, catalogue));
    ReapprovalExactly(request, selected, policies,
                      Selection(plan.bindings, plan.metadata, ImplicitWarnings(request, selected)));
    forall b | b in plan.bindings
      ensures FamilyIdFor(request) in b.strategyFamilyIds && SubjectTagFor(request) in b.subjectTags
      ensures request.gradeBand.Some? && request.gradeBand.value in b.gradeBands
      ensures exists a :: a in request.artifactTypes && a in b.artifactTypes
      ensures b.durationMin <= request.durationMinutes && !b.highRisk
    {
      var i :| 0 <= i < |plan.bindings| && plan.bindings[i] == b;
      assert IsReplaced(request, policies, selected[i], b);
      assert selected[i] in selected;
      SelectedServeRequest(request, catalogue, selected[i]);
    }
  }

  /** Every selected binding passes the six filters. */
  lemma SelectedServeRequest(request: Request, catalogue: seq<Binding>, b: Binding)
    requires b in Selected(request, Pool(request, catalogue))
    ensures b in catalogue
    ensures FamilyIdFor(request) in b.strategyFamilyIds && SubjectTagFor(request) in b.subjectTags
    ensures request.gradeBand.Some? && request.gradeBand.value in b.gradeBands
    ensures exists a :: a in request.artifactTypes && a in b.artifactTypes
    ensures b.durationMin <= request.durationMinutes && !b.highRisk
  {
    hide Selected, Pool, Eligible;
    SelectedAreBest(request, Pool(request, catalogue));
    PoolExactly(request, catalogue, b);
    EligibleExactly(request, catalogue, b);
  }
}
