/**
 Requests and catalogue entries of the component strategy selector, and the signals it reads from a request.
 Labels, phases, affordances and other descriptive fields are left out.
 */
module StrategyModels {
  import opened Wrappers

  datatype Importance = Core | Supporting | Extension

  datatype ObjectiveRef = ObjectiveRef(objectiveId: string, importance: Importance, assessable: bool)

  datatype EventType = PreferComponentFamily | RejectComponentFamily | PreferLearningMove | RejectLearningMove
    | RequestMorePractice | RequestLowerTeacherLoad

  datatype FeedbackEvent = FeedbackEvent(eventType: EventType, byTeacher: bool, value: string)

  datatype PrerequisiteRisk = MissingBlocking | MissingScaffoldable | OtherRisk

  datatype ResearchSignals = ResearchSignals(prerequisiteRisk: PrerequisiteRisk, evidenceTags: seq<string>)

  /** `subject` is in lower case; `gradeBand` is what the grade label resolves to. */
  datatype Request = Request(provisional: bool, runId: string, subject: string, gradeBand: Option<string>,
                             durationMinutes: nat, artifactTypes: seq<string>, assessmentIntent: seq<string>,
                             objectiveRefs: seq<ObjectiveRef>, researchSignals: Option<ResearchSignals>,
                             teacherPreferences: Option<seq<FeedbackEvent>>)

  datatype Binding = Binding(bindingId: string, componentType: string, learningMoveId: string,
                             strategyFamilyIds: seq<string>, artifactTypes: seq<string>, subjectTags: seq<string>,
                             gradeBands: seq<string>, evidenceIds: seq<string>, durationMin: nat, durationMax: nat,
                             highRisk: bool, fallbackPolicyId: string)

  datatype PolicyKind = Required | TerminalSafe | NoFallbackAllowed

  datatype Policy = Policy(policyId: string, kind: PolicyKind, fromComponent: string, toComponent: string,
                           reasonCode: string, severity: string, teacherOptions: seq<string>)

  predicate ExamPrep(request: Request) {
    "quiz" in request.artifactTypes
    && ("exam_prep" in request.assessmentIntent || "summative" in request.assessmentIntent)
  }

  predicate LanguageSubject(request: Request) {
    request.subject in {"language", "english", "vietnamese", "literature"}
  }

  function FamilyIdFor(request: Request): string {
    if ExamPrep(request) then "exam_assessment_prep"
    else if LanguageSubject(request) then "vocabulary_language"
    else "concept_math_science"
  }

  function SubjectTagFor(request: Request): string {
    if ExamPrep(request) then "exam_prep"
    else if LanguageSubject(request) then "language"
    else if request.subject in {"math", "science"} then request.subject
    else "concept"
  }

  function Events(request: Request): seq<FeedbackEvent> {
    request.teacherPreferences.GetOr([])
  }

  /** `preference_values`. */
  function PreferenceValues(request: Request, eventType: EventType): set<string> {
    set e | e in Events(request) && e.eventType == eventType :: e.value
  }

  /** `has_explicit_feedback`. */
  predicate HasExplicitFeedback(request: Request, eventType: EventType) {
    exists e :: e in Events(request) && e.eventType == eventType && e.byTeacher
  }

  /** `has_explicit_component_feedback`. */
  predicate ExplicitlyRejected(request: Request, componentType: string) {
    exists e :: e in Events(request) && e.eventType == RejectComponentFamily && e.byTeacher && e.value == componentType
  }

  function Risk(request: Request): PrerequisiteRisk {
    if request.researchSignals.Some? then request.researchSignals.value.prerequisiteRisk else OtherRisk
  }

  function EvidenceTags(request: Request): seq<string> {
    if request.researchSignals.Some? then request.researchSignals.value.evidenceTags else []
  }

  /** The evidence of the binding that the research signals mention. */
  function Matched(binding: Binding, request: Request): set<string> {
    set e | e in binding.evidenceIds && e in EvidenceTags(request)
  }

  predicate Preferred(binding: Binding, request: Request) {
    binding.learningMoveId in PreferenceValues(request, PreferLearningMove)
  }

  /** `score_binding`. */
  function Score(binding: Binding, request: Request): real {
    var base := 1.0 + 0.1 * |Matched(binding, request)| as real;
    if Preferred(binding, request) then base * 1.1 else base
  }

  /**
   How scores compare: by the number of matched evidence items when both or neither learning move is preferred; a
   preferred move makes up for one matched item, and for a tenth of an item more with each item of its own.
   */
  lemma ScoresCompare(a: Binding, b: Binding, request: Request)
    ensures Preferred(a, request) == Preferred(b, request) ==>
      (Score(a, request) > Score(b, request) <==> |Matched(a, request)| > |Matched(b, request)|)
    ensures !Preferred(a, request) && Preferred(b, request) ==>
      (Score(a, request) > Score(b, request) <==> 10 * |Matched(a, request)| > 10 + 11 * |Matched(b, request)|)
    ensures !Preferred(a, request) && Preferred(b, request) ==>
      (Score(a, request) < Score(b, request) <==> 10 * |Matched(a, request)| < 10 + 11 * |Matched(b, request)|)
  {
    var x, y := |Matched(a, request)|, |Matched(b, request)|;
    assert 1.0 + 0.1 * x as real > (1.0 + 0.1 * y as real) * 1.1 <==> 10 * x > 10 + 11 * y;
  }

  function ComponentTypes(bindings: seq<Binding>): set<string> {
    set b | b in bindings :: b.componentType
  }

  function AllEvidence(bindings: seq<Binding>): set<string> {
    set b, e | b in bindings && e in b.evidenceIds :: e
  }
}
