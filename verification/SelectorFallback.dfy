/** Replacing rejected components by their fallbacks, and what the result reports about it. */
module SelectorFallback {
  import opened Wrappers
  import opened Sequences
  import opened Digraph
  import opened StrategyModels
  import opened FallbackGraph

  datatype Metadata = Metadata(originalComponent: string, fallbackComponent: string, reasonCode: string,
                               severity: string)

  datatype Warning = RelaxedComponent(componentType: string) | RelaxedMovePreference | ObjectiveDeferred

  datatype Selection = Selection(bindings: seq<Binding>, metadata: Option<Metadata>, warnings: seq<Warning>)

  datatype Revision = Revision(reason: string, teacherVisible: bool, reapprovalRequired: bool)

  /** `fallback_by_component`: a later policy for the same component replaces an earlier one. */
  function PolicyByComponent(policies: seq<Policy>): map<string, Policy> {
    if policies == [] then map[]
    else
      var last := policies[|policies| - 1];
      PolicyByComponent(policies[..|policies| - 1])[last.fromComponent := last]
  }

  lemma {:induction false} PolicyByComponentMeans(policies: seq<Policy>)
    ensures PolicyByComponent(policies).Keys == FallbackMap(policies).Keys
    ensures forall c <- PolicyByComponent(policies) ::
      var p := PolicyByComponent(policies)[c];
      p in policies && p.fromComponent == c && p.toComponent == FallbackMap(policies)[c]
    ensures forall p <- policies :: p.fromComponent in PolicyByComponent(policies)
  {
    if policies != [] {
      var n := |policies| - 1;
      PolicyByComponentMeans(policies[..n]);
      assert policies == policies[..n] + [policies[n]];
    }
  }

  /** The binding is rejected, by teacher or by system. */
  predicate Rejected(request: Request, binding: Binding) {
    binding.componentType in PreferenceValues(request, RejectComponentFamily)
  }

  predicate ExplicitReject(request: Request, binding: Binding) {
    ExplicitlyRejected(request, binding.componentType)
  }

  predicate ImplicitReject(request: Request, binding: Binding) {
    Rejected(request, binding) && !ExplicitReject(request, binding)
  }

  lemma ExplicitIsRejected(request: Request, binding: Binding)
    requires ExplicitReject(request, binding)
    ensures Rejected(request, binding)
  {
    var e :| e in Events(request) && e.eventType == RejectComponentFamily && e.byTeacher
             && e.value == binding.componentType;
    assert e.value in PreferenceValues(request, RejectComponentFamily);
  }

  function Replacement(binding: Binding, policy: Policy): Binding {
    binding.(bindingId := binding.bindingId + ".fallback." + policy.policyId,
             componentType := policy.toComponent,
             fallbackPolicyId := policy.policyId)
  }

  function MetadataFrom(policy: Policy, original: string): Metadata {
    Metadata(original, policy.toComponent, policy.reasonCode, policy.severity)
  }

  /** Every component the teacher rejected among the selected has a policy to fall back on. */
  predicate PoliciesPresent(request: Request, bindings: seq<Binding>, policies: seq<Policy>) {
    forall b :: b in bindings && ExplicitReject(request, b) ==> b.componentType in PolicyByComponent(policies)
  }

  /** A selected binding after fallback: replaced exactly when a teacher rejected its component. */
  predicate IsReplaced(request: Request, policies: seq<Policy>, before: Binding, after: Binding) {
    if ExplicitReject(request, before) then
      before.componentType in PolicyByComponent(policies)
      && after == Replacement(before, PolicyByComponent(policies)[before.componentType])
    else after == before
  }

  /** The last of the selected bindings that a teacher rejected. */
  function LastExplicit(request: Request, bindings: seq<Binding>): Option<Binding> {
    if bindings == [] then None
    else
      var last := bindings[|bindings| - 1];
      if ExplicitReject(request, last) then Some(last) else LastExplicit(request, bindings[..|bindings| - 1])
  }

  function ImplicitWarnings(request: Request, bindings: seq<Binding>): seq<Warning> {
    Map((b: Binding) => RelaxedComponent(b.componentType), Filter((b: Binding) => ImplicitReject(request, b), bindings))
  }

  lemma ImplicitWarningsAppend(request: Request, bindings: seq<Binding>, b: Binding)
    ensures ImplicitWarnings(request, bindings + [b])
         == ImplicitWarnings(request, bindings)
            + (if ImplicitReject(request, b) then [RelaxedComponent(b.componentType)] else [])
  {
    FilterAppend((b: Binding) => ImplicitReject(request, b), bindings, b);
  }

  lemma {:induction false} NoWarningsWithoutRejections(request: Request, bindings: seq<Binding>)
    requires forall b <- bindings :: !Rejected(request, b)
    ensures LastExplicit(request, bindings) == None && ImplicitWarnings(request, bindings) == []
  {
    if bindings != [] {
      var n := |bindings| - 1;
      assert bindings == bindings[..n] + [bindings[n]];
      NoWarningsWithoutRejections(request, bindings[..n]);
      ImplicitWarningsAppend(request, bindings[..n], bindings[n]);
      if ExplicitReject(request, bindings[n]) {
        ExplicitIsRejected(request, bindings[n]);
      }
    }
  }

  /** The metadata describes the last replacement. */
  function ExpectedMetadata(request: Request, bindings: seq<Binding>, policies: seq<Policy>): Option<Metadata> {
    var last := LastExplicit(request, bindings);
    var byComponent := PolicyByComponent(policies);
    if last.Some? && last.value.componentType in byComponent then
      Some(MetadataFrom(byComponent[last.value.componentType], last.value.componentType))
    else
      None
  }

  ghost predicate AllReplaced(request: Request, policies: seq<Policy>, before: seq<Binding>, after: seq<Binding>) {
    |after| == |before| && forall i :: 0 <= i < |before| ==> IsReplaced(request, policies, before[i], after[i])
  }

  /** What the fallback step reports for the selected `bindings`. */
  ghost predicate SelectionMatches(request: Request, bindings: seq<Binding>, policies: seq<Policy>, s: Selection) {
    && AllReplaced(request, policies, bindings, s.bindings)
    && s.warnings == ImplicitWarnings(request, bindings)
    && s.metadata == ExpectedMetadata(request, bindings, policies)
  }

  lemma SelectionGrows(request: Request, bindings: seq<Binding>, policies: seq<Policy>, s: Selection, b: Binding,
                       after: Binding)
    requires SelectionMatches(request, bindings, policies, s) && IsReplaced(request, policies, b, after)
    ensures AllReplaced(request, policies, bindings + [b], s.bindings + [after])
    ensures ImplicitWarnings(request, bindings + [b])
         == s.warnings + (if ImplicitReject(request, b) then [RelaxedComponent(b.componentType)] else [])
    ensures ExpectedMetadata(request, bindings + [b], policies)
         == if ExplicitReject(request, b) then
              Some(MetadataFrom(PolicyByComponent(policies)[b.componentType], b.componentType))
            else s.metadata
  {
    ImplicitWarningsAppend(request, bindings, b);
    assert (bindings + [b])[..|bindings|] == bindings;
  }

  /** `apply_component_rejections`; no result when a rejected component has no policy, where the source raises. */
  method ApplyComponentRejections(request: Request, bindings: seq<Binding>, policies: seq<Policy>)
    returns (selection: Option<Selection>)
    ensures selection.Some? <==> PoliciesPresent(request, bindings, policies)
    ensures selection.Some? ==> SelectionMatches(request, bindings, policies, selection.value)
  {
    var rejected := PreferenceValues(request, RejectComponentFamily);
    if rejected == {} {
      forall b ensures !Rejected(request, b) && !ExplicitReject(request, b) {
        if ExplicitReject(request, b) { ExplicitIsRejected(request, b); }
      }
      NoWarningsWithoutRejections(request, bindings);
      return Some(Selection(bindings, None, []));
    }
    var byComponent := PolicyByComponent(policies);
    var s := Selection([], None, []);
    for i := 0 to |bindings|
      invariant PoliciesPresent(request, bindings[..i], policies)
      invariant SelectionMatches(request, bindings[..i], policies, s)
    {
      var b := bindings[i];
      assert bindings[..i + 1] == bindings[..i] + [b];
      if b.componentType !in rejected {
        if ExplicitReject(request, b) { ExplicitIsRejected(request, b); }
        SelectionGrows(request, bindings[..i], policies, s, b, b);
        s := s.(bindings := s.bindings + [b]);
      } else if !ExplicitlyRejected(request, b.componentType) {
        SelectionGrows(request, bindings[..i], policies, s, b, b);
        s := s.(bindings := s.bindings + [b], warnings := s.warnings + [RelaxedComponent(b.componentType)]);
      } else {
        if b.componentType !in byComponent {
          assert b in bindings && ExplicitReject(request, b);
          return None;
        }
        var policy := byComponent[b.componentType];
        SelectionGrows(request, bindings[..i], policies, s, b, Replacement(b, policy));
        s := s.(bindings := s.bindings + [Replacement(b, policy)],
                metadata := Some(MetadataFrom(policy, b.componentType)));
      }
    }
    assert bindings[..|bindings|] == bindings;
    selection := Some(s);
  }

  function RevisionFor(metadata: Option<Metadata>): Revision {
    if metadata.None? then Revision("initial deterministic selection", false, false)
    else Revision("fallback applied: " + metadata.value.reasonCode, true, true)
  }

  lemma {:induction false} LastExplicitHasPolicy(request: Request, bindings: seq<Binding>, policies: seq<Policy>,
                                                 after: seq<Binding>)
    requires AllReplaced(request, policies, bindings, after)
    ensures LastExplicit(request, bindings).Some? ==> ExpectedMetadata(request, bindings, policies).Some?
  {
    if bindings != [] {
      var n := |bindings| - 1;
      assert IsReplaced(request, policies, bindings[n], after[n]);
      LastExplicitHasPolicy(request, bindings[..n], policies, after[..n]);
    }
  }

  lemma {:induction false} LastExplicitExists(request: Request, bindings: seq<Binding>)
    ensures LastExplicit(request, bindings).Some? <==> exists b :: b in bindings && ExplicitReject(request, b)
  {
    if bindings != [] {
      var n := |bindings| - 1;
      LastExplicitExists(request, bindings[..n]);
      assert bindings == bindings[..n] + [bindings[n]];
      if b :| b in bindings && ExplicitReject(request, b) {
        assert b in bindings[..n] || b == bindings[n];
      }
      if ExplicitReject(request, bindings[n]) {
        assert bindings[n] in bindings;
      }
    }
  }

  /** Metadata and teacher re-approval appear exactly when a teacher's rejection replaced a binding. */
  lemma ReapprovalExactly(request: Request, bindings: seq<Binding>, policies: seq<Policy>, s: Selection)
    requires SelectionMatches(request, bindings, policies, s)
    ensures s.metadata.Some? <==> exists i :: 0 <= i < |bindings| && s.bindings[i] != bindings[i]
    ensures RevisionFor(s.metadata).reapprovalRequired
       <==> exists i :: 0 <= i < |bindings| && s.bindings[i] != bindings[i]
  {
    LastExplicitExists(request, bindings);
    LastExplicitHasPolicy(request, bindings, policies, s.bindings);
    forall i | 0 <= i < |bindings|
      ensures s.bindings[i] != bindings[i] <==> ExplicitReject(request, bindings[i])
    {
      assert IsReplaced(request, policies, bindings[i], s.bindings[i]);
      if ExplicitReject(request, bindings[i]) {
        assert |s.bindings[i].bindingId| > |bindings[i].bindingId|;
      }
    }
    if b :| b in bindings && ExplicitReject(request, b) {
      var i :| 0 <= i < |bindings| && bindings[i] == b;
    }
  }

  /** With an accepted knowledge source no replacement keeps the rejected component. */
  lemma AcceptedFallbacksReplace(known: set<string>, catalogue: seq<Binding>, policies: seq<Policy>,
                                 request: Request, bindings: seq<Binding>, s: Selection)
    requires FallbacksOk(known, catalogue, policies) && SelectionMatches(request, bindings, policies, s)
    ensures forall i :: 0 <= i < |bindings| && ExplicitReject(request, bindings[i]) ==>
      s.bindings[i].componentType != bindings[i].componentType
  {
    var graph := FallbackMap(policies);
    PolicyByComponentMeans(policies);
    forall i | 0 <= i < |bindings| && ExplicitReject(request, bindings[i])
      ensures s.bindings[i].componentType != bindings[i].componentType
    {
      var c := bindings[i].componentType;
      assert IsReplaced(request, policies, bindings[i], s.bindings[i]);
      if graph[c] == c {
        ReachesEdge(MapEdges(graph), c, c);
      }
    }
  }

  /** With an accepted knowledge source the fallback step never fails on bindings whose own policy is a required one. */
  lemma RequiredPoliciesPresent(known: set<string>, catalogue: seq<Binding>, policies: seq<Policy>,
                                request: Request, bindings: seq<Binding>)
    requires FallbacksOk(known, catalogue, policies)
    requires forall b <- bindings :: b in catalogue && PoliciesById(policies)[b.fallbackPolicyId].kind == Required
    ensures PoliciesPresent(request, bindings, policies)
  {
    PolicyByComponentMeans(policies);
    forall b | b in bindings
      ensures b.componentType in PolicyByComponent(policies)
    {
      assert b in catalogue;
      assert b.componentType in RequiredSources(policies);
    }
  }

  /**
   A selected binding ends on a component the teacher rejected exactly when its own component was rejected and the
   policy for that leads to another rejected one: a fallback is a single hop.
   */
  lemma FallbackLandsExactly(request: Request, bindings: seq<Binding>, policies: seq<Policy>, s: Selection, i: nat)
    requires SelectionMatches(request, bindings, policies, s) && i < |bindings|
    ensures var component := bindings[i].componentType;
            ExplicitReject(request, s.bindings[i])
            <==> ExplicitReject(request, bindings[i]) && component in FallbackMap(policies)
                 && ExplicitlyRejected(request, FallbackMap(policies)[component])
  {
    PolicyByComponentMeans(policies);
    assert IsReplaced(request, policies, bindings[i], s.bindings[i]);
  }

  /** A teacher rejects two components, and the policy of the first leads to the second. */
  function TwoRejections(): Request {
    Request(false, "run", "math", None, 45, ["quiz"], [], [], None,
            Some([FeedbackEvent(RejectComponentFamily, true, "timeline"),
                  FeedbackEvent(RejectComponentFamily, true, "bullet_list")]))
  }

  function TimelineToBullets(): seq<Policy> {
    [Policy("p1", TerminalSafe, "timeline", "bullet_list", "reason", "info", [])]
  }

  function TimelineBinding(): Binding {
    Binding("b1", "timeline", "move", ["family"], ["quiz"], ["math"], ["grades_6_8"], ["evidence"], 5, 10, false, "p1")
  }

  /** The fallback of the rejected timeline is the rejected bullet list. */
  lemma FallbackLandsOnRejected(s: Selection)
    requires SelectionMatches(TwoRejections(), [TimelineBinding()], TimelineToBullets(), s)
    ensures PoliciesPresent(TwoRejections(), [TimelineBinding()], TimelineToBullets())
    ensures s.bindings[0].componentType == "bullet_list" && ExplicitlyRejected(TwoRejections(), "bullet_list")
  {
    var request, policies := TwoRejections(), TimelineToBullets();
    var events := Events(request);
    assert events[0] in events && events[1] in events;
    assert ExplicitlyRejected(request, "timeline") && ExplicitlyRejected(request, "bullet_list");
    var only := policies[0];
    assert policies[..0] == [] && PolicyByComponent(policies[..0]) == map[];
    assert PolicyByComponent(policies) == PolicyByComponent(policies[..0])["timeline" := only];
    assert IsReplaced(request, policies, TimelineBinding(), s.bindings[0]);
  }
}
