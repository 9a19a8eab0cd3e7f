/** The artifact dependency plan: generation waves, and dependencies that must come from earlier waves. */
module DependencyPlan {
  import opened Wrappers
  import opened Digraph

  datatype Plan = Plan(waves: seq<seq<string>>, dependencies: map<string, seq<string>>)

  datatype Error = UnknownDependency(artifactType: string, dependency: string)
    | ForwardDependency(artifactType: string, dependency: string)

  ghost predicate InWave(waves: seq<seq<string>>, i: int, t: string) {
    0 <= i < |waves| && t in waves[i]
  }

  /** `wave_index_by_type`: a type listed in several waves keeps the last one. */
  function WaveIndexByType(waves: seq<seq<string>>): map<string, int> {
    if waves == [] then map[]
    else
      var n := |waves| - 1;
      WaveIndexByType(waves[..n]) + map t | t in waves[n] :: n
  }

  lemma {:induction false} IndexIsLastWave(waves: seq<seq<string>>, t: string)
    ensures t !in WaveIndexByType(waves) ==> forall i :: !InWave(waves, i, t)
    ensures t in WaveIndexByType(waves) ==> InWave(waves, WaveIndexByType(waves)[t], t)
    ensures t in WaveIndexByType(waves) ==> forall i :: InWave(waves, i, t) ==> i <= WaveIndexByType(waves)[t]
  {
    if waves != [] {
      var n := |waves| - 1;
      IndexIsLastWave(waves[..n], t);
      assert forall i :: InWave(waves, i, t) <==> InWave(waves[..n], i, t) || (i == n && t in waves[n]);
    }
  }

  /** What the validator demands of one dependency of one artifact type. */
  predicate DependencyOk(waves: seq<seq<string>>, t: string, d: string) {
    var index := WaveIndexByType(waves);
    d in index && (t in index ==> index[d] < index[t])
  }

  /** The last wave that lists the type is the `i`-th. */
  ghost predicate LastIn(waves: seq<seq<string>>, i: int, t: string) {
    InWave(waves, i, t) && forall j :: InWave(waves, j, t) ==> j <= i
  }

  /** A dependency is in order when some wave lists it, the last such before the last that lists the type, if any. */
  lemma DependencyOkExactly(waves: seq<seq<string>>, t: string, d: string)
    ensures DependencyOk(waves, t, d)
       <==> (exists i :: InWave(waves, i, d))
            && forall i, j :: LastIn(waves, i, d) && LastIn(waves, j, t) ==> i < j
  {
    var index := WaveIndexByType(waves);
    IndexIsLastWave(waves, t);
    IndexIsLastWave(waves, d);
    if d in index && t in index {
      assert LastIn(waves, index[d], d) && LastIn(waves, index[t], t);
    }
  }

  ghost predicate Accepted(plan: Plan) {
    forall t, d :: t in plan.dependencies && d in plan.dependencies[t] ==> DependencyOk(plan.waves, t, d)
  }

  /** An edge leads from a dependency to the type that depends on it. */
  ghost function Edges(plan: Plan): set<(string, string)> {
    set t, d | t in plan.dependencies && d in plan.dependencies[t] :: (d, t)
  }

  lemma EdgeIsDependency(plan: Plan, d: string, t: string)
    ensures (d, t) in Edges(plan) <==> t in plan.dependencies && d in plan.dependencies[t]
  {
  }

  /** The error names a dependency the validator objects to, and says why. */
  ghost predicate Offends(plan: Plan, error: Error) {
    var t, d := error.artifactType, error.dependency;
    && t in plan.dependencies && d in plan.dependencies[t] && !DependencyOk(plan.waves, t, d)
    && (error.UnknownDependency? <==> forall i :: !InWave(plan.waves, i, d))
  }

  /** `_dependencies_reference_earlier_waves_only`, at construction. */
  method Validate(plan: Plan) returns (error: Option<Error>)
    ensures error == None <==> Accepted(plan)
    ensures error.Some? ==> Offends(plan, error.value)
  {
    var index := WaveIndexByType(plan.waves);
    var rest := plan.dependencies.Keys;
    while rest != {}
      invariant rest <= plan.dependencies.Keys
      invariant forall t, d ::
        t in plan.dependencies.Keys - rest && d in plan.dependencies[t] ==> DependencyOk(plan.waves, t, d)
      decreases rest
    {
      var t :| t in rest;
      var needed := plan.dependencies[t];
      for k := 0 to |needed|
        invariant forall d :: d in needed[..k] ==> DependencyOk(plan.waves, t, d)
      {
        var d := needed[k];
        assert d in needed;
        IndexIsLastWave(plan.waves, d);
        if d !in index {
          return Some(UnknownDependency(t, d));
        }
        if t in index && index[d] >= index[t] {
          return Some(ForwardDependency(t, d));
        }
      }
      assert needed[..|needed|] == needed;
      rest := rest - {t};
    }
    error := None;
  }

  /** `wave_index_of`: the first wave that lists the type. */
  method WaveIndexOf(plan: Plan, t: string) returns (index: Option<int>)
    ensures index == FirstWave(plan.waves, t)
  {
    for i := 0 to |plan.waves|
      invariant forall j :: j < i ==> !InWave(plan.waves, j, t)
    {
      if t in plan.waves[i] {
        FirstWaveIs(plan.waves, t, i);
        return Some(i);
      }
    }
    FirstWaveMeans(plan.waves, t);
    index := None;
  }

  function FirstWave(waves: seq<seq<string>>, t: string): Option<int> {
    if waves == [] then None
    else if t in waves[0] then Some(0)
    else
      var later := FirstWave(waves[1..], t);
      if later.Some? then Some(later.value + 1) else None
  }

  lemma {:induction false} FirstWaveMeans(waves: seq<seq<string>>, t: string)
    ensures FirstWave(waves, t) == None ==> forall i :: !InWave(waves, i, t)
    ensures FirstWave(waves, t).Some? ==> InWave(waves, FirstWave(waves, t).value, t)
    ensures FirstWave(waves, t).Some? ==> forall i :: InWave(waves, i, t) ==> FirstWave(waves, t).value <= i
  {
    if waves != [] && t !in waves[0] {
      FirstWaveMeans(waves[1..], t);
      forall i | InWave(waves, i, t)
        ensures InWave(waves[1..], i - 1, t)
      {
        assert waves[i] == waves[1..][i - 1];
      }
    }
  }

  lemma FirstWaveIs(waves: seq<seq<string>>, t: string, i: int)
    requires InWave(waves, i, t) && forall j :: j < i ==> !InWave(waves, j, t)
    ensures FirstWave(waves, t) == Some(i)
  {
    FirstWaveMeans(waves, t);
  }

  /** `dependencies_of`. */
  function DependenciesOf(plan: Plan, t: string): (needed: seq<string>)
    ensures forall d :: d in needed <==> (d, t) in Edges(plan)
  {
    if t in plan.dependencies then
      plan.dependencies[t]
    else
      []
  }

  // ---- accepted plans are acyclic

  /** The validator's index; a type in no wave ranks above all waves. */
  ghost function Rank(waves: seq<seq<string>>, t: string): int {
    if t in WaveIndexByType(waves) then WaveIndexByType(waves)[t] else |waves|
  }

  lemma AcceptedRaisesRank(plan: Plan)
    requires Accepted(plan)
    ensures Raises(Edges(plan), t => Rank(plan.waves, t))
  {
    forall d, t | (d, t) in Edges(plan)
      ensures Rank(plan.waves, d) < Rank(plan.waves, t)
    {
      EdgeIsDependency(plan, d, t);
      assert DependencyOk(plan.waves, t, d);
      IndexIsLastWave(plan.waves, d);
    }
  }

  /** In an accepted plan no type depends on itself, however indirectly, and every dependency ranks lower. */
  lemma AcceptedIsAcyclic(plan: Plan)
    requires Accepted(plan)
    ensures Acyclic(Edges(plan))
    ensures forall d, t :: Reaches(Edges(plan), d, t) ==> Rank(plan.waves, d) < Rank(plan.waves, t)
  {
    var rank := t => Rank(plan.waves, t);
    AcceptedRaisesRank(plan);
    RankedIsAcyclic(Edges(plan), rank);
    forall d, t | Reaches(Edges(plan), d, t)
      ensures Rank(plan.waves, d) < Rank(plan.waves, t)
    {
      ReachRaisesRank(Edges(plan), rank, d, t);
    }
  }

  // ---- the two wave lookups

  ghost predicate ListedOnce(waves: seq<seq<string>>, t: string) {
    forall i, j :: InWave(waves, i, t) && InWave(waves, j, t) ==> i == j
  }

  ghost predicate InOneWave(waves: seq<seq<string>>) {
    forall t :: ListedOnce(waves, t)
  }

  ghost predicate LookupsAgree(waves: seq<seq<string>>, t: string) {
    FirstWave(waves, t) == if t in WaveIndexByType(waves) then Some(WaveIndexByType(waves)[t]) else None
  }

  /** `wave_index_of` agrees with the index the validator used exactly when no type is listed in two waves. */
  lemma LookupsAgreeExactly(waves: seq<seq<string>>)
    ensures (forall t :: LookupsAgree(waves, t)) <==> InOneWave(waves)
  {
    forall t
      ensures LookupsAgree(waves, t) <==> ListedOnce(waves, t)
    {
      FirstWaveMeans(waves, t);
      IndexIsLastWave(waves, t);
    }
  }

  // ---- running the waves in order

  /** Everything started in the waves before wave `i`. */
  ghost function Before(waves: seq<seq<string>>, i: int): set<string>
    requires 0 <= i <= |waves|
  {
    set j, t | 0 <= j < i && t in waves[j] :: t
  }

  /** Whenever a wave starts a type, all it depends on, however indirectly, was started in an earlier wave. */
  ghost predicate WavesRespectDependencies(plan: Plan) {
    forall i, d, t :: InWave(plan.waves, i, t) && Reaches(Edges(plan), d, t) ==> d in Before(plan.waves, i)
  }

  /** `wave_index_of` puts the dependency strictly earlier. */
  predicate EarlierByLookup(waves: seq<seq<string>>, d: string, t: string) {
    FirstWave(waves, t).Some? ==> FirstWave(waves, d).Some? && FirstWave(waves, d).value < FirstWave(waves, t).value
  }

  lemma BeforeByLookup(waves: seq<seq<string>>, i: int, d: string)
    requires 0 <= i <= |waves|
    ensures d in Before(waves, i) <==> FirstWave(waves, d).Some? && FirstWave(waves, d).value < i
  {
    FirstWaveMeans(waves, d);
    if d in Before(waves, i) {
      var j :| 0 <= j < i && d in waves[j];
      assert InWave(waves, j, d);
    }
  }

  lemma LookupRankRises(plan: Plan)
    requires Accepted(plan)
    requires forall d, t :: (d, t) in Edges(plan) ==> EarlierByLookup(plan.waves, d, t)
    ensures Raises(Edges(plan), t => FirstWave(plan.waves, t).GetOr(|plan.waves|))
  {
    forall d, t | (d, t) in Edges(plan)
      ensures FirstWave(plan.waves, d).GetOr(|plan.waves|) < FirstWave(plan.waves, t).GetOr(|plan.waves|)
    {
      EdgeIsDependency(plan, d, t);
      assert DependencyOk(plan.waves, t, d) && EarlierByLookup(plan.waves, d, t);
      IndexIsLastWave(plan.waves, d);
      FirstWaveMeans(plan.waves, d);
    }
  }

  /**
   Running the waves of an accepted plan in order starts every type after its whole transitive dependency set exactly
   when `wave_index_of` puts each direct dependency before its dependent.
   */
  lemma WavesRespectDependenciesExactly(plan: Plan)
    requires Accepted(plan)
    ensures WavesRespectDependencies(plan)
       <==> forall d, t :: (d, t) in Edges(plan) ==> EarlierByLookup(plan.waves, d, t)
  {
    if forall d, t :: (d, t) in Edges(plan) ==> EarlierByLookup(plan.waves, d, t) {
      LookupRankRises(plan);
      forall i, d, t | InWave(plan.waves, i, t) && Reaches(Edges(plan), d, t)
        ensures d in Before(plan.waves, i)
      {
        ReachRaisesRank(Edges(plan), t => FirstWave(plan.waves, t).GetOr(|plan.waves|), d, t);
        FirstWaveMeans(plan.waves, t);
        BeforeByLookup(plan.waves, i, d);
      }
    }
    if WavesRespectDependencies(plan) {
      forall d, t | (d, t) in Edges(plan)
        ensures EarlierByLookup(plan.waves, d, t)
      {
        ReachesEdge(Edges(plan), d, t);
        FirstWaveMeans(plan.waves, t);
        if FirstWave(plan.waves, t).Some? {
          BeforeByLookup(plan.waves, FirstWave(plan.waves, t).value, d);
        }
      }
    }
  }

  /** In particular the waves respect the dependencies when no type is listed twice. */
  lemma OneWaveRespectsDependencies(plan: Plan)
    requires Accepted(plan) && InOneWave(plan.waves)
    ensures WavesRespectDependencies(plan)
  {
    LookupsAgreeExactly(plan.waves);
    forall d, t | (d, t) in Edges(plan)
      ensures EarlierByLookup(plan.waves, d, t)
    {
      EdgeIsDependency(plan, d, t);
      assert DependencyOk(plan.waves, t, d);
      assert LookupsAgree(plan.waves, d) && LookupsAgree(plan.waves, t);
    }
    WavesRespectDependenciesExactly(plan);
  }

  /** The quiz depends on the lesson, and is listed both before and after it. */
  function QuizTwice(): Plan {
    Plan([["quiz"], ["lesson"], ["quiz"]], map["quiz" := ["lesson"]])
  }

  /** A type listed twice slips through: the validator sees its last wave, but its first one starts it too early. */
  lemma ListedTwiceSlipsThrough()
    ensures Accepted(QuizTwice()) && InWave(QuizTwice().waves, 0, "quiz")
    ensures Reaches(Edges(QuizTwice()), "lesson", "quiz") && "lesson" !in Before(QuizTwice().waves, 0)
    ensures !WavesRespectDependencies(QuizTwice())
  {
    var plan := QuizTwice();
    forall t, d | t in plan.dependencies && d in plan.dependencies[t]
      ensures DependencyOk(plan.waves, t, d)
    {
      assert t == "quiz" && d == "lesson";
      assert InWave(plan.waves, 1, "lesson") && InWave(plan.waves, 2, "quiz");
      IndexIsLastWave(plan.waves, "lesson");
      IndexIsLastWave(plan.waves, "quiz");
      assert !InWave(plan.waves, 2, "lesson");
    }
    EdgeIsDependency(plan, "lesson", "quiz");
    ReachesEdge(Edges(plan), "lesson", "quiz");
    assert InWave(plan.waves, 0, "quiz");
  }
}
