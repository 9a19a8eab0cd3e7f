/**
 The deterministic multi-objective optimizer: hard constraints filter, Pareto dominance keeps a frontier,
 a lexicographic rank with a weighted sum picks the winner. Floats are exact reals.
 */
module Optimizer {
  import opened Sequences
  import opened Wrappers
  import opened Ordering

  datatype ConstraintResult = ConstraintResult(constraintId: string, passed: bool)

  datatype Metric = Metric(name: string, value: real)

  datatype Candidate = Candidate(id: string, constraints: seq<ConstraintResult>, metrics: seq<Metric>, cost: nat) {
    predicate Feasible() {
      forall c <- constraints :: c.passed
    }
  }

  /** `weights` are the items of the `metric_weights` dictionary in sorted order, so their names differ. */
  datatype Policy = Policy(version: string, seed: int, weights: seq<(string, real)>, priority: seq<string>,
                           maxCandidates: nat, maxCost: nat) {
    ghost predicate Valid() {
      && maxCandidates >= 1 && maxCost >= 1
      && forall i, j :: 0 <= i < j < |weights| ==> weights[i].0 != weights[j].0
    }
  }

  datatype Decision = Decision(policyVersion: string, selected: Option<string>, alternatives: seq<string>,
                               frontier: seq<string>, failedConstraints: Option<seq<string>>)

  /** The metrics as a dictionary: a repeated name keeps its last value. */
  function MetricMap(ms: seq<Metric>): map<string, real> {
    if ms == [] then map[] else MetricMap(ms[..|ms| - 1])[ms[|ms| - 1].name := ms[|ms| - 1].value]
  }

  function Value(c: Candidate, name: string): real {
    var m := MetricMap(c.metrics);
    if name in m then m[name] else 0.0
  }

  predicate Dominates(left: Candidate, right: Candidate) {
    var names := MetricMap(left.metrics).Keys + MetricMap(right.metrics).Keys;
    && (forall name <- names :: Value(left, name) >= Value(right, name))
    && (exists name <- names :: Value(left, name) > Value(right, name))
  }

  function LexValues(c: Candidate, priority: seq<string>): seq<real> {
    Map(name => Value(c, name), priority)
  }

  function Weighted(c: Candidate, weights: seq<(string, real)>): real {
    if weights == [] then 0.0
    else Value(c, weights[0].0) * weights[0].1 + Weighted(c, weights[1..])
  }

  /** What the policy cares about: the prioritized metrics, then the weighted sum. */
  function Merit(c: Candidate, policy: Policy): seq<real> {
    LexValues(c, policy.priority) + [Weighted(c, policy.weights)]
  }

  function RankKey(c: Candidate, policy: Policy): seq<real> {
    Merit(c, policy) + [-(c.cost as real)]
  }

  /** `a` ranks no lower than `b`: by rank key, then by id. */
  predicate RanksAbove(policy: Policy, a: Candidate, b: Candidate) {
    && TupleLe(RankKey(b, policy), RankKey(a, policy))
    && (RankKey(b, policy) == RankKey(a, policy) ==> StringLe(b.id, a.id))
  }

  function Ranking(policy: Policy): (Candidate, Candidate) -> bool {
    (a, b) => RanksAbove(policy, a, b)
  }

  function ById(): (Candidate, Candidate) -> bool {
    (a: Candidate, b: Candidate) => StringLe(a.id, b.id)
  }

  function Bounded(candidates: seq<Candidate>, policy: Policy): seq<Candidate> {
    Filter((c: Candidate) => c.cost <= policy.maxCost, Take(SortBy(ById(), candidates), policy.maxCandidates))
  }

  function FeasibleOnes(candidates: seq<Candidate>, policy: Policy): seq<Candidate> {
    Filter((c: Candidate) => c.Feasible(), Bounded(candidates, policy))
  }

  predicate BeatenByAnother(feasible: seq<Candidate>, c: Candidate) {
    exists other <- feasible :: other.id != c.id && Dominates(other, c)
  }

  function Frontier(feasible: seq<Candidate>): seq<Candidate> {
    Filter(c => !BeatenByAnother(feasible, c), feasible)
  }

  function Ranked(candidates: seq<Candidate>, policy: Policy): seq<Candidate> {
    SortBy(Ranking(policy), Frontier(FeasibleOnes(candidates, policy)))
  }

  function FailedIds(results: seq<ConstraintResult>): set<string> {
    set r | r in results && !r.passed :: r.constraintId
  }

  function AllFailed(bounded: seq<Candidate>): set<string> {
    set c, r | c in bounded && r in c.constraints && !r.passed :: r.constraintId
  }

  /** The failing constraint ids of all candidates, one by one, first repetition kept. */
  function FailedSeq(bounded: seq<Candidate>): (ids: seq<string>)
    ensures forall i, j :: 0 <= i < j < |ids| ==> ids[i] != ids[j]
    ensures forall id :: id in ids <==> id in AllFailed(bounded)
  {
    if bounded == [] then []
    else
      var c, rest := bounded[0], FailedSeq(bounded[1..]);
      assert bounded == [c] + bounded[1..];
      Merge(c.constraints, rest)
  }

  function Merge(results: seq<ConstraintResult>, ids: seq<string>): (r: seq<string>)
    requires forall i, j :: 0 <= i < j < |ids| ==> ids[i] != ids[j]
    ensures forall i, j :: 0 <= i < j < |r| ==> r[i] != r[j]
    ensures forall id :: id in r <==> id in ids || id in FailedIds(results)
  {
    if results == [] then ids
    else
      var rest := Merge(results[1..], ids);
      assert results == [results[0]] + results[1..];
      assert FailedIds(results) ==
             FailedIds(results[1..]) + (if results[0].passed then {} else {results[0].constraintId});
      if results[0].passed || results[0].constraintId in rest then rest else rest + [results[0].constraintId]
  }

  function Ids(cs: seq<Candidate>): seq<string> {
    Map((c: Candidate) => c.id, cs)
  }

  function OptimizePrograms(candidates: seq<Candidate>, policy: Policy): Decision {
    var feasible := FeasibleOnes(candidates, policy);
    var ranked := Ranked(candidates, policy);
    if feasible == [] || ranked == [] then
      Decision(policy.version, None, [], [], Some(SortBy(StringLe, FailedSeq(Bounded(candidates, policy)))))
    else
      Decision(policy.version, Some(ranked[0].id), Ids(Take(ranked[1..], 3)),
               SortBy(StringLe, Ids(Frontier(feasible))), None)
  }

  // ---- dominance is a strict partial order, so a frontier exists

  lemma DominatesEverywhere(left: Candidate, right: Candidate)
    requires Dominates(left, right)
    ensures forall name :: Value(left, name) >= Value(right, name)
    ensures exists name :: Value(left, name) > Value(right, name)
  {
    var names := MetricMap(left.metrics).Keys + MetricMap(right.metrics).Keys;
    forall name
      ensures Value(left, name) >= Value(right, name)
    {
      if name !in names {
        assert Value(left, name) == 0.0 == Value(right, name);
      }
    }
  }

  lemma DominanceIsStrictOrder(a: Candidate, b: Candidate, c: Candidate)
    ensures !Dominates(a, a)
    ensures Dominates(a, b) && Dominates(b, c) ==> Dominates(a, c)
  {
    if Dominates(a, b) && Dominates(b, c) {
      DominatesEverywhere(a, b);
      DominatesEverywhere(b, c);
      var name :| Value(a, name) > Value(b, name);
      assert Value(a, name) > Value(c, name);
      assert name in MetricMap(a.metrics).Keys + MetricMap(c.metrics).Keys;
    }
  }

  ghost function Betters(s: seq<Candidate>, c: Candidate): set<Candidate> {
    set d | d in s && Dominates(d, c)
  }

  /** Above every candidate (or at it) there is one that nothing dominates. */
  lemma UndominatedAbove(s: seq<Candidate>, c: Candidate) returns (m: Candidate)
    requires c in s
    ensures m in s && (m == c || Dominates(m, c)) && forall d <- s :: !Dominates(d, m)
    decreases Betters(s, c)
  {
    if Betters(s, c) == {} {
      m := c;
      forall d | d in s
        ensures !Dominates(d, c)
      {
        assert d !in Betters(s, c);
      }
    } else {
      var d :| d in Betters(s, c);
      forall e | e in Betters(s, d)
        ensures e in Betters(s, c)
      {
        DominanceIsStrictOrder(e, d, c);
      }
      DominanceIsStrictOrder(d, d, d);
      assert d !in Betters(s, d);
      m := UndominatedAbove(s, d);
      DominanceIsStrictOrder(m, d, c);
    }
  }

  /** Every feasible candidate is on the frontier or dominated by a member of it. */
  lemma FrontierCovers(feasible: seq<Candidate>, c: Candidate) returns (m: Candidate)
    requires c in feasible
    ensures m in Frontier(feasible) && (m == c || Dominates(m, c))
    ensures c !in Frontier(feasible) ==> Dominates(m, c)
  {
    m := UndominatedAbove(feasible, c);
    FilterMembers(x => !BeatenByAnother(feasible, x), feasible);
    assert !BeatenByAnother(feasible, m);
  }

  // ---- the ranking

  lemma RankingIsOrder(policy: Policy)
    ensures TotalPreorder(Ranking(policy))
  {
    var le := Ranking(policy);
    forall a, b
      ensures le(a, b) || le(b, a)
    {
      TupleLeTotal(RankKey(a, policy), RankKey(b, policy));
      StringLeTotal(a.id, b.id);
    }
    forall a, b, c | le(a, b) && le(b, c)
      ensures le(a, c)
    {
      TupleLeTransitive(RankKey(c, policy), RankKey(b, policy), RankKey(a, policy));
      TupleLeTotal(RankKey(a, policy), RankKey(b, policy));
      if RankKey(a, policy) == RankKey(c, policy) {
        StringLeTransitive(c.id, b.id, a.id);
      }
    }
  }

  /** Both candidates have the first `n` prioritized metrics in common. */
  ghost predicate LevelUpTo(policy: Policy, a: Candidate, b: Candidate, n: nat) {
    n <= |policy.priority| && forall k :: 0 <= k < n ==> Value(a, policy.priority[k]) == Value(b, policy.priority[k])
  }

  /** The first prioritized metric that differs is greater in `a`. */
  ghost predicate WinsOnPriority(policy: Policy, a: Candidate, b: Candidate) {
    exists k :: 0 <= k < |policy.priority| && LevelUpTo(policy, a, b, k)
                && Value(a, policy.priority[k]) > Value(b, policy.priority[k])
  }

  /** `a` comes before `b`: by prioritized metrics, then the greater sum, then the lower cost, then the greater id. */
  ghost predicate Outranks(policy: Policy, a: Candidate, b: Candidate) {
    var x, y := Weighted(a, policy.weights), Weighted(b, policy.weights);
    WinsOnPriority(policy, a, b)
    || (LevelUpTo(policy, a, b, |policy.priority|)
        && (x > y || (x == y && (a.cost < b.cost || (a.cost == b.cost && StringLe(b.id, a.id))))))
  }

  lemma LexValuesPart(policy: Policy, a: Candidate, b: Candidate, k: nat)
    ensures TuplesPartAt(LexValues(b, policy.priority), LexValues(a, policy.priority), k)
       <==> k < |policy.priority| && LevelUpTo(policy, a, b, k)
            && Value(a, policy.priority[k]) > Value(b, policy.priority[k])
  {
    hide Value;
    var lexA, lexB := LexValues(a, policy.priority), LexValues(b, policy.priority);
    if k < |policy.priority| {
      assert lexA[..k] == lexB[..k] <==> LevelUpTo(policy, a, b, k) by {
        if lexA[..k] == lexB[..k] {
          forall j | 0 <= j < k
            ensures Value(a, policy.priority[j]) == Value(b, policy.priority[j])
          {
            assert lexA[..k][j] == lexA[j] && lexB[..k][j] == lexB[j];
          }
        }
      }
    }
  }

  lemma WinsAtFirstDifference(policy: Policy, a: Candidate, b: Candidate)
    ensures WinsOnPriority(policy, a, b)
       <==> exists k: nat :: TuplesPartAt(LexValues(b, policy.priority), LexValues(a, policy.priority), k)
  {
    hide Value, LexValues;
    var lexA, lexB := LexValues(a, policy.priority), LexValues(b, policy.priority);
    if k: nat :| TuplesPartAt(lexB, lexA, k) {
      LexValuesPart(policy, a, b, k);
    }
    if k :| 0 <= k < |policy.priority| && LevelUpTo(policy, a, b, k)
            && Value(a, policy.priority[k]) > Value(b, policy.priority[k]) {
      LexValuesPart(policy, a, b, k);
      assert TuplesPartAt(lexB, lexA, k);
    }
  }

  lemma RanksAboveExactly(policy: Policy, a: Candidate, b: Candidate)
    ensures RanksAbove(policy, a, b) <==> Outranks(policy, a, b)
  {
    hide Value, Weighted;
    var lexA, lexB := LexValues(a, policy.priority), LexValues(b, policy.priority);
    var x, y := Weighted(a, policy.weights), Weighted(b, policy.weights);
    var lastA, lastB := [x, -(a.cost as real)], [y, -(b.cost as real)];
    assert RankKey(a, policy) == lexA + lastA && RankKey(b, policy) == lexB + lastB;
    TupleLeExactly(lexB, lexA, lastB, lastA);
    WinsAtFirstDifference(policy, a, b);
    assert lexA == lexB <==> LevelUpTo(policy, a, b, |policy.priority|) by {
      forall k | 0 <= k < |policy.priority|
        ensures lexA[k] == Value(a, policy.priority[k]) && lexB[k] == Value(b, policy.priority[k])
      {
      }
    }
    LastComponents(y, -(b.cost as real), x, -(a.cost as real));
    assert RankKey(a, policy) == RankKey(b, policy) <==> lexA == lexB && lastA == lastB by {
      assert (lexA + lastA)[..|lexA|] == lexA && (lexB + lastB)[..|lexA|] == lexB;
      assert (lexA + lastA)[|lexA|..] == lastA && (lexB + lastB)[|lexA|..] == lastB;
    }
    StringLeTotal(a.id, b.id);
  }

  lemma LastComponents(x: real, x': real, y: real, y': real)
    ensures TupleLe([x, x'], [y, y']) <==> x < y || (x == y && x' <= y')
  {
    assert [x, x'][1..] == [x'] && [y, y'][1..] == [y'];
    assert TupleLe([x'][1..], [y'][1..]);
    assert TupleLe([x'], [y']) <==> x' <= y';
  }

  /** Of two candidates with equal merit the one with the lower cost comes first, then the one with the greater id. */
  lemma EqualMeritIsLevel(policy: Policy, a: Candidate, b: Candidate)
    requires Merit(a, policy) == Merit(b, policy)
    ensures Outranks(policy, a, b) <==> a.cost < b.cost || (a.cost == b.cost && StringLe(b.id, a.id))
  {
    hide Value, Weighted;
    var n := |policy.priority|;
    assert Merit(a, policy)[n] == Weighted(a, policy.weights) && Merit(b, policy)[n] == Weighted(b, policy.weights);
    forall k | 0 <= k < n
      ensures Value(a, policy.priority[k]) == Value(b, policy.priority[k])
    {
      assert Merit(a, policy)[k] == LexValues(a, policy.priority)[k];
      assert Merit(b, policy)[k] == LexValues(b, policy.priority)[k];
    }
  }

  /** Whenever a bounded candidate is feasible, the first-ranked member of the frontier is selected. */
  lemma FeasibleIsSelected(candidates: seq<Candidate>, policy: Policy)
    ensures FeasibleOnes(candidates, policy) == [] <==> OptimizePrograms(candidates, policy).selected == None
    ensures FeasibleOnes(candidates, policy) != [] ==>
              var ranked := Ranked(candidates, policy);
              && ranked != [] && ranked[0] in Frontier(FeasibleOnes(candidates, policy))
              && OptimizePrograms(candidates, policy).selected == Some(ranked[0].id)
              && forall c <- Frontier(FeasibleOnes(candidates, policy)) ::
                   RanksAbove(policy, ranked[0], c) && Outranks(policy, ranked[0], c)
  {
    var feasible := FeasibleOnes(candidates, policy);
    if feasible != [] {
      assert feasible[0] in feasible;
      var m := FrontierCovers(feasible, feasible[0]);
      assert Frontier(feasible) != [];
      RankingIsOrder(policy);
      SortHeadIsLeast(Ranking(policy), Frontier(feasible));
      forall c | c in Frontier(feasible)
        ensures RanksAbove(policy, Ranked(candidates, policy)[0], c)
        ensures Outranks(policy, Ranked(candidates, policy)[0], c)
      {
        RanksAboveExactly(policy, Ranked(candidates, policy)[0], c);
      }
    }
  }

  /** The decision lists the frontier's ids, and as alternatives the next three in rank. */
  lemma DecisionListsFrontier(candidates: seq<Candidate>, policy: Policy)
    requires FeasibleOnes(candidates, policy) != []
    ensures var frontier, ranked := Frontier(FeasibleOnes(candidates, policy)), Ranked(candidates, policy);
            var d := OptimizePrograms(candidates, policy);
            && multiset(d.frontier) == multiset(Ids(frontier)) && SortedBy(StringLe, d.frontier)
            && multiset(ranked) == multiset(frontier)
            && (forall i, j :: 0 <= i < j < |ranked| ==> Outranks(policy, ranked[i], ranked[j]))
            && |d.alternatives| == (if |ranked| < 4 then |ranked| - 1 else 3)
            && forall i :: 0 <= i < |d.alternatives| ==> d.alternatives[i] == ranked[i + 1].id
  {
    FeasibleIsSelected(candidates, policy);
    var frontier := Frontier(FeasibleOnes(candidates, policy));
    StringLeIsOrder();
    SortPermutes(StringLe, Ids(frontier));
    SortSorts(StringLe, Ids(frontier));
    RankingIsOrder(policy);
    SortPermutes(Ranking(policy), frontier);
    SortSorts(Ranking(policy), frontier);
    var ranked := Ranked(candidates, policy);
    forall i, j | 0 <= i < j < |ranked|
      ensures Outranks(policy, ranked[i], ranked[j])
    {
      RanksAboveExactly(policy, ranked[i], ranked[j]);
      assert Ranking(policy)(ranked[i], ranked[j]);
    }
  }

  /** Of all frontier members as good as the winner none is cheaper, and none as cheap has a greater id. */
  lemma WinnerBreaksTies(candidates: seq<Candidate>, policy: Policy, c: Candidate)
    requires c in Frontier(FeasibleOnes(candidates, policy)) && Ranked(candidates, policy) != []
    requires Merit(c, policy) == Merit(Ranked(candidates, policy)[0], policy)
    ensures var winner := Ranked(candidates, policy)[0];
            && OptimizePrograms(candidates, policy).selected == Some(winner.id)
            && (winner.cost < c.cost || (winner.cost == c.cost && StringLe(c.id, winner.id)))
  {
    hide Merit, Outranks, BeatenByAnother;
    FilterMembers(x => !BeatenByAnother(FeasibleOnes(candidates, policy), x), FeasibleOnes(candidates, policy));
    FeasibleIsSelected(candidates, policy);
    EqualMeritIsLevel(policy, Ranked(candidates, policy)[0], c);
  }

  /** Among equally good members of the frontier, winner and alternatives go by rising cost, then by falling id. */
  lemma EqualMeritGoesByCost(candidates: seq<Candidate>, policy: Policy, i: nat, j: nat)
    requires i < j < |Ranked(candidates, policy)|
    requires Merit(Ranked(candidates, policy)[i], policy) == Merit(Ranked(candidates, policy)[j], policy)
    ensures var a, b := Ranked(candidates, policy)[i], Ranked(candidates, policy)[j];
            a.cost < b.cost || (a.cost == b.cost && StringLe(b.id, a.id))
  {
    hide Merit, Frontier, FeasibleOnes, RanksAbove, Outranks;
    var frontier, ranked := Frontier(FeasibleOnes(candidates, policy)), Ranked(candidates, policy);
    RankingIsOrder(policy);
    SortSorts(Ranking(policy), frontier);
    assert Ranking(policy)(ranked[i], ranked[j]);
    RanksAboveExactly(policy, ranked[i], ranked[j]);
    EqualMeritIsLevel(policy, ranked[i], ranked[j]);
  }

  /** Without a feasible candidate the decision names, sorted and once each, exactly the failing constraints. */
  lemma InfeasibilityIsExplained(candidates: seq<Candidate>, policy: Policy)
    requires FeasibleOnes(candidates, policy) == []
    ensures var d := OptimizePrograms(candidates, policy).failedConstraints;
            && d.Some? && SortedBy(StringLe, d.value) && Distinct(d.value)
            && (forall id :: id in d.value <==> id in AllFailed(Bounded(candidates, policy)))
            && (d.value == [] <==> Bounded(candidates, policy) == [])
  {
    var bounded := Bounded(candidates, policy);
    StringLeIsOrder();
    SortPermutes(StringLe, FailedSeq(bounded));
    SortSorts(StringLe, FailedSeq(bounded));
    SortKeepsDistinct(StringLe, FailedSeq(bounded));
    if bounded != [] {
      FilterMembers((c: Candidate) => c.Feasible(), bounded);
      assert bounded[0] in bounded && bounded[0] !in FeasibleOnes(candidates, policy);
      var r :| r in bounded[0].constraints && !r.passed;
      assert r.constraintId in AllFailed(bounded);
    }
  }

  // ---- the winner is best over all feasible candidates, exactly when no unprioritized weight is negative

  /** No metric outside the priority list carries a negative weight. */
  predicate WeightsRewardDominance(policy: Policy) {
    forall w <- policy.weights :: w.0 in policy.priority || w.1 >= 0.0
  }

  ghost predicate WinnerIsBest(candidates: seq<Candidate>, policy: Policy) {
    var feasible := FeasibleOnes(candidates, policy);
    feasible != [] ==>
      forall c <- feasible ::
        Ranked(candidates, policy) != [] && TupleLe(Merit(c, policy), Merit(Ranked(candidates, policy)[0], policy))
  }

  lemma {:induction false} DominanceRaisesWeighted(m: Candidate, c: Candidate, weights: seq<(string, real)>)
    requires forall w <- weights :: Value(m, w.0) == Value(c, w.0) || (w.1 >= 0.0 && Value(m, w.0) >= Value(c, w.0))
    ensures Weighted(m, weights) >= Weighted(c, weights)
  {
    hide Value;
    if weights != [] {
      var w := weights[0];
      assert w in weights;
      assert Value(m, w.0) * w.1 >= Value(c, w.0) * w.1 by {
        if Value(m, w.0) != Value(c, w.0) {
          assert (Value(m, w.0) - Value(c, w.0)) * w.1 >= 0.0;
        }
      }
      DominanceRaisesWeighted(m, c, weights[1..]);
    }
  }

  lemma {:induction false} TupleLeComponentwise(a: seq<real>, b: seq<real>, x: real, y: real)
    requires |a| == |b| && forall i :: 0 <= i < |a| ==> a[i] <= b[i]
    requires a == b ==> x <= y
    ensures TupleLe(a + [x], b + [y])
  {
    if a != [] {
      assert (a + [x])[1..] == a[1..] + [x] && (b + [y])[1..] == b[1..] + [y];
      if a[0] == b[0] {
        if a[1..] == b[1..] {
          assert a == [a[0]] + a[1..] && b == [b[0]] + b[1..];
        }
        TupleLeComponentwise(a[1..], b[1..], x, y);
      }
    }
  }

  lemma DominanceRaisesMerit(m: Candidate, c: Candidate, policy: Policy)
    requires WeightsRewardDominance(policy) && Dominates(m, c)
    ensures TupleLe(Merit(c, policy), Merit(m, policy))
  {
    DominatesEverywhere(m, c);
    var lexC, lexM := LexValues(c, policy.priority), LexValues(m, policy.priority);
    if lexC == lexM {
      forall w | w in policy.weights
        ensures Value(m, w.0) == Value(c, w.0) || (w.1 >= 0.0 && Value(m, w.0) >= Value(c, w.0))
      {
        if w.0 in policy.priority {
          var i :| 0 <= i < |policy.priority| && policy.priority[i] == w.0;
          assert lexC[i] == lexM[i];
        }
      }
      DominanceRaisesWeighted(m, c, policy.weights);
    }
    TupleLeComponentwise(lexC, lexM, Weighted(c, policy.weights), Weighted(m, policy.weights));
  }

  lemma RewardedDominanceGivesBest(candidates: seq<Candidate>, policy: Policy)
    requires WeightsRewardDominance(policy)
    ensures WinnerIsBest(candidates, policy)
  {
    var feasible := FeasibleOnes(candidates, policy);
    if feasible != [] {
      FeasibleIsSelected(candidates, policy);
      var winner := Ranked(candidates, policy)[0];
      forall c | c in feasible
        ensures TupleLe(Merit(c, policy), Merit(winner, policy))
      {
        var m := FrontierCovers(feasible, c);
        WinnerOutranks(c, m, winner, policy);
      }
    }
  }

  lemma WinnerOutranks(c: Candidate, m: Candidate, winner: Candidate, policy: Policy)
    requires WeightsRewardDominance(policy) && (m == c || Dominates(m, c)) && RanksAbove(policy, winner, m)
    ensures TupleLe(Merit(c, policy), Merit(winner, policy))
  {
    if m != c {
      DominanceRaisesMerit(m, c, policy);
    } else {
      TupleLeTotal(Merit(c, policy), Merit(c, policy));
    }
    TupleLePrefix(Merit(m, policy), Merit(winner, policy), [-(m.cost as real)], [-(winner.cost as real)]);
    TupleLeTransitive(Merit(c, policy), Merit(m, policy), Merit(winner, policy));
  }

  /** With room for one candidate only there is nothing to compare. */
  lemma SingleCandidateIsBest(candidates: seq<Candidate>, policy: Policy)
    requires policy.maxCandidates <= 1
    ensures WinnerIsBest(candidates, policy)
  {
    var feasible := FeasibleOnes(candidates, policy);
    if feasible != [] {
      FeasibleIsSelected(candidates, policy);
      var winner := Ranked(candidates, policy)[0];
      FilterMembers(c => !BeatenByAnother(feasible, c), feasible);
      var taken := Take(SortBy(ById(), candidates), policy.maxCandidates);
      FilterMembers((c: Candidate) => c.cost <= policy.maxCost, taken);
      FilterMembers((c: Candidate) => c.Feasible(), Bounded(candidates, policy));
      forall c | c in feasible
        ensures TupleLe(Merit(c, policy), Merit(winner, policy))
      {
        assert c in taken && winner in taken;
        TupleLeTotal(Merit(c, policy), Merit(c, policy));
      }
    }
  }

  function Probe(id: string, name: string, value: real): Candidate {
    Candidate(id, [], [Metric(name, value)], 0)
  }

  lemma ProbeValue(id: string, name: string, value: real, other: string)
    ensures Value(Probe(id, name, value), other) == if other == name then value else 0.0
  {
    var ms := [Metric(name, value)];
    assert ms[..0] == [];
    assert MetricMap(ms) == map[][name := value];
  }

  lemma {:induction false} ProbeWeighted(id: string, name: string, value: real, weights: seq<(string, real)>, k: nat)
    requires k < |weights| && weights[k].0 == name
    requires forall i, j :: 0 <= i < j < |weights| ==> weights[i].0 != weights[j].0
    ensures Weighted(Probe(id, name, value), weights) == value * weights[k].1
  {
    ProbeValue(id, name, value, weights[0].0);
    if k == 0 {
      ProbeWeightedElsewhere(id, name, value, weights[1..]);
    } else {
      ProbeWeighted(id, name, value, weights[1..], k - 1);
    }
  }

  lemma {:induction false} ProbeWeightedElsewhere(id: string, name: string, value: real, weights: seq<(string, real)>)
    requires forall w <- weights :: w.0 != name
    ensures Weighted(Probe(id, name, value), weights) == 0.0
  {
    if weights != [] {
      ProbeValue(id, name, value, weights[0].0);
      ProbeWeightedElsewhere(id, name, value, weights[1..]);
    }
  }

  /** One candidate with the penalized metric and one without: the first hides the second, which has more merit. */
  function Counterexample(name: string): seq<Candidate> {
    [Probe("a", name, 1.0), Probe("b", name, 0.0)]
  }

  lemma PenalizedMetricHidesBest(policy: Policy, k: nat)
    requires policy.Valid() && policy.maxCandidates >= 2
    requires k < |policy.weights| && policy.weights[k].0 !in policy.priority && policy.weights[k].1 < 0.0
    ensures !WinnerIsBest(Counterexample(policy.weights[k].0), policy)
  {
    var name := policy.weights[k].0;
    var candidates := Counterexample(name);
    var a, b := candidates[0], candidates[1];
    forall other
      ensures Value(a, other) == if other == name then 1.0 else 0.0
      ensures Value(b, other) == 0.0
    {
      ProbeValue("a", name, 1.0, other);
      ProbeValue("b", name, 0.0, other);
    }
    assert Dominates(a, b) && !Dominates(b, a) by {
      assert a.metrics[..0] == [];
      assert MetricMap(a.metrics) == map[][name := 1.0];
      assert name in MetricMap(a.metrics).Keys;
    }
    CounterexampleRun(policy, name);
    ProbeWeighted("a", name, 1.0, policy.weights, k);
    ProbeWeighted("b", name, 0.0, policy.weights, k);
    var lex := LexValues(b, policy.priority);
    assert LexValues(a, policy.priority) == lex;
    TupleLeTail(lex, Weighted(b, policy.weights), Weighted(a, policy.weights));
    assert b in FeasibleOnes(candidates, policy);
  }

  lemma {:induction false} TupleLeTail(lex: seq<real>, x: real, y: real)
    ensures TupleLe(lex + [x], lex + [y]) <==> x <= y
  {
    if lex != [] {
      assert (lex + [x])[1..] == lex[1..] + [x] && (lex + [y])[1..] == lex[1..] + [y];
      TupleLeTail(lex[1..], x, y);
    }
  }

  lemma CounterexampleRun(policy: Policy, name: string)
    requires policy.Valid() && policy.maxCandidates >= 2
    requires var cs := Counterexample(name); Dominates(cs[0], cs[1]) && !Dominates(cs[1], cs[0])
    ensures FeasibleOnes(Counterexample(name), policy) == Counterexample(name)
    ensures Ranked(Counterexample(name), policy) == [Counterexample(name)[0]]
  {
    var cs := Counterexample(name);
    var a, b := cs[0], cs[1];
    assert cs[1..] == [b] && [b][1..] == [];
    assert "b"[0] == 'b' && "a"[0] == 'a';
    assert SortBy(ById(), [b]) == [b];
    assert SortBy(ById(), cs) == cs;
    FilterAll((c: Candidate) => c.cost <= policy.maxCost, cs);
    FilterAll((c: Candidate) => c.Feasible(), cs);
    assert FeasibleOnes(cs, policy) == cs;
    assert a in cs && BeatenByAnother(cs, b);
    DominanceIsStrictOrder(a, a, a);
    assert !BeatenByAnother(cs, a);
    assert Filter(c => !BeatenByAnother(cs, c), [b]) == [];
    assert Frontier(cs) == [a];
    assert [a][1..] == [];
    assert SortBy(Ranking(policy), [a]) == [a];
  }

  /**
   The winner has the greatest merit among all feasible candidates, not only the frontier, for every tuple of
   candidates exactly when the policy compares at most one candidate or puts no negative weight on a metric
   outside its priority list.
   */
  lemma WinnerIsBestExactly(policy: Policy)
    requires policy.Valid()
    ensures (forall candidates :: WinnerIsBest(candidates, policy))
       <==> policy.maxCandidates == 1 || WeightsRewardDominance(policy)
  {
    if policy.maxCandidates == 1 {
      forall candidates ensures WinnerIsBest(candidates, policy) {
        SingleCandidateIsBest(candidates, policy);
      }
    } else if WeightsRewardDominance(policy) {
      forall candidates ensures WinnerIsBest(candidates, policy) {
        RewardedDominanceGivesBest(candidates, policy);
      }
    } else {
      var w :| w in policy.weights && w.0 !in policy.priority && w.1 < 0.0;
      var k :| 0 <= k < |policy.weights| && policy.weights[k] == w;
      PenalizedMetricHidesBest(policy, k);
    }
  }

  // ---- the order of the input does not matter

  lemma DecisionIgnoresInputOrder(a: seq<Candidate>, b: seq<Candidate>, policy: Policy)
    requires multiset(a) == multiset(b)
    requires forall x, y :: x in a && y in a && x.id == y.id ==> x == y
    ensures OptimizePrograms(a, policy) == OptimizePrograms(b, policy)
  {
    var le := ById();
    StringLeIsOrder();
    forall x, y ensures le(x, y) || le(y, x) {
      StringLeTotal(x.id, y.id);
    }
    forall x, y, z | le(x, y) && le(y, z) ensures le(x, z) {
      StringLeTransitive(x.id, y.id, z.id);
    }
    forall x, y | x in a && y in a && le(x, y) && le(y, x) ensures x == y {
      StringLeTotal(x.id, y.id);
    }
    SortIsInvariant(le, a, b);
  }
}
