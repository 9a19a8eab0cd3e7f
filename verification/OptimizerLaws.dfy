/**
 What the optimizer's parts mean in terms of the candidates: the metric dictionary, the weighted sum, dominance, the
 bounded candidates, feasibility and the frontier.
 */
module OptimizerLaws {
  import opened Sequences
  import opened Ordering
  import opened Optimizer

  /** The metric at `i` is the last of its name. */
  ghost predicate LastOfItsName(ms: seq<Metric>, i: nat) {
    i < |ms| && forall j :: i < j < |ms| ==> ms[j].name != ms[i].name
  }

  lemma {:induction false} MetricMapKeepsLast(ms: seq<Metric>, i: nat)
    requires LastOfItsName(ms, i)
    ensures ms[i].name in MetricMap(ms) && MetricMap(ms)[ms[i].name] == ms[i].value
  {
    var n := |ms| - 1;
    if i < n {
      assert ms[n].name != ms[i].name;
      MetricMapKeepsLast(ms[..n], i);
    }
  }

  lemma {:induction false} MetricMapKeys(ms: seq<Metric>, name: string)
    ensures name in MetricMap(ms) <==> exists m :: m in ms && m.name == name
  {
    if ms != [] {
      var init, last := ms[..|ms| - 1], ms[|ms| - 1];
      MetricMapKeys(init, name);
      assert ms == init + [last];
    }
  }

  /** A metric's value is the last one given under its name, and zero when there is none. */
  lemma ValueIsLast(c: Candidate, name: string)
    ensures forall i: nat :: LastOfItsName(c.metrics, i) && c.metrics[i].name == name ==>
              Value(c, name) == c.metrics[i].value
    ensures (forall m <- c.metrics :: m.name != name) ==> Value(c, name) == 0.0
  {
    MetricMapKeys(c.metrics, name);
    forall i: nat | LastOfItsName(c.metrics, i)
      ensures c.metrics[i].name == name ==> Value(c, name) == c.metrics[i].value
    {
      MetricMapKeepsLast(c.metrics, i);
    }
  }

  /** The weighted sum adds up value times weight, one weight at a time. */
  lemma {:induction false} WeightedAdds(c: Candidate, weights: seq<(string, real)>, w: (string, real))
    ensures Weighted(c, []) == 0.0
    ensures Weighted(c, weights + [w]) == Weighted(c, weights) + Value(c, w.0) * w.1
  {
    hide Value;
    if weights == [] {
      assert ([] + [w])[1..] == [];
    } else {
      WeightedAdds(c, weights[1..], w);
      assert (weights + [w])[1..] == weights[1..] + [w];
    }
  }

  /** One candidate dominates another when no metric at all is lower and some metric is higher. */
  lemma DominatesExactly(left: Candidate, right: Candidate)
    ensures Dominates(left, right)
       <==> (forall name :: Value(left, name) >= Value(right, name))
            && exists name :: Value(left, name) > Value(right, name)
  {
    var names := MetricMap(left.metrics).Keys + MetricMap(right.metrics).Keys;
    if Dominates(left, right) {
      DominatesEverywhere(left, right);
    }
    if name :| Value(left, name) > Value(right, name) {
      assert name in names by {
        assert Value(left, name) != 0.0 || Value(right, name) != 0.0;
      }
    }
  }

  /** The candidate ids that come before `id`. */
  function SmallerIds(candidates: seq<Candidate>, id: string): set<string> {
    set c | c in candidates && StringLe(c.id, id) && c.id != id :: c.id
  }

  /** Candidates are considered in the order of their ids, up to the policy's number, and left out when too costly. */
  lemma BoundedExactly(candidates: seq<Candidate>, policy: Policy, c: Candidate)
    requires Distinct(Ids(candidates))
    ensures c in Bounded(candidates, policy)
       <==> c in candidates && c.cost <= policy.maxCost && |SmallerIds(candidates, c.id)| < policy.maxCandidates
  {
    hide StringLe;
    var sorted := SortBy(ById(), candidates);
    var taken := Take(sorted, policy.maxCandidates);
    ByIdSorts(candidates);
    FilterMembers((x: Candidate) => x.cost <= policy.maxCost, taken);
    assert c in taken ==> c in sorted;
    if c in candidates {
      var k :| 0 <= k < |sorted| && sorted[k] == c;
      SmallerIdsBefore(candidates, sorted, k);
      assert c in taken <==> k < policy.maxCandidates by {
        if c in taken {
          var i :| 0 <= i < |taken| && taken[i] == c;
          assert sorted[i].id == sorted[k].id;
        }
        if k < policy.maxCandidates {
          assert k < |taken| && taken[k] == c;
        }
      }
    }
  }

  lemma ByIdIsOrder()
    ensures TotalPreorder(ById())
  {
    var le := ById();
    forall x, y ensures le(x, y) || le(y, x) {
      StringLeTotal(x.id, y.id);
    }
    forall x, y, z | le(x, y) && le(y, z) ensures le(x, z) {
      StringLeTransitive(x.id, y.id, z.id);
    }
  }

  lemma ByIdSorts(candidates: seq<Candidate>)
    requires Distinct(Ids(candidates))
    ensures var sorted := SortBy(ById(), candidates);
            && (forall c :: c in sorted <==> c in candidates)
            && (forall i, j :: 0 <= i < j < |sorted| ==>
                  StringLe(sorted[i].id, sorted[j].id) && sorted[i].id != sorted[j].id)
  {
    hide SortBy;
    var le, sorted := ById(), SortBy(ById(), candidates);
    ByIdIsOrder();
    SortPermutes(le, candidates);
    SortSorts(le, candidates);
    DistinctByMap(candidates);
    SortKeepsDistinct(le, candidates);
    forall i, j | 0 <= i < j < |sorted|
      ensures StringLe(sorted[i].id, sorted[j].id) && sorted[i].id != sorted[j].id
    {
      assert le(sorted[i], sorted[j]) && sorted[i] in candidates && sorted[j] in candidates && sorted[i] != sorted[j];
    }
  }

  lemma DistinctByMap(candidates: seq<Candidate>)
    requires Distinct(Ids(candidates))
    ensures Distinct(candidates)
    ensures forall x, y :: x in candidates && y in candidates && x.id == y.id ==> x == y
  {
    var ids := Ids(candidates);
    forall i, j | 0 <= i < j < |candidates|
      ensures candidates[i].id != candidates[j].id
    {
      assert ids[i] != ids[j];
    }
  }

  lemma SmallerIdsBefore(candidates: seq<Candidate>, sorted: seq<Candidate>, k: nat)
    requires k < |sorted| && (forall c :: c in sorted <==> c in candidates)
    requires forall i, j :: 0 <= i < j < |sorted| ==>
      StringLe(sorted[i].id, sorted[j].id) && sorted[i].id != sorted[j].id
    ensures |SmallerIds(candidates, sorted[k].id)| == k
  {
    hide StringLe;
    var before := Ids(sorted[..k]);
    assert Distinct(before);
    DistinctCount(before);
    var smaller := SmallerIds(candidates, sorted[k].id);
    forall id
      ensures id in smaller <==> id in Elements(before)
    {
      if id in smaller {
        var c :| c in candidates && StringLe(c.id, sorted[k].id) && c.id != sorted[k].id && c.id == id;
        assert c in sorted;
        var i :| 0 <= i < |sorted| && sorted[i] == c;
        if i > k {
          StringLeTotal(sorted[i].id, sorted[k].id);
        }
        assert before[i] == id;
      }
      if id in Elements(before) {
        var i :| 0 <= i < |before| && before[i] == id;
        assert sorted[i] in candidates;
      }
    }
    assert smaller == Elements(before);
  }

  /** A candidate is feasible when it is considered and every constraint it reports has passed. */
  lemma FeasibleExactly(candidates: seq<Candidate>, policy: Policy, c: Candidate)
    ensures c in FeasibleOnes(candidates, policy)
       <==> c in Bounded(candidates, policy) && forall r <- c.constraints :: r.passed
  {
    FilterMembers((x: Candidate) => x.Feasible(), Bounded(candidates, policy));
  }

  /** The frontier keeps a feasible candidate unless another one is nowhere lower and somewhere higher. */
  lemma FrontierExactly(feasible: seq<Candidate>, c: Candidate)
    ensures c in Frontier(feasible)
       <==> c in feasible
            && !exists d :: d in feasible && d.id != c.id
                            && (forall name :: Value(d, name) >= Value(c, name))
                            && (exists name :: Value(d, name) > Value(c, name))
  {
    hide Dominates, Value;
    FilterMembers(x => !BeatenByAnother(feasible, x), feasible);
    forall d
      ensures Dominates(d, c)
         <==> (forall name :: Value(d, name) >= Value(c, name)) && exists name :: Value(d, name) > Value(c, name)
    {
      DominatesExactly(d, c);
    }
  }
}
