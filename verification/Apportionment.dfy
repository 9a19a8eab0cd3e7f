/**
 `_allocate_minutes`: shares a number of minutes among phases in proportion to their weights, every phase
 getting at least one. Weights are exact reals, so `int(total * weight)` is a truncation of a real.
 */
module Apportionment {

  /** Python's `int()` on a float. */
  function Truncate(x: real): int {
    if x >= 0.0 then x.Floor else -((-x).Floor)
  }

  function Ceiling(x: real): int {
    -((-x).Floor)
  }

  function Sum(s: seq<int>): int {
    if s == [] then 0 else s[0] + Sum(s[1..])
  }

  function SumReal(s: seq<real>): real {
    if s == [] then 0.0 else s[0] + SumReal(s[1..])
  }

  lemma {:induction false} SumUpdate(s: seq<int>, i: nat, x: int)
    requires i < |s|
    ensures Sum(s[i := x]) == Sum(s) - s[i] + x
  {
    if i > 0 {
      SumUpdate(s[1..], i - 1, x);
      assert s[i := x][1..] == s[1..][i - 1 := x];
    } else {
      assert s[i := x][1..] == s[1..];
    }
  }

  lemma {:induction false} SumAtLeastLength(s: seq<int>)
    requires AtLeastOne(s)
    ensures Sum(s) >= |s|
    ensures Sum(s) == |s| <==> AllOnes(s)
  {
    if s != [] {
      SumAtLeastLength(s[1..]);
      assert s == [s[0]] + s[1..];
      assert AllOnes(s[1..]) && s[0] == 1 ==> AllOnes(s);
    }
  }

  ghost predicate Positive(weights: seq<real>) {
    weights != [] && forall i :: 0 <= i < |weights| ==> weights[i] > 0.0
  }

  ghost predicate AtLeastOne(raw: seq<int>) {
    forall i :: 0 <= i < |raw| ==> raw[i] >= 1
  }

  ghost predicate AllOnes(raw: seq<int>) {
    forall i :: 0 <= i < |raw| ==> raw[i] == 1
  }

  /** The exact share of a weight, `total * weight`. */
  function Exact(total: int, weight: real): real {
    total as real * weight
  }

  /** The exact share truncated, `int(total * weight)`. */
  function Share(total: int, weight: real): int {
    Truncate(Exact(total, weight))
  }

  /** The exact share rounded up. */
  function ShareUp(total: int, weight: real): int {
    Ceiling(Exact(total, weight))
  }

  function Initial(total: int, weights: seq<real>): (raw: seq<int>)
    ensures |raw| == |weights|
    ensures forall i :: 0 <= i < |raw| ==>
      raw[i] >= 1 && raw[i] >= Share(total, weights[i]) && (raw[i] == 1 || raw[i] == Share(total, weights[i]))
  {
    seq(|weights|, i requires 0 <= i < |weights| =>
      var share := Share(total, weights[i]);
      if share > 1 then share else 1)
  }

  /** The first position of the largest entry. */
  function Largest(raw: seq<int>): (index: nat)
    requires raw != []
    ensures index < |raw|
    ensures forall j :: 0 <= j < |raw| ==> raw[j] <= raw[index]
    ensures forall j :: 0 <= j < index ==> raw[j] < raw[index]
  {
    if |raw| == 1 then 0
    else
      var best := Largest(raw[..|raw| - 1]);
      if raw[|raw| - 1] > raw[best] then |raw| - 1 else best
  }

  /** An entry in proportion to its weight. */
  function Ratio(x: int, w: real): real
    requires w > 0.0
  {
    x as real / w
  }

  /** The first position whose entry is smallest in proportion to its weight. */
  function MostUnderserved(raw: seq<int>, weights: seq<real>): (index: nat)
    requires raw != [] && |raw| == |weights| && Positive(weights)
    ensures index < |raw|
  {
    if |raw| == 1 then 0
    else
      var n := |raw| - 1;
      var best := MostUnderserved(raw[..n], weights[..n]);
      if Ratio(raw[n], weights[n]) < Ratio(raw[best], weights[best]) then n else best
  }

  lemma {:induction false} MostUnderservedIsFirstLeast(raw: seq<int>, weights: seq<real>, j: nat)
    requires raw != [] && |raw| == |weights| && Positive(weights) && j < |raw|
    ensures var index := MostUnderserved(raw, weights);
            && Ratio(raw[index], weights[index]) <= Ratio(raw[j], weights[j])
            && (j < index ==> Ratio(raw[index], weights[index]) < Ratio(raw[j], weights[j]))
  {
    var n := |raw| - 1;
    if n > 0 {
      var best := MostUnderserved(raw[..n], weights[..n]);
      assert raw[..n][best] == raw[best] && weights[..n][best] == weights[best];
      if j < n {
        assert raw[..n][j] == raw[j] && weights[..n][j] == weights[j];
        MostUnderservedIsFirstLeast(raw[..n], weights[..n], j);
      }
    }
  }

  /** The shrink loop: takes a minute from the largest entry while there are too many. */
  function Shrink(raw: seq<int>, total: int): (r: seq<int>)
    requires raw != [] && AtLeastOne(raw)
    decreases Sum(raw)
  {
    var index := Largest(raw);
    if Sum(raw) <= total || raw[index] <= 1 then raw
    else
      SumUpdate(raw, index, raw[index] - 1);
      SumAtLeastLength(raw);
      Shrink(raw[index := raw[index] - 1], total)
  }

  /** The growth loop: gives a minute to the most underserved entry while minutes are left. */
  function Grow(raw: seq<int>, total: int, weights: seq<real>): (r: seq<int>)
    requires raw != [] && |raw| == |weights| && Positive(weights)
    decreases total - Sum(raw)
  {
    if Sum(raw) >= total then raw
    else
      var index := MostUnderserved(raw, weights);
      SumUpdate(raw, index, raw[index] + 1);
      Grow(raw[index := raw[index] + 1], total, weights)
  }

  function Allocation(total: int, weights: seq<real>): seq<int>
    requires Positive(weights)
  {
    ShrinkShape(Initial(total, weights), total);
    Grow(Shrink(Initial(total, weights), total), total, weights)
  }

  lemma {:induction false} ShrinkKeeps(raw: seq<int>, total: int)
    requires raw != [] && AtLeastOne(raw)
    ensures var r := Shrink(raw, total);
            |r| == |raw| && AtLeastOne(r) && forall i :: 0 <= i < |raw| ==> r[i] <= raw[i]
    decreases Sum(raw)
  {
    var index := Largest(raw);
    if Sum(raw) > total && raw[index] > 1 {
      SumAtLeastLength(raw);
      SumUpdate(raw, index, raw[index] - 1);
      ShrinkKeeps(raw[index := raw[index] - 1], total);
    }
  }

  lemma {:induction false} ShrinkSums(raw: seq<int>, total: int)
    requires raw != [] && AtLeastOne(raw)
    ensures var r := Shrink(raw, total);
            && (Sum(raw) <= total ==> r == raw)
            && (Sum(raw) > total >= |raw| ==> Sum(r) == total)
            && (Sum(raw) > total && total < |raw| ==> Sum(r) == |raw|)
    decreases Sum(raw)
  {
    var index := Largest(raw);
    SumAtLeastLength(raw);
    if Sum(raw) > total && raw[index] > 1 {
      SumUpdate(raw, index, raw[index] - 1);
      ShrinkSums(raw[index := raw[index] - 1], total);
    }
  }

  lemma ShrinkShape(raw: seq<int>, total: int)
    requires raw != [] && AtLeastOne(raw)
    ensures var r := Shrink(raw, total);
            && |r| == |raw| && AtLeastOne(r)
            && (forall i :: 0 <= i < |raw| ==> r[i] <= raw[i])
            && (Sum(raw) <= total ==> r == raw)
            && (Sum(raw) > total >= |raw| ==> Sum(r) == total)
            && (Sum(raw) > total && total < |raw| ==> Sum(r) == |raw|)
  {
    ShrinkKeeps(raw, total);
    ShrinkSums(raw, total);
  }

  /** A minute taken by the shrink loop comes off a share above one. */
  lemma {:induction false} ShrinkTakes(raw: seq<int>, total: int)
    requires raw != [] && AtLeastOne(raw) && Sum(raw) > total >= |raw|
    ensures exists i :: 0 <= i < |raw| && |Shrink(raw, total)| == |raw| && raw[i] > 1 && Shrink(raw, total)[i] < raw[i]
  {
    var index := Largest(raw);
    SumAtLeastLength(raw);
    assert raw[index] > 1;
    SumUpdate(raw, index, raw[index] - 1);
    ShrinkShape(raw[index := raw[index] - 1], total);
    ShrinkShape(raw, total);
    assert Shrink(raw, total)[index] < raw[index];
  }

  lemma {:induction false} GrowShape(raw: seq<int>, total: int, weights: seq<real>)
    requires raw != [] && |raw| == |weights| && Positive(weights)
    ensures var r := Grow(raw, total, weights);
            && |r| == |raw| && (forall i :: 0 <= i < |raw| ==> r[i] >= raw[i])
            && (Sum(raw) >= total ==> r == raw)
            && (Sum(raw) <= total ==> Sum(r) == total)
    decreases total - Sum(raw)
  {
    if Sum(raw) < total {
      var index := MostUnderserved(raw, weights);
      SumUpdate(raw, index, raw[index] + 1);
      GrowShape(raw[index := raw[index] + 1], total, weights);
    }
  }

  /** Every phase gets at least one minute; the shares add up to the total unless there are too few minutes for that. */
  lemma AllocationConserves(total: int, weights: seq<real>)
    requires Positive(weights)
    ensures var r := Allocation(total, weights);
            && |r| == |weights| && AtLeastOne(r)
            && Sum(r) == (if total >= |weights| then total else |weights|)
            && (total < |weights| ==> AllOnes(r))
  {
    var raw := Initial(total, weights);
    var shrunk := Shrink(raw, total);
    ShrinkShape(raw, total);
    GrowShape(shrunk, total, weights);
    SumAtLeastLength(raw);
    SumAtLeastLength(shrunk);
  }

  // ---- quota: each share is its exact proportion, rounded down or up

  ghost predicate BelowCeilings(raw: seq<int>, total: int, weights: seq<real>) {
    |raw| == |weights| && forall i :: 0 <= i < |raw| ==> raw[i] <= ShareUp(total, weights[i])
  }

  ghost predicate WithinQuota(raw: seq<int>, total: int, weights: seq<real>) {
    && BelowCeilings(raw, total, weights)
    && forall i :: 0 <= i < |raw| ==> Share(total, weights[i]) <= raw[i]
  }

  lemma {:induction false} SomeoneIsOwed(raw: seq<int>, total: real, weights: seq<real>) returns (i: nat)
    requires |raw| == |weights| && Sum(raw) as real < total * SumReal(weights)
    ensures i < |raw| && raw[i] as real < total * weights[i]
  {
    if raw[0] as real < total * weights[0] {
      i := 0;
    } else {
      assert total * SumReal(weights) == total * weights[0] + total * SumReal(weights[1..]);
      i := SomeoneIsOwed(raw[1..], total, weights[1..]);
      i := i + 1;
    }
  }

  lemma RatioBelow(x: real, w: real, total: real)
    requires w > 0.0
    ensures x / w < total <==> x < total * w
  {
    assert (x / w) * w == x;
    if x / w < total {
      assert (total - x / w) * w > 0.0;
    } else {
      assert (x / w - total) * w >= 0.0;
    }
  }

  /** An entry in no greater proportion to its weight than one that is owed a minute is owed one too. */
  lemma OwedByRatio(total: int, x: int, w: real, y: int, v: real)
    requires w > 0.0 && v > 0.0 && y as real < Exact(total, v) && Ratio(x, w) <= Ratio(y, v)
    ensures x + 1 <= ShareUp(total, w)
  {
    RatioBelow(y as real, v, total as real);
    RatioBelow(x as real, w, total as real);
  }

  lemma SomeoneIsBelow(raw: seq<int>, total: int, weights: seq<real>) returns (i: nat)
    requires |raw| == |weights| && SumReal(weights) == 1.0 && Sum(raw) < total
    ensures i < |raw| && raw[i] as real < Exact(total, weights[i])
  {
    i := SomeoneIsOwed(raw, total as real, weights);
  }

  lemma MostUnderservedIsOwed(raw: seq<int>, total: int, weights: seq<real>)
    requires Positive(weights) && |raw| == |weights| && SumReal(weights) == 1.0 && Sum(raw) < total
    ensures var index := MostUnderserved(raw, weights);
            raw[index] + 1 <= ShareUp(total, weights[index])
  {
    var i := SomeoneIsBelow(raw, total, weights);
    OwedBefore(raw, total, weights, MostUnderserved(raw, weights), i);
  }

  lemma OwedBefore(raw: seq<int>, total: int, weights: seq<real>, index: nat, i: nat)
    requires Positive(weights) && |raw| == |weights| && index == MostUnderserved(raw, weights)
    requires i < |raw| && raw[i] as real < Exact(total, weights[i])
    ensures raw[index] + 1 <= ShareUp(total, weights[index])
  {
    hide Ratio, Exact, ShareUp;
    MostUnderservedIsFirstLeast(raw, weights, i);
    OwedByRatio(total, raw[index], weights[index], raw[i], weights[i]);
  }

  lemma {:induction false} GrowStaysBelow(raw: seq<int>, total: int, weights: seq<real>)
    requires Positive(weights) && SumReal(weights) == 1.0 && BelowCeilings(raw, total, weights)
    ensures BelowCeilings(Grow(raw, total, weights), total, weights)
    decreases total - Sum(raw)
  {
    if Sum(raw) < total {
      var index := MostUnderserved(raw, weights);
      MostUnderservedIsOwed(raw, total, weights);
      SumUpdate(raw, index, raw[index] + 1);
      GrowStaysBelow(raw[index := raw[index] + 1], total, weights);
    }
  }

  lemma InitialIsBelow(total: int, weights: seq<real>)
    requires Positive(weights) && total >= 1
    ensures BelowCeilings(Initial(total, weights), total, weights)
  {
    forall i | 0 <= i < |weights|
      ensures Initial(total, weights)[i] <= ShareUp(total, weights[i])
    {
      assert total as real * weights[i] > 0.0;
    }
  }

  /** With fewer minutes than phases every share is one, which is within quota only where it is a rounded proportion. */
  lemma QuotaOfFew(total: int, weights: seq<real>)
    requires Positive(weights) && total < |weights|
    ensures WithinQuota(Allocation(total, weights), total, weights)
       <==> total >= 1 && forall i :: 0 <= i < |weights| ==> Share(total, weights[i]) <= 1
  {
    AllocationConserves(total, weights);
    forall i | 0 <= i < |weights|
      ensures 1 <= ShareUp(total, weights[i]) <==> total >= 1
    {
      ShareUpPositive(total, weights[i]);
    }
    var r := Allocation(total, weights);
    assert r[0] == 1;
  }

  lemma ShareUpPositive(total: int, weight: real)
    requires weight > 0.0
    ensures 1 <= ShareUp(total, weight) <==> total >= 1
  {
    if total >= 1 {
      assert total as real * weight > 0.0;
    } else {
      assert total as real * weight <= 0.0;
    }
  }

  lemma QuotaOfEnough(total: int, weights: seq<real>)
    requires Positive(weights) && SumReal(weights) == 1.0 && total >= |weights|
    ensures WithinQuota(Allocation(total, weights), total, weights) <==> Sum(Initial(total, weights)) <= total
  {
    var raw := Initial(total, weights);
    ShrinkShape(raw, total);
    InitialIsBelow(total, weights);
    if Sum(raw) <= total {
      GrowStaysBelow(raw, total, weights);
      GrowShape(raw, total, weights);
    } else {
      ShrinkTakes(raw, total);
      GrowShape(Shrink(raw, total), total, weights);
    }
  }

  /**
   With weights adding up to one, each share is its proportion rounded down or up exactly when the initial shares
   already fit, that is, when the shrink loop does not start, or there is at least one minute, but fewer than phases,
   and no proportion reaches two.
   */
  lemma QuotaExactly(total: int, weights: seq<real>)
    requires Positive(weights) && SumReal(weights) == 1.0
    ensures WithinQuota(Allocation(total, weights), total, weights)
       <==> Sum(Initial(total, weights)) <= total
            || (1 <= total < |weights| && forall i :: 0 <= i < |weights| ==> Share(total, weights[i]) <= 1)
  {
    SumAtLeastLength(Initial(total, weights));
    if total < |weights| {
      QuotaOfFew(total, weights);
    } else {
      QuotaOfEnough(total, weights);
    }
  }

  lemma SumOfFour(s: seq<real>)
    requires |s| == 4
    ensures SumReal(s) == s[0] + s[1] + s[2] + s[3]
  {
    assert s[1..][1..] == s[2..] && s[2..][1..] == s[3..];
    assert SumReal(s[3..]) == s[3];
    assert SumReal(s[2..]) == s[2] + s[3];
    assert SumReal(s[1..]) == s[1] + SumReal(s[2..]);
  }

  const LOPSIDED_WEIGHTS: seq<real> := [0.9, 0.025, 0.025, 0.025, 0.025]

  lemma LopsidedShares()
    ensures Positive(LOPSIDED_WEIGHTS) && SumReal(LOPSIDED_WEIGHTS) == 1.0
    ensures Share(10, LOPSIDED_WEIGHTS[0]) == 9
    ensures Initial(10, LOPSIDED_WEIGHTS) == [9, 1, 1, 1, 1] && Sum(Initial(10, LOPSIDED_WEIGHTS)) == 13
  {
    SumOfFour([0.025, 0.025, 0.025, 0.025]);
    assert LOPSIDED_WEIGHTS[1..] == [0.025, 0.025, 0.025, 0.025];
    assert Share(10, 0.9) == 9 && Share(10, 0.025) == 0;
    var raw := Initial(10, LOPSIDED_WEIGHTS);
    assert raw == [9, 1, 1, 1, 1];
    SumAtLeastLength(raw[1..]);
  }

  /** Ten minutes over one phase of weight 0.9 and four of 0.025: the first phase gets six minutes, not nine. */
  lemma SmallPhasesBreakQuota()
    ensures Positive(LOPSIDED_WEIGHTS) && SumReal(LOPSIDED_WEIGHTS) == 1.0
    ensures Allocation(10, LOPSIDED_WEIGHTS) == [6, 1, 1, 1, 1] && Share(10, LOPSIDED_WEIGHTS[0]) == 9
    ensures !WithinQuota(Allocation(10, LOPSIDED_WEIGHTS), 10, LOPSIDED_WEIGHTS)
  {
    hide Share, Initial, ShareUp;
    var weights := LOPSIDED_WEIGHTS;
    LopsidedShares();
    var raw := Initial(10, weights);
    ShrinkShape(raw, 10);
    var shrunk := Shrink(raw, 10);
    SumAtLeastLength(shrunk[1..]);
    assert shrunk == [6, 1, 1, 1, 1];
    GrowShape(shrunk, 10, weights);
  }

  // ---- the six phases of a program

  const PHASE_WEIGHTS: seq<real> := [0.12, 0.22, 0.24, 0.20, 0.14, 0.08]

  lemma SumOfSix(s: seq<int>)
    requires |s| == 6
    ensures Sum(s) == s[0] + s[1] + s[2] + s[3] + s[4] + s[5]
  {
    assert s[1..][1..] == s[2..] && s[2..][1..] == s[3..] && s[3..][1..] == s[4..] && s[4..][1..] == s[5..];
    assert Sum(s[5..]) == s[5];
    assert Sum(s[3..]) == s[3] + s[4] + s[5];
    assert Sum(s[1..]) == s[1] + s[2] + Sum(s[3..]);
  }

  /** For every duration a lesson may have, the phases' initial shares fit. */
  lemma PhasesNeverShrink(total: int)
    requires total >= 10
    ensures Sum(Initial(total, PHASE_WEIGHTS)) <= total
  {
    var raw := Initial(total, PHASE_WEIGHTS);
    SumOfSix(raw);
    if total >= 13 {
      forall i | 0 <= i < 6
        ensures raw[i] as real <= total as real * PHASE_WEIGHTS[i]
      {
      }
      var t := total as real;
      assert t * 0.12 + t * 0.22 + t * 0.24 + t * 0.20 + t * 0.14 + t * 0.08 == t;
    } else {
      assert raw[0] == 1 && raw[1] == 2 && raw[2] == 2 && raw[3] == 2 && raw[4] == 1 && raw[5] == 1;
    }
  }

  /** The minutes of the six phases add up to the lesson's, and each is its proportion rounded down or up. */
  lemma PhaseMinutes(total: int)
    requires total >= 10
    ensures var r := Allocation(total, PHASE_WEIGHTS);
            && |r| == 6 && AtLeastOne(r) && Sum(r) == total && WithinQuota(r, total, PHASE_WEIGHTS)
  {
    AllocationConserves(total, PHASE_WEIGHTS);
    PhasesNeverShrink(total);
    QuotaExactly(total, PHASE_WEIGHTS);
  }

  // ---- the loops themselves

  lemma ShrinkStep(raw: seq<int>, total: int)
    requires raw != [] && AtLeastOne(raw) && Sum(raw) > total && raw[Largest(raw)] > 1
    ensures var next := raw[Largest(raw) := raw[Largest(raw)] - 1];
            AtLeastOne(next) && Shrink(next, total) == Shrink(raw, total) && 0 <= Sum(next) < Sum(raw)
  {
    var index := Largest(raw);
    SumUpdate(raw, index, raw[index] - 1);
    SumAtLeastLength(raw);
  }

  lemma GrowStep(raw: seq<int>, total: int, weights: seq<real>)
    requires raw != [] && |raw| == |weights| && Positive(weights) && AtLeastOne(raw) && Sum(raw) < total
    ensures var index := MostUnderserved(raw, weights);
            var next := raw[index := raw[index] + 1];
            AtLeastOne(next) && Grow(next, total, weights) == Grow(raw, total, weights) && Sum(next) == Sum(raw) + 1
  {
    var index := MostUnderserved(raw, weights);
    SumUpdate(raw, index, raw[index] + 1);
  }

  method ShrinkToFit(initial: seq<int>, total: int) returns (raw: seq<int>)
    requires initial != [] && AtLeastOne(initial)
    ensures raw == Shrink(initial, total)
  {
    raw := initial;
    while Sum(raw) > total
      invariant raw != [] && AtLeastOne(raw) && Shrink(raw, total) == Shrink(initial, total)
      decreases Sum(raw)
    {
      var index := Largest(raw);
      if raw[index] > 1 {
        ShrinkStep(raw, total);
        raw := raw[index := raw[index] - 1];
      } else {
        break;
      }
    }
  }

  method GrowToTotal(initial: seq<int>, total: int, weights: seq<real>) returns (raw: seq<int>)
    requires |initial| == |weights| && AtLeastOne(initial) && Positive(weights)
    ensures raw == Grow(initial, total, weights)
  {
    raw := initial;
    while Sum(raw) < total
      invariant |raw| == |weights| && AtLeastOne(raw) && Grow(raw, total, weights) == Grow(initial, total, weights)
      decreases total - Sum(raw)
    {
      var index := MostUnderserved(raw, weights);
      GrowStep(raw, total, weights);
      raw := raw[index := raw[index] + 1];
    }
  }

  /** `_allocate_minutes`, its two loops named. */
  method AllocateMinutes(total: int, weights: seq<real>) returns (raw: seq<int>)
    requires Positive(weights)
    ensures raw == Allocation(total, weights)
  {
    ShrinkShape(Initial(total, weights), total);
    raw := ShrinkToFit(Initial(total, weights), total);
    raw := GrowToTotal(raw, total, weights);
  }
}
