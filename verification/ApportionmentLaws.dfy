/** Who loses and who gains minutes when the initial shares do not add up. */
module ApportionmentLaws {
  import opened Apportionment

  /** A hundred minutes are shared among the six phases as their weights say. */
  lemma HundredMinutes()
    ensures Allocation(100, PHASE_WEIGHTS) == [12, 22, 24, 20, 14, 8]
  {
    var raw := Initial(100, PHASE_WEIGHTS);
    assert Share(100, 0.12) == 12 && Share(100, 0.22) == 22 && Share(100, 0.24) == 24;
    assert Share(100, 0.20) == 20 && Share(100, 0.14) == 14 && Share(100, 0.08) == 8;
    assert raw == [12, 22, 24, 20, 14, 8];
    SumOfSix(raw);
    ShrinkShape(raw, 100);
    GrowShape(raw, 100, PHASE_WEIGHTS);
  }

  /** A reduced share was, when it was last reduced, the first of the largest. */
  lemma {:induction false} ShrinkTakesFromLargest(raw: seq<int>, total: int, i: nat, j: nat)
    requires raw != [] && AtLeastOne(raw) && i < |raw| && j < |raw|
    ensures var r := Shrink(raw, total);
            && |r| == |raw|
            && (r[i] < raw[i] && j < i ==> r[j] <= r[i])
            && (r[i] < raw[i] && j > i ==> r[j] <= r[i] + 1)
    decreases Sum(raw)
  {
    var index := Largest(raw);
    SumAtLeastLength(raw);
    if Sum(raw) > total && raw[index] > 1 {
      ShrinkStep(raw, total);
      var next := raw[index := raw[index] - 1];
      ShrinkTakesFromLargest(next, total, i, j);
      ShrinkKeeps(next, total);
    }
  }

  /** `x` minutes for a weight of `w` are no larger a share than `y` for `v`. */
  predicate NoLarger(x: int, w: real, y: int, v: real) {
    x as real * v <= y as real * w
  }

  predicate Smaller(x: int, w: real, y: int, v: real) {
    x as real * v < y as real * w
  }

  lemma RatioAtMost(x: int, w: real, y: int, v: real)
    requires w > 0.0 && v > 0.0
    ensures Ratio(x, w) <= Ratio(y, v) <==> NoLarger(x, w, y, v)
    ensures Ratio(x, w) < Ratio(y, v) <==> Smaller(x, w, y, v)
  {
    var a, b := x as real / w, y as real / v;
    assert x as real == a * w && y as real == b * v;
    var c := w * v;
    assert x as real * v == a * c && y as real * w == b * c;
    assert c > 0.0;
    if a < b {
      assert (b - a) * c > 0.0;
    } else if a > b {
      assert (a - b) * c > 0.0;
    }
  }

  lemma NeediestFirst(raw: seq<int>, weights: seq<real>, j: nat)
    requires raw != [] && |raw| == |weights| && Positive(weights) && j < |raw|
    ensures var index := MostUnderserved(raw, weights);
            && NoLarger(raw[index], weights[index], raw[j], weights[j])
            && (j < index ==> Smaller(raw[index], weights[index], raw[j], weights[j]))
  {
    hide Ratio, NoLarger, Smaller;
    var index := MostUnderserved(raw, weights);
    MostUnderservedIsFirstLeast(raw, weights, j);
    RatioAtMost(raw[index], weights[index], raw[j], weights[j]);
  }

  /** The share at `j` is not needier than the share at `i` was one minute ago, and earlier ones are less needy. */
  ghost predicate ServedBefore(r: seq<int>, weights: seq<real>, i: nat, j: nat)
    requires |r| == |weights| && i < |r| && j < |r|
  {
    && NoLarger(r[i] - 1, weights[i], r[j], weights[j])
    && (j < i ==> Smaller(r[i] - 1, weights[i], r[j], weights[j]))
  }

  lemma ServedLater(x: int, w: real, a: int, b: int, v: real)
    requires w > 0.0 && a <= b
    ensures NoLarger(x, w, a, v) ==> NoLarger(x, w, b, v)
    ensures Smaller(x, w, a, v) ==> Smaller(x, w, b, v)
  {
    assert (b - a) as real * w >= 0.0;
    assert b as real * w == a as real * w + (b - a) as real * w;
  }

  /** An increased share was, when it was last increased, the first of the smallest in proportion to its weight. */
  lemma {:induction false} GrowGivesToNeediest(raw: seq<int>, total: int, weights: seq<real>, i: nat, j: nat)
    requires raw != [] && |raw| == |weights| && Positive(weights) && i < |raw| && j < |raw|
    ensures var r := Grow(raw, total, weights);
            |r| == |raw| && (r[i] > raw[i] ==> ServedBefore(r, weights, i, j))
    decreases total - Sum(raw)
  {
    hide MostUnderserved, NoLarger, Smaller;
    GrowShape(raw, total, weights);
    if Sum(raw) < total {
      var index, r := MostUnderserved(raw, weights), Grow(raw, total, weights);
      var next := raw[index := raw[index] + 1];
      SumUpdate(raw, index, raw[index] + 1);
      GrowGivesToNeediest(next, total, weights, i, j);
      GrowShape(next, total, weights);
      if r[i] > raw[i] && r[i] == next[i] {
        assert i == index && r[i] - 1 == raw[i] && raw[j] <= r[j];
        NeediestFirst(raw, weights, j);
        ServedLater(raw[i], weights[i], raw[j], r[j], weights[j]);
      }
    }
  }

  /**
   Minutes are taken one by one from the largest share, the first among equals, and given one by one to the share
   smallest in proportion to its weight, the first among equals: no other share exceeds a reduced one by more than
   that, and none is left needier than an increased one was.
   */
  lemma AllocationByNeed(total: int, weights: seq<real>, i: nat, j: nat)
    requires Positive(weights) && i < |weights| && j < |weights|
    ensures var r, before := Allocation(total, weights), Initial(total, weights);
            && |r| == |weights|
            && (r[i] < before[i] && j < i ==> r[j] <= r[i])
            && (r[i] < before[i] && j > i ==> r[j] <= r[i] + 1)
            && (r[i] > before[i] ==> ServedBefore(r, weights, i, j))
  {
    hide Grow, Shrink, Initial, ServedBefore;
    var raw := Initial(total, weights);
    var shrunk := Shrink(raw, total);
    SumAtLeastLength(raw);
    ShrinkShape(raw, total);
    GrowShape(shrunk, total, weights);
    ShrinkTakesFromLargest(raw, total, i, j);
    GrowGivesToNeediest(shrunk, total, weights, i, j);
  }
}
