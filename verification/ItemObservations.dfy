/**
 Aggregating effectiveness events into item observations: one per exact version of an item, with its metrics withheld
 below a minimum sample. Metrics are exact ratios; an observation's id is a function of its key and sample size.
 */
module ItemObservations {
  import opened Wrappers
  import opened Sequences
  import opened Ordering

  datatype EventKind = Response | Omission | Completion | TeacherEdit | TeacherRejection | ExportUsage | LiveUsage

  datatype TimingBand = Fast | Typical | Slow | Unknown

  datatype Event = Event(tenantId: string, documentId: string, documentVersion: int, itemId: Option<string>,
                         answerSetVersion: Option<int>, kind: EventKind, correct: Option<bool>, omitted: bool,
                         distractorId: Option<string>, timingBand: TimingBand, optedOut: bool)

  /** The exact version of an item. */
  datatype Key = Key(tenantId: string, documentId: string, documentVersion: int, itemId: string, answerSetVersion: int)

  datatype Metrics = Metrics(difficulty: real, omissionRate: real, distractors: map<string, real>,
                             timing: map<TimingBand, nat>)

  /** An observation without metrics has an insufficient sample. */
  datatype Observation = Observation(key: Key, sampleSize: nat, metrics: Option<Metrics>)

  predicate Eligible(e: Event) {
    && !e.optedOut && e.itemId.Some? && e.answerSetVersion.Some?
    && (e.kind == Response || e.kind == Omission)
  }

  function KeyOf(e: Event): Key {
    Key(e.tenantId, e.documentId, e.documentVersion, e.itemId.GetOr(""), e.answerSetVersion.GetOr(0))
  }

  function EligibleOnes(events: seq<Event>): seq<Event> {
    Filter(Eligible, events)
  }

  function HasKey(key: Key): Event -> bool {
    (e: Event) => KeyOf(e) == key
  }

  /** The eligible events of one exact version. */
  function GroupOf(eligible: seq<Event>, key: Key): seq<Event> {
    Filter(HasKey(key), eligible)
  }

  // ---- the order of keys

  /** Python's order of the key tuples. */
  predicate KeyLe(a: Key, b: Key) {
    if a.tenantId != b.tenantId then StringLe(a.tenantId, b.tenantId)
    else if a.documentId != b.documentId then StringLe(a.documentId, b.documentId)
    else if a.documentVersion != b.documentVersion then a.documentVersion < b.documentVersion
    else if a.itemId != b.itemId then StringLe(a.itemId, b.itemId)
    else a.answerSetVersion <= b.answerSetVersion
  }

  lemma KeyLeTotal(a: Key, b: Key)
    ensures KeyLe(a, b) || KeyLe(b, a)
    ensures KeyLe(a, b) && KeyLe(b, a) ==> a == b
  {
    StringLeTotal(a.tenantId, b.tenantId);
    StringLeTotal(a.documentId, b.documentId);
    StringLeTotal(a.itemId, b.itemId);
  }

  lemma StringsTransitive(a: string, b: string, c: string)
    ensures StringLe(a, b) && StringLe(b, c) ==> StringLe(a, c)
    ensures StringLe(a, b) && StringLe(b, a) ==> a == b
  {
    StringLeTotal(a, b);
    if StringLe(a, b) && StringLe(b, c) {
      StringLeTransitive(a, b, c);
    }
  }

  lemma KeyLeTransitive(a: Key, b: Key, c: Key)
    requires KeyLe(a, b) && KeyLe(b, c)
    ensures KeyLe(a, c)
  {
    StringsTransitive(a.tenantId, b.tenantId, c.tenantId);
    StringsTransitive(a.documentId, b.documentId, c.documentId);
    StringsTransitive(a.itemId, b.itemId, c.itemId);
  }

  lemma KeyLeIsOrder()
    ensures TotalPreorder(KeyLe)
  {
    forall a, b ensures KeyLe(a, b) || KeyLe(b, a) {
      KeyLeTotal(a, b);
    }
    forall a, b, c | KeyLe(a, b) && KeyLe(b, c) ensures KeyLe(a, c) {
      KeyLeTransitive(a, b, c);
    }
  }

  /** The versions that have eligible events, in order. */
  function Keys(eligible: seq<Event>): seq<Key> {
    SortBy(KeyLe, Dedup(Map(KeyOf, eligible)))
  }

  lemma KeysMeans(eligible: seq<Event>)
    ensures Distinct(Keys(eligible)) && SortedBy(KeyLe, Keys(eligible))
    ensures forall k :: k in Keys(eligible) <==> exists e :: e in eligible && KeyOf(e) == k
  {
    var all := Map(KeyOf, eligible);
    DedupMembers(all);
    KeyLeIsOrder();
    SortPermutes(KeyLe, Dedup(all));
    SortSorts(KeyLe, Dedup(all));
    SortKeepsDistinct(KeyLe, Dedup(all));
    forall k
      ensures k in all <==> exists e :: e in eligible && KeyOf(e) == k
    {
      if k in all {
        var i :| 0 <= i < |all| && all[i] == k;
        assert eligible[i] in eligible;
      }
      if e :| e in eligible && KeyOf(e) == k {
        var i :| 0 <= i < |eligible| && eligible[i] == e;
        assert all[i] == k;
      }
    }
  }

  // ---- counting

  /** Counts how often `f` gives each value; the loops that add one to `counts[f(event)]`. */
  function Tally<K>(f: Event -> Option<K>, group: seq<Event>): map<K, nat> {
    if group == [] then map[]
    else
      var before, last := Tally(f, group[..|group| - 1]), group[|group| - 1];
      if f(last).None? then before
      else
        var k := f(last).value;
        before[k := 1 + if k in before then before[k] else 0]
  }

  function Count(p: Event -> bool, group: seq<Event>): nat {
    |Filter(p, group)|
  }

  lemma CountAppend(p: Event -> bool, group: seq<Event>, e: Event)
    ensures Count(p, group + [e]) == Count(p, group) + if p(e) then 1 else 0
  {
    FilterAppend(p, group, e);
  }

  function Gives<K(==)>(f: Event -> Option<K>, k: K): Event -> bool {
    (e: Event) => f(e) == Some(k)
  }

  /** A tally has exactly the values that occur, each with its number of occurrences. */
  lemma {:induction false} TallyCounts<K>(f: Event -> Option<K>, group: seq<Event>, k: K)
    ensures k in Tally(f, group) <==> Count(Gives(f, k), group) > 0
    ensures k in Tally(f, group) ==> Tally(f, group)[k] == Count(Gives(f, k), group)
  {
    if group != [] {
      var n := |group| - 1;
      TallyCounts(f, group[..n], k);
      assert group == group[..n] + [group[n]];
      CountAppend(Gives(f, k), group[..n], group[n]);
    }
  }

  lemma CountPermutes(p: Event -> bool, a: seq<Event>, b: seq<Event>)
    requires multiset(a) == multiset(b)
    ensures Count(p, a) == Count(p, b)
  {
    FilterPermutes(p, a, b);
    SameMembers(Filter(p, a), Filter(p, b));
  }

  ghost function Given<K>(f: Event -> Option<K>, group: seq<Event>): set<K> {
    set e | e in group && f(e).Some? :: f(e).value
  }

  lemma {:induction false} TallyKeys<K>(f: Event -> Option<K>, group: seq<Event>)
    ensures Tally(f, group).Keys == Given(f, group)
  {
    if group != [] {
      var init, last := group[..|group| - 1], group[|group| - 1];
      TallyKeys(f, init);
      assert group == init + [last];
      assert Given(f, group) == Given(f, init) + if f(last).Some? then {f(last).value} else {};
    }
  }

  lemma TallyPermutes<K>(f: Event -> Option<K>, a: seq<Event>, b: seq<Event>)
    requires multiset(a) == multiset(b)
    ensures Tally(f, a) == Tally(f, b)
  {
    SameMembers(a, b);
    TallyKeys(f, a);
    TallyKeys(f, b);
    assert Given(f, a) == Given(f, b);
    forall k | k in Tally(f, a)
      ensures Tally(f, a)[k] == Tally(f, b)[k]
    {
      TallyCounts(f, a, k);
      TallyCounts(f, b, k);
      CountPermutes(Gives(f, k), a, b);
    }
  }

  lemma {:induction false} CountSplits(p: Event -> bool, q: Event -> bool, group: seq<Event>)
    requires forall e :: p(e) ==> q(e)
    ensures Count(p, group) <= Count(q, group) <= |group|
  {
    if group != [] {
      CountSplits(p, q, group[1..]);
    }
  }

  // ---- one observation

  predicate Answered(e: Event) {
    !e.omitted && e.correct.Some?
  }

  predicate AnsweredCorrectly(e: Event) {
    Answered(e) && e.correct.value
  }

  predicate GotRight(e: Event) {
    e.correct == Some(true)
  }

  predicate Omitted(e: Event) {
    e.omitted
  }

  /** An empty distractor id counts as none. */
  function Distractor(e: Event): Option<string> {
    if e.distractorId == Some("") then None else e.distractorId
  }

  function Timing(e: Event): Option<TimingBand> {
    Some(e.timingBand)
  }

  function Rates(counts: map<string, nat>, size: nat): map<string, real>
    requires size > 0
  {
    map name | name in counts :: counts[name] as real / size as real
  }

  function MetricsOf(group: seq<Event>): Metrics
    requires group != []
  {
    var answered := Count(Answered, group);
    Metrics(Count(AnsweredCorrectly, group) as real / (if answered == 0 then 1 else answered) as real,
            Count(Omitted, group) as real / |group| as real,
            Rates(Tally(Distractor, group), |group|),
            Tally(Timing, group))
  }

  /** The observation of one version. */
  function ObservationOf(key: Key, group: seq<Event>, minimumSample: int): Observation
    requires group != []
  {
    Observation(key, |group|, if |group| < minimumSample then None else Some(MetricsOf(group)))
  }

  ghost predicate IsAggregate(events: seq<Event>, minimumSample: int, observations: seq<Observation>) {
    var eligible := EligibleOnes(events);
    var keys := Keys(eligible);
    && |observations| == |keys|
    && forall i :: 0 <= i < |keys| ==>
      GroupOf(eligible, keys[i]) != []
      && observations[i] == ObservationOf(keys[i], GroupOf(eligible, keys[i]), minimumSample)
  }

  /** The metrics of one group, counted as the source counts them. */
  method Measure(group: seq<Event>) returns (metrics: Metrics)
    requires group != []
    ensures metrics == MetricsOf(group)
  {
    hide Filter, Rates;
    var answered := Filter(Answered, group);
    CorrectAmongAnswered(group);
    var correctCount := |Filter(GotRight, answered)|;
    var distractors: map<string, nat> := map[];
    var timing: map<TimingBand, nat> := map[];
    for i := 0 to |group|
      invariant distractors == Tally(Distractor, group[..i])
      invariant timing == Tally(Timing, group[..i])
    {
      var e := group[i];
      assert group[..i + 1][..i] == group[..i];
      if e.distractorId.Some? && e.distractorId.value != "" {
        var d := e.distractorId.value;
        distractors := distractors[d := 1 + if d in distractors then distractors[d] else 0];
      }
      timing := timing[e.timingBand := 1 + if e.timingBand in timing then timing[e.timingBand] else 0];
    }
    assert group[..|group|] == group;
    metrics := Metrics(correctCount as real / (if answered == [] then 1 else |answered|) as real,
                       |Filter(Omitted, group)| as real / |group| as real,
                       Rates(distractors, |group|), timing);
  }

  lemma CorrectAmongAnswered(group: seq<Event>)
    ensures Filter(GotRight, Filter(Answered, group)) == Filter(AnsweredCorrectly, group)
  {
    forall e | e in group
      ensures AnsweredCorrectly(e) <==> GotRight(e) && Answered(e)
    {
    }
    FilterTwice(GotRight, Answered, AnsweredCorrectly, group);
  }

  /** The groups after the eligible events seen so far, with their keys in the order of insertion. */
  ghost predicate Grouped(eligible: seq<Event>, groups: map<Key, seq<Event>>, inserted: seq<Key>) {
    && inserted == Dedup(Map(KeyOf, eligible))
    && (forall k :: k in groups <==> k in inserted)
    && (forall k <- groups :: groups[k] == GroupOf(eligible, k) && groups[k] != [])
  }

  lemma EligibleAppend(events: seq<Event>, e: Event)
    ensures EligibleOnes(events + [e]) == EligibleOnes(events) + if Eligible(e) then [e] else []
  {
    FilterAppend(Eligible, events, e);
  }

  lemma DedupStep(eligible: seq<Event>, e: Event)
    ensures var before := Dedup(Map(KeyOf, eligible));
            Dedup(Map(KeyOf, eligible + [e])) == before + if KeyOf(e) in before then [] else [KeyOf(e)]
  {
    var all := Map(KeyOf, eligible + [e]);
    assert all == Map(KeyOf, eligible) + [KeyOf(e)] && all[..|eligible|] == Map(KeyOf, eligible);
  }

  lemma UngroupedIsEmpty(eligible: seq<Event>, groups: map<Key, seq<Event>>, inserted: seq<Key>, key: Key)
    requires Grouped(eligible, groups, inserted)
    ensures GroupOf(eligible, key) != [] ==> key in groups
  {
    FilterMembers(HasKey(key), eligible);
    DedupMembers(Map(KeyOf, eligible));
    if GroupOf(eligible, key) != [] {
      var e := GroupOf(eligible, key)[0];
      assert e in GroupOf(eligible, key);
      var i :| 0 <= i < |eligible| && eligible[i] == e;
      assert Map(KeyOf, eligible)[i] == key;
    }
  }

  lemma GroupedStep(eligible: seq<Event>, groups: map<Key, seq<Event>>, inserted: seq<Key>, e: Event)
    requires Grouped(eligible, groups, inserted)
    ensures var key := KeyOf(e);
            Grouped(eligible + [e], groups[key := (if key in groups then groups[key] else []) + [e]],
                    inserted + if key in groups then [] else [key])
  {
    DedupStep(eligible, e);
    forall k
      ensures GroupOf(eligible + [e], k) == GroupOf(eligible, k) + if KeyOf(e) == k then [e] else []
    {
      FilterAppend(HasKey(k), eligible, e);
    }
    UngroupedIsEmpty(eligible, groups, inserted, KeyOf(e));
  }

  /** `aggregate_item_observations`. */
  method AggregateItemObservations(events: seq<Event>, minimumSample: int := 10)
    returns (observations: seq<Observation>)
    ensures IsAggregate(events, minimumSample, observations)
  {
    var groups: map<Key, seq<Event>> := map[];
    var inserted: seq<Key> := [];
    for i := 0 to |events|
      invariant Grouped(EligibleOnes(events[..i]), groups, inserted)
    {
      var e := events[i];
      assert events[..i + 1] == events[..i] + [e];
      EligibleAppend(events[..i], e);
      ghost var seen := EligibleOnes(events[..i]);
      assert EligibleOnes(events[..i + 1]) == seen + if Eligible(e) then [e] else [];
      if e.optedOut || e.itemId.None? || e.answerSetVersion.None? || (e.kind != Response && e.kind != Omission) {
        assert !Eligible(e) && seen + [] == seen;
        continue;
      }
      var key := KeyOf(e);
      assert Eligible(e);
      GroupedStep(seen, groups, inserted, e);
      inserted := inserted + if key in groups then [] else [key];
      groups := groups[key := (if key in groups then groups[key] else []) + [e]];
    }
    assert events[..|events|] == events;
    observations := Observe(groups, inserted, minimumSample);
    SortPermutes(KeyLe, inserted);
  }

  /** The second loop: one observation for each group, in the order of the keys. */
  method Observe(groups: map<Key, seq<Event>>, inserted: seq<Key>, minimumSample: int)
    returns (observations: seq<Observation>)
    requires forall k :: k in inserted ==> k in groups && groups[k] != []
    ensures var keys := SortBy(KeyLe, inserted);
            && |observations| == |keys|
            && forall i :: 0 <= i < |keys| ==>
              keys[i] in groups && groups[keys[i]] != []
              && observations[i] == ObservationOf(keys[i], groups[keys[i]], minimumSample)
  {
    hide MetricsOf, KeyLe, SortBy;
    var keys := SortBy(KeyLe, inserted);
    SortPermutes(KeyLe, inserted);
    observations := [];
    for i := 0 to |keys|
      invariant |observations| == i
      invariant forall j :: 0 <= j < i ==>
        keys[j] in groups && groups[keys[j]] != []
        && observations[j] == ObservationOf(keys[j], groups[keys[j]], minimumSample)
    {
      assert keys[i] in keys;
      var group := groups[keys[i]];
      var sampleSize := |group|;
      if sampleSize < minimumSample {
        observations := observations + [Observation(keys[i], sampleSize, None)];
        continue;
      }
      var metrics := Measure(group);
      observations := observations + [Observation(keys[i], sampleSize, Some(metrics))];
    }
  }

  // ---- conservation

  function TotalSamples(observations: seq<Observation>): nat {
    if observations == [] then 0 else observations[0].sampleSize + TotalSamples(observations[1..])
  }

  function GroupSizes(eligible: seq<Event>, keys: seq<Key>): nat {
    if keys == [] then 0 else |GroupOf(eligible, keys[0])| + GroupSizes(eligible, keys[1..])
  }

  function HasOtherKey(key: Key): Event -> bool {
    (e: Event) => KeyOf(e) != key
  }

  function WithoutKey(eligible: seq<Event>, key: Key): seq<Event> {
    Filter(HasOtherKey(key), eligible)
  }

  lemma {:induction false} SplitByKey(eligible: seq<Event>, key: Key)
    ensures |GroupOf(eligible, key)| + |WithoutKey(eligible, key)| == |eligible|
  {
    if eligible != [] {
      SplitByKey(eligible[1..], key);
    }
  }

  lemma OtherGroupsStay(eligible: seq<Event>, key: Key, other: Key)
    requires other != key
    ensures GroupOf(WithoutKey(eligible, key), other) == GroupOf(eligible, other)
  {
    FilterTwice(HasKey(other), HasOtherKey(key), HasKey(other), eligible);
  }

  lemma {:induction false} OtherSizesStay(eligible: seq<Event>, key: Key, keys: seq<Key>)
    requires key !in keys
    ensures GroupSizes(WithoutKey(eligible, key), keys) == GroupSizes(eligible, keys)
  {
    if keys != [] {
      OtherGroupsStay(eligible, key, keys[0]);
      OtherSizesStay(eligible, key, keys[1..]);
    }
  }

  lemma {:induction false} GroupsPartition(eligible: seq<Event>, keys: seq<Key>)
    requires Distinct(keys) && forall e <- eligible :: KeyOf(e) in keys
    ensures GroupSizes(eligible, keys) == |eligible|
    decreases keys
  {
    if eligible != [] {
      var e := eligible[0];
      assert e in eligible && KeyOf(e) in keys;
    }
    if keys != [] {
      var k := keys[0];
      HeadAndTail(keys);
      FilterMembers(HasOtherKey(k), eligible);
      forall e | e in WithoutKey(eligible, k)
        ensures KeyOf(e) in keys[1..]
      {
        assert KeyOf(e) in keys;
      }
      GroupsPartition(WithoutKey(eligible, k), keys[1..]);
      OtherSizesStay(eligible, k, keys[1..]);
      SplitByKey(eligible, k);
    }
  }

  lemma {:induction false} TotalIsGroupSizes(eligible: seq<Event>, keys: seq<Key>, observations: seq<Observation>)
    requires |observations| == |keys|
    requires forall i :: 0 <= i < |keys| ==> observations[i].sampleSize == |GroupOf(eligible, keys[i])|
    ensures TotalSamples(observations) == GroupSizes(eligible, keys)
  {
    if keys != [] {
      TotalIsGroupSizes(eligible, keys[1..], observations[1..]);
    }
  }

  /** No event is lost or counted twice: the sample sizes add up to the number of eligible events. */
  lemma SampleSizesConserveEvents(events: seq<Event>, minimumSample: int, observations: seq<Observation>)
    requires IsAggregate(events, minimumSample, observations)
    ensures TotalSamples(observations) == |EligibleOnes(events)|
  {
    var eligible := EligibleOnes(events);
    KeysMeans(eligible);
    GroupsPartition(eligible, Keys(eligible));
    TotalIsGroupSizes(eligible, Keys(eligible), observations);
  }

  /** Each version with an eligible event has exactly one observation, which counts that version's events only. */
  lemma EachEventHasOneObservation(events: seq<Event>, minimumSample: int, observations: seq<Observation>, e: Event)
    requires IsAggregate(events, minimumSample, observations) && e in events && Eligible(e)
    ensures exists i :: 0 <= i < |observations| && observations[i].key == KeyOf(e)
                        && observations[i].sampleSize == Count(EligibleWithKey(KeyOf(e)), events)
    ensures forall i, j :: 0 <= i < j < |observations| ==> observations[i].key != observations[j].key
  {
    var eligible := EligibleOnes(events);
    var keys := Keys(eligible);
    KeysMeans(eligible);
    FilterMembers(Eligible, events);
    assert KeyOf(e) in keys;
    var i :| 0 <= i < |keys| && keys[i] == KeyOf(e);
    assert observations[i].key == keys[i];
    GroupIsCount(events, KeyOf(e));
    forall i, j | 0 <= i < j < |observations|
      ensures observations[i].key != observations[j].key
    {
      assert keys[i] != keys[j];
    }
  }

  function EligibleWithKey(key: Key): Event -> bool {
    (e: Event) => Eligible(e) && KeyOf(e) == key
  }

  lemma GroupIsCount(events: seq<Event>, key: Key)
    ensures |GroupOf(EligibleOnes(events), key)| == Count(EligibleWithKey(key), events)
  {
    FilterTwice(HasKey(key), Eligible, EligibleWithKey(key), events);
  }

  function TimingCount(metrics: Metrics, band: TimingBand): nat {
    if band in metrics.timing then metrics.timing[band] else 0
  }

  lemma {:induction false} BandsPartition(group: seq<Event>)
    ensures Count(Gives(Timing, Fast), group) + Count(Gives(Timing, Typical), group)
            + Count(Gives(Timing, Slow), group) + Count(Gives(Timing, Unknown), group) == |group|
  {
    if group != [] {
      BandsPartition(group[1..]);
      var e := group[0];
      assert Timing(e) == Some(e.timingBand);
      assert Gives(Timing, Fast)(e) <==> e.timingBand == Fast;
      assert Gives(Timing, Typical)(e) <==> e.timingBand == Typical;
      assert Gives(Timing, Slow)(e) <==> e.timingBand == Slow;
      assert Gives(Timing, Unknown)(e) <==> e.timingBand == Unknown;
    }
  }

  /** The timing counts of a group add up to its size. */
  lemma TimingConserves(group: seq<Event>)
    requires group != []
    ensures var m := MetricsOf(group);
            TimingCount(m, Fast) + TimingCount(m, Typical) + TimingCount(m, Slow) + TimingCount(m, Unknown) == |group|
  {
    TallyCounts(Timing, group, Fast);
    TallyCounts(Timing, group, Typical);
    TallyCounts(Timing, group, Slow);
    TallyCounts(Timing, group, Unknown);
    BandsPartition(group);
  }

  lemma RatioInUnit(part: nat, whole: nat)
    requires part <= whole && whole > 0
    ensures 0.0 <= part as real / whole as real <= 1.0
    ensures part as real / whole as real == 0.0 <==> part == 0
  {
    var ratio := part as real / whole as real;
    assert ratio * whole as real == part as real;
  }

  /** The metrics of a group lie between zero and one, as the observation's fields demand; listed rates are not zero. */
  lemma MetricsInRange(group: seq<Event>)
    requires group != []
    ensures var m := MetricsOf(group);
            && 0.0 <= m.difficulty <= 1.0 && 0.0 <= m.omissionRate <= 1.0
            && forall d <- m.distractors :: 0.0 < m.distractors[d] <= 1.0
  {
    CountSplits(AnsweredCorrectly, Answered, group);
    CountSplits(Omitted, Omitted, group);
    var answered := Count(Answered, group);
    RatioInUnit(Count(AnsweredCorrectly, group), if answered == 0 then 1 else answered);
    RatioInUnit(Count(Omitted, group), |group|);
    forall d | d in Tally(Distractor, group)
      ensures 0.0 < MetricsOf(group).distractors[d] <= 1.0
    {
      var p := Gives(Distractor, d);
      TallyCounts(Distractor, group, d);
      CountSplits(p, p, group);
      RatioInUnit(Count(p, group), |group|);
    }
  }

  /** Metrics appear exactly at the minimum sample, and then account for every event of the version. */
  lemma ObservationLaws(events: seq<Event>, minimumSample: int, observations: seq<Observation>, i: nat)
    requires IsAggregate(events, minimumSample, observations) && i < |observations|
    ensures observations[i].sampleSize >= 1
    ensures observations[i].metrics.Some? <==> observations[i].sampleSize >= minimumSample
    ensures observations[i].metrics.Some? ==>
      var m := observations[i].metrics.value;
      && TimingCount(m, Fast) + TimingCount(m, Typical) + TimingCount(m, Slow) + TimingCount(m, Unknown)
         == observations[i].sampleSize
      && 0.0 <= m.difficulty <= 1.0 && 0.0 <= m.omissionRate <= 1.0
      && forall d <- m.distractors :: 0.0 < m.distractors[d] <= 1.0
  {
    var group := GroupOf(EligibleOnes(events), Keys(EligibleOnes(events))[i]);
    TimingConserves(group);
    MetricsInRange(group);
  }

  // ---- what does not matter

  lemma KeysPermute(a: seq<Event>, b: seq<Event>)
    requires multiset(a) == multiset(b)
    ensures Keys(a) == Keys(b)
  {
    SameMembers(a, b);
    KeysMeans(a);
    KeysMeans(b);
    KeyLeIsOrder();
    assert Elements(Keys(a)) == Elements(Keys(b));
    DistinctListings(Keys(a), Keys(b));
    forall x, y | KeyLe(x, y) && KeyLe(y, x)
      ensures x == y
    {
      KeyLeTotal(x, y);
    }
    SortedUnique(KeyLe, Keys(a), Keys(b));
  }

  lemma MetricsPermute(a: seq<Event>, b: seq<Event>)
    requires a != [] && b != [] && multiset(a) == multiset(b)
    ensures MetricsOf(a) == MetricsOf(b)
  {
    SameMembers(a, b);
    CountPermutes(Answered, a, b);
    CountPermutes(AnsweredCorrectly, a, b);
    CountPermutes(Omitted, a, b);
    TallyPermutes(Distractor, a, b);
    TallyPermutes(Timing, a, b);
  }

  /**
   Two logs whose eligible events agree up to order have the same observations: the order of events, opted-out events
   and events that are no item responses leave no trace.
   */
  lemma ObservationsIgnoreOrderAndOptOut(a: seq<Event>, b: seq<Event>, minimumSample: int,
                                         fromA: seq<Observation>, fromB: seq<Observation>)
    requires multiset(EligibleOnes(a)) == multiset(EligibleOnes(b))
    requires IsAggregate(a, minimumSample, fromA) && IsAggregate(b, minimumSample, fromB)
    ensures fromA == fromB
  {
    var ea, eb := EligibleOnes(a), EligibleOnes(b);
    KeysPermute(ea, eb);
    forall i | 0 <= i < |fromA|
      ensures fromA[i] == fromB[i]
    {
      var k := Keys(ea)[i];
      FilterPermutes(HasKey(k), ea, eb);
      SameMembers(GroupOf(ea, k), GroupOf(eb, k));
      MetricsPermute(GroupOf(ea, k), GroupOf(eb, k));
    }
  }
}
