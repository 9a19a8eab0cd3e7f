/**
 What the aggregated item observations say about the event log: which versions they cover, in what order, and what
 each metric counts.
 */
module ItemObservationLaws {
  import opened Wrappers
  import opened Sequences
  import opened Ordering
  import opened ItemObservations

  /** An answer or an omission of exactly this version of an item, by somebody who has not opted out. */
  predicate OfVersion(k: Key, e: Event) {
    && (e.kind == Response || e.kind == Omission) && !e.optedOut
    && e.tenantId == k.tenantId && e.documentId == k.documentId && e.documentVersion == k.documentVersion
    && e.itemId == Some(k.itemId) && e.answerSetVersion == Some(k.answerSetVersion)
  }

  lemma OfVersionMeans(k: Key, e: Event)
    ensures OfVersion(k, e) <==> Eligible(e) && KeyOf(e) == k
  {
  }

  /** Counting in the group of a version is counting in the whole log. */
  lemma CountInLog(events: seq<Event>, k: Key, p: Event -> bool, q: Event -> bool)
    requires forall e <- events :: q(e) <==> OfVersion(k, e) && p(e)
    ensures Count(p, GroupOf(EligibleOnes(events), k)) == Count(q, events)
  {
    var group := EligibleWithKey(k);
    FilterTwice(HasKey(k), Eligible, group, events);
    forall e | e in events
      ensures q(e) <==> p(e) && group(e)
    {
      OfVersionMeans(k, e);
    }
    FilterTwice(p, group, q, events);
  }

  /** The versions observed are those with such an event in the log, once each. */
  lemma VersionsExactly(events: seq<Event>, minimumSample: int, observations: seq<Observation>, k: Key)
    requires IsAggregate(events, minimumSample, observations)
    ensures (exists o :: o in observations && o.key == k) <==> exists e :: e in events && OfVersion(k, e)
    ensures forall i, j :: 0 <= i < j < |observations| ==> observations[i].key != observations[j].key
  {
    hide ObservationOf, GroupOf;
    var eligible := EligibleOnes(events);
    var keys := Keys(eligible);
    KeysMeans(eligible);
    FilterMembers(Eligible, events);
    assert k in keys <==> exists e :: e in events && OfVersion(k, e) by {
      if k in keys {
        var e :| e in eligible && KeyOf(e) == k;
        OfVersionMeans(k, e);
        assert Eligible(e);
      }
      if e :| e in events && OfVersion(k, e) {
        OfVersionMeans(k, e);
        assert e in eligible;
      }
    }
    KeysOfObservations(events, minimumSample, observations);
    if k in keys {
      var i :| 0 <= i < |keys| && keys[i] == k;
      assert observations[i] in observations;
    }
  }

  lemma KeysOfObservations(events: seq<Event>, minimumSample: int, observations: seq<Observation>)
    requires IsAggregate(events, minimumSample, observations)
    ensures |observations| == |Keys(EligibleOnes(events))|
    ensures forall i :: 0 <= i < |observations| ==> observations[i].key == Keys(EligibleOnes(events))[i]
  {
  }

  /** Observations are sorted by tenant, then document, then document version, then item, then answer set version. */
  lemma VersionsInOrder(events: seq<Event>, minimumSample: int, observations: seq<Observation>, i: nat, j: nat)
    requires IsAggregate(events, minimumSample, observations) && i < j < |observations|
    ensures var a, b := observations[i].key, observations[j].key;
            var sameDocument := a.tenantId == b.tenantId && a.documentId == b.documentId;
            var sameVersion := sameDocument && a.documentVersion == b.documentVersion;
            && StringLe(a.tenantId, b.tenantId)
            && (a.tenantId == b.tenantId ==> StringLe(a.documentId, b.documentId))
            && (sameDocument ==> a.documentVersion <= b.documentVersion)
            && (sameVersion ==> StringLe(a.itemId, b.itemId))
            && (sameVersion && a.itemId == b.itemId ==> a.answerSetVersion < b.answerSetVersion)
  {
    hide ObservationOf, GroupOf;
    KeysMeans(EligibleOnes(events));
    KeysOfObservations(events, minimumSample, observations);
    var a, b := observations[i].key, observations[j].key;
    assert KeyLe(a, b) && a != b;
    StringLeTotal(a.tenantId, b.tenantId);
    StringLeTotal(a.documentId, b.documentId);
    StringLeTotal(a.itemId, b.itemId);
  }

  lemma GroupBehind(events: seq<Event>, minimumSample: int, observations: seq<Observation>, i: nat)
    returns (group: seq<Event>)
    requires IsAggregate(events, minimumSample, observations) && i < |observations|
    ensures group == GroupOf(EligibleOnes(events), observations[i].key) != []
    ensures observations[i].sampleSize == |group|
    ensures observations[i].metrics.Some? ==> observations[i].metrics == Some(MetricsOf(group))
  {
    group := GroupOf(EligibleOnes(events), observations[i].key);
  }

  /** The sample of a version are its events in the log. */
  lemma SampleExactly(events: seq<Event>, minimumSample: int, observations: seq<Observation>, i: nat)
    requires IsAggregate(events, minimumSample, observations) && i < |observations|
    ensures var k := observations[i].key; observations[i].sampleSize == Count((e: Event) => OfVersion(k, e), events)
  {
    hide IsAggregate, MetricsOf, OfVersion;
    var k := observations[i].key;
    var group := GroupBehind(events, minimumSample, observations, i);
    CountInLog(events, k, e => true, (e: Event) => OfVersion(k, e));
    FilterAll(e => true, group);
  }

  lemma ShareTimesWhole(part: nat, whole: nat)
    requires whole > 0
    ensures (part as real / whole as real) * whole as real == part as real
  {
  }

  /** Difficulty is the share of right answers among the answers given, zero without any. */
  lemma DifficultyExactly(events: seq<Event>, minimumSample: int, observations: seq<Observation>, i: nat)
    requires IsAggregate(events, minimumSample, observations) && i < |observations|
    requires observations[i].metrics.Some?
    ensures var k, difficulty := observations[i].key, observations[i].metrics.value.difficulty;
            var answered := Count((e: Event) => OfVersion(k, e) && !e.omitted && e.correct.Some?, events);
            var right := Count((e: Event) => OfVersion(k, e) && !e.omitted && e.correct == Some(true), events);
            difficulty * answered as real == right as real && (answered == 0 ==> difficulty == 0.0)
  {
    hide IsAggregate, Count, Rates, Tally, OfVersion;
    var k := observations[i].key;
    var group := GroupBehind(events, minimumSample, observations, i);
    CountInLog(events, k, Answered, (e: Event) => OfVersion(k, e) && !e.omitted && e.correct.Some?);
    CountInLog(events, k, AnsweredCorrectly, (e: Event) => OfVersion(k, e) && !e.omitted && e.correct == Some(true));
    CountSplits(AnsweredCorrectly, Answered, group);
    var answered := Count(Answered, group);
    ShareTimesWhole(Count(AnsweredCorrectly, group), if answered == 0 then 1 else answered);
  }

  /** The omission rate is the share of omitted events in the sample. */
  lemma OmissionRateExactly(events: seq<Event>, minimumSample: int, observations: seq<Observation>, i: nat)
    requires IsAggregate(events, minimumSample, observations) && i < |observations|
    requires observations[i].metrics.Some?
    ensures var k, o := observations[i].key, observations[i];
            o.metrics.value.omissionRate * o.sampleSize as real
            == Count((e: Event) => OfVersion(k, e) && e.omitted, events) as real
  {
    hide IsAggregate, Count, Rates, Tally, OfVersion;
    var k := observations[i].key;
    var group := GroupBehind(events, minimumSample, observations, i);
    CountInLog(events, k, Omitted, (e: Event) => OfVersion(k, e) && e.omitted);
    ShareTimesWhole(Count(Omitted, group), |group|);
  }

  /** A distractor is listed when some event of the sample names it, with its share of the sample as its rate. */
  lemma DistractorRateExactly(events: seq<Event>, minimumSample: int, observations: seq<Observation>, i: nat,
                              name: string)
    requires IsAggregate(events, minimumSample, observations) && i < |observations|
    requires observations[i].metrics.Some?
    ensures var k, o, rates := observations[i].key, observations[i], observations[i].metrics.value.distractors;
            var named := Count((e: Event) => OfVersion(k, e) && e.distractorId == Some(name), events);
            && (name in rates <==> name != "" && named > 0)
            && (name in rates ==> rates[name] * o.sampleSize as real == named as real)
  {
    hide IsAggregate, Count, OfVersion;
    var k := observations[i].key;
    var group := GroupBehind(events, minimumSample, observations, i);
    TallyCounts(Distractor, group, name);
    var tally := Tally(Distractor, group);
    if name == "" {
      NoEmptyDistractor(group);
    } else {
      var named := (e: Event) => OfVersion(k, e) && e.distractorId == Some(name);
      forall e
        ensures Gives(Distractor, name)(e) <==> e.distractorId == Some(name)
      {
        assert Gives(Distractor, name)(e) <==> Distractor(e) == Some(name);
      }
      CountInLog(events, k, Gives(Distractor, name), named);
    }
    if name in tally {
      ShareTimesWhole(tally[name], |group|);
    }
  }

  lemma NoEmptyDistractor(group: seq<Event>)
    ensures "" !in Tally(Distractor, group)
  {
    TallyKeys(Distractor, group);
    forall e | e in group
      ensures Distractor(e) != Some("")
    {
    }
  }

  /** The timing counts are the numbers of events in each band. */
  lemma TimingExactly(events: seq<Event>, minimumSample: int, observations: seq<Observation>, i: nat, band: TimingBand)
    requires IsAggregate(events, minimumSample, observations) && i < |observations|
    requires observations[i].metrics.Some?
    ensures var k, timing := observations[i].key, observations[i].metrics.value.timing;
            var counted := Count((e: Event) => OfVersion(k, e) && e.timingBand == band, events);
            && (band in timing <==> counted > 0)
            && (band in timing ==> timing[band] == counted)
  {
    hide IsAggregate, Count, OfVersion, Rates;
    var k := observations[i].key;
    var group := GroupBehind(events, minimumSample, observations, i);
    TallyCounts(Timing, group, band);
    forall e
      ensures Gives(Timing, band)(e) <==> e.timingBand == band
    {
      assert Gives(Timing, band)(e) <==> Timing(e) == Some(band);
    }
    CountInLog(events, k, Gives(Timing, band), (e: Event) => OfVersion(k, e) && e.timingBand == band);
  }
}
