/**
 The provider circuit breaker: a timed state machine over a record in a store whose entries may expire at any
 moment. Times are real numbers of seconds; every operation is atomic.
 */
module CircuitBreaker {
  import opened Wrappers

  datatype State = Closed | Open | HalfOpen

  datatype Record = Record(failures: int, state: State, lastFailure: real)

  datatype Entry = Entry(record: Record, savedAt: real)

  datatype Config = Config(threshold: int, recoveryTimeout: real, hasStore: bool)

  const DEFAULT := Record(0, Closed, 0.0)

  type Stored = Option<Entry>

  function View(s: Stored): Record {
    if s.Some? then s.value.record else DEFAULT
  }

  function Save(cfg: Config, s: Stored, record: Record, now: real): Stored {
    if cfg.hasStore then Some(Entry(record, now)) else s
  }

  function Success(cfg: Config, s: Stored, now: real): Stored {
    Save(cfg, s, DEFAULT, now)
  }

  function Failure(cfg: Config, s: Stored, now: real): Stored {
    var failures := View(s).failures + 1;
    Save(cfg, s, Record(failures, if failures >= cfg.threshold then Open else Closed, now), now)
  }

  predicate Due(cfg: Config, record: Record, now: real) {
    record.state == Open && now - record.lastFailure >= cfg.recoveryTimeout
  }

  function Poll(cfg: Config, s: Stored, now: real): (Stored, bool) {
    if View(s).state != Open then (s, false)
    else if Due(cfg, View(s), now) then (Save(cfg, s, View(s).(state := HalfOpen), now), false)
    else (s, true)
  }

  class ProviderCircuitBreaker {
    const config: Config
    var stored: Stored

    constructor (config: Config)
      ensures this.config == config && stored == None
    {
      this.config := config;
      stored := None;
    }

    /** `_state`. */
    function Current(): Record
      reads this
    {
      if config.hasStore && stored.Some? then stored.value.record else DEFAULT
    }

    /** `_save`. */
    method SaveRecord(record: Record, now: real)
      modifies this
      ensures stored == Save(config, old(stored), record, now)
    {
      if config.hasStore {
        stored := Some(Entry(record, now));
      }
    }

    method IsOpen(now: real) returns (open: bool)
      requires config.hasStore || stored == None
      modifies this
      ensures (stored, open) == Poll(config, old(stored), now)
    {
      var current := Current();
      if current.state != Open {
        return false;
      }
      if now - current.lastFailure >= config.recoveryTimeout {
        SaveRecord(current.(state := HalfOpen), now);
        return false;
      }
      open := true;
    }

    method RecordSuccess(now: real)
      modifies this
      ensures stored == Success(config, old(stored), now)
    {
      SaveRecord(Record(0, Closed, 0.0), now);
    }

    method RecordFailure(now: real)
      requires config.hasStore || stored == None
      modifies this
      ensures stored == Failure(config, old(stored), now)
    {
      var current := Current();
      var failures := current.failures + 1;
      SaveRecord(Record(failures, if failures >= config.threshold then Open else Closed, now), now);
    }

    /** The store drops the entry. */
    method Expire()
      modifies this
      ensures stored == None
    {
      stored := None;
    }
  }

  // ---- every interleaving

  datatype Event = Failed(now: real) | Succeeded(now: real) | Polled(now: real) | Expired

  function Step(cfg: Config, s: Stored, event: Event): Stored {
    match event
    case Failed(now) => Failure(cfg, s, now)
    case Succeeded(now) => Success(cfg, s, now)
    case Polled(now) => Poll(cfg, s, now).0
    case Expired => None
  }

  function Run(cfg: Config, events: seq<Event>): Stored {
    if events == [] then None else Step(cfg, Run(cfg, events[..|events| - 1]), events[|events| - 1])
  }

  /** How many failures were recorded since the last success or expiry. */
  function Streak(events: seq<Event>): nat {
    if events == [] then 0
    else
      var before := Streak(events[..|events| - 1]);
      match events[|events| - 1]
      case Failed(_) => before + 1
      case Polled(_) => before
      case _ => 0
  }

  /** When the last failure of the streak was recorded. */
  function LastFailure(events: seq<Event>): real {
    if events == [] then 0.0
    else
      match events[|events| - 1]
      case Failed(now) => now
      case Polled(_) => LastFailure(events[..|events| - 1])
      case _ => 0.0
  }

  /** The streak is long enough to open the breaker. */
  predicate Tripping(cfg: Config, events: seq<Event>) {
    Streak(events) > 0 && Streak(events) >= cfg.threshold
  }

  /** Someone polled after the recovery timeout, and nothing but polls happened since. */
  predicate Recovering(cfg: Config, events: seq<Event>) {
    events != [] && events[|events| - 1].Polled? &&
    var before := events[..|events| - 1];
    Recovering(cfg, before) ||
    (Tripping(cfg, before) && events[|events| - 1].now - LastFailure(before) >= cfg.recoveryTimeout)
  }

  /** The record the history asks for. */
  function Expected(cfg: Config, events: seq<Event>): Record {
    if !cfg.hasStore then DEFAULT
    else
      Record(Streak(events),
             if !Tripping(cfg, events) then Closed else if Recovering(cfg, events) then HalfOpen else Open,
             LastFailure(events))
  }

  /** Over every interleaving of failures, successes, polls and expiries the record is what the history asks for. */
  lemma {:induction false} RecordFollowsHistory(cfg: Config, events: seq<Event>)
    ensures View(Run(cfg, events)) == Expected(cfg, events)
  {
    if events != [] {
      RecordFollowsHistory(cfg, events[..|events| - 1]);
    }
  }

  /**
   `is_open` answers yes exactly when a long enough streak of failures is on record, its last failure is less than the
   recovery timeout ago, and no poll has started recovery.
   */
  lemma OpenExactly(cfg: Config, events: seq<Event>, now: real)
    ensures Poll(cfg, Run(cfg, events), now).1
       <==> cfg.hasStore && Tripping(cfg, events) && !Recovering(cfg, events)
            && now - LastFailure(events) < cfg.recoveryTimeout
  {
    RecordFollowsHistory(cfg, events);
  }

  /** Open and half-open records have at least `threshold` failures. */
  lemma OpenNeedsThreshold(cfg: Config, events: seq<Event>)
    ensures View(Run(cfg, events)).state != Closed ==> View(Run(cfg, events)).failures >= cfg.threshold
  {
    RecordFollowsHistory(cfg, events);
  }

  /** Closed records always have fewer than `threshold` failures exactly when the threshold is at least one. */
  lemma ClosedBelowThresholdExactly(cfg: Config)
    ensures (forall events ::
               View(Run(cfg, events)).state == Closed ==> View(Run(cfg, events)).failures < cfg.threshold)
       <==> cfg.threshold >= 1
  {
    if cfg.threshold >= 1 {
      forall events
        ensures View(Run(cfg, events)).state == Closed ==> View(Run(cfg, events)).failures < cfg.threshold
      {
        RecordFollowsHistory(cfg, events);
      }
    } else {
      assert Run(cfg, []) == None;
    }
  }

  /** One failure while half-open opens the breaker again at once, for a full recovery timeout. */
  lemma HalfOpenReopens(cfg: Config, events: seq<Event>, failedAt: real, now: real)
    requires View(Run(cfg, events)).state == HalfOpen
    ensures Poll(cfg, Run(cfg, events + [Failed(failedAt)]), now).1 <==> now - failedAt < cfg.recoveryTimeout
  {
    var after := events + [Failed(failedAt)];
    assert after[..|after| - 1] == events;
    RecordFollowsHistory(cfg, events);
    OpenExactly(cfg, after, now);
  }

  // ---- a store that drops an entry as soon as its time to live is over

  /** What such a store still holds at `now`. */
  function Live(s: Stored, ttl: real, now: real): Stored {
    if s.Some? && now - s.value.savedAt >= ttl then None else s
  }

  function StepPrompt(cfg: Config, ttl: real, s: Stored, event: Event): Stored {
    if event.Expired? then None else Step(cfg, Live(s, ttl, event.now), event)
  }

  function RunPrompt(cfg: Config, ttl: real, events: seq<Event>): Stored {
    if events == [] then None
    else StepPrompt(cfg, ttl, RunPrompt(cfg, ttl, events[..|events| - 1]), events[|events| - 1])
  }

  ghost predicate NeverHalfOpen(cfg: Config, ttl: real) {
    forall events :: View(RunPrompt(cfg, ttl, events)).state != HalfOpen
  }

  /** An open record was saved when its last failure was recorded, so it is gone before a poll may start recovery. */
  lemma {:induction false} OpenRecordExpires(cfg: Config, ttl: real, events: seq<Event>)
    requires ttl <= cfg.recoveryTimeout
    ensures var s := RunPrompt(cfg, ttl, events);
            && View(s).state != HalfOpen
            && (View(s).state == Open ==> s.Some? && s.value.savedAt == View(s).lastFailure)
  {
    if events != [] {
      OpenRecordExpires(cfg, ttl, events[..|events| - 1]);
    }
  }

  /** `n` failures at time zero. */
  function FailuresAtZero(n: nat): seq<Event> {
    if n == 0 then [] else FailuresAtZero(n - 1) + [Failed(0.0)]
  }

  /** Enough failures to open the breaker, then a poll as soon as the recovery timeout is over. */
  function RecoveryRun(cfg: Config): seq<Event> {
    FailuresAtZero(if cfg.threshold >= 1 then cfg.threshold else 1)
    + [Polled(if cfg.recoveryTimeout >= 0.0 then cfg.recoveryTimeout else 0.0)]
  }

  lemma {:induction false} FailuresAddUp(cfg: Config, ttl: real, n: nat)
    requires cfg.hasStore && ttl > 0.0 && n >= 1
    ensures RunPrompt(cfg, ttl, FailuresAtZero(n))
         == Some(Entry(Record(n, if n >= cfg.threshold then Open else Closed, 0.0), 0.0))
  {
    var events := FailuresAtZero(n);
    assert events[..|events| - 1] == FailuresAtZero(n - 1);
    if n > 1 {
      FailuresAddUp(cfg, ttl, n - 1);
    }
  }

  /** A record that outlives the recovery timeout is found half-open. */
  lemma LongTimeToLiveHalfOpens(cfg: Config, ttl: real)
    requires cfg.hasStore && ttl > 0.0 && ttl > cfg.recoveryTimeout
    ensures View(RunPrompt(cfg, ttl, RecoveryRun(cfg))).state == HalfOpen
  {
    var n := if cfg.threshold >= 1 then cfg.threshold else 1;
    var events := RecoveryRun(cfg);
    assert events[..|events| - 1] == FailuresAtZero(n);
    FailuresAddUp(cfg, ttl, n);
  }

  /**
   With a store that expires entries promptly the breaker is never half-open exactly when there is no store or entries
   live no longer than the recovery timeout.
   */
  lemma NeverHalfOpenExactly(cfg: Config, ttl: real)
    requires ttl > 0.0
    ensures NeverHalfOpen(cfg, ttl) <==> !cfg.hasStore || ttl <= cfg.recoveryTimeout
  {
    if !cfg.hasStore {
      forall events
        ensures View(RunPrompt(cfg, ttl, events)).state != HalfOpen
      {
        StorelessKeepsNothing(cfg, ttl, events);
      }
    } else if ttl <= cfg.recoveryTimeout {
      forall events
        ensures View(RunPrompt(cfg, ttl, events)).state != HalfOpen
      {
        OpenRecordExpires(cfg, ttl, events);
      }
    } else {
      LongTimeToLiveHalfOpens(cfg, ttl);
    }
  }

  lemma {:induction false} StorelessKeepsNothing(cfg: Config, ttl: real, events: seq<Event>)
    requires !cfg.hasStore
    ensures RunPrompt(cfg, ttl, events) == None
  {
    if events != [] {
      StorelessKeepsNothing(cfg, ttl, events[..|events| - 1]);
    }
  }

  /** The Redis store keeps an entry for the recovery timeout in whole seconds, at least one. */
  function RedisTtl(cfg: Config): (ttl: real)
    ensures ttl >= 1.0 && (ttl <= cfg.recoveryTimeout <==> cfg.recoveryTimeout >= 1.0)
  {
    if cfg.recoveryTimeout >= 1.0 then cfg.recoveryTimeout.Floor as real else 1.0
  }

  /** With the Redis store the breaker is never half-open exactly when the recovery timeout is a second or more. */
  lemma RedisNeverHalfOpenExactly(cfg: Config)
    requires cfg.hasStore
    ensures NeverHalfOpen(cfg, RedisTtl(cfg)) <==> cfg.recoveryTimeout >= 1.0
  {
    NeverHalfOpenExactly(cfg, RedisTtl(cfg));
  }

  /** Once its record has expired, a breaker that was open starts counting anew. */
  lemma PromptExpiryForgetsFailures(cfg: Config, ttl: real, events: seq<Event>, now: real)
    requires View(RunPrompt(cfg, ttl, events)).state == Open && ttl <= cfg.recoveryTimeout
    requires now - View(RunPrompt(cfg, ttl, events)).lastFailure >= ttl && cfg.hasStore
    ensures View(RunPrompt(cfg, ttl, events + [Failed(now)]))
         == Record(1, if 1 >= cfg.threshold then Open else Closed, now)
  {
    OpenRecordExpires(cfg, ttl, events);
    assert (events + [Failed(now)])[..|events|] == events;
  }
}
