// src/health_monitor.cpp: the per-source health state machine.
//
// Step and Decided are the specification; the class HealthMonitor is the monitor as the
// program runs it, one call being one atomic step, and every method is proved to take the
// whole table of sources to the one the specification names.
module Health {
  import opened Arithmetic

  datatype HealthState = Healthy | Degraded | Lost

  datatype HealthReason =
    | NoReason
    | NoData
    | StaleData
    | DeadlineMissed
    | LivelinessLost
    | PublisherUnmatched
    | QosIncompatible
    | Recovering

  datatype HealthPolicy = HealthPolicy(
    degradedAfterMs: int,
    lostAfterMs: int,
    degradeAfterMisses: u32,
    recoverAfterSamples: u32)

  datatype SourceState = SourceState(
    state: HealthState,
    reason: HealthReason,
    lastSampleNs: int,
    deadlineMisses: u64,
    livelinessLosses: u64,
    incompatibleQosEvents: u64,
    consecutiveMisses: u32,
    consecutiveFresh: u32,
    writerMatched: bool,
    seen: bool)

  const UNSEEN := SourceState(Lost, NoData, 0, 0, 0, 0, 0, 0, false, false)

  datatype HealthSnapshot = HealthSnapshot(
    state: HealthState,
    reason: HealthReason,
    lastSampleNs: int,
    ageMs: int,
    deadlineMisses: u64,
    livelinessLosses: u64,
    incompatibleQosEvents: u64,
    writerMatched: bool)

  const EMPTY_SNAPSHOT := HealthSnapshot(Lost, NoData, 0, 0, 0, 0, 0, false)

  /** Everything that can happen to one source. */
  datatype Event =
    | SampleArrived(nowNs: int, ageMs: int)
    | DeadlineMiss
    | LivelinessLoss
    | QosConflict
    | MatchChange(matched: bool)
    | Tick(tickNs: int)

  // ---------------------------------------------------------------- specification

  predicate IsFresh(p: HealthPolicy, e: Event) {
    e.SampleArrived? && e.ageMs <= p.degradedAfterMs
  }

  function AfterSample(p: HealthPolicy, s: SourceState, e: Event): SourceState
    requires e.SampleArrived?
  {
    var run := if !IsFresh(p, e) then 0
               else if s.consecutiveFresh < p.recoverAfterSamples then s.consecutiveFresh + 1
               else s.consecutiveFresh;
    var trusted := IsFresh(p, e) && (!s.seen || s.state.Healthy? || run >= p.recoverAfterSamples);
    var state := if trusted then Healthy else if s.state.Healthy? then Degraded else s.state;
    var reason := if trusted then NoReason
                  else if IsFresh(p, e) then Recovering
                  else if s.state.Lost? then s.reason
                  else StaleData;
    s.(lastSampleNs := e.nowNs, consecutiveMisses := 0, consecutiveFresh := run, seen := true,
       state := state, reason := reason)
  }

  function AfterDeadlineMiss(p: HealthPolicy, s: SourceState): SourceState {
    var misses := Next32(s.consecutiveMisses);
    var degrade := misses >= p.degradeAfterMisses && s.state.Healthy?;
    s.(deadlineMisses := Next64(s.deadlineMisses), consecutiveMisses := misses, consecutiveFresh := 0,
       state := if degrade then Degraded else s.state,
       reason := if degrade then DeadlineMissed else s.reason)
  }

  /** What a poll at `nowNs` reports: the stored state, overridden by the age of the last sample. */
  function Verdict(p: HealthPolicy, s: SourceState, nowNs: int): (HealthState, HealthReason) {
    var ageNs := nowNs - s.lastSampleNs;
    if !s.seen || s.lastSampleNs == 0 then (Lost, NoData)
    else if ageNs >= p.lostAfterMs * NS_PER_MS then
      (Lost, if s.reason.LivelinessLost? || s.reason.PublisherUnmatched? then s.reason else NoData)
    else if ageNs >= p.degradedAfterMs * NS_PER_MS && s.state.Healthy? then (Degraded, StaleData)
    else (s.state, s.reason)
  }

  function Decided(p: HealthPolicy, s: SourceState, nowNs: int): HealthSnapshot {
    HealthSnapshot(
      Verdict(p, s, nowNs).0, Verdict(p, s, nowNs).1, s.lastSampleNs,
      if !s.seen || s.lastSampleNs == 0 then 0 else TruncDiv(nowNs - s.lastSampleNs, NS_PER_MS),
      s.deadlineMisses, s.livelinessLosses, s.incompatibleQosEvents, s.writerMatched)
  }

  function AfterTick(p: HealthPolicy, s: SourceState, nowNs: int): SourceState {
    var (state, reason) := Verdict(p, s, nowNs);
    s.(state := state, reason := reason,
       consecutiveFresh := if state != s.state then 0 else s.consecutiveFresh)
  }

  function Step(p: HealthPolicy, s: SourceState, e: Event): SourceState {
    match e
    case SampleArrived(_, _) => AfterSample(p, s, e)
    case DeadlineMiss => AfterDeadlineMiss(p, s)
    case LivelinessLoss =>
      s.(livelinessLosses := Next64(s.livelinessLosses), consecutiveFresh := 0, state := Lost, reason := LivelinessLost)
    case QosConflict =>
      s.(incompatibleQosEvents := Next64(s.incompatibleQosEvents), state := Degraded, reason := QosIncompatible)
    case MatchChange(true) => s.(writerMatched := true)
    case MatchChange(false) =>
      s.(writerMatched := false, consecutiveFresh := 0, state := Lost, reason := PublisherUnmatched)
    case Tick(nowNs) => AfterTick(p, s, nowNs)
  }

  type Sources = map<string, SourceState>

  function StateOf(m: Sources, id: string): SourceState {
    if id in m then m[id] else UNSEEN
  }

  /** The table of sources after one event for the source `id`. */
  function Observe(p: HealthPolicy, m: Sources, id: string, e: Event): Sources {
    m[id := Step(p, StateOf(m, id), e)]
  }

  // ---------------------------------------------------------------- the monitor

  class HealthMonitor {
    const policy: HealthPolicy
    var states: Sources

    constructor (policy: HealthPolicy)
      ensures this.policy == policy && states == map[]
    {
      this.policy := policy;
      states := map[];
    }

    constructor WithThresholds(degradedAfterMs: int, lostAfterMs: int)
      ensures policy == HealthPolicy(degradedAfterMs, lostAfterMs, 2, 3) && states == map[]
    {
      policy := HealthPolicy(degradedAfterMs, lostAfterMs, 2, 3);
      states := map[];
    }

    method OnSample(id: string, nowNs: int, ageMs: int)
      modifies this
      ensures states == Observe(policy, old(states), id, SampleArrived(nowNs, ageMs))
    {
      var s := StateOf(states, id);
      s := s.(lastSampleNs := nowNs);
      s := s.(consecutiveMisses := 0);
      if ageMs > policy.degradedAfterMs {
        s := s.(consecutiveFresh := 0);
        s := s.(seen := true);
        if s.state == Healthy { s := s.(state := Degraded); }
        if s.state != Lost { s := s.(reason := StaleData); }
        states := states[id := s];
        return;
      }
      if s.consecutiveFresh < policy.recoverAfterSamples {
        s := s.(consecutiveFresh := s.consecutiveFresh + 1);
      }
      if !s.seen {
        s := s.(seen := true, state := Healthy, reason := NoReason);
        states := states[id := s];
        return;
      }
      if s.state == Healthy {
        s := s.(reason := NoReason);
        states := states[id := s];
        return;
      }
      if s.consecutiveFresh >= policy.recoverAfterSamples {
        s := s.(state := Healthy, reason := NoReason);
      } else {
        s := s.(reason := Recovering);
      }
      states := states[id := s];
    }

    method OnDeadlineMissed(id: string)
      modifies this
      ensures states == Observe(policy, old(states), id, DeadlineMiss)
    {
      var s := StateOf(states, id);
      s := s.(deadlineMisses := Next64(s.deadlineMisses));
      s := s.(consecutiveMisses := Next32(s.consecutiveMisses));
      s := s.(consecutiveFresh := 0);
      if s.consecutiveMisses >= policy.degradeAfterMisses && s.state == Healthy {
        s := s.(state := Degraded);
        s := s.(reason := DeadlineMissed);
      }
      states := states[id := s];
    }

    method OnLivelinessLost(id: string)
      modifies this
      ensures states == Observe(policy, old(states), id, LivelinessLoss)
    {
      var s := StateOf(states, id);
      s := s.(livelinessLosses := Next64(s.livelinessLosses));
      s := s.(consecutiveFresh := 0);
      s := s.(state := Lost);
      s := s.(reason := LivelinessLost);
      states := states[id := s];
    }

    method OnIncompatibleQos(id: string)
      modifies this
      ensures states == Observe(policy, old(states), id, QosConflict)
    {
      var s := StateOf(states, id);
      s := s.(incompatibleQosEvents := Next64(s.incompatibleQosEvents));
      s := s.(state := Degraded);
      s := s.(reason := QosIncompatible);
      states := states[id := s];
    }

    method OnWriterMatched(id: string, matched: bool)
      modifies this
      ensures states == Observe(policy, old(states), id, MatchChange(matched))
    {
      var s := StateOf(states, id);
      s := s.(writerMatched := matched);
      if !matched {
        s := s.(consecutiveFresh := 0);
        s := s.(state := Lost);
        s := s.(reason := PublisherUnmatched);
      }
      states := states[id := s];
    }

    method Decide(s: SourceState, nowNs: int) returns (out: HealthSnapshot)
      ensures out == Decided(policy, s, nowNs)
    {
      out := EMPTY_SNAPSHOT;
      out := out.(state := s.state, reason := s.reason, lastSampleNs := s.lastSampleNs);
      out := out.(deadlineMisses := s.deadlineMisses, livelinessLosses := s.livelinessLosses);
      out := out.(incompatibleQosEvents := s.incompatibleQosEvents, writerMatched := s.writerMatched);
      if !s.seen || s.lastSampleNs == 0 {
        out := out.(state := Lost);
        out := out.(reason := NoData);
        return;
      }
      var ageNs := nowNs - s.lastSampleNs;
      out := out.(ageMs := TruncDiv(ageNs, NS_PER_MS));
      if ageNs >= policy.lostAfterMs * NS_PER_MS {
        out := out.(state := Lost);
        if out.reason != LivelinessLost && out.reason != PublisherUnmatched {
          out := out.(reason := NoData);
        }
      } else if ageNs >= policy.degradedAfterMs * NS_PER_MS && out.state == Healthy {
        out := out.(state := Degraded);
        out := out.(reason := StaleData);
      }
    }

    /** Applies the age-based transitions and keeps them. */
    method TickSource(id: string, nowNs: int) returns (decided: HealthSnapshot)
      modifies this
      ensures decided == Decided(policy, StateOf(old(states), id), nowNs)
      ensures states == Observe(policy, old(states), id, Tick(nowNs))
    {
      var s := StateOf(states, id);
      decided := Decide(s, nowNs);
      if decided.state != s.state { s := s.(consecutiveFresh := 0); }
      s := s.(state := decided.state);
      s := s.(reason := decided.reason);
      states := states[id := s];
    }

    /** The same decision for known and unknown sources alike, changing nothing. */
    method Snapshot(id: string, nowNs: int) returns (out: HealthSnapshot)
      ensures out == Decided(policy, StateOf(states, id), nowNs)
    {
      if id !in states {
        return EMPTY_SNAPSHOT;
      }
      out := Decide(states[id], nowNs);
    }

    /** Delivers one event through the call that handles it. */
    method Handle(id: string, e: Event)
      modifies this
      ensures states == Observe(policy, old(states), id, e)
    {
      match e
      case SampleArrived(nowNs, ageMs) => OnSample(id, nowNs, ageMs);
      case DeadlineMiss => OnDeadlineMissed(id);
      case LivelinessLoss => OnLivelinessLost(id);
      case QosConflict => OnIncompatibleQos(id);
      case MatchChange(matched) => OnWriterMatched(id, matched);
      case Tick(nowNs) => var _ := TickSource(id, nowNs);
    }
  }
}
