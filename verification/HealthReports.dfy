// What the health monitor answers after any run, exactly: the verdict each event leaves and the snapshot
// each look at it gives, from the events alone.
module HealthReports {
  import opened Arithmetic
  import opened Health
  import opened HealthRuns

  // ---------------------------------------------------------------- what an event leaves

  /** What a look at `nowNs` must say of a source that held a verdict after `es`. */
  function Due(p: HealthPolicy, es: seq<Event>, held: (HealthState, HealthReason), nowNs: int)
    : (HealthState, HealthReason)
  {
    var last := LastIndex(es, Sample);
    if last < 0 || es[last].nowNs == 0 then (Lost, NoData)
    else if nowNs - es[last].nowNs >= p.lostAfterMs * 1_000_000 then
      (Lost, if held.1 == LivelinessLost || held.1 == PublisherUnmatched then held.1 else NoData)
    else if nowNs - es[last].nowNs >= p.degradedAfterMs * 1_000_000 && held.0 == Healthy then (Degraded, StaleData)
    else held
  }

  lemma VerdictIsDue(p: HealthPolicy, es: seq<Event>, nowNs: int)
    ensures var s := Run(p, UNSEEN, es); Verdict(p, s, nowNs) == Due(p, es, (s.state, s.reason), nowNs)
  {
    LatestIsRemembered(p, es);
  }

  /** How many fresh samples the run `es` followed by one more has gathered since its last resetting event. */
  ghost function Gathered(p: HealthPolicy, es: seq<Event>): nat {
    FreshCount(p, es[WindowStart(p, es)..])
  }

  /** The state and the reason after one more event, for each kind of event and after any run. */
  lemma VerdictExactly(p: HealthPolicy, es: seq<Event>, e: Event)
    ensures var (s, t) := (Run(p, UNSEEN, es), Run(p, UNSEEN, es + [e]));
            (t.state, t.reason) ==
            match e
            case SampleArrived(_, ageMs) =>
              if ageMs > p.degradedAfterMs then
                if s.state == Lost then (Lost, s.reason) else (Degraded, StaleData)
              else if LastIndex(es, Sample) < 0 || s.state == Healthy || Gathered(p, es + [e]) >= p.recoverAfterSamples then
                (Healthy, NoReason)
              else (s.state, Recovering)
            case DeadlineMiss =>
              if s.state == Healthy && Counter32(MissRun(es) + 1) >= p.degradeAfterMisses then (Degraded, DeadlineMissed)
              else (s.state, s.reason)
            case LivelinessLoss => (Lost, LivelinessLost)
            case QosConflict => (Degraded, QosIncompatible)
            case MatchChange(true) => (s.state, s.reason)
            case MatchChange(false) => (Lost, PublisherUnmatched)
            case Tick(nowNs) => Due(p, es, (s.state, s.reason), nowNs)
  {
    RunSnoc(p, UNSEEN, es, e);
    LatestIsRemembered(p, es);
    match e
    case SampleArrived(_, _) => FreshCounterMeaning(p, es + [e]);
    case DeadlineMiss => MissRunIsCounted(p, es);
    case Tick(nowNs) => VerdictIsDue(p, es, nowNs);
    case _ =>
  }

  // ---------------------------------------------------------------- what a snapshot says

  /** The whole milliseconds since the latest sample, or 0 without one. */
  ghost predicate IsAge(es: seq<Event>, nowNs: int, ageMs: int) {
    var last := LastIndex(es, Sample);
    if last < 0 || es[last].nowNs == 0 then ageMs == 0 else Truncates(nowNs - es[last].nowNs, 1_000_000, ageMs)
  }

  /** Every field of the snapshot taken after any run. */
  lemma SnapshotExactly(p: HealthPolicy, es: seq<Event>, nowNs: int)
    ensures var (s, snap) := (Run(p, UNSEEN, es), Decided(p, Run(p, UNSEEN, es), nowNs));
            var (last, notice) := (LastIndex(es, Sample), LastIndex(es, Notice));
            && (snap.state, snap.reason) == Due(p, es, (s.state, s.reason), nowNs)
            && snap.lastSampleNs == (if last >= 0 then es[last].nowNs else 0)
            && IsAge(es, nowNs, snap.ageMs)
            && snap.deadlineMisses == Counter64(Count(es, Miss))
            && snap.livelinessLosses == Counter64(Count(es, Loss))
            && snap.incompatibleQosEvents == Counter64(Count(es, Conflict))
            && snap.writerMatched == (notice >= 0 && es[notice].matched)
  {
    var snap := Decided(p, Run(p, UNSEEN, es), nowNs);
    VerdictIsDue(p, es, nowNs);
    LatestIsRemembered(p, es);
    CountersCount(p, es);
    var last := LastIndex(es, Sample);
    if last >= 0 { TruncDivExactly(nowNs - es[last].nowNs, 1_000_000, snap.ageMs); }
  }
}
