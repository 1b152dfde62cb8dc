// What the health state machine promises over whole runs and over pairs of runs.
module HealthRuns {
  import opened Arithmetic
  import opened Ordering
  import opened Health

  /** The state of a source after the events `es`, oldest first. */
  function Run(p: HealthPolicy, s: SourceState, es: seq<Event>): SourceState {
    if es == [] then s else Step(p, Run(p, s, es[..|es| - 1]), es[|es| - 1])
  }

  lemma {:induction false} RunConcat(p: HealthPolicy, s: SourceState, es: seq<Event>, fs: seq<Event>)
    ensures Run(p, s, es + fs) == Run(p, Run(p, s, es), fs)
    decreases |fs|
  {
    if fs == [] {
      assert es + fs == es;
    } else {
      var n := |fs| - 1;
      assert (es + fs)[..|es + fs| - 1] == es + fs[..n];
      RunConcat(p, s, es, fs[..n]);
    }
  }

  lemma RunSnoc(p: HealthPolicy, s: SourceState, es: seq<Event>, e: Event)
    ensures Run(p, s, es + [e]) == Step(p, Run(p, s, es), e)
  {
    assert (es + [e])[..|es|] == es;
  }

  // ---------------------------------------------------------------- reachable states

  /** How the verdict and its reason fit together in every state a run can reach. */
  ghost predicate Consistent(p: HealthPolicy, s: SourceState) {
    && (s.state.Healthy? <==> s.reason.NoReason?)
    && (s.state.Degraded? ==>
          s.reason.StaleData? || s.reason.DeadlineMissed? || s.reason.QosIncompatible? || s.reason.Recovering?)
    && (s.state.Lost? ==>
          s.reason.NoData? || s.reason.LivelinessLost? || s.reason.PublisherUnmatched? || s.reason.Recovering?)
    && (!s.seen ==> !s.state.Healthy? && s.lastSampleNs == 0 && s.consecutiveFresh == 0)
    && s.consecutiveFresh <= p.recoverAfterSamples
  }

  lemma StepKeepsConsistent(p: HealthPolicy, s: SourceState, e: Event)
    requires Consistent(p, s)
    ensures Consistent(p, Step(p, s, e))
  {
  }

  lemma {:induction false} RunKeepsConsistent(p: HealthPolicy, s: SourceState, es: seq<Event>)
    requires Consistent(p, s)
    ensures Consistent(p, Run(p, s, es))
    decreases |es|
  {
    hide Step;
    hide Consistent;
    if es == [] {
    } else {
      RunKeepsConsistent(p, s, es[..|es| - 1]);
      StepKeepsConsistent(p, Run(p, s, es[..|es| - 1]), es[|es| - 1]);
    }
  }

  lemma {:induction false} ReachableConsistent(p: HealthPolicy, es: seq<Event>)
    ensures Consistent(p, Run(p, UNSEEN, es))
  {
    RunKeepsConsistent(p, UNSEEN, es);
  }

  // ---------------------------------------------------------------- what the fields record

  datatype EventKind = Sample | Miss | Loss | Conflict | Notice | Poll

  function KindOf(e: Event): EventKind {
    match e
    case SampleArrived(_, _) => Sample
    case DeadlineMiss => Miss
    case LivelinessLoss => Loss
    case QosConflict => Conflict
    case MatchChange(_) => Notice
    case Tick(_) => Poll
  }

  function Count(es: seq<Event>, kind: EventKind): nat {
    if es == [] then 0 else Count(es[..|es| - 1], kind) + if KindOf(es[|es| - 1]) == kind then 1 else 0
  }

  /** The position of the last event of a kind, or -1. */
  function LastIndex(es: seq<Event>, kind: EventKind): (i: int)
    ensures -1 <= i < |es|
    ensures i >= 0 ==> KindOf(es[i]) == kind
    ensures forall j :: i < j < |es| ==> KindOf(es[j]) != kind
  {
    if es == [] then -1
    else if KindOf(es[|es| - 1]) == kind then |es| - 1
    else LastIndex(es[..|es| - 1], kind)
  }

  lemma CountersStep(p: HealthPolicy, s: SourceState, e: Event)
    ensures var t := Step(p, s, e);
            && t.deadlineMisses == (if KindOf(e).Miss? then Next64(s.deadlineMisses) else s.deadlineMisses)
            && t.livelinessLosses == (if KindOf(e).Loss? then Next64(s.livelinessLosses) else s.livelinessLosses)
            && t.incompatibleQosEvents
               == (if KindOf(e).Conflict? then Next64(s.incompatibleQosEvents) else s.incompatibleQosEvents)
  {
    hide Verdict;
    hide IsFresh;
    hide Next64;
  }

  /** The event counters count, modulo their width. */
  lemma {:induction false} CountersCount(p: HealthPolicy, es: seq<Event>)
    ensures var s := Run(p, UNSEEN, es);
            && s.deadlineMisses == Counter64(Count(es, Miss))
            && s.livelinessLosses == Counter64(Count(es, Loss))
            && s.incompatibleQosEvents == Counter64(Count(es, Conflict))
    decreases |es|
  {
    hide Step;
    hide KindOf;
    if es == [] {
    } else {
      var n := |es| - 1;
      CountersCount(p, es[..n]);
      CountersStep(p, Run(p, UNSEEN, es[..n]), es[n]);
    }
  }

  lemma MemoryStep(p: HealthPolicy, s: SourceState, e: Event)
    ensures var t := Step(p, s, e);
            && (t.seen, t.lastSampleNs) == (if e.SampleArrived? then (true, e.nowNs) else (s.seen, s.lastSampleNs))
            && t.writerMatched == if e.MatchChange? then e.matched else s.writerMatched
  {
    hide Verdict;
  }

  /** The latest sample, of any age, and the latest match notice are what the state remembers. */
  lemma {:induction false} LatestIsRemembered(p: HealthPolicy, es: seq<Event>)
    ensures var s, last, notice := Run(p, UNSEEN, es), LastIndex(es, Sample), LastIndex(es, Notice);
            && (s.seen <==> last >= 0)
            && s.lastSampleNs == (if last >= 0 then es[last].nowNs else 0)
            && s.writerMatched == (notice >= 0 && es[notice].matched)
    decreases |es|
  {
    hide Step;
    if es == [] {
    } else {
      MemoryStep(p, Run(p, UNSEEN, es[..|es| - 1]), es[|es| - 1]);
      LatestIsRemembered(p, es[..|es| - 1]);
    }
  }

  /** The deadline misses since the latest sample, of any age. */
  function MissRun(es: seq<Event>): nat {
    if es == [] || es[|es| - 1].SampleArrived? then 0
    else MissRun(es[..|es| - 1]) + if es[|es| - 1].DeadlineMiss? then 1 else 0
  }

  lemma {:induction false} MissRunIsCounted(p: HealthPolicy, es: seq<Event>)
    ensures Run(p, UNSEEN, es).consecutiveMisses == Counter32(MissRun(es))
    decreases |es|
  {
    if es == [] {
    } else {
      var n := |es| - 1;
      MissRunIsCounted(p, es[..n]);
    }
  }

  /** A healthy source degrades on a missed deadline exactly when the run of misses is long enough. */
  lemma MissDegradesExactly(p: HealthPolicy, es: seq<Event>)
    requires Run(p, UNSEEN, es).state.Healthy?
    ensures var after := Run(p, UNSEEN, es + [DeadlineMiss]);
            (after.state, after.reason) == if Counter32(MissRun(es) + 1) >= p.degradeAfterMisses
                                           then (Degraded, DeadlineMissed) else (Healthy, NoReason)
  {
    MissRunIsCounted(p, es);
    ReachableConsistent(p, es);
    RunSnoc(p, UNSEEN, es, DeadlineMiss);
  }

  /** A source is trusted only while its latest sample was fresh on arrival. */
  lemma {:induction false} HealthyMeansFresh(p: HealthPolicy, es: seq<Event>)
    requires Run(p, UNSEEN, es).state.Healthy?
    ensures LastIndex(es, Sample) >= 0 && IsFresh(p, es[LastIndex(es, Sample)])
    decreases |es|
  {
    var shorter := es[..|es| - 1];
    if Run(p, UNSEEN, shorter).state.Healthy? {
      HealthyMeansFresh(p, shorter);
    } else {
      ReachableConsistent(p, shorter);
    }
  }

  // ---------------------------------------------------------------- who may restore trust

  function Severity(s: HealthState): nat {
    match s
    case Healthy => 0
    case Degraded => 1
    case Lost => 2
  }

  /** A verdict improves in two ways only: a fresh sample restores health, or a QoS conflict hides a loss. */
  lemma {:induction false} SeverityDropsExactly(p: HealthPolicy, es: seq<Event>, e: Event)
    ensures var s := Run(p, UNSEEN, es);
            Severity(Run(p, UNSEEN, es + [e]).state) < Severity(s.state) <==>
            || (s.state.Lost? && e.QosConflict?)
            || (&& !s.state.Healthy? && IsFresh(p, e)
                && (!s.seen || s.consecutiveFresh + 1 >= p.recoverAfterSamples))
  {
    ReachableConsistent(p, es);
    RunSnoc(p, UNSEEN, es, e);
  }

  /** A verdict worsens in these ways only. */
  lemma {:induction false} SeverityRisesExactly(p: HealthPolicy, es: seq<Event>, e: Event)
    ensures var s := Run(p, UNSEEN, es);
            Severity(Run(p, UNSEEN, es + [e]).state) > Severity(s.state) <==>
            match e
            case SampleArrived(_, ageMs) => s.state.Healthy? && ageMs > p.degradedAfterMs
            case DeadlineMiss => s.state.Healthy? && Next32(s.consecutiveMisses) >= p.degradeAfterMisses
            case LivelinessLoss => !s.state.Lost?
            case QosConflict => s.state.Healthy?
            case MatchChange(matched) => !matched && !s.state.Lost?
            case Tick(nowNs) => Overdue(p, s, nowNs)
  {
    ReachableConsistent(p, es);
    RunSnoc(p, UNSEEN, es, e);
  }

  /** The source has aged past what its verdict still allows, or was never heard from. */
  predicate Overdue(p: HealthPolicy, s: SourceState, nowNs: int) {
    var ageNs := nowNs - s.lastSampleNs;
    || (!s.state.Lost? && (s.lastSampleNs == 0 || ageNs >= p.lostAfterMs * NS_PER_MS))
    || (s.state.Healthy? && ageNs >= p.degradedAfterMs * NS_PER_MS)
  }

  /** What may be blamed for a reason: the events that can introduce it into the state `before`. */
  ghost predicate Justifies(p: HealthPolicy, before: SourceState, e: Event, reason: HealthReason) {
    match reason
    case NoReason => IsFresh(p, e) && (!before.seen || before.consecutiveFresh + 1 >= p.recoverAfterSamples)
    case Recovering => IsFresh(p, e) && before.seen && before.consecutiveFresh + 1 < p.recoverAfterSamples
    case StaleData =>
      || (e.SampleArrived? && e.ageMs > p.degradedAfterMs)
      || (e.Tick? && p.degradedAfterMs * NS_PER_MS <= e.tickNs - before.lastSampleNs < p.lostAfterMs * NS_PER_MS)
    case NoData =>
      e.Tick? && (before.lastSampleNs == 0 || e.tickNs - before.lastSampleNs >= p.lostAfterMs * NS_PER_MS)
    case DeadlineMissed => e.DeadlineMiss? && Next32(before.consecutiveMisses) >= p.degradeAfterMisses
    case LivelinessLost => e.LivelinessLoss?
    case PublisherUnmatched => e == MatchChange(false)
    case QosIncompatible => e.QosConflict?
  }

  ghost predicate ReasonHolds(p: HealthPolicy, es: seq<Event>, from: nat, reason: HealthReason) {
    forall j :: from <= j <= |es| ==> Run(p, UNSEEN, es[..j]).reason == reason
  }

  lemma ReasonHoldsOn(p: HealthPolicy, es: seq<Event>, from: nat, reason: HealthReason)
    requires es != [] && from <= |es| - 1 && ReasonHolds(p, es[..|es| - 1], from, reason)
    requires Run(p, UNSEEN, es).reason == reason
    ensures ReasonHolds(p, es, from, reason)
  {
    hide Step;
    var shorter := es[..|es| - 1];
    forall j | from <= j <= |es| ensures Run(p, UNSEEN, es[..j]).reason == reason {
      if j < |es| {
        assert es[..j] == shorter[..j];
      } else {
        assert es[..j] == es;
      }
    }
  }

  lemma StepJustifies(p: HealthPolicy, s: SourceState, e: Event)
    requires Consistent(p, s) && Step(p, s, e).reason != s.reason
    ensures Justifies(p, s, e, Step(p, s, e).reason)
  {
  }

  /** The event at a position justifies a reason that has stood since. */
  ghost predicate Introduced(p: HealthPolicy, es: seq<Event>, i: int, reason: HealthReason) {
    && 0 <= i < |es|
    && Justifies(p, Run(p, UNSEEN, es[..i]), es[i], reason)
    && ReasonHolds(p, es, i + 1, reason)
  }

  lemma IntroducedNow(p: HealthPolicy, es: seq<Event>)
    requires es != [] && Run(p, UNSEEN, es).reason != Run(p, UNSEEN, es[..|es| - 1]).reason
    ensures Introduced(p, es, |es| - 1, Run(p, UNSEEN, es).reason)
  {
    hide Step;
    hide Justifies;
    ReachableConsistent(p, es[..|es| - 1]);
    StepJustifies(p, Run(p, UNSEEN, es[..|es| - 1]), es[|es| - 1]);
    assert es[..|es|] == es;
  }

  lemma IntroducedBefore(p: HealthPolicy, es: seq<Event>, i: int, reason: HealthReason)
    requires es != [] && Introduced(p, es[..|es| - 1], i, reason) && Run(p, UNSEEN, es).reason == reason
    ensures Introduced(p, es, i, reason)
  {
    hide Step;
    hide Justifies;
    assert es[..|es| - 1][..i] == es[..i];
    ReasonHoldsOn(p, es, i + 1, reason);
  }

  /** Every reported reason is true: an event that justifies it put it there and it has stood since,
      or it is the initial lack of data. */
  lemma {:induction false} ReasonIsJustified(p: HealthPolicy, es: seq<Event>)
    ensures var reason := Run(p, UNSEEN, es).reason;
            || (reason == NoData && ReasonHolds(p, es, 0, NoData))
            || exists i :: Introduced(p, es, i, reason)
    decreases |es|
  {
    hide Run;
    hide Introduced;
    hide ReasonHolds;
    var reason := Run(p, UNSEEN, es).reason;
    if es == [] {
      NothingHappened(p);
    } else {
      var shorter := es[..|es| - 1];
      ReasonIsJustified(p, shorter);
      if reason != Run(p, UNSEEN, shorter).reason {
        IntroducedNow(p, es);
      } else if ReasonHolds(p, shorter, 0, NoData) && reason == NoData {
        ReasonHoldsOn(p, es, 0, NoData);
      } else {
        var i :| Introduced(p, shorter, i, reason);
        IntroducedBefore(p, es, i, reason);
      }
    }
  }

  lemma NothingHappened(p: HealthPolicy)
    ensures Run(p, UNSEEN, []).reason == NoData && ReasonHolds(p, [], 0, NoData)
  {
    var es: seq<Event> := [];
    assert forall j :: 0 <= j <= |es| ==> es[..j] == [];
  }

  lemma {:induction false} OnlyFreshSamplesRestore(p: HealthPolicy, s: SourceState, es: seq<Event>)
    requires !s.state.Healthy?
    requires forall i :: 0 <= i < |es| ==> !IsFresh(p, es[i])
    ensures !Run(p, s, es).state.Healthy?
    ensures forall nowNs :: !Verdict(p, Run(p, s, es), nowNs).0.Healthy?
    decreases |es|
  {
    if es == [] {
    } else {
      OnlyFreshSamplesRestore(p, s, es[..|es| - 1]);
    }
  }

  /** The events of a retransmission burst after a partition. */
  ghost predicate InBurst(p: HealthPolicy, e: Event) {
    || (e.SampleArrived? && !IsFresh(p, e) && e.nowNs != 0)
    || e.Tick?
    || e.DeadlineMiss?
    || (e.MatchChange? && e.matched)
  }

  lemma {:induction false} BurstKeepsCause(p: HealthPolicy, s: SourceState, burst: seq<Event>)
    requires s.state.Lost? && (s.reason.LivelinessLost? || s.reason.PublisherUnmatched?)
    requires s.seen && s.lastSampleNs != 0
    requires forall i :: 0 <= i < |burst| ==> InBurst(p, burst[i])
    ensures var t := Run(p, s, burst);
            && t.state == s.state && t.reason == s.reason && t.seen && t.lastSampleNs != 0
            && forall nowNs :: Verdict(p, t, nowNs) == (s.state, s.reason)
    decreases |burst|
  {
    if burst == [] {
    } else {
      BurstKeepsCause(p, s, burst[..|burst| - 1]);
      assert InBurst(p, burst[|burst| - 1]);
    }
  }

  /** A stale burst never restores trust and never hides why it was lost. */
  lemma StaleBurstKeepsCause(p: HealthPolicy, es: seq<Event>, cause: Event, burst: seq<Event>, nowNs: int)
    requires cause == LivelinessLoss || cause == MatchChange(false)
    requires var last := LastIndex(es, Sample); last >= 0 && es[last].nowNs != 0
    requires forall i :: 0 <= i < |burst| ==> InBurst(p, burst[i])
    ensures Verdict(p, Run(p, UNSEEN, es + [cause] + burst), nowNs)
            == (Lost, if cause.LivelinessLoss? then LivelinessLost else PublisherUnmatched)
  {
    LatestIsRemembered(p, es);
    RunSnoc(p, UNSEEN, es, cause);
    RunConcat(p, UNSEEN, es + [cause], burst);
    BurstKeepsCause(p, Run(p, UNSEEN, es + [cause]), burst);
  }

  // ---------------------------------------------------------------- hysteresis

  /** The events that throw away the evidence gathered toward recovery. */
  ghost predicate Resets(p: HealthPolicy, before: SourceState, e: Event) {
    match e
    case SampleArrived(_, _) => !IsFresh(p, e)
    case DeadlineMiss => true
    case LivelinessLoss => true
    case QosConflict => false
    case MatchChange(matched) => !matched
    case Tick(nowNs) => Verdict(p, before, nowNs).0 != before.state
  }

  ghost predicate ResetAt(p: HealthPolicy, es: seq<Event>, i: int)
    requires 0 <= i < |es|
  {
    Resets(p, Run(p, UNSEEN, es[..i]), es[i])
  }

  ghost predicate ResetFree(p: HealthPolicy, es: seq<Event>, from: nat, to: nat)
    requires from <= to <= |es|
  {
    forall i :: from <= i < to ==> !ResetAt(p, es, i)
  }

  function FreshCount(p: HealthPolicy, es: seq<Event>): nat {
    if es == [] then 0 else FreshCount(p, es[..|es| - 1]) + if IsFresh(p, es[|es| - 1]) then 1 else 0
  }

  lemma ResetAtPrefix(p: HealthPolicy, es: seq<Event>, j: nat, i: nat)
    requires i < j <= |es|
    ensures ResetAt(p, es[..j], i) == ResetAt(p, es, i)
  {
    assert es[..j][..i] == es[..i];
  }

  lemma WindowGrows(p: HealthPolicy, es: seq<Event>, k: nat)
    requires es != [] && k < |es| && !ResetAt(p, es, |es| - 1)
    requires ResetFree(p, es[..|es| - 1], k, |es| - 1)
    requires k > 0 ==> ResetAt(p, es[..|es| - 1], k - 1)
    ensures ResetFree(p, es, k, |es|)
    ensures k > 0 ==> ResetAt(p, es, k - 1)
  {
    hide ResetAt;
    var n := |es| - 1;
    forall i | k <= i < n ensures !ResetAt(p, es, i) { ResetAtPrefix(p, es, n, i); }
    if k > 0 { ResetAtPrefix(p, es, n, k - 1); }
  }

  /** The position just after the last resetting event of the run, or its start. */
  ghost function WindowStart(p: HealthPolicy, es: seq<Event>): (k: nat)
    ensures k <= |es|
    ensures k > 0 ==> ResetAt(p, es, k - 1)
    ensures ResetFree(p, es, k, |es|)
  {
    if es == [] then 0
    else if ResetAt(p, es, |es| - 1) then |es|
    else
      var k := WindowStart(p, es[..|es| - 1]);
      WindowGrows(p, es, k);
      k
  }

  lemma WindowStartExtends(p: HealthPolicy, es: seq<Event>)
    requires es != [] && !ResetAt(p, es, |es| - 1)
    ensures WindowStart(p, es) == WindowStart(p, es[..|es| - 1])
  {
  }

  lemma EvidenceStep(p: HealthPolicy, s: SourceState, e: Event)
    requires s.consecutiveFresh <= p.recoverAfterSamples
    ensures Step(p, s, e).consecutiveFresh
            == if Resets(p, s, e) then 0
               else Min(p.recoverAfterSamples, s.consecutiveFresh + if IsFresh(p, e) then 1 else 0)
  {
    hide Verdict;
  }

  lemma FreshCountSnoc(p: HealthPolicy, es: seq<Event>, e: Event)
    ensures FreshCount(p, es + [e]) == FreshCount(p, es) + if IsFresh(p, e) then 1 else 0
  {
    assert (es + [e])[..|es|] == es;
  }

  /** The counter is the evidence of the current window, capped where recovery needs no more. */
  lemma {:induction false} FreshCounterMeaning(p: HealthPolicy, es: seq<Event>)
    ensures Run(p, UNSEEN, es).consecutiveFresh
            == Min(p.recoverAfterSamples, FreshCount(p, es[WindowStart(p, es)..]))
    decreases |es|
  {
    if es == [] {
    } else {
      hide Step;
      hide Resets;
      var n := |es| - 1;
      var k := WindowStart(p, es);
      FreshCounterMeaning(p, es[..n]);
      EvidenceStep(p, Run(p, UNSEEN, es[..n]), es[n]);
      if ResetAt(p, es, n) {
        assert es[k..] == [];
      } else {
        hide WindowStart;
        hide FreshCount;
        WindowStartExtends(p, es);
        assert es[k..] == es[..n][k..] + [es[n]];
        FreshCountSnoc(p, es[..n][k..], es[n]);
      }
    }
  }

  /** A source seen before is healthy after a fresh sample exactly when it already was or has gathered enough. */
  lemma RecoveryExactly(p: HealthPolicy, es: seq<Event>)
    requires es != [] && IsFresh(p, es[|es| - 1])
    requires LastIndex(es[..|es| - 1], Sample) >= 0
    ensures Run(p, UNSEEN, es).state.Healthy? <==>
            || Run(p, UNSEEN, es[..|es| - 1]).state.Healthy?
            || FreshCount(p, es[WindowStart(p, es)..]) >= p.recoverAfterSamples
  {
    LatestIsRemembered(p, es[..|es| - 1]);
    FreshCounterMeaning(p, es);
  }

  /** First contact: the very first sample is trusted at once exactly when it is fresh. */
  lemma FirstContactExactly(p: HealthPolicy, es: seq<Event>, nowNs: int, ageMs: int)
    requires LastIndex(es, Sample) < 0
    ensures Run(p, UNSEEN, es + [SampleArrived(nowNs, ageMs)]).state.Healthy? <==> ageMs <= p.degradedAfterMs
  {
    LatestIsRemembered(p, es);
    ReachableConsistent(p, es);
    RunSnoc(p, UNSEEN, es, SampleArrived(nowNs, ageMs));
  }

  ghost predicate EvidenceWindow(p: HealthPolicy, es: seq<Event>, from: nat, to: nat)
    requires from <= to <= |es|
  {
    ResetFree(p, es, from, to) && FreshCount(p, es[from..to]) >= p.recoverAfterSamples
  }

  /** The event that restores health closes a window full of evidence. */
  lemma RecoveryHasEvidence(p: HealthPolicy, es: seq<Event>, i: nat)
    requires i < |es| && ResetAt(p, es, i)
    requires var before := Run(p, UNSEEN, es[..|es| - 1]); before.seen && !before.state.Healthy?
    requires Run(p, UNSEEN, es).state.Healthy?
    ensures i < WindowStart(p, es)
    ensures FreshCount(p, es[WindowStart(p, es)..]) >= p.recoverAfterSamples
  {
    FreshCounterMeaning(p, es);
    ReachableConsistent(p, es[..|es| - 1]);
  }

  lemma RecoveryIsEvidenced(p: HealthPolicy, es: seq<Event>, i: nat, j: nat)
    requires i + 1 < j <= |es| && ResetAt(p, es, i)
    requires Run(p, UNSEEN, es[..j - 1]).seen && !Run(p, UNSEEN, es[..j - 1]).state.Healthy?
    requires Run(p, UNSEEN, es[..j]).state.Healthy?
    ensures i < WindowStart(p, es[..j]) && EvidenceWindow(p, es, WindowStart(p, es[..j]), j)
  {
    var prefix := es[..j];
    assert prefix[..j - 1] == es[..j - 1];
    ResetAtPrefix(p, es, j, i);
    RecoveryHasEvidence(p, prefix, i);
    var from := WindowStart(p, prefix);
    forall m | from <= m < j ensures !ResetAt(p, es, m) { ResetAtPrefix(p, es, j, m); }
    assert prefix[from..] == es[from..j];
  }

  /** Hysteresis over whole runs: a source left untrusted by a resetting event is trusted again only
      after enough fresh samples with no resetting event among them, all later than that event. */
  lemma {:induction false} RecoveryNeedsEvidence(p: HealthPolicy, es: seq<Event>, i: nat, j: nat)
    requires i < j <= |es| && ResetAt(p, es, i)
    requires Run(p, UNSEEN, es[..i + 1]).seen && !Run(p, UNSEEN, es[..i + 1]).state.Healthy?
    requires Run(p, UNSEEN, es[..j]).state.Healthy?
    ensures exists from, to :: i < from <= to <= j && EvidenceWindow(p, es, from, to)
    decreases j
  {
    if Run(p, UNSEEN, es[..j - 1]).state.Healthy? {
      RecoveryNeedsEvidence(p, es, i, j - 1);
    } else {
      SeenStays(p, es, i + 1, j - 1);
      RecoveryIsEvidenced(p, es, i, j);
    }
  }

  lemma {:induction false} SeenStays(p: HealthPolicy, es: seq<Event>, i: nat, j: nat)
    requires i <= j <= |es| && Run(p, UNSEEN, es[..i]).seen
    ensures Run(p, UNSEEN, es[..j]).seen
    decreases j
  {
    if i == j {
    } else {
      SeenStays(p, es, i, j - 1);
      assert es[..j][..j - 1] == es[..j - 1];
    }
  }

  // ---------------------------------------------------------------- polling against not polling

  function WithoutTicks(es: seq<Event>): seq<Event> {
    if es == [] then []
    else if es[|es| - 1].Tick? then WithoutTicks(es[..|es| - 1])
    else WithoutTicks(es[..|es| - 1]) + [es[|es| - 1]]
  }

  /** The same evidence, a verdict no more severe, and at least as far on the way back. */
  ghost predicate NoWorse(a: SourceState, b: SourceState) {
    && a.(state := b.state, reason := b.reason, consecutiveFresh := b.consecutiveFresh) == b
    && Severity(a.state) <= Severity(b.state)
    && a.consecutiveFresh >= b.consecutiveFresh
  }

  lemma SharedEventKeepsOrder(p: HealthPolicy, a: SourceState, b: SourceState, e: Event)
    requires NoWorse(a, b) && !e.Tick?
    ensures NoWorse(Step(p, a, e), Step(p, b, e))
  {
  }

  lemma OwnTickKeepsOrder(p: HealthPolicy, a: SourceState, b: SourceState, nowNs: int)
    requires NoWorse(a, b)
    ensures NoWorse(a, AfterTick(p, b, nowNs))
  {
  }

  /** Two-run simulation: at every point the run without polls is trusted at least as much. */
  lemma {:induction false} PollingNeverHelps(p: HealthPolicy, s: SourceState, es: seq<Event>)
    ensures NoWorse(Run(p, s, WithoutTicks(es)), Run(p, s, es))
    ensures forall nowNs :: Severity(Verdict(p, Run(p, s, WithoutTicks(es)), nowNs).0)
                            <= Severity(Verdict(p, Run(p, s, es), nowNs).0)
    decreases |es|
  {
    if es == [] {
    } else {
      var n := |es| - 1;
      PollingNeverHelps(p, s, es[..n]);
      var a, b := Run(p, s, WithoutTicks(es[..n])), Run(p, s, es[..n]);
      if es[n].Tick? {
        OwnTickKeepsOrder(p, a, b, es[n].tickNs);
      } else {
        SharedEventKeepsOrder(p, a, b, es[n]);
        assert WithoutTicks(es)[..|WithoutTicks(es)| - 1] == WithoutTicks(es[..n]);
      }
    }
  }

  /** A shared poll does not reset the better run's evidence alone. */
  ghost predicate SparesEvidence(p: HealthPolicy, a: SourceState, b: SourceState, nowNs: int) {
    || Verdict(p, a, nowNs).0 == a.state
    || Verdict(p, b, nowNs).0 != b.state
    || b.consecutiveFresh == 0
  }

  lemma SharedTickKeepsOrderExactly(p: HealthPolicy, a: SourceState, b: SourceState, nowNs: int)
    requires NoWorse(a, b)
    ensures NoWorse(AfterTick(p, a, nowNs), AfterTick(p, b, nowNs)) <==> SparesEvidence(p, a, b, nowNs)
  {
  }

  ghost predicate OrderedAt(p: HealthPolicy, a: SourceState, b: SourceState, es: seq<Event>, i: nat)
    requires i <= |es|
  {
    NoWorse(Run(p, a, es[..i]), Run(p, b, es[..i]))
  }

  ghost predicate SparedAt(p: HealthPolicy, a: SourceState, b: SourceState, es: seq<Event>, i: nat)
    requires i < |es|
  {
    es[i].Tick? ==> SparesEvidence(p, Run(p, a, es[..i]), Run(p, b, es[..i]), es[i].tickNs)
  }

  lemma OrderKeptNext(p: HealthPolicy, a: SourceState, b: SourceState, es: seq<Event>, i: nat)
    requires i < |es| && OrderedAt(p, a, b, es, i)
    ensures OrderedAt(p, a, b, es, i + 1) <==> SparedAt(p, a, b, es, i)
  {
    hide NoWorse;
    hide Verdict;
    hide AfterTick;
    hide SparesEvidence;
    var x, y := Run(p, a, es[..i]), Run(p, b, es[..i]);
    assert es[..i + 1] == es[..i] + [es[i]];
    RunSnoc(p, a, es[..i], es[i]);
    RunSnoc(p, b, es[..i], es[i]);
    if es[i].Tick? {
      SharedTickKeepsOrderExactly(p, x, y, es[i].tickNs);
    } else {
      SharedEventKeepsOrder(p, x, y, es[i]);
    }
  }

  lemma {:induction false} OrderKept(p: HealthPolicy, a: SourceState, b: SourceState, es: seq<Event>, i: nat)
    requires i <= |es| && NoWorse(a, b) && forall j :: 0 <= j < i ==> SparedAt(p, a, b, es, j)
    ensures OrderedAt(p, a, b, es, i)
  {
    if i == 0 {
      assert es[..0] == [];
    } else {
      OrderKept(p, a, b, es, i - 1);
      OrderKeptNext(p, a, b, es, i - 1);
    }
  }

  /** When one more poll is never kinder: the run without it has a verdict and evidence at least as good
      at every later point exactly if no later poll resets the evidence of that run alone. */
  lemma ExtraPollHelpsExactly(p: HealthPolicy, common: seq<Event>, extraNs: int, tail: seq<Event>)
    ensures var (a, b) := (Run(p, UNSEEN, common), Run(p, UNSEEN, common + [Tick(extraNs)]));
            (forall i :: 0 <= i <= |tail| ==> OrderedAt(p, a, b, tail, i))
            <==> (forall i :: 0 <= i < |tail| ==> SparedAt(p, a, b, tail, i))
  {
    hide NoWorse;
    var a, b := Run(p, UNSEEN, common), Run(p, UNSEEN, common + [Tick(extraNs)]);
    ExtraPollIsOrdered(p, common, extraNs);
    if forall i :: 0 <= i < |tail| ==> SparedAt(p, a, b, tail, i) {
      forall i | 0 <= i <= |tail| ensures OrderedAt(p, a, b, tail, i) { OrderKept(p, a, b, tail, i); }
    }
    if forall i :: 0 <= i <= |tail| ==> OrderedAt(p, a, b, tail, i) {
      forall i | 0 <= i < |tail| ensures SparedAt(p, a, b, tail, i) { OrderKeptNext(p, a, b, tail, i); }
    }
  }

  lemma ExtraPollIsOrdered(p: HealthPolicy, common: seq<Event>, extraNs: int)
    ensures NoWorse(Run(p, UNSEEN, common), Run(p, UNSEEN, common + [Tick(extraNs)]))
  {
    RunSnoc(p, UNSEEN, common, Tick(extraNs));
    OwnTickKeepsOrder(p, Run(p, UNSEEN, common), Run(p, UNSEEN, common), extraNs);
  }

  /** Hence one poll more in a run already polled can be kinder: the later poll then changes nothing. */
  lemma ExtraPollCanHelp()
    ensures var p := HealthPolicy(250, 1000, 2, 3);
            var ms := NS_PER_MS;
            var common := [SampleArrived(1000 * ms, 0)];
            var tail := [SampleArrived(1310 * ms, 0), Tick(1600 * ms),
                         SampleArrived(1610 * ms, 0), SampleArrived(1620 * ms, 0)];
            && Run(p, UNSEEN, common + tail).state.Degraded?
            && Run(p, UNSEEN, common + [Tick(1300 * ms)] + tail).state.Healthy?
  {
    var p := HealthPolicy(250, 1000, 2, 3);
    var ms := NS_PER_MS;
    var common := [SampleArrived(1000 * ms, 0)];
    var tail := [SampleArrived(1310 * ms, 0), Tick(1600 * ms),
                 SampleArrived(1610 * ms, 0), SampleArrived(1620 * ms, 0)];
    RunFour(p, Run(p, UNSEEN, common), tail);
    RunConcat(p, UNSEEN, common, tail);
    var polled := common + [Tick(1300 * ms)];
    RunSnoc(p, UNSEEN, [], common[0]);
    RunSnoc(p, UNSEEN, common, Tick(1300 * ms));
    assert [] + common == common;
    RunFour(p, Run(p, UNSEEN, polled), tail);
    RunConcat(p, UNSEEN, polled, tail);
  }

  lemma RunFour(p: HealthPolicy, s: SourceState, es: seq<Event>)
    requires |es| == 4
    ensures Run(p, s, es) == Step(p, Step(p, Step(p, Step(p, s, es[0]), es[1]), es[2]), es[3])
  {
    RunSnoc(p, s, [], es[0]);
    RunSnoc(p, s, [es[0]], es[1]);
    RunSnoc(p, s, [es[0], es[1]], es[2]);
    RunSnoc(p, s, [es[0], es[1], es[2]], es[3]);
    assert [] + [es[0]] == [es[0]] && [es[0]] + [es[1]] == [es[0], es[1]];
    assert [es[0], es[1]] + [es[2]] == [es[0], es[1], es[2]];
    assert [es[0], es[1], es[2]] + [es[3]] == es;
  }

  // ---------------------------------------------------------------- polls alone

  function TickEvents(ts: seq<int>): seq<Event> {
    seq(|ts|, i requires 0 <= i < |ts| => Tick(ts[i]))
  }

  lemma TwoTicks(p: HealthPolicy, s: SourceState, t: int, u: int)
    requires Consistent(p, s) && t <= u
    ensures AfterTick(p, AfterTick(p, s, t), u) == AfterTick(p, s, u)
  {
  }

  lemma {:induction false} TicksCollapse(p: HealthPolicy, s: SourceState, ts: seq<int>)
    requires Consistent(p, s) && ts != [] && NonDecreasing(ts)
    ensures Run(p, s, TickEvents(ts)) == AfterTick(p, s, ts[|ts| - 1])
    decreases |ts|
  {
    var n := |ts| - 1;
    assert TickEvents(ts)[..n] == TickEvents(ts[..n]);
    if n == 0 {
    } else {
      TicksCollapse(p, s, ts[..n]);
      TwoTicks(p, s, ts[n - 1], ts[n]);
    }
  }

  /** In every reachable state any number of polls leaves the source as the last of them alone would. */
  lemma PollingCollapses(p: HealthPolicy, es: seq<Event>, ts: seq<int>)
    requires ts != [] && NonDecreasing(ts)
    ensures Run(p, UNSEEN, es + TickEvents(ts)) == Run(p, UNSEEN, es + [Tick(ts[|ts| - 1])])
  {
    ReachableConsistent(p, es);
    TicksCollapse(p, Run(p, UNSEEN, es), ts);
    RunConcat(p, UNSEEN, es, TickEvents(ts));
    RunSnoc(p, UNSEEN, es, Tick(ts[|ts| - 1]));
  }

  /** The k-th report of a poller that polls a source at the times `ts`, nothing else happening. */
  function Report(p: HealthPolicy, s: SourceState, ts: seq<int>, k: nat): (HealthState, HealthReason)
    requires k < |ts|
  {
    Verdict(p, Run(p, s, TickEvents(ts[..k])), ts[k])
  }

  lemma ReportIsVerdict(p: HealthPolicy, s: SourceState, ts: seq<int>, k: nat)
    requires Consistent(p, s) && NonDecreasing(ts) && k < |ts|
    ensures Report(p, s, ts, k) == Verdict(p, s, ts[k])
  {
    if k > 0 {
      TicksCollapse(p, s, ts[..k]);
      TwoTicks(p, s, ts[k - 1], ts[k]);
    }
  }

  ghost predicate PolledEvery(ts: seq<int>, period: int) {
    NonDecreasing(ts) && forall i :: 0 < i < |ts| ==> ts[i] - ts[i - 1] <= period
  }

  /** The position of the first time that has reached `bound`. */
  lemma {:induction false} FirstReaching(ts: seq<int>, bound: int, k: nat) returns (i: nat)
    requires k < |ts| && ts[k] >= bound
    ensures i <= k && ts[i] >= bound && forall h :: 0 <= h < i ==> ts[h] < bound
    decreases k
  {
    i := 0;
    while ts[i] < bound
      invariant i <= k && forall h :: 0 <= h < i ==> ts[h] < bound
      decreases k - i
    {
      i := i + 1;
    }
  }

  /** A poller is late for a bound by less than its period. */
  lemma Crossing(ts: seq<int>, period: nat, bound: int, i: nat)
    requires PolledEvery(ts, period) && i < |ts| && bound <= ts[i]
    requires if i > 0 then ts[i - 1] < bound else ts[0] < bound + period
    ensures bound <= ts[i] < bound + period
  {
  }

  /** The poller's reports of a source that fell silent, up to the first loss: healthy, then degraded. */
  ghost predicate DegradedFrom(p: HealthPolicy, s: SourceState, ts: seq<int>, i: nat, j: nat)
    requires i < j < |ts|
  {
    && (forall h :: 0 <= h < i ==> Report(p, s, ts, h) == (Healthy, NoReason))
    && (forall h :: i <= h < j ==> Report(p, s, ts, h) == (Degraded, StaleData))
  }

  /** The verdict on a source that was healthy when it fell silent. */
  function ByAge(p: HealthPolicy, ageNs: int): (HealthState, HealthReason) {
    if ageNs >= p.lostAfterMs * NS_PER_MS then (Lost, NoData)
    else if ageNs >= p.degradedAfterMs * NS_PER_MS then (Degraded, StaleData)
    else (Healthy, NoReason)
  }

  lemma SilentReport(p: HealthPolicy, s: SourceState, ts: seq<int>, k: nat)
    requires Consistent(p, s) && s.state.Healthy? && s.lastSampleNs != 0
    requires NonDecreasing(ts) && k < |ts|
    ensures Report(p, s, ts, k) == ByAge(p, ts[k] - s.lastSampleNs)
  {
    ReportIsVerdict(p, s, ts, k);
  }

  /** The unsafe window: polled often enough, a silent source is reported degraded before it is
      reported lost, and the time between the two first reports misses the configured distance by
      less than one period. The first poll of the silence is less than a period late. */
  lemma {:induction false} UnsafeWindow(p: HealthPolicy, s: SourceState, ts: seq<int>, period: nat, j: nat)
    requires Consistent(p, s) && s.state.Healthy? && s.lastSampleNs != 0
    requires PolledEvery(ts, period) && period <= (p.lostAfterMs - p.degradedAfterMs) * NS_PER_MS
    requires j < |ts| && ts[0] - s.lastSampleNs < p.degradedAfterMs * NS_PER_MS + period
    requires Report(p, s, ts, j).0.Lost?
    requires forall h :: 0 <= h < j ==> !Report(p, s, ts, h).0.Lost?
    ensures Report(p, s, ts, j) == (Lost, NoData)
    ensures exists i :: 0 <= i < j && DegradedFrom(p, s, ts, i, j)
              && 0 - period < ts[j] - ts[i] - (p.lostAfterMs - p.degradedAfterMs) * NS_PER_MS < period
  {
    hide Report;
    var degradedNs, lostNs := p.degradedAfterMs * NS_PER_MS, p.lostAfterMs * NS_PER_MS;
    forall h | 0 <= h < |ts| ensures Report(p, s, ts, h) == ByAge(p, ts[h] - s.lastSampleNs) {
      SilentReport(p, s, ts, h);
    }
    assert j > 0 && !Report(p, s, ts, j - 1).0.Lost?;
    var i := FirstReaching(ts, s.lastSampleNs + degradedNs, j - 1);
    Crossing(ts, period, s.lastSampleNs + degradedNs, i);
    Crossing(ts, period, s.lastSampleNs + lostNs, j);
    assert DegradedFrom(p, s, ts, i, j);
    assert lostNs - degradedNs == (p.lostAfterMs - p.degradedAfterMs) * NS_PER_MS;
  }

  /** The bound on the period is exact: any longer one allows a jump from healthy straight to lost. */
  lemma UnsafeWindowCanBeSkipped(p: HealthPolicy, s: SourceState, period: nat)
    requires Consistent(p, s) && s.state.Healthy? && s.lastSampleNs != 0
    requires 0 <= p.degradedAfterMs <= p.lostAfterMs
    requires period > (p.lostAfterMs - p.degradedAfterMs) * NS_PER_MS
    ensures exists ts :: |ts| == 2 && PolledEvery(ts, period)
              && Report(p, s, ts, 0) == (Healthy, NoReason) && Report(p, s, ts, 1) == (Lost, NoData)
  {
    var first := s.lastSampleNs + p.degradedAfterMs * NS_PER_MS - 1;
    var ts := [first, first + (p.lostAfterMs - p.degradedAfterMs) * NS_PER_MS + 1];
    ReportIsVerdict(p, s, ts, 0);
    ReportIsVerdict(p, s, ts, 1);
    assert PolledEvery(ts, period);
  }

  // ---------------------------------------------------------------- a steady source

  /** The time of the latest sample of a run, or `fromNs` before the first. */
  function LastTime(es: seq<Event>, fromNs: int): int {
    if es == [] then fromNs
    else if es[|es| - 1].SampleArrived? then es[|es| - 1].nowNs
    else LastTime(es[..|es| - 1], fromNs)
  }

  /** What a steady source does next: a fresh sample, a poll or a match, at most `gapNs` after its latest sample. */
  ghost predicate InTime(p: HealthPolicy, e: Event, lastNs: int, gapNs: nat) {
    match e
    case SampleArrived(nowNs, _) => IsFresh(p, e) && nowNs != 0 && nowNs <= lastNs + gapNs
    case Tick(nowNs) => nowNs <= lastNs + gapNs
    case MatchChange(matched) => matched
    case _ => false
  }

  /** From `fromNs` on fresh samples keep coming, at most `gapNs` apart, and nothing adverse happens. */
  ghost predicate Steady(p: HealthPolicy, es: seq<Event>, fromNs: int, gapNs: nat) {
    if es == [] then true
    else
      && Steady(p, es[..|es| - 1], fromNs, gapNs)
      && InTime(p, es[|es| - 1], LastTime(es[..|es| - 1], fromNs), gapNs)
  }

  lemma {:induction false} SteadyPrefix(p: HealthPolicy, es: seq<Event>, n: nat, fromNs: int, gapNs: nat)
    requires Steady(p, es, fromNs, gapNs) && n <= |es|
    ensures Steady(p, es[..n], fromNs, gapNs)
    decreases |es|
  {
    if n == |es| {
      assert es[..n] == es;
    } else {
      SteadyPrefix(p, es[..|es| - 1], n, fromNs, gapNs);
      assert es[..|es| - 1][..n] == es[..n];
    }
  }

  /** Every sample of a steady source is fresh, and the latest is the one its latest time comes from. */
  lemma {:induction false} SteadySamples(p: HealthPolicy, es: seq<Event>, fromNs: int, gapNs: nat)
    requires Steady(p, es, fromNs, gapNs)
    ensures FreshCount(p, es) > 0 <==> LastIndex(es, Sample) >= 0
    ensures LastIndex(es, Sample) >= 0 ==> LastTime(es, fromNs) == es[LastIndex(es, Sample)].nowNs
    decreases |es|
  {
    if es == [] {
    } else {
      SteadySamples(p, es[..|es| - 1], fromNs, gapNs);
    }
  }

  /** What `n` fresh samples of a steady source have achieved, whatever state it started in. */
  ghost predicate Progressed(p: HealthPolicy, s: SourceState, n: nat, lastNs: int) {
    && s.consecutiveFresh <= p.recoverAfterSamples
    && (!s.seen ==> !s.state.Healthy?)
    && (n > 0 ==> s.seen && s.lastSampleNs == lastNs != 0)
    && (s.state.Healthy? || s.consecutiveFresh >= Min(p.recoverAfterSamples, n))
    && (n > 0 && n >= p.recoverAfterSamples ==> s.state.Healthy?)
  }

  lemma SteadyStep(p: HealthPolicy, s: SourceState, e: Event, n: nat, lastNs: int, gapNs: nat)
    requires gapNs < p.degradedAfterMs * NS_PER_MS && p.degradedAfterMs <= p.lostAfterMs
    requires Progressed(p, s, n, lastNs) && InTime(p, e, lastNs, gapNs)
    ensures Progressed(p, Step(p, s, e), n + if e.SampleArrived? then 1 else 0, if e.SampleArrived? then e.nowNs else lastNs)
  {
  }

  lemma {:induction false} SteadyProgress(p: HealthPolicy, s: SourceState, es: seq<Event>, fromNs: int, gapNs: nat)
    requires gapNs < p.degradedAfterMs * NS_PER_MS && p.degradedAfterMs <= p.lostAfterMs
    requires Consistent(p, s) && Steady(p, es, fromNs, gapNs)
    ensures Progressed(p, Run(p, s, es), FreshCount(p, es), LastTime(es, fromNs))
    ensures LastTime(es, fromNs) <= fromNs + FreshCount(p, es) * gapNs
    decreases |es|
  {
    if es == [] {
    } else {
      hide Step;
      hide Progressed;
      var n := |es| - 1;
      SteadyProgress(p, s, es[..n], fromNs, gapNs);
      SteadyStep(p, Run(p, s, es[..n]), es[n], FreshCount(p, es[..n]), LastTime(es[..n], fromNs), gapNs);
      OneGapMore(FreshCount(p, es[..n]), gapNs);
    }
  }

  lemma OneGapMore(n: nat, gapNs: nat)
    ensures (n + 1) * gapNs == n * gapNs + gapNs
  {
  }

  /** How many fresh samples always suffice to be trusted. */
  function Enough(p: HealthPolicy): nat {
    if p.recoverAfterSamples == 0 then 1 else p.recoverAfterSamples
  }

  /** Recovery in time: whatever state it was in, a steady source is reported healthy at every poll later
      than as many gaps as recovery asks for samples. */
  lemma RecoversInTime(p: HealthPolicy, s: SourceState, es: seq<Event>, fromNs: int, gapNs: nat, nowNs: int)
    requires gapNs < p.degradedAfterMs * NS_PER_MS && p.degradedAfterMs <= p.lostAfterMs
    requires Consistent(p, s) && Steady(p, es + [Tick(nowNs)], fromNs, gapNs)
    requires nowNs > fromNs + Enough(p) * gapNs
    ensures Verdict(p, Run(p, s, es), nowNs) == (Healthy, NoReason)
  {
    assert (es + [Tick(nowNs)])[..|es|] == es;
    SteadyProgress(p, s, es, fromNs, gapNs);
    RunKeepsConsistent(p, s, es);
    var n := FreshCount(p, es);
    OneGapMore(n, gapNs);
    if n < Enough(p) { MulMonotone(n + 1, Enough(p), gapNs); }
  }

  /** No false alarm: a steady source that had never been heard before is healthy from its first fresh
      sample on, and so is every report on it that is in time. */
  lemma {:induction false} SteadyIsHealthy(p: HealthPolicy, s: SourceState, es: seq<Event>, fromNs: int, gapNs: nat)
    requires gapNs < p.degradedAfterMs * NS_PER_MS && p.degradedAfterMs <= p.lostAfterMs
    requires Consistent(p, s) && Steady(p, es, fromNs, gapNs)
    requires !s.seen && FreshCount(p, es) > 0
    ensures Run(p, s, es).state.Healthy?
    ensures forall nowNs :: nowNs <= LastTime(es, fromNs) + gapNs ==>
              Verdict(p, Run(p, s, es), nowNs) == (Healthy, NoReason)
    decreases |es|
  {
    var n := |es| - 1;
    SteadyProgress(p, s, es, fromNs, gapNs);
    SteadyProgress(p, s, es[..n], fromNs, gapNs);
    RunKeepsConsistent(p, s, es);
    if FreshCount(p, es[..n]) > 0 {
      SteadyIsHealthy(p, s, es[..n], fromNs, gapNs);
    } else {
      NotYetSeen(p, s, es[..n], fromNs, gapNs);
    }
  }

  lemma {:induction false} NotYetSeen(p: HealthPolicy, s: SourceState, es: seq<Event>, fromNs: int, gapNs: nat)
    requires !s.seen && Steady(p, es, fromNs, gapNs) && FreshCount(p, es) == 0
    ensures !Run(p, s, es).seen
    decreases |es|
  {
    if es == [] {
    } else {
      NotYetSeen(p, s, es[..|es| - 1], fromNs, gapNs);
    }
  }

  // ---------------------------------------------------------------- many sources

  datatype Tagged = Tagged(id: string, event: Event)

  function RunAll(p: HealthPolicy, m: Sources, log: seq<Tagged>): Sources {
    if log == [] then m
    else Observe(p, RunAll(p, m, log[..|log| - 1]), log[|log| - 1].id, log[|log| - 1].event)
  }

  function Only(log: seq<Tagged>, id: string): seq<Event> {
    if log == [] then []
    else Only(log[..|log| - 1], id) + if log[|log| - 1].id == id then [log[|log| - 1].event] else []
  }

  /** Non-interference: each source ends where its own events alone would have taken it. */
  lemma {:induction false} SourcesDoNotInterfere(p: HealthPolicy, m: Sources, log: seq<Tagged>, id: string)
    ensures StateOf(RunAll(p, m, log), id) == Run(p, StateOf(m, id), Only(log, id))
    ensures id in RunAll(p, m, log) <==> id in m || Only(log, id) != []
    decreases |log|
  {
    if log == [] {
    } else {
      var shorter := log[..|log| - 1];
      SourcesDoNotInterfere(p, m, shorter, id);
      if log[|log| - 1].id == id {
        RunSnoc(p, StateOf(m, id), Only(shorter, id), log[|log| - 1].event);
      } else {
        assert Only(log, id) == Only(shorter, id);
      }
    }
  }
}
