// What the pipeline promises over whole runs: freshness, counters that agree with the audit log, and
// the link to the laws proved of the health monitor and the detector alone.
module PipelineRuns {
  import opened Arithmetic
  import opened Telemetry
  import opened Health
  import opened Detector
  import opened Metrics
  import opened Audit
  import opened Pipeline
  import H = HealthRuns
  import D = DetectorRuns
  import P = AuditParser

  function Start(hint: string, log: string): PipelineState {
    PipelineState(map[], map[], map[], log, hint, [])
  }

  function After(c: PipelineConfig, hint: string, log: string, calls: seq<Call>): PipelineState {
    ReactAll(c, Start(hint, log), calls)
  }

  predicate TakesSample(call: Call) {
    call.Data? && call.taken.validData
  }

  // ---------------------------------------------------------------- the parts alone

  function HintAfter(hint: string, calls: seq<Call>): string {
    if calls == [] then hint
    else if TakesSample(calls[|calls| - 1]) then calls[|calls| - 1].taken.wire.sourceId
    else HintAfter(hint, calls[..|calls| - 1])
  }

  /** The health event a status callback stands for; it does not say of which source. */
  function Status(call: Call): seq<Event> {
    match call
    case DeadlineMissedCall(_) => [DeadlineMiss]
    case LivelinessChangedCall(n) => if n > 0 then [LivelinessLoss] else []
    case IncompatibleQosCall => [QosConflict]
    case MatchedCall(n) => [MatchChange(n > 0)]
    case _ => []
  }

  /** The health events a call means for a source, the latest sample having come from `hint`. */
  function Charged(hint: string, call: Call, id: string): seq<Event> {
    match call
    case Data(t) => if t.validData && t.wire.sourceId == id then [SampleArrived(t.observedNs, AgeOf(t))] else []
    case PollCall(polled, nowNs) => if polled == id then [Tick(nowNs)] else []
    case _ => if hint == id then Status(call) else []
  }

  function ChargedTo(hint: string, calls: seq<Call>, id: string): seq<Event> {
    if calls == [] then []
    else
      var before := calls[..|calls| - 1];
      ChargedTo(hint, before, id) + Charged(HintAfter(hint, before), calls[|calls| - 1], id)
  }

  lemma {:induction false} HintIsKept(c: PipelineConfig, hint: string, log: string, calls: seq<Call>)
    ensures After(c, hint, log, calls).sourceHint == HintAfter(hint, calls)
    decreases |calls|
  {
    if calls == [] {
    } else {
      HintIsKept(c, hint, log, calls[..|calls| - 1]);
    }
  }

  lemma ChargeStep(c: PipelineConfig, s: PipelineState, call: Call, id: string)
    ensures var es := Charged(s.sourceHint, call, id);
            StateOf(React(c, s, call).health, id)
            == if es == [] then StateOf(s.health, id) else Step(c.policy, StateOf(s.health, id), es[0])
  {
  }

  /** In the pipeline a source is in the state its own events alone would have taken it to. */
  lemma {:induction false} HealthInPipeline(c: PipelineConfig, hint: string, log: string, calls: seq<Call>, id: string)
    ensures StateOf(After(c, hint, log, calls).health, id) == H.Run(c.policy, UNSEEN, ChargedTo(hint, calls, id))
    decreases |calls|
  {
    if calls == [] {
    } else {
      hide React;
      hide Step;
      hide Charged;
      var before, call := calls[..|calls| - 1], calls[|calls| - 1];
      HealthInPipeline(c, hint, log, before, id);
      HintIsKept(c, hint, log, before);
      ChargedShape(HintAfter(hint, before), call, id);
      ChargeStep(c, After(c, hint, log, before), call, id);
      var es := Charged(HintAfter(hint, before), call, id);
      if es != [] {
        assert es == [es[0]];
        H.RunSnoc(c.policy, UNSEEN, ChargedTo(hint, before, id), es[0]);
      } else {
        assert ChargedTo(hint, calls, id) == ChargedTo(hint, before, id);
      }
    }
  }

  // ---------------------------------------------------------------- whom a callback is charged to

  /** An event that leaves no trace in the table of sources. */
  ghost predicate NoTrace(p: HealthPolicy, m: Sources, id: string, e: Event) {
    Observe(p, m, id, e) == m
  }

  /** A callback meant for `owner` is charged right exactly when the latest sample came from that source,
      or when it changes neither source. */
  lemma ChargedRightExactly(c: PipelineConfig, s: PipelineState, e: Event, owner: string)
    ensures Charge(c, s, e).health == Observe(c.policy, s.health, owner, e) <==>
            || s.sourceHint == owner
            || (NoTrace(c.policy, s.health, s.sourceHint, e) && NoTrace(c.policy, s.health, owner, e))
  {
    hide Step;
    var hint, m := s.sourceHint, s.health;
    var charged, meant := Observe(c.policy, m, hint, e), Observe(c.policy, m, owner, e);
    if hint != owner && charged == meant {
      assert owner in charged && owner in m && m[owner] == meant[owner];
      assert hint in meant && hint in m && m[hint] == charged[hint];
      assert meant == m;
    }
  }

  lemma CountedEventsLeaveATrace(p: HealthPolicy, m: Sources, id: string, e: Event)
    requires e.DeadlineMiss? || e.LivelinessLoss? || e.QosConflict?
    ensures !NoTrace(p, m, id, e)
  {
    assert Observe(p, m, id, e)[id] != StateOf(m, id);
  }

  /** After any run: a callback reaches the source it is meant for exactly when the latest valid sample
      came from that source; only a match notice that changes nothing can go astray unnoticed. */
  lemma CallbackIsRightExactly(c: PipelineConfig, hint: string, log: string, calls: seq<Call>, call: Call, owner: string)
    requires Status(call) != []
    ensures var (s, e) := (After(c, hint, log, calls), Status(call)[0]);
            React(c, s, call).health == Observe(c.policy, s.health, owner, e) <==>
            || HintAfter(hint, calls) == owner
            || (&& e.MatchChange?
                && NoTrace(c.policy, s.health, s.sourceHint, e) && NoTrace(c.policy, s.health, owner, e))
  {
    hide Observe;
    hide After;
    hide NoTrace;
    var s, e := After(c, hint, log, calls), Status(call)[0];
    HintIsKept(c, hint, log, calls);
    ChargedRightExactly(c, s, e, owner);
    StatusIsCharged(c, s, call);
    if !e.MatchChange? {
      CountedEventsLeaveATrace(c.policy, s.health, owner, e);
    }
  }

  lemma StatusIsCharged(c: PipelineConfig, s: PipelineState, call: Call)
    requires Status(call) != []
    ensures React(c, s, call).health == Charge(c, s, Status(call)[0]).health
  {
    hide Observe;
    hide Bump;
    hide Name;
  }

  /** With several sources it goes wrong: two deadline misses of the first source degrade the second. */
  lemma MissesHitTheWrongSource(c: PipelineConfig, hint: string, log: string, a: Taken, b: Taken)
    requires c.policy == HealthPolicy(250, 1000, 2, 3)
    requires a.validData && AgeOf(a) <= 250 && b.validData && AgeOf(b) <= 250
    requires a.wire.sourceId != b.wire.sourceId
    ensures var calls := [Data(a), Data(b), DeadlineMissedCall(1), DeadlineMissedCall(1)];
            var health := After(c, hint, log, calls).health;
            && StateOf(health, a.wire.sourceId).state.Healthy?
            && StateOf(health, b.wire.sourceId).state.Degraded?
            && H.Run(c.policy, UNSEEN, [SampleArrived(a.observedNs, AgeOf(a)), DeadlineMiss, DeadlineMiss])
               .state.Degraded?
  {
    hide AgeOf;
    var calls := [Data(a), Data(b), DeadlineMissedCall(1), DeadlineMissedCall(1)];
    var idA, idB := a.wire.sourceId, b.wire.sourceId;
    var first, second := SampleArrived(a.observedNs, AgeOf(a)), SampleArrived(b.observedNs, AgeOf(b));
    ChargedToFour(hint, calls, idA);
    ChargedToFour(hint, calls, idB);
    assert ChargedTo(hint, calls, idA) == [first];
    assert ChargedTo(hint, calls, idB) == [second, DeadlineMiss, DeadlineMiss];
    HealthInPipeline(c, hint, log, calls, idA);
    HealthInPipeline(c, hint, log, calls, idB);
    FreshThenMissed(c.policy, first);
    FreshThenMissed(c.policy, second);
  }

  lemma ChargedToFour(hint: string, calls: seq<Call>, id: string)
    requires |calls| == 4
    ensures var h1 := HintAfter(hint, calls[..1]);
            var h2 := HintAfter(hint, calls[..2]);
            var h3 := HintAfter(hint, calls[..3]);
            ChargedTo(hint, calls, id) == Charged(hint, calls[0], id) + Charged(h1, calls[1], id)
                                          + Charged(h2, calls[2], id) + Charged(h3, calls[3], id)
  {
    hide Charged;
    assert calls[..3][..2] == calls[..2] && calls[..2][..1] == calls[..1] && calls[..1][..0] == [];
    assert ChargedTo(hint, calls[..1], id) == Charged(hint, calls[0], id);
    assert ChargedTo(hint, calls[..2], id)
           == ChargedTo(hint, calls[..1], id) + Charged(HintAfter(hint, calls[..1]), calls[1], id);
    assert ChargedTo(hint, calls[..3], id)
           == ChargedTo(hint, calls[..2], id) + Charged(HintAfter(hint, calls[..2]), calls[2], id);
  }

  lemma FreshThenMissed(p: HealthPolicy, e: Event)
    requires p.degradeAfterMisses == 2 && IsFresh(p, e)
    ensures H.Run(p, UNSEEN, [e]).state.Healthy?
    ensures H.Run(p, UNSEEN, [e, DeadlineMiss, DeadlineMiss]).state.Degraded?
  {
    H.RunSnoc(p, UNSEEN, [], e);
    H.RunSnoc(p, UNSEEN, [e], DeadlineMiss);
    H.RunSnoc(p, UNSEEN, [e, DeadlineMiss], DeadlineMiss);
    assert [] + [e] == [e] && [e] + [DeadlineMiss] == [e, DeadlineMiss];
    assert [e, DeadlineMiss] + [DeadlineMiss] == [e, DeadlineMiss, DeadlineMiss];
  }

  // ---------------------------------------------------------------- the detector alone

  function Arrivals(calls: seq<Call>): seq<D.Arrival> {
    if calls == [] then []
    else
      var call := calls[|calls| - 1];
      Arrivals(calls[..|calls| - 1])
      + if TakesSample(call) then [D.Arrival(Sample(call.taken), call.taken.observedNs)] else []
  }

  lemma {:induction false} TrackerInPipeline(c: PipelineConfig, hint: string, log: string, calls: seq<Call>)
    ensures After(c, hint, log, calls).tracker == D.Feed(map[], Arrivals(calls))
    decreases |calls|
  {
    if calls == [] {
    } else {
      var before, call := calls[..|calls| - 1], calls[|calls| - 1];
      TrackerInPipeline(c, hint, log, before);
      if TakesSample(call) {
        D.FeedSnoc(map[], Arrivals(before), D.Arrival(Sample(call.taken), call.taken.observedNs));
      } else {
        assert Arrivals(calls) == Arrivals(before);
      }
    }
  }

  // ---------------------------------------------------------------- freshness end to end

  /** The position of the latest sample of a source, or -1. */
  function LatestData(calls: seq<Call>, id: string): (k: int)
    ensures -1 <= k < |calls|
    ensures k >= 0 ==> TakesSample(calls[k]) && calls[k].taken.wire.sourceId == id
    ensures forall i :: k < i < |calls| && TakesSample(calls[i]) ==> calls[i].taken.wire.sourceId != id
  {
    if calls == [] then -1
    else if TakesSample(calls[|calls| - 1]) && calls[|calls| - 1].taken.wire.sourceId == id then |calls| - 1
    else LatestData(calls[..|calls| - 1], id)
  }

  lemma LastSampleStep(es: seq<Event>, e: Event)
    ensures H.LastIndex(es + [e], H.Sample) == if e.SampleArrived? then |es| else H.LastIndex(es, H.Sample)
  {
    assert (es + [e])[..|es|] == es;
  }

  lemma ChargedShape(hint: string, call: Call, id: string)
    ensures var es := Charged(hint, call, id);
            && |es| <= 1
            && (TakesSample(call) && call.taken.wire.sourceId == id ==>
                  es == [SampleArrived(call.taken.observedNs, AgeOf(call.taken))])
            && (es != [] && es[0].SampleArrived? ==> TakesSample(call) && call.taken.wire.sourceId == id)
  {
  }

  /** The latest sample charged to a source is its latest sample. */
  lemma {:induction false} LatestIsCharged(hint: string, calls: seq<Call>, id: string)
    ensures var (es, k) := (ChargedTo(hint, calls, id), LatestData(calls, id));
            var i := H.LastIndex(es, H.Sample);
            && (i >= 0 <==> k >= 0)
            && (k >= 0 ==> es[i] == SampleArrived(calls[k].taken.observedNs, AgeOf(calls[k].taken)))
    decreases |calls|
  {
    hide Charged;
    hide AgeOf;
    if calls == [] {
    } else {
      var before, call := calls[..|calls| - 1], calls[|calls| - 1];
      LatestIsCharged(hint, before, id);
      ChargedShape(HintAfter(hint, before), call, id);
      var old', es := ChargedTo(hint, before, id), Charged(HintAfter(hint, before), call, id);
      if es == [] {
        assert ChargedTo(hint, calls, id) == old';
      } else {
        assert ChargedTo(hint, calls, id) == old' + [es[0]];
        LastSampleStep(old', es[0]);
      }
    }
  }

  lemma LatestSampleKept(c: PipelineConfig, hint: string, log: string, calls: seq<Call>, id: string)
    ensures var (s, k) := (StateOf(After(c, hint, log, calls).health, id), LatestData(calls, id));
            && (s.seen <==> k >= 0)
            && (k >= 0 ==> s.lastSampleNs == calls[k].taken.observedNs)
            && (s.state.Healthy? ==> k >= 0 && AgeOf(calls[k].taken) <= c.policy.degradedAfterMs)
  {
    var es := ChargedTo(hint, calls, id);
    HealthInPipeline(c, hint, log, calls, id);
    LatestIsCharged(hint, calls, id);
    H.LatestIsRemembered(c.policy, es);
    if H.Run(c.policy, UNSEEN, es).state.Healthy? { H.HealthyMeansFresh(c.policy, es); }
  }

  /** What a healthy verdict is worth: the state behind it is younger than twice the freshness budget
      and a millisecond, by the clock of its source; and a detector with that budget, or a larger one,
      did not call the sample stale. */
  lemma HealthyMeansRecent(c: PipelineConfig, hint: string, log: string, calls: seq<Call>, id: string, nowNs: int)
    requires Verdict(c.policy, StateOf(After(c, hint, log, calls).health, id), nowNs).0.Healthy?
    ensures LatestData(calls, id) >= 0
    ensures var taken := calls[LatestData(calls, id)].taken;
            && nowNs - taken.wire.sourceTimestampNs <= (2 * c.policy.degradedAfterMs + 1) * NS_PER_MS - 2
            && (c.detector.maxAgeMs >= c.policy.degradedAfterMs ==>
                  !D.Has(EventsFor(c, After(c, hint, log, calls[..LatestData(calls, id)]), taken), Stale))
  {
    LatestSampleKept(c, hint, log, calls, id);
    var k := LatestData(calls, id);
    var taken := calls[k].taken;
    TruncDivAtMost(taken.observedNs - taken.wire.sourceTimestampNs, NS_PER_MS, c.policy.degradedAfterMs);
    var s := After(c, hint, log, calls[..k]);
    D.VerdictsExactly(c.detector, ProgressOf(s.tracker, id), Sample(taken), taken.observedNs, Stale);
  }

  /** The bound is attained. */
  lemma RecentBoundIsExact(c: PipelineConfig, hint: string, log: string, wire: TelemetrySample)
    requires 0 < c.policy.degradedAfterMs <= c.policy.lostAfterMs && wire.sourceTimestampNs >= 0
    ensures exists taken: Taken, nowNs ::
              && taken.wire == wire
              && Verdict(c.policy, StateOf(After(c, hint, log, [Data(taken)]).health, wire.sourceId), nowNs).0.Healthy?
              && nowNs - wire.sourceTimestampNs == (2 * c.policy.degradedAfterMs + 1) * NS_PER_MS - 2
  {
    var budget := c.policy.degradedAfterMs * NS_PER_MS;
    var taken := Taken(wire, true, wire.sourceTimestampNs + budget + NS_PER_MS - 1);
    var nowNs := taken.observedNs + budget - 1;
    AgeAtTheLimit(c.policy.degradedAfterMs, taken);
    FirstSampleIsTrusted(c, hint, log, taken, nowNs);
  }

  lemma AgeAtTheLimit(degradedAfterMs: int, t: Taken)
    requires degradedAfterMs > 0
    requires t.observedNs - t.wire.sourceTimestampNs == degradedAfterMs * NS_PER_MS + NS_PER_MS - 1
    ensures AgeOf(t) == degradedAfterMs
  {
  }

  lemma FirstSampleIsTrusted(c: PipelineConfig, hint: string, log: string, t: Taken, nowNs: int)
    requires t.validData && t.observedNs != 0 && AgeOf(t) <= c.policy.degradedAfterMs <= c.policy.lostAfterMs
    requires nowNs - t.observedNs < c.policy.degradedAfterMs * NS_PER_MS
    ensures Verdict(c.policy, StateOf(After(c, hint, log, [Data(t)]).health, t.wire.sourceId), nowNs).0.Healthy?
  {
    var id, e := t.wire.sourceId, SampleArrived(t.observedNs, AgeOf(t));
    HealthInPipeline(c, hint, log, [Data(t)], id);
    assert [Data(t)][..0] == [] && ChargedTo(hint, [Data(t)], id) == [] + [e];
    H.RunSnoc(c.policy, UNSEEN, [], e);
  }

  // ---------------------------------------------------------------- no false alarm

  lemma {:induction false} ChargedToPrefix(hint: string, calls: seq<Call>, n: nat, id: string)
    requires n <= |calls|
    ensures ChargedTo(hint, calls[..n], id) <= ChargedTo(hint, calls, id)
    decreases |calls|
  {
    hide Charged;
    if n == |calls| {
      assert calls[..n] == calls;
    } else {
      ChargedToPrefix(hint, calls[..|calls| - 1], n, id);
      assert calls[..|calls| - 1][..n] == calls[..n];
    }
  }

  lemma PollIsCharged(hint: string, calls: seq<Call>, i: nat)
    requires i < |calls| && calls[i].PollCall?
    ensures ChargedTo(hint, calls[..i + 1], calls[i].id)
            == ChargedTo(hint, calls[..i], calls[i].id) + [Tick(calls[i].nowNs)]
  {
    assert calls[..i + 1][..i] == calls[..i];
  }

  /** Every poll of a steady source, its first sample once taken, reports it healthy. */
  lemma SteadySourceIsHealthy(c: PipelineConfig, hint: string, log: string, calls: seq<Call>, id: string, i: nat,
                              fromNs: int, gapNs: nat)
    requires gapNs < c.policy.degradedAfterMs * NS_PER_MS && c.policy.degradedAfterMs <= c.policy.lostAfterMs
    requires H.Steady(c.policy, ChargedTo(hint, calls, id), fromNs, gapNs)
    requires i < |calls| && calls[i].PollCall? && calls[i].id == id && LatestData(calls[..i], id) >= 0
    ensures Verdict(c.policy, StateOf(After(c, hint, log, calls[..i]).health, id), calls[i].nowNs) == (Healthy, NoReason)
  {
    hide After;
    hide Verdict;
    hide ChargedTo;
    hide LatestData;
    hide H.Run;
    hide H.FreshCount;
    hide H.LastIndex;
    hide H.LastTime;
    var before, all := ChargedTo(hint, calls[..i], id), ChargedTo(hint, calls, id);
    var polled := ChargedTo(hint, calls[..i + 1], id);
    PollIsCharged(hint, calls, i);
    ChargedToPrefix(hint, calls, i + 1, id);
    H.SteadyPrefix(c.policy, all, |polled|, fromNs, gapNs);
    assert all[..|polled|] == polled && polled[..|before|] == before;
    HealthInPipeline(c, hint, log, calls[..i], id);
    LatestIsCharged(hint, calls[..i], id);
    H.SteadySamples(c.policy, before, fromNs, gapNs);
    H.SteadyIsHealthy(c.policy, UNSEEN, before, fromNs, gapNs);
  }

  // ---------------------------------------------------------------- counters

  /** How many events of a list a counter is about. */
  function Hits(es: seq<AnomalyEvent>, m: Metric): nat {
    if es == [] then 0
    else
      var e := es[|es| - 1];
      Hits(es[..|es| - 1], m) + if m == AnomalyTotal(e.kind) || m == AnomalyByKey(e.kind, e.sourceId) then 1 else 0
  }

  lemma {:induction false} HitsConcat(es: seq<AnomalyEvent>, fs: seq<AnomalyEvent>, m: Metric)
    ensures Hits(es + fs, m) == Hits(es, m) + Hits(fs, m)
    decreases |fs|
  {
    if fs == [] {
      assert es + fs == es;
    } else {
      var n := |fs| - 1;
      assert (es + fs)[..|es + fs| - 1] == es + fs[..n];
      HitsConcat(es, fs[..n], m);
    }
  }

  lemma BumpValue(counters: Counters, m: Metric, n: Metric, v: u64)
    ensures Value(Bump(counters, Name(m), v), Name(n))
            == if m == n then Add64(Value(counters, Name(n)), v) else Value(counters, Name(n))
  {
    if Name(m) == Name(n) { NamesInjective(m, n); }
  }

  lemma CountEventValue(counters: Counters, e: AnomalyEvent, m: Metric, n: nat)
    requires Value(counters, Name(m)) == Counter64(n)
    ensures Value(Bump(Bump(counters, Name(AnomalyTotal(e.kind)), 1), Name(AnomalyByKey(e.kind, e.sourceId)), 1), Name(m))
            == Counter64(n + if m == AnomalyTotal(e.kind) || m == AnomalyByKey(e.kind, e.sourceId) then 1 else 0)
  {
    hide Name;
    BumpValue(counters, AnomalyTotal(e.kind), m, 1);
    BumpValue(Bump(counters, Name(AnomalyTotal(e.kind)), 1), AnomalyByKey(e.kind, e.sourceId), m, 1);
  }

  lemma {:induction false} CountEventsValue(counters: Counters, es: seq<AnomalyEvent>, m: Metric, n: nat)
    requires Value(counters, Name(m)) == Counter64(n)
    ensures Value(CountEvents(counters, es), Name(m)) == Counter64(n + Hits(es, m))
    decreases |es|
  {
    hide Name;
    if es == [] {
    } else {
      var before := es[..|es| - 1];
      CountEventsValue(counters, before, m, n);
      CountEventValue(CountEvents(counters, before), es[|es| - 1], m, n + Hits(before, m));
    }
  }

  /** How often what a counter is about happened in a run. */
  function Occurrences(c: PipelineConfig, calls: seq<Call>, m: Metric): nat {
    match m
    case ReceivedTotal => |Arrivals(calls)|
    case ReceivedByKey(id) => |D.OnlyArrivals(Arrivals(calls), id)|
    case _ => Hits(D.Emitted(c.detector, map[], Arrivals(calls)), m)
  }

  predicate CountsSamples(m: Metric) {
    m.ReceivedTotal? || m.ReceivedByKey? || m.AnomalyTotal? || m.AnomalyByKey?
  }

  lemma OtherCallsCountNothing(c: PipelineConfig, s: PipelineState, call: Call, m: Metric)
    requires CountsSamples(m) && !TakesSample(call)
    ensures Value(React(c, s, call).counters, Name(m)) == Value(s.counters, Name(m))
  {
    hide Name;
    match call
    case DeadlineMissedCall(n) => BumpValue(s.counters, DeadlineTotal, m, ToU64(n));
    case LivelinessChangedCall(n) => BumpValue(s.counters, LivelinessTotal, m, ToU64(n));
    case IncompatibleQosCall => BumpValue(s.counters, IncompatibleTotal, m, 1);
    case SampleLostCall(n) => BumpValue(s.counters, MiddlewareLostTotal, m, ToU64(n));
    case _ =>
  }

  lemma ArrivalCounts(counters: Counters, id: string, m: Metric, n: nat)
    requires CountsSamples(m) && Value(counters, Name(m)) == Counter64(n)
    ensures Value(Bump(Bump(counters, Name(ReceivedTotal), 1), Name(ReceivedByKey(id)), 1), Name(m))
            == Counter64(n + if m == ReceivedTotal || m == ReceivedByKey(id) then 1 else 0)
  {
    hide Name;
    BumpValue(counters, ReceivedTotal, m, 1);
    BumpValue(Bump(counters, Name(ReceivedTotal), 1), ReceivedByKey(id), m, 1);
  }

  /** How much one sample adds to a counter. */
  function Gain(events: seq<AnomalyEvent>, id: string, m: Metric): nat {
    Hits(events, m) + if m == ReceivedTotal || m == ReceivedByKey(id) then 1 else 0
  }

  lemma SampleCounts(counters: Counters, id: string, events: seq<AnomalyEvent>, m: Metric, n: nat)
    requires CountsSamples(m) && Value(counters, Name(m)) == Counter64(n)
    ensures Value(CountEvents(Bump(Bump(counters, Name(ReceivedTotal), 1), Name(ReceivedByKey(id)), 1), events), Name(m))
            == Counter64(n + Gain(events, id, m))
  {
    hide Name;
    ArrivalCounts(counters, id, m, n);
    CountEventsValue(Bump(Bump(counters, Name(ReceivedTotal), 1), Name(ReceivedByKey(id)), 1), events, m,
                     n + if m == ReceivedTotal || m == ReceivedByKey(id) then 1 else 0);
  }

  lemma {:induction false} NoHits(es: seq<AnomalyEvent>, m: Metric)
    requires !m.AnomalyTotal? && !m.AnomalyByKey?
    ensures Hits(es, m) == 0
    decreases |es|
  {
    if es == [] {
    } else {
      NoHits(es[..|es| - 1], m);
    }
  }

  lemma CountersStep(c: PipelineConfig, s: PipelineState, before: seq<Call>, call: Call, m: Metric)
    requires CountsSamples(m) && s.tracker == D.Feed(map[], Arrivals(before))
    requires Value(s.counters, Name(m)) == Counter64(Occurrences(c, before, m))
    ensures Value(React(c, s, call).counters, Name(m)) == Counter64(Occurrences(c, before + [call], m))
  {
    hide Name;
    hide CountEvents;
    hide LogEvents;
    hide Verdicts;
    hide Observe;
    if TakesSample(call) {
      SampleCounts(s.counters, call.taken.wire.sourceId, EventsFor(c, s, call.taken), m, Occurrences(c, before, m));
      OccurrencesStep(c, before, call, m);
    } else {
      OtherCallsCountNothing(c, s, call, m);
      assert (before + [call])[..|before|] == before;
      assert Arrivals(before + [call]) == Arrivals(before);
    }
  }

  /** Every sample and anomaly counter is, modulo its width, the number of times its subject occurred. */
  lemma {:induction false} CountersCount(c: PipelineConfig, hint: string, log: string, calls: seq<Call>, m: Metric)
    requires CountsSamples(m)
    ensures Value(After(c, hint, log, calls).counters, Name(m)) == Counter64(Occurrences(c, calls, m))
    decreases |calls|
  {
    hide Name;
    hide React;
    hide Arrivals;
    if calls == [] {
      CountersStart(c, hint, log, m);
    } else {
      hide After;
      hide Occurrences;
      var before, call := calls[..|calls| - 1], calls[|calls| - 1];
      CountersCount(c, hint, log, before, m);
      TrackerInPipeline(c, hint, log, before);
      CountersStep(c, After(c, hint, log, before), before, call, m);
      AfterSnoc(c, hint, log, before, call);
      assert before + [call] == calls;
    }
  }

  lemma CountersStart(c: PipelineConfig, hint: string, log: string, m: Metric)
    requires CountsSamples(m)
    ensures Value(After(c, hint, log, []).counters, Name(m)) == Counter64(Occurrences(c, [], m))
  {
    hide Name;
  }

  lemma OccurrencesStep(c: PipelineConfig, before: seq<Call>, call: Call, m: Metric)
    requires CountsSamples(m) && TakesSample(call)
    ensures var t := call.taken;
            var events := Verdicts(c.detector, ProgressOf(D.Feed(map[], Arrivals(before)), t.wire.sourceId),
                                   Sample(t), t.observedNs);
            Occurrences(c, before + [call], m) == Occurrences(c, before, m) + Gain(events, t.wire.sourceId, m)
  {
    var t := call.taken;
    var x := D.Arrival(Sample(t), t.observedNs);
    var old' := Arrivals(before);
    assert (before + [call])[..|before|] == before;
    assert Arrivals(before + [call]) == old' + [x];
    assert (old' + [x])[..|old'|] == old';
    D.EmittedSnoc(c.detector, map[], old', x);
    var events := Verdicts(c.detector, ProgressOf(D.Feed(map[], old'), t.wire.sourceId), Sample(t), t.observedNs);
    HitsConcat(D.Emitted(c.detector, map[], old'), events, m);
    if m.ReceivedTotal? || m.ReceivedByKey? { NoHits(events, m); }
  }

  // ---------------------------------------------------------------- totals against keys

  ghost predicate Distinct(keys: seq<string>) {
    forall i, j :: 0 <= i < j < |keys| ==> keys[i] != keys[j]
  }

  /** A total and its breakdown by key: samples received, or anomalies of one kind. */
  datatype Family = Received | Anomalies(kind: AnomalyKind)

  function TotalOf(f: Family): Metric {
    if f.Received? then ReceivedTotal else AnomalyTotal(f.kind)
  }

  function ByKeyOf(f: Family, id: string): Metric {
    if f.Received? then ReceivedByKey(id) else AnomalyByKey(f.kind, id)
  }

  /** The sources of the samples, or of the anomalies, a family counts, one entry each. */
  function SampleOwners(xs: seq<D.Arrival>): seq<string> {
    seq(|xs|, i requires 0 <= i < |xs| => xs[i].sample.sourceId)
  }

  function EventOwners(es: seq<AnomalyEvent>, kind: AnomalyKind): seq<string> {
    if es == [] then []
    else EventOwners(es[..|es| - 1], kind) + if es[|es| - 1].kind == kind then [es[|es| - 1].sourceId] else []
  }

  function Owners(c: PipelineConfig, calls: seq<Call>, f: Family): seq<string> {
    match f
    case Received => SampleOwners(Arrivals(calls))
    case Anomalies(kind) => EventOwners(D.Emitted(c.detector, map[], Arrivals(calls)), kind)
  }

  lemma {:induction false} SampleOwnersCount(xs: seq<D.Arrival>, id: string)
    ensures |D.OnlyArrivals(xs, id)| == multiset(SampleOwners(xs))[id]
    decreases |xs|
  {
    if xs == [] {
    } else {
      var n := |xs| - 1;
      SampleOwnersCount(xs[..n], id);
      assert SampleOwners(xs) == SampleOwners(xs[..n]) + [xs[n].sample.sourceId];
    }
  }

  lemma {:induction false} EventOwnersCount(es: seq<AnomalyEvent>, kind: AnomalyKind, id: string)
    ensures Hits(es, AnomalyTotal(kind)) == |EventOwners(es, kind)|
    ensures Hits(es, AnomalyByKey(kind, id)) == multiset(EventOwners(es, kind))[id]
    decreases |es|
  {
    if es == [] {
    } else {
      EventOwnersCount(es[..|es| - 1], kind, id);
    }
  }

  lemma OwnersCount(c: PipelineConfig, calls: seq<Call>, f: Family, id: string)
    ensures Occurrences(c, calls, TotalOf(f)) == |Owners(c, calls, f)|
    ensures Occurrences(c, calls, ByKeyOf(f, id)) == multiset(Owners(c, calls, f))[id]
  {
    match f
    case Received => SampleOwnersCount(Arrivals(calls), id);
    case Anomalies(kind) => EventOwnersCount(D.Emitted(c.detector, map[], Arrivals(calls)), kind, id);
  }

  lemma {:induction false} EmittedAreAbout(c: DetectorConfig, m: Tracker, xs: seq<D.Arrival>, keys: seq<string>)
    requires forall x :: x in xs ==> x.sample.sourceId in keys
    ensures forall e :: e in D.Emitted(c, m, xs) ==> e.sourceId in keys
    decreases |xs|
  {
    if xs == [] {
    } else {
      var x, before := xs[|xs| - 1], xs[..|xs| - 1];
      EmittedAreAbout(c, m, before, keys);
      D.VerdictsAreAbout(c, ProgressOf(D.Feed(m, before), x.sample.sourceId), x.sample, x.nowNs);
      assert x in xs;
    }
  }

  lemma {:induction false} EventOwnersIn(es: seq<AnomalyEvent>, kind: AnomalyKind, keys: seq<string>)
    requires forall e :: e in es ==> e.sourceId in keys
    ensures forall id :: id in EventOwners(es, kind) ==> id in keys
    decreases |es|
  {
    if es == [] {
    } else {
      EventOwnersIn(es[..|es| - 1], kind, keys);
    }
  }

  lemma OwnersAreKeys(c: PipelineConfig, calls: seq<Call>, f: Family, keys: seq<string>)
    requires forall x :: x in Arrivals(calls) ==> x.sample.sourceId in keys
    ensures forall id :: id in Owners(c, calls, f) ==> id in keys
  {
    EmittedAreAbout(c.detector, map[], Arrivals(calls), keys);
    if f.Anomalies? { EventOwnersIn(D.Emitted(c.detector, map[], Arrivals(calls)), f.kind, keys); }
  }

  /** How many entries of a list are among some keys. */
  function Among(owners: seq<string>, keys: seq<string>): nat {
    if keys == [] then 0
    else Among(owners, keys[..|keys| - 1]) + multiset(owners)[keys[|keys| - 1]]
  }

  lemma {:induction false} AmongOneMore(owners: seq<string>, owner: string, keys: seq<string>)
    requires Distinct(keys)
    ensures Among(owners + [owner], keys) == Among(owners, keys) + if owner in keys then 1 else 0
    decreases |keys|
  {
    if keys == [] {
    } else {
      var n := |keys| - 1;
      AmongOneMore(owners, owner, keys[..n]);
      assert keys == keys[..n] + [keys[n]];
    }
  }

  lemma {:induction false} AmongNone(keys: seq<string>)
    ensures Among([], keys) == 0
    decreases |keys|
  {
    if keys == [] {
    } else {
      AmongNone(keys[..|keys| - 1]);
    }
  }

  lemma {:induction false} AmongAll(owners: seq<string>, keys: seq<string>)
    requires Distinct(keys) && forall id :: id in owners ==> id in keys
    ensures Among(owners, keys) == |owners|
    decreases |owners|
  {
    if owners == [] {
      AmongNone(keys);
    } else {
      var n := |owners| - 1;
      AmongAll(owners[..n], keys);
      AmongOneMore(owners[..n], owners[n], keys);
      assert owners[..n] + [owners[n]] == owners;
    }
  }

  /** The sum of a family's per-key counters over some keys. */
  function KeyCounters(counters: Counters, f: Family, keys: seq<string>): nat {
    if keys == [] then 0
    else KeyCounters(counters, f, keys[..|keys| - 1]) + Value(counters, Name(ByKeyOf(f, keys[|keys| - 1])))
  }

  lemma SumModulo(a: nat, x: nat, b: nat)
    requires a % 0x1_0000_0000_0000_0000 == x % 0x1_0000_0000_0000_0000
    ensures (a + b % 0x1_0000_0000_0000_0000) % 0x1_0000_0000_0000_0000 == (x + b) % 0x1_0000_0000_0000_0000
  {
    ShiftModulo(a + b % 0x1_0000_0000_0000_0000,
                x / 0x1_0000_0000_0000_0000 + b / 0x1_0000_0000_0000_0000 - a / 0x1_0000_0000_0000_0000);
  }

  lemma ShiftModulo(u: int, k: int)
    ensures (u + k * 0x1_0000_0000_0000_0000) % 0x1_0000_0000_0000_0000 == u % 0x1_0000_0000_0000_0000
  {
  }

  lemma {:induction false} KeyCountersSum(counters: Counters, owners: seq<string>, f: Family, keys: seq<string>)
    requires forall id :: Value(counters, Name(ByKeyOf(f, id))) == Counter64(multiset(owners)[id])
    ensures KeyCounters(counters, f, keys) % 0x1_0000_0000_0000_0000
            == Among(owners, keys) % 0x1_0000_0000_0000_0000
    decreases |keys|
  {
    hide Name;
    if keys == [] {
    } else {
      var n := |keys| - 1;
      KeyCountersSum(counters, owners, f, keys[..n]);
      Counter64IsModulo(multiset(owners)[keys[n]]);
      SumModulo(KeyCounters(counters, f, keys[..n]), Among(owners, keys[..n]), multiset(owners)[keys[n]]);
    }
  }

  /** Every total, of samples received and of each anomaly, is the sum of its per-key counters modulo
      the width of a counter. */
  lemma TotalsAgreeWithKeys(c: PipelineConfig, hint: string, log: string, calls: seq<Call>,
                            f: Family, keys: seq<string>)
    requires Distinct(keys) && forall x :: x in Arrivals(calls) ==> x.sample.sourceId in keys
    ensures var counters := After(c, hint, log, calls).counters;
            Value(counters, Name(TotalOf(f))) == KeyCounters(counters, f, keys) % 0x1_0000_0000_0000_0000
  {
    hide Name;
    hide Occurrences;
    var counters, owners := After(c, hint, log, calls).counters, Owners(c, calls, f);
    OwnersAreKeys(c, calls, f, keys);
    AmongAll(owners, keys);
    forall id ensures Value(counters, Name(ByKeyOf(f, id))) == Counter64(multiset(owners)[id]) {
      CountersCount(c, hint, log, calls, ByKeyOf(f, id));
      OwnersCount(c, calls, f, id);
    }
    KeyCountersSum(counters, owners, f, keys);
    CountersCount(c, hint, log, calls, TotalOf(f));
    OwnersCount(c, calls, f, "");
    Counter64IsModulo(|owners|);
  }

  // ---------------------------------------------------------------- the log

  function Stamped(es: seq<AnomalyEvent>, observedNs: int): seq<Record> {
    if es == [] then [] else Stamped(es[..|es| - 1], observedNs) + [Record(es[|es| - 1], observedNs)]
  }

  /** Every anomaly of a run with the time it was observed. */
  function Trail(c: DetectorConfig, xs: seq<D.Arrival>): seq<Record> {
    if xs == [] then []
    else
      var (before, x) := (xs[..|xs| - 1], xs[|xs| - 1]);
      Trail(c, before) + Stamped(Verdicts(c, ProgressOf(D.Feed(map[], before), x.sample.sourceId), x.sample, x.nowNs), x.nowNs)
  }

  function EventsOf(rs: seq<Record>): seq<AnomalyEvent> {
    seq(|rs|, i requires 0 <= i < |rs| => rs[i].event)
  }

  lemma {:induction false} StampedEvents(es: seq<AnomalyEvent>, observedNs: int)
    ensures EventsOf(Stamped(es, observedNs)) == es
    decreases |es|
  {
    if es == [] {
    } else {
      StampedEvents(es[..|es| - 1], observedNs);
      assert es == es[..|es| - 1] + [es[|es| - 1]];
    }
  }

  lemma EventsOfConcat(rs: seq<Record>, ts: seq<Record>)
    ensures EventsOf(rs + ts) == EventsOf(rs) + EventsOf(ts)
  {
  }

  lemma {:induction false} TrailEvents(c: DetectorConfig, xs: seq<D.Arrival>)
    ensures EventsOf(Trail(c, xs)) == D.Emitted(c, map[], xs)
    decreases |xs|
  {
    if xs == [] {
    } else {
      var before, x := xs[..|xs| - 1], xs[|xs| - 1];
      var now := Verdicts(c, ProgressOf(D.Feed(map[], before), x.sample.sourceId), x.sample, x.nowNs);
      TrailEvents(c, before);
      StampedEvents(now, x.nowNs);
      EventsOfConcat(Trail(c, before), Stamped(now, x.nowNs));
    }
  }

  lemma {:induction false} LogEventsText(rs: seq<Record>, es: seq<AnomalyEvent>, observedNs: int)
    ensures LogEvents(LogText(rs), es, observedNs) == LogText(rs + Stamped(es, observedNs))
    decreases |es|
  {
    hide Line;
    if es == [] {
      assert rs + Stamped(es, observedNs) == rs;
    } else {
      var before, r := Stamped(es[..|es| - 1], observedNs), Record(es[|es| - 1], observedNs);
      LogEventsText(rs, es[..|es| - 1], observedNs);
      LogTextSnoc(rs + before, r);
      assert rs + Stamped(es, observedNs) == rs + before + [r];
    }
  }

  lemma TrailSnoc(c: DetectorConfig, xs: seq<D.Arrival>, x: D.Arrival)
    ensures Trail(c, xs + [x]) == Trail(c, xs)
              + Stamped(Verdicts(c, ProgressOf(D.Feed(map[], xs), x.sample.sourceId), x.sample, x.nowNs), x.nowNs)
  {
    assert (xs + [x])[..|xs|] == xs;
  }

  lemma LogGrows(log: string, rs: seq<Record>, trail: seq<Record>, es: seq<AnomalyEvent>, observedNs: int)
    requires log == LogText(rs + trail)
    ensures LogEvents(log, es, observedNs) == LogText(rs + (trail + Stamped(es, observedNs)))
  {
    hide Line;
    LogEventsText(rs + trail, es, observedNs);
    assert rs + trail + Stamped(es, observedNs) == rs + (trail + Stamped(es, observedNs));
  }

  lemma ReactLogs(c: PipelineConfig, s: PipelineState, call: Call)
    requires c.auditGood
    ensures React(c, s, call).log
            == if TakesSample(call) then LogEvents(s.log, EventsFor(c, s, call.taken), call.taken.observedNs) else s.log
  {
    hide LogEvents;
    hide CountEvents;
    hide Verdicts;
    hide Observe;
    hide Bump;
    hide Name;
  }

  lemma ArrivalsStep(before: seq<Call>, call: Call)
    ensures Arrivals(before + [call]) == Arrivals(before)
              + if TakesSample(call) then [D.Arrival(Sample(call.taken), call.taken.observedNs)] else []
  {
    assert (before + [call])[..|before|] == before;
  }

  lemma LogStep(c: PipelineConfig, s: PipelineState, before: seq<Call>, call: Call, rs: seq<Record>)
    requires c.auditGood && s.tracker == D.Feed(map[], Arrivals(before))
    requires s.log == LogText(rs + Trail(c.detector, Arrivals(before)))
    ensures React(c, s, call).log == LogText(rs + Trail(c.detector, Arrivals(before + [call])))
  {
    hide React;
    hide LogEvents;
    hide LogText;
    hide Verdicts;
    hide Stamped;
    hide Trail;
    hide Arrivals;
    hide D.Feed;
    ReactLogs(c, s, call);
    ArrivalsStep(before, call);
    if TakesSample(call) {
      var t := call.taken;
      TrailSnoc(c.detector, Arrivals(before), D.Arrival(Sample(t), t.observedNs));
      LogGrows(s.log, rs, Trail(c.detector, Arrivals(before)), EventsFor(c, s, t), t.observedNs);
    } else {
      assert Arrivals(before) + [] == Arrivals(before);
    }
  }

  lemma AfterSnoc(c: PipelineConfig, hint: string, log: string, before: seq<Call>, call: Call)
    ensures After(c, hint, log, before + [call]) == React(c, After(c, hint, log, before), call)
  {
    hide React;
    assert (before + [call])[..|before|] == before;
  }

  lemma LogStarts(c: PipelineConfig, hint: string, rs: seq<Record>)
    ensures After(c, hint, LogText(rs), []).log == LogText(rs + Trail(c.detector, Arrivals([])))
  {
    assert rs + Trail(c.detector, []) == rs;
  }

  lemma {:induction false} LogIsTrail(c: PipelineConfig, hint: string, rs: seq<Record>, calls: seq<Call>)
    requires c.auditGood
    ensures After(c, hint, LogText(rs), calls).log == LogText(rs + Trail(c.detector, Arrivals(calls)))
    decreases |calls|
  {
    hide After;
    hide React;
    hide LogText;
    hide Trail;
    hide Arrivals;
    if calls == [] {
      LogStarts(c, hint, rs);
    } else {
      var before, call := calls[..|calls| - 1], calls[|calls| - 1];
      LogIsTrail(c, hint, rs, before);
      TrackerInPipeline(c, hint, LogText(rs), before);
      LogStep(c, After(c, hint, LogText(rs), before), before, call, rs);
      AfterSnoc(c, hint, LogText(rs), before, call);
      assert before + [call] == calls;
    }
  }

  /** With a working sink and a fresh log, reading the log back yields every anomaly of the run in
      order, and each anomaly's counter is the number of records of that kind. */
  lemma LogAgreesWithCounters(c: PipelineConfig, hint: string, calls: seq<Call>, kind: AnomalyKind)
    requires c.auditGood
    ensures var (s, trail) := (After(c, hint, [], calls), Trail(c.detector, Arrivals(calls)));
            && P.ReadLog(s.log) == P.Records(trail)
            && EventsOf(trail) == D.Emitted(c.detector, map[], Arrivals(calls))
            && Value(s.counters, Name(AnomalyTotal(kind))) == Counter64(Hits(EventsOf(trail), AnomalyTotal(kind)))
  {
    hide Line;
    assert LogText([]) == [];
    assert [] + Trail(c.detector, Arrivals(calls)) == Trail(c.detector, Arrivals(calls));
    LogIsTrail(c, hint, [], calls);
    P.LogReads(Trail(c.detector, Arrivals(calls)));
    TrailEvents(c.detector, Arrivals(calls));
    CountersCount(c, hint, [], calls, AnomalyTotal(kind));
  }
}
