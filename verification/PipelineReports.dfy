// What one call does to the pipeline, exactly, and what its counters and latencies hold after any run.
module PipelineReports {
  import opened Arithmetic
  import opened Telemetry
  import opened Health
  import opened Detector
  import opened Metrics
  import opened Audit
  import opened Pipeline
  import opened PipelineRuns
  import D = DetectorRuns
  import H = HealthRuns

  // ---------------------------------------------------------------- the age of a sample

  function ElapsedNs(t: Taken): int {
    t.observedNs - t.wire.sourceTimestampNs
  }

  /** Younger than the budget and one millisecond more, a source clock ahead of ours included. */
  predicate InBudget(p: HealthPolicy, t: Taken) {
    if p.degradedAfterMs >= 0 then ElapsedNs(t) < (p.degradedAfterMs + 1) * 1_000_000
    else ElapsedNs(t) <= p.degradedAfterMs * 1_000_000
  }

  lemma BudgetIsAge(p: HealthPolicy, t: Taken, age: int)
    requires Truncates(ElapsedNs(t), 1_000_000, age)
    ensures age <= p.degradedAfterMs <==> InBudget(p, t)
  {
  }

  lemma AgeExactly(t: Taken)
    ensures Truncates(ElapsedNs(t), 1_000_000, AgeOf(t))
  {
    TruncDivExactly(ElapsedNs(t), 1_000_000, AgeOf(t));
  }

  lemma IngestHealth(c: PipelineConfig, s: PipelineState, t: Taken)
    ensures Ingest(c, s, t).health
            == Observe(c.policy, s.health, t.wire.sourceId, SampleArrived(t.observedNs, AgeOf(t)))
  {
    hide Observe;
    hide AgeOf;
    hide Bump;
    hide Name;
    hide CountEvents;
    hide LogEvents;
    hide Verdicts;
  }

  /** After any calls, a valid sample reaches the monitor with the time it was taken and with its age in
      whole milliseconds, toward zero, whatever the sign. */
  lemma SampleReachesMonitor(c: PipelineConfig, hint: string, log: string, calls: seq<Call>, t: Taken, age: int)
    requires t.validData && Truncates(ElapsedNs(t), 1_000_000, age)
    ensures var id := t.wire.sourceId;
            var (before, after) := (After(c, hint, log, calls).health, After(c, hint, log, calls + [Data(t)]).health);
            && StateOf(after, id) == Step(c.policy, StateOf(before, id), SampleArrived(t.observedNs, age))
            && forall other :: other != id ==> StateOf(after, other) == StateOf(before, other)
  {
    hide Step;
    hide After;
    hide Ingest;
    hide Truncates;
    TruncDivExactly(ElapsedNs(t), 1_000_000, age);
    AfterSnoc(c, hint, log, calls, Data(t));
    IngestHealth(c, After(c, hint, log, calls), t);
  }

  /** After any calls, the first valid sample of a source makes it healthy exactly when it is in budget. */
  lemma FirstSampleExactly(c: PipelineConfig, hint: string, log: string, calls: seq<Call>, t: Taken)
    requires t.validData && LatestData(calls, t.wire.sourceId) < 0
    ensures StateOf(After(c, hint, log, calls + [Data(t)]).health, t.wire.sourceId).state.Healthy? <==>
            InBudget(c.policy, t)
  {
    hide After;
    hide InBudget;
    var id, es := t.wire.sourceId, ChargedTo(hint, calls, t.wire.sourceId);
    AgeExactly(t);
    BudgetIsAge(c.policy, t, AgeOf(t));
    SampleReachesMonitor(c, hint, log, calls, t, AgeOf(t));
    HealthInPipeline(c, hint, log, calls, id);
    LatestIsCharged(hint, calls, id);
    H.FirstContactExactly(c.policy, es, t.observedNs, AgeOf(t));
    H.RunSnoc(c.policy, UNSEEN, es, SampleArrived(t.observedNs, AgeOf(t)));
  }

  // ---------------------------------------------------------------- what else a sample does

  /** A valid sample reaches the detector as it was sent, stamped with the time it was taken; an invalid
      one changes nothing at all. */
  lemma SampleReachesDetector(c: PipelineConfig, hint: string, log: string, calls: seq<Call>, t: Taken)
    ensures t.validData ==>
              && Arrivals(calls + [Data(t)])
                 == Arrivals(calls) + [D.Arrival(t.wire.(ingestTimestampNs := t.observedNs), t.observedNs)]
              && After(c, hint, log, calls + [Data(t)]).sourceHint == t.wire.sourceId
    ensures !t.validData ==> After(c, hint, log, calls + [Data(t)]) == After(c, hint, log, calls)
  {
    AfterSnoc(c, hint, log, calls, Data(t));
    ArrivalsStep(calls, Data(t));
  }

  /** A batch is taken in its order. */
  lemma BatchInOrder(batch: seq<Taken>)
    ensures |DataCalls(batch)| == |batch| && forall i :: 0 <= i < |batch| ==> DataCalls(batch)[i] == Data(batch[i])
  {
  }

  /** The latencies recorded are those of the first million valid samples, in whole microseconds toward zero. */
  ghost predicate AreLatencies(latencyUs: seq<int>, xs: seq<D.Arrival>) {
    && |latencyUs| == Min(|xs|, 1_000_000)
    && forall i :: 0 <= i < |latencyUs| ==> Truncates(xs[i].nowNs - xs[i].sample.sourceTimestampNs, 1000, latencyUs[i])
  }

  lemma {:induction false} LatenciesExactly(c: PipelineConfig, hint: string, log: string, calls: seq<Call>)
    ensures AreLatencies(After(c, hint, log, calls).latencyUs, Arrivals(calls))
    decreases |calls|
  {
    if calls == [] {
    } else {
      hide After;
      hide AreLatencies;
      hide Arrivals;
      var before, call := calls[..|calls| - 1], calls[|calls| - 1];
      LatenciesExactly(c, hint, log, before);
      AfterSnoc(c, hint, log, before, call);
      ArrivalsStep(before, call);
      LatencyStep(c, After(c, hint, log, before), call, Arrivals(before));
      assert before + [call] == calls;
    }
  }

  lemma LatencyStep(c: PipelineConfig, s: PipelineState, call: Call, xs: seq<D.Arrival>)
    requires AreLatencies(s.latencyUs, xs)
    ensures AreLatencies(React(c, s, call).latencyUs,
                         xs + if TakesSample(call) then [D.Arrival(Sample(call.taken), call.taken.observedNs)] else [])
  {
    hide Observe;
    hide Bump;
    hide Name;
    hide CountEvents;
    hide LogEvents;
    hide Verdicts;
    hide Truncates;
    hide TruncDiv;
    if TakesSample(call) {
      var elapsed := ElapsedNs(call.taken);
      TruncDivExactly(elapsed, 1000, TruncDiv(elapsed, 1000));
    } else {
      assert xs + [] == xs;
      OtherCallsRecordNothing(c, s, call);
    }
  }

  lemma OtherCallsRecordNothing(c: PipelineConfig, s: PipelineState, call: Call)
    requires !TakesSample(call)
    ensures var t := React(c, s, call);
            t.latencyUs == s.latencyUs && t.log == s.log && t.tracker == s.tracker && t.sourceHint == s.sourceHint
  {
    hide Observe;
    hide Bump;
    hide Name;
  }

  /** Without a working sink the log is never touched. */
  lemma {:induction false} LogUntouched(c: PipelineConfig, hint: string, log: string, calls: seq<Call>)
    requires !c.auditGood
    ensures After(c, hint, log, calls).log == log
    decreases |calls|
  {
    if calls == [] {
    } else {
      hide After;
      var before, call := calls[..|calls| - 1], calls[|calls| - 1];
      LogUntouched(c, hint, log, before);
      AfterSnoc(c, hint, log, before, call);
      LogUntouchedStep(c, After(c, hint, log, before), call);
      assert before + [call] == calls;
    }
  }

  lemma LogUntouchedStep(c: PipelineConfig, s: PipelineState, call: Call)
    requires !c.auditGood
    ensures React(c, s, call).log == s.log
  {
    hide Observe;
    hide Bump;
    hide Name;
    hide CountEvents;
    hide LogEvents;
    hide Verdicts;
  }

  // ---------------------------------------------------------------- what the other calls do

  /** Each status callback and each poll, after any calls: what it does to the health of the source it is
      charged to, and that it touches neither the detector nor the log nor the latencies. */
  lemma OtherCallsExactly(c: PipelineConfig, hint: string, log: string, calls: seq<Call>, call: Call)
    requires !call.Data?
    ensures var (s, t, latest) := (After(c, hint, log, calls), After(c, hint, log, calls + [call]), HintAfter(hint, calls));
            && t.tracker == s.tracker && t.log == s.log && t.latencyUs == s.latencyUs && t.sourceHint == s.sourceHint
            && t.health == match call
                           case DeadlineMissedCall(_) => Observe(c.policy, s.health, latest, DeadlineMiss)
                           case LivelinessChangedCall(n) =>
                             if n > 0 then Observe(c.policy, s.health, latest, LivelinessLoss) else s.health
                           case IncompatibleQosCall => Observe(c.policy, s.health, latest, QosConflict)
                           case SampleLostCall(_) => s.health
                           case MatchedCall(n) => Observe(c.policy, s.health, latest, MatchChange(n > 0))
                           case PollCall(id, nowNs) => Observe(c.policy, s.health, id, Tick(nowNs))
  {
    hide Observe;
    hide Bump;
    hide Name;
    hide After;
    AfterSnoc(c, hint, log, calls, call);
    HintIsKept(c, hint, log, calls);
    OtherCallsRecordNothing(c, After(c, hint, log, calls), call);
  }

  /** How much a call adds to a status counter. */
  function ChangeOf(call: Call, m: Metric): int {
    match call
    case DeadlineMissedCall(n) => if m == DeadlineTotal then n else 0
    case LivelinessChangedCall(n) => if m == LivelinessTotal && n > 0 then n else 0
    case IncompatibleQosCall => if m == IncompatibleTotal then 1 else 0
    case SampleLostCall(n) => if m == MiddlewareLostTotal then n else 0
    case _ => 0
  }

  function Changes(calls: seq<Call>, m: Metric): int {
    if calls == [] then 0 else Changes(calls[..|calls| - 1], m) + ChangeOf(calls[|calls| - 1], m)
  }

  predicate CountsStatus(m: Metric) {
    m.DeadlineTotal? || m.LivelinessTotal? || m.IncompatibleTotal? || m.MiddlewareLostTotal?
  }

  lemma ConvertedCount(v: u64, n: i32)
    ensures Add64(v, ToU64(n)) == (v + n) % 0x1_0000_0000_0000_0000
  {
  }

  lemma SampleCountsNoStatus(c: PipelineConfig, s: PipelineState, t: Taken, m: Metric)
    requires CountsStatus(m)
    ensures Value(Ingest(c, s, t).counters, Name(m)) == Value(s.counters, Name(m))
  {
    hide Name;
    hide Verdicts;
    hide Observe;
    hide LogEvents;
    hide CountEvents;
    var v, id := Value(s.counters, Name(m)), t.wire.sourceId;
    var counted := Bump(s.counters, Name(ReceivedTotal), 1);
    BumpValue(s.counters, ReceivedTotal, m, 1);
    BumpValue(counted, ReceivedByKey(id), m, 1);
    Counter64IsModulo(v);
    CountEventsValue(Bump(counted, Name(ReceivedByKey(id)), 1), EventsFor(c, s, t), m, v);
    NoHits(EventsFor(c, s, t), m);
  }

  lemma TallyStep(s: PipelineState, counted: Metric, n: i32, m: Metric)
    ensures Value(Tally(s, counted, ToU64(n)).counters, Name(m))
            == (Value(s.counters, Name(m)) + if m == counted then n else 0) % 0x1_0000_0000_0000_0000
  {
    hide Name;
    hide Bump;
    hide ToU64;
    BumpValue(s.counters, counted, m, ToU64(n));
    ConvertedCount(Value(s.counters, Name(m)), n);
  }

  lemma StatusStep(c: PipelineConfig, s: PipelineState, call: Call, m: Metric)
    requires CountsStatus(m)
    ensures Value(React(c, s, call).counters, Name(m))
            == (Value(s.counters, Name(m)) + ChangeOf(call, m)) % 0x1_0000_0000_0000_0000
  {
    hide Name;
    hide Observe;
    hide Ingest;
    hide Tally;
    hide Value;
    hide ToU64;
    match call
    case Data(t) => if t.validData { SampleCountsNoStatus(c, s, t, m); }
    case DeadlineMissedCall(n) => TallyStep(s, DeadlineTotal, n, m);
    case LivelinessChangedCall(n) => TallyStep(s, LivelinessTotal, n, m);
    case IncompatibleQosCall =>
      TallyStep(s, IncompatibleTotal, 1, m);
      assert ToU64(1) == 1 by { OneIsOne(); }
    case SampleLostCall(n) => TallyStep(s, MiddlewareLostTotal, n, m);
    case _ =>
  }

  lemma OneIsOne()
    ensures ToU64(1) == 1
  {
  }

  /** After any calls every status counter is the sum of the changes reported for it, modulo its width. */
  lemma {:induction false} StatusCountersExactly(c: PipelineConfig, hint: string, log: string, calls: seq<Call>, m: Metric)
    requires CountsStatus(m)
    ensures Value(After(c, hint, log, calls).counters, Name(m)) == Changes(calls, m) % 0x1_0000_0000_0000_0000
    decreases |calls|
  {
    hide Name;
    if calls == [] {
      NothingCounted(c, hint, log, m);
    } else {
      hide After;
      hide React;
      hide ChangeOf;
      hide Value;
      var before, call := calls[..|calls| - 1], calls[|calls| - 1];
      StatusCountersExactly(c, hint, log, before, m);
      AfterSnoc(c, hint, log, before, call);
      StatusStep(c, After(c, hint, log, before), call, m);
      ModuloOnce(Changes(before, m), ChangeOf(call, m));
      assert before + [call] == calls;
    }
  }

  lemma NothingCounted(c: PipelineConfig, hint: string, log: string, m: Metric)
    ensures Value(After(c, hint, log, []).counters, Name(m)) == 0
  {
    hide Name;
  }

  lemma ModuloOnce(a: int, b: int)
    ensures (a % 0x1_0000_0000_0000_0000 + b) % 0x1_0000_0000_0000_0000 == (a + b) % 0x1_0000_0000_0000_0000
  {
    var k := a / 0x1_0000_0000_0000_0000;
    ShiftModulo(a % 0x1_0000_0000_0000_0000 + b, k);
  }
}
