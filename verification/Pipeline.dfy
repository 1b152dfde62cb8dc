// src/dds_transport.cpp: the subscriber's listener, which feeds one sample to the health monitor, the
// anomaly detector, the counters and the audit log, and turns status callbacks into health events.
module Pipeline {
  import opened Arithmetic
  import opened Telemetry
  import opened Health
  import opened Detector
  import opened Metrics
  import opened Audit
  import L = Latency

  const LATENCY_CAP: nat := 1_000_000
  const NS_PER_US: int := 1000

  /** A sample as the reader hands it over, with the reading of the clock when it is taken. */
  datatype Taken = Taken(wire: TelemetrySample, validData: bool, observedNs: int)

  datatype PipelineConfig = PipelineConfig(policy: HealthPolicy, detector: DetectorConfig, auditGood: bool)

  datatype PipelineState = PipelineState(
    health: Sources,
    tracker: Tracker,
    counters: Counters,
    log: string,
    sourceHint: string,
    latencyUs: seq<int>)

  /** Every call the middleware, or the poller, can make. */
  datatype Call =
    | Data(taken: Taken)
    | DeadlineMissedCall(totalCountChange: i32)
    | LivelinessChangedCall(notAliveCountChange: i32)
    | IncompatibleQosCall
    | SampleLostCall(totalCountChange: i32)
    | MatchedCall(currentCount: i32)
    | PollCall(id: string, nowNs: int)

  // ---------------------------------------------------------------- specification

  function Sample(t: Taken): TelemetrySample {
    t.wire.(ingestTimestampNs := t.observedNs)
  }

  function AgeOf(t: Taken): int {
    TruncDiv(t.observedNs - t.wire.sourceTimestampNs, NS_PER_MS)
  }

  function CountEvents(counters: Counters, events: seq<AnomalyEvent>): Counters {
    if events == [] then counters
    else
      var e := events[|events| - 1];
      Bump(Bump(CountEvents(counters, events[..|events| - 1]), Name(AnomalyTotal(e.kind)), 1),
           Name(AnomalyByKey(e.kind, e.sourceId)), 1)
  }

  function LogEvents(log: string, events: seq<AnomalyEvent>, observedNs: int): string {
    if events == [] then log
    else LogEvents(log, events[..|events| - 1], observedNs) + Line(Record(events[|events| - 1], observedNs)) + ['\n']
  }

  function EventsFor(c: PipelineConfig, s: PipelineState, t: Taken): seq<AnomalyEvent> {
    Verdicts(c.detector, ProgressOf(s.tracker, t.wire.sourceId), Sample(t), t.observedNs)
  }

  /** The first half of taking a sample: it is counted, timed and shown to the health monitor. */
  function Arrive(c: PipelineConfig, s: PipelineState, t: Taken): PipelineState {
    var id := t.wire.sourceId;
    s.(health := Observe(c.policy, s.health, id, SampleArrived(t.observedNs, AgeOf(t))),
       counters := Bump(Bump(s.counters, Name(ReceivedTotal), 1), Name(ReceivedByKey(id)), 1),
       sourceHint := id,
       latencyUs := if |s.latencyUs| >= LATENCY_CAP then s.latencyUs
                    else s.latencyUs + [TruncDiv(t.observedNs - t.wire.sourceTimestampNs, NS_PER_US)])
  }

  /** The second half: the detector judges it, and every event is counted and written to the log. */
  function Judge(c: PipelineConfig, s: PipelineState, t: Taken): PipelineState {
    var events := EventsFor(c, s, t);
    s.(tracker := Track(s.tracker, Sample(t)),
       counters := CountEvents(s.counters, events),
       log := if c.auditGood then LogEvents(s.log, events, t.observedNs) else s.log)
  }

  function Ingest(c: PipelineConfig, s: PipelineState, t: Taken): PipelineState {
    Judge(c, Arrive(c, s, t), t)
  }

  /** Status callbacks name no source: they are charged to the source of the latest sample. */
  function Charge(c: PipelineConfig, s: PipelineState, e: Event): PipelineState {
    s.(health := Observe(c.policy, s.health, s.sourceHint, e))
  }

  function Tally(s: PipelineState, m: Metric, value: u64): PipelineState {
    s.(counters := Bump(s.counters, Name(m), value))
  }

  function React(c: PipelineConfig, s: PipelineState, call: Call): PipelineState {
    match call
    case Data(t) => if t.validData then Ingest(c, s, t) else s
    case DeadlineMissedCall(n) => Charge(c, Tally(s, DeadlineTotal, ToU64(n)), DeadlineMiss)
    case LivelinessChangedCall(n) =>
      if n > 0 then Charge(c, Tally(s, LivelinessTotal, ToU64(n)), LivelinessLoss) else s
    case IncompatibleQosCall => Charge(c, Tally(s, IncompatibleTotal, 1), QosConflict)
    case SampleLostCall(n) => Tally(s, MiddlewareLostTotal, ToU64(n))
    case MatchedCall(n) => Charge(c, s, MatchChange(n > 0))
    case PollCall(id, nowNs) => s.(health := Observe(c.policy, s.health, id, Tick(nowNs)))
  }

  function ReactAll(c: PipelineConfig, s: PipelineState, calls: seq<Call>): PipelineState {
    if calls == [] then s else React(c, ReactAll(c, s, calls[..|calls| - 1]), calls[|calls| - 1])
  }

  function DataCalls(batch: seq<Taken>): seq<Call> {
    seq(|batch|, i requires 0 <= i < |batch| => Data(batch[i]))
  }

  lemma PublishNothing(counters: Counters, log: string, events: seq<AnomalyEvent>, observedNs: int)
    ensures CountEvents(counters, events[..0]) == counters && LogEvents(log, events[..0], observedNs) == log
  {
  }

  lemma PublishNext(counters: Counters, log: string, events: seq<AnomalyEvent>, i: nat, observedNs: int)
    requires i < |events|
    ensures CountEvents(counters, events[..i + 1])
            == Bump(Bump(CountEvents(counters, events[..i]), ANOMALY + KindName(events[i].kind) + TOTAL, 1),
                    ANOMALY_BY_KEY + KindName(events[i].kind) + ['"'] + (KEY + events[i].sourceId + CLOSE), 1)
    ensures LogEvents(log, events[..i + 1], observedNs)
            == LogEvents(log, events[..i], observedNs) + Line(Record(events[i], observedNs)) + ['\n']
  {
    hide KindName;
    hide Line;
    hide Bump;
    assert events[..i + 1][..i] == events[..i];
  }

  // ---------------------------------------------------------------- the listener

  class TelemetrySubscriber {
    const detector: AnomalyDetector
    const health: HealthMonitor
    const metrics: MetricsRegistry
    const audit: AuditSink?
    var sourceHint: string
    var latencyUs: seq<int>

    constructor (detector: AnomalyDetector, health: HealthMonitor, metrics: MetricsRegistry, audit: AuditSink?)
      ensures this.detector == detector && this.health == health && this.metrics == metrics && this.audit == audit
      ensures sourceHint == "unknown" && latencyUs == []
    {
      this.detector := detector;
      this.health := health;
      this.metrics := metrics;
      this.audit := audit;
      sourceHint := "unknown";
      latencyUs := [];
    }

    ghost function Objects(): set<object> {
      {this, detector, health, metrics} + (if audit == null then {} else {audit})
    }

    ghost function Config(): PipelineConfig
      reads audit
    {
      PipelineConfig(health.policy, detector.config, audit != null && audit.good)
    }

    /** Everything the pipeline remembers. */
    ghost function View(): PipelineState
      reads Objects()
    {
      PipelineState(health.states, detector.state, metrics.counters, if audit == null then [] else audit.stream,
                    sourceHint, latencyUs)
    }

    method SetSource(id: string)
      modifies this
      ensures View() == old(View()).(sourceHint := id) && Config() == old(Config())
    {
      sourceHint := id;
    }

    method Publish(events: seq<AnomalyEvent>, observedNs: int)
      modifies metrics, audit
      ensures Config() == old(Config())
      ensures View() == old(View()).(
                          counters := CountEvents(old(metrics.counters), events),
                          log := if Config().auditGood then LogEvents(old(View().log), events, observedNs)
                                 else old(View().log))
    {
      hide Line;
      hide Bump;
      hide KindName;
      hide CountEvents;
      hide LogEvents;
      PublishNothing(metrics.counters, View().log, events, observedNs);
      for i := 0 to |events|
        invariant Config() == old(Config())
        invariant View() == old(View()).(
                              counters := CountEvents(old(metrics.counters), events[..i]),
                              log := if Config().auditGood then LogEvents(old(View().log), events[..i], observedNs)
                                     else old(View().log))
      {
        var event := events[i];
        metrics.Increment(ANOMALY + KindName(event.kind) + TOTAL, 1);
        metrics.Increment(ANOMALY_BY_KEY + KindName(event.kind) + ['"'] + (KEY + event.sourceId + CLOSE), 1);
        if audit != null {
          audit.Write(event, observedNs);
        }
        PublishNext(old(metrics.counters), old(View().log), events, i, observedNs);
      }
      assert events[..|events|] == events;
    }

    /** Takes every sample the reader holds. */
    method OnDataAvailable(batch: seq<Taken>)
      modifies Objects()
      ensures Config() == old(Config())
      ensures View() == ReactAll(Config(), old(View()), DataCalls(batch))
    {
      for i := 0 to |batch|
        invariant Config() == old(Config())
        invariant View() == ReactAll(Config(), old(View()), DataCalls(batch[..i]))
      {
        assert DataCalls(batch[..i + 1])[..i] == DataCalls(batch[..i]);
        if batch[i].validData {
          TakeSample(batch[i]);
        }
      }
      assert batch[..|batch|] == batch;
    }

    method TakeSample(taken: Taken)
      modifies Objects()
      ensures Config() == old(Config())
      ensures View() == Ingest(Config(), old(View()), taken)
    {
      var sample := taken.wire;
      sample := sample.(ingestTimestampNs := taken.observedNs);
      var observed := sample.ingestTimestampNs;
      NoteArrival(sample, observed, taken);
      JudgeSample(sample, observed, taken);
    }

    method NoteArrival(sample: TelemetrySample, observed: int, ghost taken: Taken)
      requires sample == Sample(taken) && observed == taken.observedNs
      modifies this, metrics, health
      ensures Config() == old(Config())
      ensures View() == Arrive(Config(), old(View()), taken)
    {
      hide Observe;
      hide TruncDiv;
      hide Bump;
      sourceHint := sample.sourceId;
      if |latencyUs| < LATENCY_CAP {
        latencyUs := latencyUs + [TruncDiv(observed - sample.sourceTimestampNs, NS_PER_US)];
      }
      metrics.Increment(RECEIVED_TOTAL, 1);
      metrics.Increment(RECEIVED_BY_KEY + sample.sourceId + CLOSE, 1);
      health.OnSample(sample.sourceId, observed, TruncDiv(observed - sample.sourceTimestampNs, NS_PER_MS));
    }

    method JudgeSample(sample: TelemetrySample, observed: int, ghost taken: Taken)
      requires sample == Sample(taken) && observed == taken.observedNs
      modifies detector, metrics, audit
      ensures Config() == old(Config())
      ensures View() == Judge(Config(), old(View()), taken)
    {
      var events := detector.Evaluate(sample, observed);
      Publish(events, observed);
    }

    /** The summary of the latencies recorded so far, which stay as they are. */
    method Latency(above: bool, sqrt: real -> real) returns (out: L.Summary)
      ensures latencyUs == [] ==> out == L.Summary(0, 0, 0, 0, 0, 0, 0, 0.0, 0.0)
      ensures latencyUs != [] ==> L.Summarises(latencyUs, above, sqrt, out)
    {
      out := L.Summarise(latencyUs, above, sqrt);
    }

    method OnRequestedDeadlineMissed(totalCountChange: i32)
      modifies metrics, health
      ensures Config() == old(Config())
      ensures View() == React(Config(), old(View()), DeadlineMissedCall(totalCountChange))
    {
      metrics.Increment(DEADLINE_TOTAL, ToU64(totalCountChange));
      health.OnDeadlineMissed(sourceHint);
    }

    method OnLivelinessChanged(notAliveCountChange: i32)
      modifies metrics, health
      ensures Config() == old(Config())
      ensures View() == React(Config(), old(View()), LivelinessChangedCall(notAliveCountChange))
    {
      if notAliveCountChange > 0 {
        metrics.Increment(LIVELINESS_TOTAL, ToU64(notAliveCountChange));
        health.OnLivelinessLost(sourceHint);
      }
    }

    method OnRequestedIncompatibleQos()
      modifies metrics, health
      ensures Config() == old(Config())
      ensures View() == React(Config(), old(View()), IncompatibleQosCall)
    {
      metrics.Increment(INCOMPATIBLE_TOTAL, 1);
      health.OnIncompatibleQos(sourceHint);
    }

    method OnSampleLost(totalCountChange: i32)
      modifies metrics
      ensures Config() == old(Config())
      ensures View() == React(Config(), old(View()), SampleLostCall(totalCountChange))
    {
      metrics.Increment(MIDDLEWARE_LOST_TOTAL, ToU64(totalCountChange));
    }

    method OnSubscriptionMatched(currentCount: i32)
      modifies health
      ensures Config() == old(Config())
      ensures View() == React(Config(), old(View()), MatchedCall(currentCount))
    {
      health.OnWriterMatched(sourceHint, currentCount > 0);
    }
  }
}
