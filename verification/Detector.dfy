// src/anomaly_detector.cpp: the per-source sequence, freshness and schema classifier.
module Detector {
  import opened Arithmetic
  import opened Telemetry
  import opened Decimal

  datatype DetectorConfig = DetectorConfig(maxAgeMs: int, maxFutureSkewMs: int, expectedSchemaVersion: u32)

  datatype Progress = Progress(initialized: bool, lastSequence: u64)

  const NO_PROGRESS := Progress(false, 0)

  type Tracker = map<string, Progress>

  function ProgressOf(m: Tracker, id: string): Progress {
    if id in m then m[id] else NO_PROGRESS
  }

  // ---------------------------------------------------------------- specification

  const STALE_TEXT := "sample exceeded freshness budget"
  const FUTURE_TEXT := "source clock is ahead of accepted skew"
  const DUPLICATE_TEXT := "same sequence observed twice"
  const REGRESSED_TEXT := "sequence regressed"
  const GAP_TEXT := "one or more samples were not observed"

  function AgeMs(sample: TelemetrySample, nowNs: int): int {
    TruncDiv(nowNs - sample.sourceTimestampNs, NS_PER_MS)
  }

  function SchemaText(expected: u32, received: u32): string {
    "expected schema " + NatText(expected) + " but received " + NatText(received)
  }

  function SchemaEvents(c: DetectorConfig, sample: TelemetrySample): seq<AnomalyEvent> {
    if sample.schemaVersion == c.expectedSchemaVersion then []
    else [AnomalyEvent(SchemaMismatch, sample.sourceId, sample.sequence, 0, 0,
                       SchemaText(c.expectedSchemaVersion, sample.schemaVersion))]
  }

  function AgeEvents(c: DetectorConfig, sample: TelemetrySample, nowNs: int): seq<AnomalyEvent> {
    var age := AgeMs(sample, nowNs);
    if age > c.maxAgeMs then
      [AnomalyEvent(Stale, sample.sourceId, sample.sequence, 0, age, STALE_TEXT)]
    else if age < -c.maxFutureSkewMs then
      [AnomalyEvent(FutureTimestamp, sample.sourceId, sample.sequence, 0, age, FUTURE_TEXT)]
    else []
  }

  function SequenceEvents(s: Progress, sample: TelemetrySample, age: int): seq<AnomalyEvent> {
    if !s.initialized || sample.sequence == s.lastSequence + 1 then []
    else if sample.sequence == s.lastSequence then
      [AnomalyEvent(Duplicate, sample.sourceId, sample.sequence, 0, age, DUPLICATE_TEXT)]
    else if sample.sequence < s.lastSequence then
      [AnomalyEvent(OutOfOrder, sample.sourceId, sample.sequence, 0, age, REGRESSED_TEXT)]
    else
      [AnomalyEvent(SequenceGap, sample.sourceId, sample.sequence, sample.sequence - s.lastSequence - 1, age, GAP_TEXT)]
  }

  function Verdicts(c: DetectorConfig, s: Progress, sample: TelemetrySample, nowNs: int): seq<AnomalyEvent> {
    SchemaEvents(c, sample) + AgeEvents(c, sample, nowNs) + SequenceEvents(s, sample, AgeMs(sample, nowNs))
  }

  /** The position after a sample: the highest sequence number so far. */
  function Advance(s: Progress, sequence: u64): Progress {
    Progress(true, if s.initialized && sequence <= s.lastSequence then s.lastSequence else sequence)
  }

  function Track(m: Tracker, sample: TelemetrySample): Tracker {
    m[sample.sourceId := Advance(ProgressOf(m, sample.sourceId), sample.sequence)]
  }

  // ---------------------------------------------------------------- the detector

  class AnomalyDetector {
    const config: DetectorConfig
    var state: Tracker

    constructor (config: DetectorConfig)
      ensures this.config == config && state == map[]
    {
      this.config := config;
      state := map[];
    }

    method Evaluate(sample: TelemetrySample, nowNs: int) returns (events: seq<AnomalyEvent>)
      modifies this
      ensures events == Verdicts(config, ProgressOf(old(state), sample.sourceId), sample, nowNs)
      ensures state == Track(old(state), sample)
    {
      events := [];
      if sample.schemaVersion != config.expectedSchemaVersion {
        var detail := SchemaText(config.expectedSchemaVersion, sample.schemaVersion);
        events := events + [AnomalyEvent(SchemaMismatch, sample.sourceId, sample.sequence, 0, 0, detail)];
      }
      var ageNs := nowNs - sample.sourceTimestampNs;
      var ageMs := TruncDiv(ageNs, NS_PER_MS);
      if ageMs > config.maxAgeMs {
        events := events + [AnomalyEvent(Stale, sample.sourceId, sample.sequence, 0, ageMs, STALE_TEXT)];
      } else if ageMs < -config.maxFutureSkewMs {
        events := events + [AnomalyEvent(FutureTimestamp, sample.sourceId, sample.sequence, 0, ageMs, FUTURE_TEXT)];
      }
      var s := ProgressOf(state, sample.sourceId);
      state := state[sample.sourceId := s];
      if !s.initialized {
        s := s.(initialized := true);
        s := s.(lastSequence := sample.sequence);
        state := state[sample.sourceId := s];
        return;
      }
      if sample.sequence == s.lastSequence {
        events := events + [AnomalyEvent(Duplicate, sample.sourceId, sample.sequence, 0, ageMs, DUPLICATE_TEXT)];
        return;
      }
      if sample.sequence < s.lastSequence {
        events := events + [AnomalyEvent(OutOfOrder, sample.sourceId, sample.sequence, 0, ageMs, REGRESSED_TEXT)];
        return;
      }
      // The successor of the largest sequence number wraps to zero, but nothing lies above that number.
      if sample.sequence > Next64(s.lastSequence) {
        var missing := sample.sequence - s.lastSequence - 1;
        events := events + [AnomalyEvent(SequenceGap, sample.sourceId, sample.sequence, missing, ageMs, GAP_TEXT)];
      }
      s := s.(lastSequence := sample.sequence);
      state := state[sample.sourceId := s];
    }

    method ResetSource(id: string)
      modifies this
      ensures state == old(state) - {id}
      ensures ProgressOf(state, id) == NO_PROGRESS
      ensures forall other :: other != id ==> ProgressOf(state, other) == ProgressOf(old(state), other)
    {
      state := state - {id};
    }
  }
}
