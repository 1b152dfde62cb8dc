// include/resilientdds/telemetry.hpp: samples, anomaly kinds and anomaly events.
module Telemetry {
  import opened Arithmetic

  const CURRENT_SCHEMA_VERSION: u32 := 1

  datatype TelemetrySample = TelemetrySample(
    sourceId: string,
    sequence: u64,
    sourceTimestampNs: int,
    ingestTimestampNs: int,
    temperatureC: real,
    voltageV: real,
    healthFlags: u32,
    schemaVersion: u32)

  datatype AnomalyKind = Duplicate | SequenceGap | OutOfOrder | Stale | FutureTimestamp | SchemaMismatch

  datatype AnomalyEvent = AnomalyEvent(
    kind: AnomalyKind,
    sourceId: string,
    sequence: u64,
    missingSamples: u64,
    ageMs: int,
    detail: string)

  function KindName(kind: AnomalyKind): string {
    match kind
    case Duplicate => "duplicate"
    case SequenceGap => "sequence_gap"
    case OutOfOrder => "out_of_order"
    case Stale => "stale"
    case FutureTimestamp => "future_timestamp"
    case SchemaMismatch => "schema_mismatch"
  }

  lemma KindNamesExactly(kind: AnomalyKind)
    ensures KindName(kind) == match kind
                              case Duplicate => "duplicate"
                              case SequenceGap => "sequence_gap"
                              case OutOfOrder => "out_of_order"
                              case Stale => "stale"
                              case FutureTimestamp => "future_timestamp"
                              case SchemaMismatch => "schema_mismatch"
  {
  }

  lemma KindNamesInjective(j: AnomalyKind, k: AnomalyKind)
    requires KindName(j) == KindName(k)
    ensures j == k
  {
    assert |KindName(Duplicate)| == 9 && |KindName(SequenceGap)| == 12 && |KindName(OutOfOrder)| == 12;
    assert |KindName(Stale)| == 5 && |KindName(FutureTimestamp)| == 16 && |KindName(SchemaMismatch)| == 15;
    assert KindName(SequenceGap)[0] == 's' && KindName(OutOfOrder)[0] == 'o';
  }
}
