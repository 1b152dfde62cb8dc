// From the publish loop to the audit log: what a reader of the log may conclude about what was lost.
module EndToEnd {
  import opened Arithmetic
  import opened Health
  import opened Metrics
  import opened Pipeline
  import opened Publisher
  import opened Telemetry
  import D = DetectorRuns
  import H = HealthRuns
  import L = Loss
  import P = AuditParser
  import R = PipelineRuns

  /** Of one source the subscriber took exactly what the channel delivered; samples of other sources, from
      this publisher or any other, status callbacks, polls and invalid samples may lie between. */
  ghost predicate Carries(calls: seq<Call>, sent: seq<TelemetrySample>, kept: seq<bool>, at: nat -> int, id: string) {
    && |kept| == |sent|
    && D.OnlyArrivals(R.Arrivals(calls), id) == D.OnlyArrivals(L.Deliver(sent, kept, at), id)
  }

  /** The missing samples the log reports for a key. */
  function ReportedMissing(log: P.Log, id: string): nat
    requires log.Records?
  {
    D.MissingTotal(D.OnlyEvents(R.EventsOf(log.records), id))
  }

  lemma LogIsEmitted(c: PipelineConfig, hint: string, calls: seq<Call>)
    requires c.auditGood
    ensures var log := P.ReadLog(R.After(c, hint, [], calls).log);
            log.Records? && R.EventsOf(log.records) == D.Emitted(c.detector, map[], R.Arrivals(calls))
  {
    R.LogAgreesWithCounters(c, hint, calls, Duplicate);
  }

  /** The log holds of a source what the detector emits at the end of the channel. */
  lemma LogOfSource(calls: seq<Call>, sent: seq<TelemetrySample>, kept: seq<bool>, at: nat -> int, id: string,
                    c: PipelineConfig, hint: string)
    requires Carries(calls, sent, kept, at, id) && c.auditGood
    ensures var log := P.ReadLog(R.After(c, hint, [], calls).log);
            log.Records? && D.OnlyEvents(R.EventsOf(log.records), id) == L.KeyEvents(sent, kept, at, c.detector, id)
  {
    LogIsEmitted(c, hint, calls);
    D.StreamsDoNotInterfere(c.detector, map[], R.Arrivals(calls), id);
    D.StreamsDoNotInterfere(c.detector, map[], L.Deliver(sent, kept, at), id);
  }

  lemma ReceivedIsCounted(c: PipelineConfig, hint: string, log: string, calls: seq<Call>, id: string)
    ensures Value(R.After(c, hint, log, calls).counters, Name(ReceivedByKey(id)))
            == Counter64(|D.OnlyArrivals(R.Arrivals(calls), id)|)
  {
    hide Name;
    R.CountersCount(c, hint, log, calls, ReceivedByKey(id));
  }

  /** The whole chain, with any faults injected and any samples lost on the way: a working audit log can
      always be read back, the key's counter is the number of samples that arrived, and the missing samples
      the log reports for the key are exactly those published between the first and the highest that arrived
      and lost, those never published there, and those that arrived late. Short of wrap-around nothing
      arrives late and only the dropped number can be unpublished. */
  lemma AuditLogAccountsForLoss(o: Options, clock: Clock, sent: seq<TelemetrySample>, kept: seq<bool>,
                                at: nat -> int, k: nat, c: PipelineConfig, hint: string, calls: seq<Call>)
    requires k < Keys(o) && L.Sends(o, clock, sent, kept)
    requires Carries(calls, sent, kept, at, KeyName(o, k)) && c.auditGood
    ensures var (s, id) := (R.After(c, hint, [], calls), KeyName(o, k));
            var (published, d) := (L.Sequences(sent, id), L.Delivered(sent, kept, at, id));
            && P.ReadLog(s.log).Records?
            && Value(s.counters, Name(ReceivedByKey(id))) == Counter64(|d|)
            && (d != [] ==>
                  ReportedMissing(P.ReadLog(s.log), id)
                  == |L.Lost(published, d)| + |L.NeverPublished(published, d)| + |D.FilledLate(d, D.Below(d))|)
            && (d != [] && L.Unwrapped(o, k) ==>
                  && D.FilledLate(d, D.Below(d)) == {}
                  && L.NeverPublished(published, d) == L.DroppedWithin(o, k, d[0], d[|d| - 1]))
  {
    hide Name;
    hide KeyName;
    hide R.After;
    hide P.ReadLog;
    hide R.EventsOf;
    hide Published;
    hide D.Emitted;
    hide D.OnlyEvents;
    hide D.OnlyArrivals;
    hide R.Arrivals;
    hide L.KeyEvents;
    hide D.MissingTotal;
    hide D.FilledLate;
    hide D.Below;
    hide L.Deliver;
    hide L.Lost;
    hide L.NeverPublished;
    hide L.Sequences;
    hide L.DroppedWithin;
    hide L.Unwrapped;
    hide Counter64;
    LogOfSource(calls, sent, kept, at, KeyName(o, k), c, hint);
    ReceivedIsCounted(c, hint, [], calls, KeyName(o, k));
    if L.Delivered(sent, kept, at, KeyName(o, k)) != [] {
      L.LossIsAccounted(o, clock, sent, kept, at, c.detector, k);
    }
  }

  /** Nothing goes wrong between the loop and the subscriber, as far as one key is concerned. */
  ghost predicate GoesWell(o: Options, clock: Clock, sent: seq<TelemetrySample>, kept: seq<bool>, at: nat -> int,
                           k: nat, calls: seq<Call>) {
    && k < Keys(o) && L.Faultless(o, o.count, k)
    && L.Sends(o, clock, sent, kept) && L.Lossless(kept)
    && Carries(calls, sent, kept, at, KeyName(o, k))
  }

  /** Every sample of a source arrives with an age the detector accepts. */
  ghost predicate ArrivesInTime(c: PipelineConfig, calls: seq<Call>, id: string) {
    forall x :: x in D.OnlyArrivals(R.Arrivals(calls), id) ==> L.Timely(c.detector, x)
  }

  /** Fresh samples of a source keep coming, less than the freshness budget apart, and nothing adverse is
      charged to it. */
  ghost predicate KeepsComing(c: PipelineConfig, hint: string, calls: seq<Call>, id: string, fromNs: int, gapNs: nat) {
    && gapNs < c.policy.degradedAfterMs * NS_PER_MS && c.policy.degradedAfterMs <= c.policy.lostAfterMs
    && H.Steady(c.policy, R.ChargedTo(hint, calls, id), fromNs, gapNs)
  }

  /** Without faults and without loss the log holds no sequence anomaly for the key, exactly as long as
      the key's counter has not wrapped around. */
  lemma CleanRunLeavesCleanLog(o: Options, clock: Clock, sent: seq<TelemetrySample>, kept: seq<bool>,
                               at: nat -> int, k: nat, c: PipelineConfig, hint: string, calls: seq<Call>)
    requires GoesWell(o, clock, sent, kept, at, k, calls) && c.auditGood
    ensures var log := P.ReadLog(R.After(c, hint, [], calls).log);
            && log.Records?
            && (L.SequenceClean(D.OnlyEvents(R.EventsOf(log.records), KeyName(o, k))) <==> L.Unwrapped(o, k))
  {
    LogOfSource(calls, sent, kept, at, KeyName(o, k), c, hint);
    L.LosslessIsCleanExactly(o, clock, sent, kept, at, c.detector, k);
  }

  /** No false alarm: without faults and without loss, samples that arrive in time and keep coming, with
      nothing adverse among the callbacks, leave no record of the key in the log, and every poll of the key
      after its first sample reports it healthy. */
  lemma NoFalseAlarm(o: Options, clock: Clock, sent: seq<TelemetrySample>, kept: seq<bool>, at: nat -> int, k: nat,
                     c: PipelineConfig, hint: string, calls: seq<Call>, fromNs: int, gapNs: nat)
    requires GoesWell(o, clock, sent, kept, at, k, calls) && L.Unwrapped(o, k) && !L.Drifted(o, o.count, k)
    requires c.auditGood && c.detector.expectedSchemaVersion == CURRENT_SCHEMA_VERSION
    requires ArrivesInTime(c, calls, KeyName(o, k)) && KeepsComing(c, hint, calls, KeyName(o, k), fromNs, gapNs)
    ensures var (log, id) := (P.ReadLog(R.After(c, hint, [], calls).log), KeyName(o, k));
            && log.Records? && D.OnlyEvents(R.EventsOf(log.records), id) == []
    ensures var id := KeyName(o, k);
            forall i :: 0 <= i < |calls| && calls[i].PollCall? && calls[i].id == id
                        && R.LatestData(calls[..i], id) >= 0 ==>
              Verdict(c.policy, StateOf(R.After(c, hint, [], calls[..i]).health, id), calls[i].nowNs)
              == (Healthy, NoReason)
  {
    hide KeyName;
    hide R.After;
    hide P.ReadLog;
    hide Verdict;
    hide Published;
    hide L.Faultless;
    hide L.Unwrapped;
    hide L.Timely;
    hide H.Steady;
    var id := KeyName(o, k);
    LogOfSource(calls, sent, kept, at, id, c, hint);
    L.FaultlessIsQuietExactly(o, clock, sent, kept, at, c.detector, k);
    forall i | 0 <= i < |calls| && calls[i].PollCall? && calls[i].id == id && R.LatestData(calls[..i], id) >= 0
      ensures Verdict(c.policy, StateOf(R.After(c, hint, [], calls[..i]).health, id), calls[i].nowNs)
              == (Healthy, NoReason)
    {
      R.SteadySourceIsHealthy(c, hint, [], calls, id, i, fromNs, gapNs);
    }
  }
}
