# ResilientDDS: a verified model of the trust pipeline

ResilientDDS decides whether telemetry delivered over DDS is safe to use. A publisher loop numbers its
samples per key; a subscriber feeds every sample it takes to a health state machine (healthy, degraded,
lost, each with a reason), to an anomaly detector (duplicates, gaps, reordering, staleness, clock skew,
schema drift), to named counters and to an append-only JSON audit log; a poller logs health changes, and
a script measures detection and recovery times from that log. This project models those parts in Dafny
and proves what they promise over whole runs.

Code that updates state in place is modelled by classes and loops (`HealthMonitor`, `AnomalyDetector`,
`AuditSink`, `MetricsRegistry`, `TelemetrySubscriber`, `EndpointQos`, the publish loop, the poller, the
latency summary). Each method is proved to take the whole state to the one a specification function
names, and everything else is proved about those functions for every run. The compare-and-swap maximum
in `publish` is a state machine over its atomic operations, in any interleaving.

`dafny verify dfyconfig.toml` checks the project.

| file | about |
|---|---|
| `Health.dfy`, `HealthRuns.dfy`, `HealthReports.dfy` | the health state machine; its laws over runs and pairs of runs; what each event and each snapshot gives, exactly |
| `Detector.dfy`, `DetectorRuns.dfy` | the anomaly detector; its conservation laws over arbitrary streams |
| `Pipeline.dfy`, `PipelineRuns.dfy`, `PipelineReports.dfy` | the subscriber's listener; freshness, counters and log over runs; what each call does, exactly |
| `Publisher.dfy`, `Faults.dfy`, `Loss.dfy`, `EndToEnd.dfy` | the publish loop; how its injected faults show; loss accounted for from the loop to the log |
| `Audit.dfy`, `AuditParser.dfy` | the audit log printer; a parser that inverts it |
| `Timeline.dfy`, `Recovery.dfy` | the change-compressed health timeline and the search over it; what the recovery analysis measures |
| `CasMaximum.dfy` | the concurrent total and maximum of write times |
| `Latency.dfy`, `Qos.dfy`, `Metrics.dfy` | order statistics, QoS profiles, counters |
| `Telemetry.dfy`, `Decimal.dfy`, `Arithmetic.dfy`, `Ordering.dfy` | samples and events, decimal notation, C++ integers, ordered lists |

## Main results

- `EndToEnd.AuditLogAccountsForLoss`: from the publish loop, over any lossy in-order channel, to the log read back.
- `DetectorRuns.NeverObservedExactly`, `DistanceIsAccounted`: conservation over arbitrary streams.
- `HealthRuns.RecoveryNeedsEvidence`, `FreshCounterMeaning`, `ReasonIsJustified`: hysteresis and true reasons over whole runs.
- `HealthRuns.PollingNeverHelps`, `ExtraPollHelpsExactly`, `PollingCollapses`, `UnsafeWindow`: pairs of runs, and what a poller may rely on.
- `PipelineRuns.HealthyMeansRecent`, `TotalsAgreeWithKeys`, `LogAgreesWithCounters`: what a verdict, a counter and a log line are worth.
- `HealthReports.VerdictExactly`, `SnapshotExactly`, `DetectorRuns.EventsExactly`, `PipelineReports.SampleReachesMonitor`: what is
  answered after any run, to the last field.
- `AuditParser.LogReads`: the log round trip. `Timeline.SearchAgreesExactly`: when the compressed search is right.
- `Recovery.MeasuredUnsafeWindow`, `MeasuredRecovery`: what the recovery analysis measures.
- `EndToEnd.NoFalseAlarm`, `Loss.FaultlessIsQuietExactly`: freedom from false alarms.
- `PipelineRuns.CallbackIsRightExactly`: when a status callback reaches the source it is meant for.
- `CasMaximum.QuiescentIsExact`, `StatsAgreeExactly`, `FailuresAreBounded`: the concurrent maximum under every interleaving.
- `Latency.Summarise`, `Qos.LimitsConsistentExactly`: order statistics, and the exact condition for consistent limits.

## What was found

Where the code and its documentation, comments or callers' expectations differ, the model follows the code:

- `docs/ARCHITECTURE.md:38` draws one fresh sample leading back to healthy. The code asks for
  `recover_after_samples` of them without a resetting event between, except on first contact.
- A QoS conflict does not reset the evidence toward recovery and turns lost into degraded
  (`src/health_monitor.cpp:71-76`). It is the only event besides a fresh sample that lowers severity:
  `HealthRuns.SeverityDropsExactly`.
- Polling never makes a source look better than no polling at all (`HealthRuns.PollingNeverHelps`), but
  one poll more in a run already polled can: `HealthRuns.ExtraPollCanHelp` gives such a run and
  `HealthRuns.ExtraPollHelpsExactly` the exact condition over whole runs.
- A healthy verdict does not mean younger than the freshness budget: the bound is twice the budget plus
  almost one millisecond, and it is attained (`PipelineRuns.HealthyMeansRecent`, `RecentBoundIsExact`).
- The silent source is reported degraded before lost only if the polling period is at most the distance
  of the two thresholds; any longer period allows a jump (`HealthRuns.UnsafeWindowCanBeSkipped`).
- The search of the compressed timeline misses a state that already held at the last poll before the
  floor; `Timeline.SearchAgreesExactly` says exactly when it is right.
- `validate` accepts profiles with fewer `max_samples` than `max_instances`, whose limits break the rule
  the code itself cites (`src/dds_transport.cpp:75-77`): `Qos.AcceptedButRejected`, and
  `Qos.LimitsConsistentExactly` for the exact condition.
- Status callbacks carry no source and are charged to the source of the latest sample
  (`src/dds_transport.cpp:385-423`). With several sources that goes wrong: in
  `PipelineRuns.MissesHitTheWrongSource` the misses of one source degrade another.
  `PipelineRuns.CallbackIsRightExactly` says exactly when a callback reaches the source it is meant for.
- `write_stats` loads total and maximum separately, so the maximum read may exceed the total read
  (`CasMaximum.StatsCanDisagree`), though at any one moment it does not while the total has not wrapped
  (`CasMaximum.MaximumIsSound`). `CasMaximum.StatsAgreeExactly` says exactly in which states the pair is
  safe: those in which no call's time exceeds the total.
- A HEALTH_AT time is read after the poll it reports, so measured times carry the lag of printing:
  `Recovery.MeasuredUnsafeWindow`.
- A source whose very first sample is stale counts as seen, so its later entry needs the full evidence:
  `HealthRuns.FirstContactExactly`, `RecoveryExactly`.
- `scripts/analyze_recovery.py:58-63` speaks of DDS declaring the writer lost; the lost state it searches
  for may equally come from ageing (`src/health_monitor.cpp:111-116`), as in `Recovery.MeasuredUnsafeWindow`.

## Model

| member | source | states |
|---|---|---|
| Health.HealthMonitor.constructor | src/health_monitor.cpp:7 | A monitor keeps the given policy and knows no source. |
| Health.HealthMonitor.WithThresholds | src/health_monitor.cpp:9-10 | The two-threshold monitor degrades after 2 misses and recovers after 3 fresh samples. |
| Health.HealthMonitor.OnSample | src/health_monitor.cpp:12-48 | The whole table changes at this source only, to the state the specification names for a sample of this age, which HealthReports.VerdictExactly and the run laws pin down. |
| Health.HealthMonitor.OnDeadlineMissed | src/health_monitor.cpp:50-60 | The whole new table after a missed deadline, wrap-around of both counters included. |
| Health.HealthMonitor.OnLivelinessLost | src/health_monitor.cpp:62-69 | The whole new table after a liveliness loss: lost at once, evidence discarded. |
| Health.HealthMonitor.OnIncompatibleQos | src/health_monitor.cpp:71-76 | The whole new table after a QoS conflict: degraded whatever it was, evidence kept. |
| Health.HealthMonitor.OnWriterMatched | src/health_monitor.cpp:78-89 | The whole new table after a match notice; an unmatch loses the source. |
| Health.HealthMonitor.Decide | src/health_monitor.cpp:91-123 | The snapshot of the specification, whose every field HealthReports.SnapshotExactly pins down. |
| Health.HealthMonitor.TickSource | src/health_monitor.cpp:125-132 | A poll returns the same decision a snapshot of the old table would, and keeps it; sources polled before they are known included. |
| Health.HealthMonitor.Snapshot | src/health_monitor.cpp:134-138 | The same decision for known and unknown sources alike, with nothing changed. |
| Health.HealthMonitor.Handle | src/health_monitor.cpp:12-132 | Whatever the event, handling it is one step of the specification on the table of all sources. |
| HealthRuns.ReachableConsistent | src/health_monitor.cpp:12-132 | In every reachable state healthy means no reason, degraded and lost have fixed sets of reasons, an unseen source is untrusted, and the evidence never exceeds what recovery asks for. |
| HealthRuns.CountersCount | src/health_monitor.cpp:50-76 | The three event counters equal the numbers of such events in the run, modulo 2^64. |
| HealthRuns.LatestIsRemembered | src/health_monitor.cpp:14-22 | A source is seen exactly when it sent a sample, its time is that of the latest sample of any age, and its match flag is that of the latest notice. |
| HealthRuns.MissRunIsCounted | src/health_monitor.cpp:16-53 | The miss counter is the number of deadline misses since the latest sample, modulo 2^32. |
| HealthRuns.MissDegradesExactly | src/health_monitor.cpp:50-60 | After any run that ends healthy, a missed deadline degrades exactly when the misses since the latest sample reach the threshold. |
| HealthRuns.HealthyMeansFresh | src/health_monitor.cpp:18-47 | A source is healthy only while its latest sample was fresh on arrival. |
| HealthRuns.SeverityDropsExactly | src/health_monitor.cpp:12-132 | After any run, the events that lower severity are exactly a fresh sample with enough evidence (or first contact) and a QoS conflict on a lost source. |
| HealthRuns.SeverityRisesExactly | src/health_monitor.cpp:12-132 | After any run, for each kind of event, exactly when it raises severity. |
| HealthRuns.ReasonIsJustified | src/health_monitor.cpp:12-132 | Over every run, the reason reported was put there by an event that justifies it and has stood since, or is the initial lack of data. |
| HealthRuns.OnlyFreshSamplesRestore | src/health_monitor.cpp:18-47 | No run without a fresh sample makes an untrusted source healthy, nor any poll after it. |
| HealthRuns.BurstKeepsCause | src/health_monitor.cpp:18-26 | Stale samples, polls, deadline misses and match notices in any number leave a source lost for liveliness or unmatch exactly as it was, at every later time. |
| HealthRuns.StaleBurstKeepsCause | src/health_monitor.cpp:50-116 | After any run, a liveliness loss or unmatch of a source with data, followed by any stale burst, is reported lost with that cause. |
| HealthRuns.WindowStart | src/health_monitor.cpp:21-128 | The evidence window begins just after the last resetting event and holds no resetting event. |
| HealthRuns.FreshCounterMeaning | src/health_monitor.cpp:18-28 | The evidence counter is the number of fresh samples since the last resetting event, capped at what recovery needs. |
| HealthRuns.RecoveryExactly | src/health_monitor.cpp:38-47 | A source seen before is healthy after a fresh sample exactly when it already was or the window holds enough fresh samples. |
| HealthRuns.FirstContactExactly | src/health_monitor.cpp:30-37 | The first sample ever is trusted at once exactly when it is fresh, whatever callbacks came before. |
| HealthRuns.RecoveryIsEvidenced | src/health_monitor.cpp:42-47 | The event that restores health after a resetting one closes a window of enough fresh samples with no resetting event in it, later than that event. |
| HealthRuns.RecoveryNeedsEvidence | src/health_monitor.cpp:18-128 | Hysteresis over whole runs: a source left untrusted by a resetting event is healthy later only if such a window lies between. |
| HealthRuns.SteadyProgress | src/health_monitor.cpp:12-132 | Whatever state a source was in, n fresh samples less than the freshness budget apart, with polls and matches between them, leave it healthy or with n samples of evidence, and healthy once n is enough. |
| HealthRuns.RecoversInTime | src/health_monitor.cpp:12-132 | Such a source is reported healthy at every poll later than recover_after_samples gaps (one gap if that is 0). |
| HealthRuns.SteadyIsHealthy | src/health_monitor.cpp:12-132 | Such a source, if never heard before, is healthy from its first sample on, and so is every report in time. |
| HealthRuns.PollingNeverHelps | src/health_monitor.cpp:91-132 | Two-run simulation: deleting every poll from any run leaves severity, evidence and every later snapshot no worse. |
| HealthRuns.SharedTickKeepsOrderExactly | src/health_monitor.cpp:125-132 | A poll shared by two ordered runs keeps the order exactly unless it resets only the better run's evidence. |
| HealthRuns.ExtraPollCanHelp | src/health_monitor.cpp:128 | A concrete run in which one more poll turns degraded into healthy. |
| HealthRuns.ExtraPollHelpsExactly | src/health_monitor.cpp:125-132 | For any run, any extra poll and any continuation: the run without the extra poll has verdict and evidence at least as good at every later point if and only if no later poll resets the evidence of that run alone. |
| HealthRuns.PollingCollapses | src/health_monitor.cpp:125-132 | After any run, any number of polls at nondecreasing times has the effect of the last alone on the full source state. |
| HealthRuns.ReportIsVerdict | src/health_monitor.cpp:91-132 | Each report of a poller is what a fresh look at the unpolled source would say. |
| HealthRuns.UnsafeWindow | src/health_monitor.cpp:107-121 | A healthy source that falls silent under frequent enough polls, the first of them less than a period late, is reported healthy, then degraded, then lost for lack of data, and the two first reports are apart by the threshold distance to within one period. |
| HealthRuns.UnsafeWindowCanBeSkipped | src/health_monitor.cpp:111-121 | For any longer period there are polls that go from healthy straight to lost. |
| HealthRuns.SourcesDoNotInterfere | src/health_monitor.cpp:14 | In any interleaving over any sources, each source ends where its own events alone take it, and is known exactly if it was or had an event. |
| HealthReports.VerdictExactly | src/health_monitor.cpp:12-132 | After any run, the state and the reason that each kind of event leaves, in terms of the state and reason before it and of the events so far: `recovering` for a fresh sample that does not restore trust, `stale_data` for a stale one unless lost, `qos_incompatible` for every conflict, and so on. |
| HealthReports.SnapshotExactly | src/health_monitor.cpp:91-138 | Every field of a snapshot taken after any run: state and reason by age, the three counters as numbers of events modulo 2^64, the latest sample's time, the latest notice's flag, and the age in whole milliseconds toward zero. |
| Telemetry.KindNamesInjective | include/resilientdds/telemetry.hpp:30-40 | Different anomaly kinds have different names. |
| Detector.AnomalyDetector.constructor | src/anomaly_detector.cpp:11 | A detector keeps its configuration and has no positions. |
| Detector.AnomalyDetector.Evaluate | src/anomaly_detector.cpp:13-59 | The events in order and the whole new table of positions, as specified; DetectorRuns.EventsExactly and the conservation laws pin the specification down. |
| Detector.AnomalyDetector.ResetSource | src/anomaly_detector.cpp:61-63 | Forgets one source and leaves every other position as it was. |
| DetectorRuns.VerdictsExactly | src/anomaly_detector.cpp:16-55 | Each of the six kinds of event is emitted exactly when its condition on the sample, the time and the position holds. |
| DetectorRuns.EventsExactly | src/anomaly_detector.cpp:13-59 | For every sample: each kind of event once if its condition holds and not at all otherwise, schema before age before sequence, and the missing count, the age in whole milliseconds toward zero and the text of every event. |
| DetectorRuns.StreamsDoNotInterfere | src/anomaly_detector.cpp:32 | In any interleaving, a source's position and its events are those of its own samples alone. |
| DetectorRuns.ResetsDoNotInterfere | src/anomaly_detector.cpp:32-63 | The same with resets anywhere in the stream: a source depends on its own samples and its own resets alone. |
| DetectorRuns.ResetStartsAfresh | src/anomaly_detector.cpp:61-63 | After a reset a source's position and events are those of a new detector, so every law of a stream from its start holds since the reset. |
| DetectorRuns.PositionIsHighest | src/anomaly_detector.cpp:32-57 | After any stream of a source the position is the largest number seen. |
| Ordering.HighestIsMaximum | src/anomaly_detector.cpp:45-57 | The largest number of a list is one of it and no number of the list exceeds it. |
| DetectorRuns.DistanceIsAccounted | src/anomaly_detector.cpp:32-57 | Conservation over any reordered and duplicated stream: last minus first is the sum of the reported missing samples plus the number of advancing samples. |
| DetectorRuns.RegressedAreBelow | src/anomaly_detector.cpp:45-49 | The numbers reported out of order are exactly those below the maximum when they arrived. |
| DetectorRuns.NeverObservedExactly | src/anomaly_detector.cpp:32-57 | The count of numbers never observed between first and highest is the missing total less the distinct out-of-order numbers in range that were never a running maximum. |
| DetectorRuns.OrderedStreamsMissExactly | src/anomaly_detector.cpp:51-55 | Without reordering the missing total is the count of numbers never observed. |
| Pipeline.TelemetrySubscriber.constructor | src/dds_transport.cpp:444-446 | A subscriber is joined to its parts, charges callbacks to "unknown" and has no latencies. |
| Pipeline.TelemetrySubscriber.SetSource | src/dds_transport.cpp:448-450 | Changes the source callbacks are charged to and nothing else. |
| Pipeline.TelemetrySubscriber.OnDataAvailable | src/dds_transport.cpp:326-383 | Taking a batch is one pipeline step for each sample in order; invalid samples change nothing. |
| Pipeline.TelemetrySubscriber.TakeSample | src/dds_transport.cpp:333-381 | One valid sample reaches hint, latencies, received counters, health, detector, anomaly counters and log, all at one observed time. |
| Pipeline.TelemetrySubscriber.NoteArrival | src/dds_transport.cpp:343-364 | The sample is counted, timed up to the cap, and shown to the monitor with its age in whole milliseconds. |
| Pipeline.TelemetrySubscriber.JudgeSample | src/dds_transport.cpp:370-381 | The detector's events are all counted and logged. |
| Pipeline.TelemetrySubscriber.Publish | src/dds_transport.cpp:370-381 | Each event in order adds one to its total and its per-key counter and, if there is a working sink, one line to the log. |
| Pipeline.TelemetrySubscriber.Latency | src/dds_transport.cpp:505-536 | The summary of the latencies recorded so far, which stay as they are. |
| Pipeline.TelemetrySubscriber.OnRequestedDeadlineMissed | src/dds_transport.cpp:385-391 | Counts the change and charges a deadline miss to the latest source. |
| Pipeline.TelemetrySubscriber.OnLivelinessChanged | src/dds_transport.cpp:393-401 | Only a positive change counts, and it loses the latest source. |
| Pipeline.TelemetrySubscriber.OnRequestedIncompatibleQos | src/dds_transport.cpp:403-409 | Counts one conflict and charges it to the latest source. |
| Pipeline.TelemetrySubscriber.OnSampleLost | src/dds_transport.cpp:411-414 | Counts middleware losses and leaves health alone. |
| Pipeline.TelemetrySubscriber.OnSubscriptionMatched | src/dds_transport.cpp:416-421 | A count above zero is a match, any other an unmatch, of the latest source. |
| PipelineRuns.HealthInPipeline | src/dds_transport.cpp:343-423 | After any calls, each source is in the state its own samples and polls and the callbacks charged to it would take it to alone. |
| PipelineRuns.CallbackIsRightExactly | src/dds_transport.cpp:385-423 | After any calls, a status callback meant for a source has the effect it should if and only if the latest valid sample came from that source, or it is a match notice that changes neither source. |
| PipelineRuns.ChargedRightExactly | src/dds_transport.cpp:385-423 | In any state, charging an event to the latest source equals charging it to its owner if and only if they are one source or it leaves no trace in either. |
| PipelineRuns.MissesHitTheWrongSource | src/dds_transport.cpp:385-391 | A run in which two deadline misses of the first of two sources leave it healthy and degrade the second. |
| PipelineRuns.TrackerInPipeline | src/dds_transport.cpp:370 | After any calls, the detector is where the valid samples alone take it. |
| PipelineReports.SampleReachesMonitor | src/dds_transport.cpp:350-364 | After any calls, a valid sample is one step of its source's monitor with the time it was taken and its age in whole milliseconds toward zero, whatever the sign, and no step of any other source. |
| PipelineReports.FirstSampleExactly | src/dds_transport.cpp:363-364 | After any calls, the first valid sample of a source makes it healthy if and only if it is younger than degraded_after_ms + 1 milliseconds, clocks ahead included. |
| PipelineReports.SampleReachesDetector | src/dds_transport.cpp:331-350 | A valid sample reaches the detector as sent, stamped with the time it was taken, and becomes the source callbacks are charged to; an invalid one changes nothing. |
| PipelineReports.LatenciesExactly | src/dds_transport.cpp:351-356 | After any calls, the latencies are those of the first million valid samples in order, in whole microseconds toward zero. |
| PipelineReports.LogUntouched | src/dds_transport.cpp:374 | Without a working sink the log stays as it was. |
| PipelineReports.OtherCallsExactly | src/dds_transport.cpp:385-423 | After any calls, what each status callback and poll does to health, and that it leaves detector, log, latencies and hint alone. |
| PipelineReports.StatusCountersExactly | src/dds_transport.cpp:385-414 | After any calls, each status counter is the sum of the changes reported for it modulo 2^64, negative ones included. |
| PipelineRuns.LatestSampleKept | src/dds_transport.cpp:350-364 | The monitor's record of a source is that of its latest valid sample, and it is healthy only if that sample was fresh. |
| PipelineRuns.HealthyMeansRecent | src/dds_transport.cpp:350-370 | In every reachable pipeline state a healthy snapshot means the latest sample left its source less than (2 * degraded_after_ms + 1) ms ago by at least 2 ns, and a detector with that budget called it not stale. |
| PipelineRuns.RecentBoundIsExact | src/health_monitor.cpp:18-121 | That bound is attained. |
| PipelineRuns.SteadySourceIsHealthy | src/dds_transport.cpp:343-423 | Every poll of a source whose samples are fresh and keep coming, with nothing adverse charged to it, reports it healthy once its first sample is taken, whatever the other sources do. |
| PipelineRuns.CountersCount | src/dds_transport.cpp:357-373 | After any calls each sample and anomaly counter is the number of times its subject occurred, modulo 2^64. |
| PipelineRuns.TotalsAgreeWithKeys | src/dds_transport.cpp:357-373 | The received total and each anomaly total equal the sum of their per-key counters, modulo 2^64. |
| PipelineRuns.LogIsTrail | src/dds_transport.cpp:370-374 | With a working sink the log grows by exactly the run's anomalies in order, each with its observed time. |
| PipelineRuns.LogAgreesWithCounters | src/dds_transport.cpp:370-374 | Reading the log back yields every anomaly of the run, and each kind's counter is the number of its records. |
| Metrics.MetricsRegistry.constructor | src/metrics.cpp:8-11 | A registry starts with no counters. |
| Metrics.MetricsRegistry.Increment | src/metrics.cpp:8-11 | One counter grows, wrapping at 2^64, from zero if it was unknown; the others stay. |
| Metrics.BumpExactly | src/metrics.cpp:8-11 | An increment adds to one counter modulo 2^64 and touches no other value. |
| Metrics.NamesExactly | src/dds_transport.cpp:357-414 | The texts of all counter names. |
| Metrics.NamesInjective | src/dds_transport.cpp:357-414 | No two counters share a name, whatever characters the source ids contain. |
| Publisher.PublishExtras | apps/dds_publisher.cpp:168-174 | The extra publications of a hot key take the next numbers of its counter in turn. |
| Publisher.PublishRound | apps/dds_publisher.cpp:132-180 | One round publishes its key's turn with the injected drop, stale stamp, schema drift or duplicate, and moves that key's counter only. |
| Publisher.PublishLoop | apps/dds_publisher.cpp:84-182 | For every set of options the loop publishes exactly the specified rounds in order. |
| Faults.OptionsExactly | apps/dds_publisher.cpp:84-137 | There is at least one key, and the multiplier, at least one, applies to the hot key only. |
| Faults.RoundExactly | apps/dds_publisher.cpp:132-180 | How many samples a round publishes and every field of each: id, number, both stamps, readings and schema, with the injected drop, stale stamp, schema drift and duplicate. |
| Faults.RoundsInOrder | apps/dds_publisher.cpp:131-182 | What the loop publishes is its rounds one after the other. |
| Faults.FaultsShow | apps/dds_publisher.cpp:159-166 | At a detector of schema 1 a drift shows exactly on the publications of its round, and a stale stamp adds two seconds to the age of the first publication of its round and to no other. |
| Loss.TotalExactly | apps/dds_publisher.cpp:131-174 | After r rounds a key has used ((r + keys - 1 - k) / keys) times its multiplier, less multiplier - 1 if one of its turns was dropped. |
| Loss.TurnsUseNumbers | apps/dds_publisher.cpp:131-138 | A key's counter moves between two rounds exactly when the key has a turn between them. |
| Loss.KeyNamesDiffer | apps/dds_publisher.cpp:151 | Different keys publish under different source ids. |
| Loss.KeyIsNumbered | apps/dds_publisher.cpp:131-180 | What is published under a key's id carries the numbers of that key's turns, in order and nothing else. |
| Loss.KeyNumbersCover | apps/dds_publisher.cpp:131-180 | Short of wrap-around, a key's published numbers are in order and are every number it used except the dropped one. |
| Loss.FaultlessNumbers | apps/dds_publisher.cpp:131-174 | Without a drop or duplicate the published numbers of a key are exactly 1, 2, and so on up to its counter. |
| Loss.DeliveredInOrder | apps/dds_publisher.cpp:168-179 | Whatever an in-order channel loses, what arrives is in order and was published. |
| Loss.LossIsAccounted | src/anomaly_detector.cpp:32-57 | For all options, faults and losses, the missing samples reported for a key are the numbers published between its first and highest delivered samples that never arrived, those never published there, and those that arrived late; as long as the key uses fewer than 2^64 numbers nothing is late and only a dropped number is unpublished. |
| Loss.DropIsOneGap | src/anomaly_detector.cpp:51-57 | For all options, with nothing lost, a key shows exactly one gap of one sample precisely when a turn of it was dropped that lies between two of its other turns and whose number is below 2^64 - 1, and no gap otherwise; that bound matters only if the counter wraps. |
| Loss.KeySkips | apps/dds_publisher.cpp:131-174 | What the published numbers of a key skip, its counter wrapped around or not. |
| Loss.LosslessIsCleanExactly | apps/dds_publisher.cpp:131-182 | With no faults and no loss a key shows no duplicate, gap or reordering, exactly as long as its counter has not wrapped. |
| Loss.StreamIsQuietExactly | src/anomaly_detector.cpp:13-59 | Any stream raises no event at all exactly when it has no duplicate, gap or reordering and every arrival has the expected schema and an age in range. |
| Loss.FaultlessIsQuietExactly | src/anomaly_detector.cpp:13-59 | With no faults and no loss a key raises no event of any kind if and only if each of its samples arrives with an age in range and its counter has not wrapped. |
| EndToEnd.AuditLogAccountsForLoss | src/dds_transport.cpp:326-383 | From the loop to the log, for all options: whatever else the subscriber handles, other publishers' samples included, its audit log reads back, the key's counter is the number of its arrivals modulo 2^64, and the log reports missing exactly what was lost, unpublished or late between the key's first and highest arrivals; as long as the key uses fewer than 2^64 numbers that is what was lost and the dropped number if it lies between. |
| EndToEnd.CleanRunLeavesCleanLog | src/dds_transport.cpp:370-381 | Without faults and loss the log read back holds no sequence anomaly of the key, exactly short of wrap-around. |
| EndToEnd.NoFalseAlarm | src/dds_transport.cpp:326-423 | Without faults and loss, samples in time that keep coming less than the freshness budget apart, with nothing adverse among the callbacks charged to the key, leave no record of any kind for the key, and every poll after its first sample reports it healthy. |
| Audit.EscapeJson | src/audit_sink.cpp:12-35 | The loop escapes character by character, as a string that decodes back (see EscapedReads). |
| Audit.AuditSink.constructor | src/audit_sink.cpp:8 | Opening for append keeps the old content. |
| Audit.AuditSink.Write | src/audit_sink.cpp:37-48 | A working sink appends exactly one line for the event; a failed one appends nothing. |
| AuditParser.LineExactly | src/audit_sink.cpp:40-46 | The line of a record, name by name and quote by quote. |
| AuditParser.EscapedExactly | src/audit_sink.cpp:16-32 | How each character is written. |
| Telemetry.KindNamesExactly | include/resilientdds/telemetry.hpp:30-40 | The text of each anomaly kind. |
| Decimal.NatTextIsCanonical | src/audit_sink.cpp:40-45 | Numbers are printed with the ten decimal digits and without a leading zero. |
| AuditParser.EscapedReads | src/audit_sink.cpp:12-35 | Decoding an escaped text as section 7 of RFC 8259 says returns the text and stops at its closing quote. |
| AuditParser.EscapedIsClean | src/audit_sink.cpp:17-30 | Escaped text has no character below 0x20, and every quote in it has an odd number of backslashes just before it. |
| AuditParser.RecordReads | src/audit_sink.cpp:40-46 | Every field of every record comes back from its line, negative ages and control characters included. |
| AuditParser.LineIsClean | src/audit_sink.cpp:40-46 | Whatever its texts hold, a record is written without a line break. |
| AuditParser.LogReads | src/audit_sink.cpp:37-48 | Splitting a whole log at its newlines and parsing returns exactly the records written. |
| Timeline.HandleAll | src/health_monitor.cpp:12-132 | Delivering any events through the monitor's calls is a run of the specification. |
| Timeline.PollLoop | apps/dds_subscriber.cpp:93-112 | Whatever happens between polls, the poller's log is the history of all its polls with repeats removed, and the monitor is left as those events and polls say. |
| Timeline.LatestEntryTells | apps/dds_subscriber.cpp:98-109 | The latest entry logged by any poll has that poll's state and reason. |
| Timeline.NoRepeats | apps/dds_subscriber.cpp:99-108 | No two consecutive entries have the same state and reason. |
| Timeline.EntriesWerePolled | apps/dds_subscriber.cpp:98-109 | Every entry is what some poll saw. |
| Timeline.FirstAfterMeaning | scripts/analyze_recovery.py:44-45 | The search returns the time of the first entry not before the floor in the sought state, or nothing when there is none. |
| Timeline.SearchAgrees | scripts/analyze_recovery.py:44-50 | If no poll that repeats the one before it in the sought state is the first after the floor, searching the compressed log equals searching every poll. |
| Timeline.SearchAgreesExactly | scripts/analyze_recovery.py:44-50 | With polls at increasing times the two searches agree if and only if the floor does not fall between two polls alike in the sought state. |
| Recovery.TableRuns | apps/dds_subscriber.cpp:97-111 | Over any turns of the poller the source ends where its own events and polls alone take it. |
| Recovery.HistoryLogs | apps/dds_subscriber.cpp:97-111 | After any past, each poll's entry has the time of its printing and the whole snapshot that the source's own events and polls determine. |
| Recovery.EntryTimeExactly | apps/dds_subscriber.cpp:100 | An entry's time is the whole milliseconds toward zero between the start and its printing. |
| Recovery.FirstIsFound | scripts/analyze_recovery.py:44-45 | The first poll after the floor to enter the sought state is kept in the log and is the entry the search finds. |
| Recovery.MeasuredUnsafeWindow | scripts/analyze_recovery.py:48-63 | Whatever was polled before, as long as only healthy was logged from the floor on, and whatever other sources do during the silence: the breach the script finds is stale data, the loss it finds is lack of data, that is ageing, and the time between them differs from the threshold distance by less than one period, the longest lag between polling and printing, and one millisecond. |
| Recovery.MeasuredRecovery | scripts/analyze_recovery.py:48-56 | If from restoration on fresh samples come at most q apart with nothing adverse and polls at most p apart, the recovery time the script prints is less than recover_after_samples * q (q if that is 0), p, the longest lag of printing and one millisecond together, whatever was polled before, as long as it ended unhealthy and nothing healthy was logged from the floor on. |
| CasMaximum.NextKeepsValid | src/dds_transport.cpp:290-294 | Every atomic step of every call, spurious failures included, keeps the invariant of total and maximum. |
| CasMaximum.ReachableValid | src/dds_transport.cpp:290-294 | The invariant holds after every interleaving of any number of calls. |
| CasMaximum.StepExactly | src/dds_transport.cpp:290-294 | What one atomic step changes: the maximum exactly when a call that read its current value holds a longer time and the machine does not fail it, the total exactly when a call adds its time, and no other call. |
| CasMaximum.MaximumOnlyGrows | src/dds_transport.cpp:291-294 | The maximum never decreases. |
| CasMaximum.MaximumIsSound | src/dds_transport.cpp:290-294 | At every moment the maximum is the largest time of the finished calls, or 0, the total is the sum of the times added so far modulo 2^64, and the maximum does not exceed the total while that has not wrapped. |
| CasMaximum.QuiescentIsExact | src/dds_transport.cpp:290-318 | Once all calls have finished the maximum is the largest time and the total the sum modulo 2^64. |
| CasMaximum.StatsAreSound | src/dds_transport.cpp:316-318 | The total and the maximum read by two loads, the total first: the maximum covers every call that had finished; and as long as the sum of all times has not wrapped past 2^64 - 1, the total covers every call that had added its time and a maximum above the total belongs only to calls that had not. |
| CasMaximum.StatsAgreeExactly | src/dds_transport.cpp:290-318 | In every reachable state, wrapped or not: whatever the calls do between the two loads the maximum read is at most the total read, if and only if no call's time exceeds the total at its load. |
| CasMaximum.StatsAgreeUnwrapped | src/dds_transport.cpp:290-318 | As long as the sum has not wrapped, only the calls that have not added their time yet need to be looked at. |
| CasMaximum.StatsCanDisagree | src/dds_transport.cpp:316-318 | Such a pair, with a maximum above the total, can be read. |
| CasMaximum.FailureMeansGrowth | src/dds_transport.cpp:292-294 | A compare-and-swap that fails without a spurious failure means the maximum strictly grew since that call read it. |
| CasMaximum.FailuresAreBounded | src/dds_transport.cpp:292-294 | Under any schedule a call fails in that way at most once for each distinct time. |
| Latency.SortPermutes | src/dds_transport.cpp:508-510 | Sorting yields an ordered permutation of the copy. |
| Latency.SortIsUnique | src/dds_transport.cpp:510 | There is only one ordered permutation, so the sorting algorithm does not matter. |
| Latency.CountsExactly | src/dds_transport.cpp:512-517 | What the shares below a value count: one for each sample. |
| Latency.NearestRank | src/dds_transport.cpp:512-517 | For every percentage the reported value is a sample with at least that share of the samples at most it and a smaller share strictly below it; or exactly that share below it, if a whole rank came out above itself in doubles. |
| Latency.SpreadAtMean | src/dds_transport.cpp:526-534 | The average squared distance from the mean is the mean of squares less the squared mean. |
| Latency.MeanBetween | src/dds_transport.cpp:526-528 | The mean lies between the bounds of the samples. |
| Latency.SumsExactly | src/dds_transport.cpp:526-533 | The sums add each sample, and the square of each distance. |
| Latency.MomentsExactly | src/dds_transport.cpp:526-534 | The mean times the count is the sum, and the variance times the count the sum of the squared distances from the mean. |
| Latency.Summarise | src/dds_transport.cpp:505-536 | The summary of any latencies: count, extremes, four nearest-rank percentiles in order between them, the exact mean between them, and the square root the library takes of the exact non-negative variance; empty for none. |
| Latency.Percentile | src/dds_transport.cpp:512-517 | The element at the clamped, rounded-up rank, one higher if a whole rank came out above itself in doubles. |
| Latency.MeanAndVariance | src/dds_transport.cpp:526-534 | The two loops compute the exact mean and variance. |
| Qos.Validate | src/qos_profiles.cpp:20-37 | Exactly the applicable complaints, each once, in a fixed order. |
| Qos.MsToDuration | src/dds_transport.cpp:34-37 | Seconds and nanoseconds add up to the milliseconds given, the nanoseconds below one second. |
| Qos.EndpointQos.ApplyLimits | src/dds_transport.cpp:59-83 | The resource limits after applying a profile, and which defaults a zero leaves alone. |
| Qos.EndpointQos.ApplyProfile | src/dds_transport.cpp:42-94 | Every setting of the endpoint after applying a profile, and which defaults a zero leaves alone. |
| Qos.LimitsExactly | src/dds_transport.cpp:59-83 | For every profile: which defaults stay, the pool derived from the history depth of each instance if max_samples is 0, and else an even share of the pool, rounded toward zero and at least one. |
| Qos.DerivedPoolFits | src/dds_transport.cpp:62-71 | In range the derived pool has room for the history depth of every instance. |
| Qos.CastsExactly | src/dds_transport.cpp:60-81 | Casts and products keep the low 32 bits. |
| Qos.LimitsConsistentExactly | src/dds_transport.cpp:59-83 | For accepted profiles with limits in the 32-bit range, the derived limits satisfy the middleware's rule if and only if max_samples is 0 or at least max_instances. |
| Qos.AcceptedButRejected | src/qos_profiles.cpp:20-37 | There is a profile that validation accepts and whose limits break the rule. |
| Qos.KeepAllIsBounded | src/qos_profiles.cpp:31-35 | Every accepted reliable keep-all profile gives the writer a finite, non-zero ceiling. |

## Left out

- Signed 64-bit overflow of times and ages: times are unbounded integers. Unsigned counters wrap as in the source.
- Fast DDS itself (discovery, matching, ownership, blocking): return codes, deliveries and callbacks are arbitrary inputs.
- DDS security set-up, command lines, console output, file opening, sleeping and clocks: times are inputs, one reading per use.
- Locks and atomicity of the classes: one call is one atomic step. `HealthMonitor` has no lock in the source, so this is an assumption there.
- Partial or failing writes in the middle of an audit line: a sink is usable or not for the whole run.
- Character encodings: a character stands for one byte. The audit parser refuses surrogate escapes, which the printer never writes.
- The text of HEALTH_AT entries and its regular expression: the timeline is a list of entries.
- Gauges, Prometheus rendering, the success and failure counters of `publish`, the processing delay and the FIRST_SAMPLE line: they would only add easy members.
- Floating point: means and variances are exact rationals, and the library's square root is an input. Ranks are exact but for one effect of doubles, which is an input: 99.9 * n / 100 may exceed a whole rank and be rounded up, first at n = 41000 (rank 40960 for 40959), so that exactly 99.9% of the samples lie strictly below the value reported.
- The library sort is represented by an insertion sort; `Latency.SortIsUnique` says why this loses nothing.
- A publish loop asked for 2^64 - 1 rounds never ends in the source, since its round counter wraps; the model's ends.
- A write the middleware refuses is a sample the channel loses; publish() is not modelled beyond its statistics.
- The stall injected between publications and the liveliness assertions after them, which publish nothing.
- The bodies of the publish loop, of the reader's loop and of `apply_profile` are split into several methods, to keep each proof short.
- Qos.EndpointQos.ApplyProfile: a product beyond 32 bits, undefined in the source, is modelled as wrapping; `Qos.LimitsConsistentExactly` covers the range where it does not occur.
- The resource reader and writer, the authority programs and the simulator: counting loops around the vendor API.
