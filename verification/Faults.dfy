// apps/dds_publisher.cpp: every sample of every round, exactly, and how the injected faults show at the
// detector.
module Faults {
  import opened Arithmetic
  import opened Telemetry
  import opened Decimal
  import opened Detector
  import opened DetectorRuns
  import opened Publisher
  import L = Loss

  // ---------------------------------------------------------------- what a round publishes

  /** How the options are read: at least one key and a multiplier of at least one, for the hot key only. */
  lemma OptionsExactly(o: Options, k: nat)
    ensures Keys(o) == if o.keys == 0 then 1 else o.keys
    ensures Repeats(o, k) == if o.hotKey < 0 || k != o.hotKey || o.hotMultiplier == 0 then 1 else o.hotMultiplier
  {
  }

  lemma {:induction false} BurstAt(o: Options, clock: Clock, round: nat, base: nat, n: nat, i: nat)
    requires round > 0 && i < n
    ensures |Burst(o, clock, round, base, n)| == n && Burst(o, clock, round, base, n)[i] == SampleAt(o, clock, round, base, i)
    decreases n
  {
    hide SampleAt;
    if n == 1 {
    } else if i < n - 1 {
      BurstAt(o, clock, round, base, n - 1, i);
    } else {
      BurstAt(o, clock, round, base, n - 1, 0);
    }
  }

  /** The i-th publication of a turn, after `used` earlier numbers of its key. */
  ghost predicate IsPublication(o: Options, clock: Clock, round: nat, k: nat, used: nat, i: nat, s: TelemetrySample) {
    && s.sourceId == (if o.keys > 1 then "key-" + NatText(k) else o.sourceId)
    && s.sequence == (used + 1 + i) % 0x1_0000_0000_0000_0000
    && s.sourceTimestampNs == clock(round, i) - (if round == o.staleAt && i == 0 then 2_000_000_000 else 0)
    && s.ingestTimestampNs == clock(round, i)
    && s.temperatureC == 40.0 + ((used + 1) % 0x1_0000_0000_0000_0000 % 5) as real
    && s.voltageV == 27.5 && s.healthFlags == 0
    && s.schemaVersion == if round == o.schemaDriftAt then 2 else 1
  }

  lemma SampleIsPublication(o: Options, clock: Clock, round: nat, base: nat, i: nat)
    requires round > 0
    ensures IsPublication(o, clock, round, KeyOf(o, round), base, i, SampleAt(o, clock, round, base, i))
  {
    hide KeyOf;
    Counter64IsModulo(base + 1 + i);
    Counter64IsModulo(base + 1);
    hide Counter64;
  }

  /** Every sample of a round: none if it is dropped, else the turn of its key, one publication for each
      repeat, and the last one again if it is to be duplicated. */
  lemma RoundExactly(o: Options, clock: Clock, round: nat)
    requires round > 0
    ensures var (samples, k) := (RoundSamples(o, clock, round), (round - 1) % Keys(o));
            var n := Repeats(o, k);
            && |samples| == (if round == o.dropAt then 0 else n + if round == o.duplicateAt then 1 else 0)
            && forall j :: 0 <= j < |samples| ==>
                 IsPublication(o, clock, round, k, Total(o, round - 1, k), if j < n then j else n - 1, samples[j])
  {
    hide SampleAt;
    hide Total;
    hide Repeats;
    hide IsPublication;
    var k := KeyOf(o, round);
    var base, n, samples := Total(o, round - 1, k), Repeats(o, k), RoundSamples(o, clock, round);
    if round != o.dropAt {
      BurstAt(o, clock, round, base, n, 0);
      forall j | 0 <= j < |samples|
        ensures IsPublication(o, clock, round, k, base, if j < n then j else n - 1, samples[j])
      {
        var i := if j < n then j else n - 1;
        if j < n { BurstAt(o, clock, round, base, n, j); }
        SampleIsPublication(o, clock, round, base, i);
      }
    }
  }

  /** What the whole loop publishes: the rounds one after the other. */
  lemma {:induction false} RoundsInOrder(o: Options, clock: Clock, rounds: nat, round: nat)
    requires 0 < round <= rounds
    ensures var (before, upto) := (|Published(o, clock, round - 1)|, |Published(o, clock, round)|);
            before <= upto <= |Published(o, clock, rounds)|
            && Published(o, clock, rounds)[before..upto] == RoundSamples(o, clock, round)
            && upto - before == |RoundSamples(o, clock, round)|
    ensures |Published(o, clock, 0)| == 0
    decreases rounds
  {
    hide RoundSamples;
    if round == rounds {
    } else {
      RoundsInOrder(o, clock, rounds - 1, round);
    }
  }

  // ---------------------------------------------------------------- how faults show

  /** A schema drift shows exactly on the publications of its round, and a stale stamp adds two seconds to
      the age of the first publication of its round and to no other. */
  lemma FaultsShow(o: Options, clock: Clock, round: nat, j: nat, atNs: int, c: DetectorConfig, s: Progress)
    requires round > 0 && j < |RoundSamples(o, clock, round)| && c.expectedSchemaVersion == 1
    ensures var x := L.Receipt(RoundSamples(o, clock, round)[j], atNs);
            var n := Repeats(o, (round - 1) % Keys(o));
            var (i, stale) := (if j < n then j else n - 1, round == o.staleAt && (j == 0 || n == 1));
            && (Has(Verdicts(c, s, x.sample, x.nowNs), SchemaMismatch) <==> round == o.schemaDriftAt)
            && x.nowNs - x.sample.sourceTimestampNs == atNs - clock(round, i) + (if stale then 2_000_000_000 else 0)
            && (stale && atNs >= clock(round, i) && c.maxAgeMs < 2000 ==> Has(Verdicts(c, s, x.sample, x.nowNs), Stale))
  {
    hide RoundSamples;
    hide Verdicts;
    hide Has;
    hide Total;
    RoundExactly(o, clock, round);
    var x := L.Receipt(RoundSamples(o, clock, round)[j], atNs);
    VerdictsExactly(c, s, x.sample, x.nowNs, SchemaMismatch);
    VerdictsExactly(c, s, x.sample, x.nowNs, Stale);
    TruncDivExactly(x.nowNs - x.sample.sourceTimestampNs, 1_000_000, AgeMs(x.sample, x.nowNs));
  }
}
