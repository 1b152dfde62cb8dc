// apps/dds_publisher.cpp: the round-robin publish loop with its injected faults.
module Publisher {
  import opened Arithmetic
  import opened Telemetry
  import opened Decimal

  /** The options the loop reads. A fault position of 0 injects nothing. */
  datatype Options = Options(
    sourceId: string,
    count: u64,
    keys: u32,
    hotKey: int,
    hotMultiplier: u32,
    dropAt: u64,
    duplicateAt: u64,
    staleAt: u64,
    schemaDriftAt: u64)

  const STALE_OFFSET_NS: int := 2_000_000_000

  const KEY_PREFIX: string := "key-"
  const NOMINAL_VOLTAGE: real := 27.5

  function Temperature(number: u64): real {
    40.0 + (number % 5) as real
  }

  /** The readings of the clock: one for each publication of each round. */
  type Clock = (nat, nat) -> int

  // ---------------------------------------------------------------- specification

  function Keys(o: Options): (n: nat)
    ensures n > 0
  {
    if o.keys == 0 then 1 else o.keys
  }

  function Multiplier(o: Options): (n: nat)
    ensures n > 0
  {
    if o.hotMultiplier == 0 then 1 else o.hotMultiplier
  }

  function KeyOf(o: Options, round: nat): (k: nat)
    requires round > 0
    ensures k < Keys(o)
  {
    (round - 1) % Keys(o)
  }

  function KeyName(o: Options, k: nat): string {
    if Keys(o) > 1 then KEY_PREFIX + NatText(k) else o.sourceId
  }

  function Repeats(o: Options, k: nat): (n: nat)
    ensures n > 0
  {
    if o.hotKey >= 0 && k == o.hotKey then Multiplier(o) else 1
  }

  /** How many sequence numbers of its key a round uses up; a dropped round uses one. */
  function Used(o: Options, round: nat): nat
    requires round > 0
  {
    if round == o.dropAt then 1 else Repeats(o, KeyOf(o, round))
  }

  /** How many sequence numbers of a key the first `rounds` rounds use up. */
  function Total(o: Options, rounds: nat, k: nat): nat {
    if rounds == 0 then 0
    else Total(o, rounds - 1, k) + if KeyOf(o, rounds) == k then Used(o, rounds) else 0
  }

  /** The `j`-th publication of a round whose key has used `base` numbers before; all publications of
      a round keep the payload of the first. */
  function SampleAt(o: Options, clock: Clock, round: nat, base: nat, j: nat): TelemetrySample
    requires round > 0
  {
    TelemetrySample(
      KeyName(o, KeyOf(o, round)), Counter64(base + 1 + j),
      clock(round, j) - (if round == o.staleAt && j == 0 then STALE_OFFSET_NS else 0), clock(round, j),
      Temperature(Counter64(base + 1)), NOMINAL_VOLTAGE, 0,
      if round == o.schemaDriftAt then CURRENT_SCHEMA_VERSION + 1 else CURRENT_SCHEMA_VERSION)
  }

  function Burst(o: Options, clock: Clock, round: nat, base: nat, n: nat): seq<TelemetrySample>
    requires round > 0
  {
    if n == 0 then [] else Burst(o, clock, round, base, n - 1) + [SampleAt(o, clock, round, base, n - 1)]
  }

  function RoundSamples(o: Options, clock: Clock, round: nat): seq<TelemetrySample>
    requires round > 0
  {
    var base, n := Total(o, round - 1, KeyOf(o, round)), Repeats(o, KeyOf(o, round));
    if round == o.dropAt then []
    else Burst(o, clock, round, base, n)
         + if round == o.duplicateAt then [SampleAt(o, clock, round, base, n - 1)] else []
  }

  function Published(o: Options, clock: Clock, rounds: nat): seq<TelemetrySample> {
    if rounds == 0 then [] else Published(o, clock, rounds - 1) + RoundSamples(o, clock, rounds)
  }

  // ---------------------------------------------------------------- the loop

  /** The per-key counters after some rounds. */
  ghost predicate Counts(o: Options, rounds: nat, counters: seq<u64>) {
    && |counters| == Keys(o)
    && forall k :: 0 <= k < |counters| ==> counters[k] == Counter64(Total(o, rounds, k))
  }

  lemma TotalStep(o: Options, round: nat, k: nat)
    requires round > 0
    ensures Total(o, round, k) == Total(o, round - 1, k) + if KeyOf(o, round) == k then Used(o, round) else 0
  {
    hide KeyOf;
    hide Used;
  }

  lemma CountsNext(o: Options, round: nat, before: seq<u64>)
    requires round > 0 && Counts(o, round - 1, before)
    ensures var k := KeyOf(o, round);
            Counts(o, round, before[k := Counter64(Total(o, round - 1, k) + Used(o, round))])
  {
    hide Total;
    hide KeyOf;
    hide Used;
    hide Counter64;
    var k := KeyOf(o, round);
    var after := before[k := Counter64(Total(o, round - 1, k) + Used(o, round))];
    forall j | 0 <= j < |after| ensures after[j] == Counter64(Total(o, round, j)) {
      TotalStep(o, round, j);
    }
  }

  /** The publications of a round after its first: each takes the next number of the key. */
  method PublishExtras(o: Options, clock: Clock, round: nat, ghost base: nat, first: TelemetrySample,
                       keySeq: array<u64>, keyIndex: nat, repeats: nat)
    returns (s: TelemetrySample, sent: seq<TelemetrySample>)
    requires round > 0 && repeats > 0 && keyIndex < keySeq.Length
    requires keySeq[keyIndex] == Counter64(base + 1) && first == SampleAt(o, clock, round, base, 0)
    modifies keySeq
    ensures keySeq[..] == old(keySeq[..])[keyIndex := Counter64(base + repeats)]
    ensures s == SampleAt(o, clock, round, base, repeats - 1)
    ensures sent == Burst(o, clock, round, base, repeats)
  {
    s, sent := first, [first];
    assert Burst(o, clock, round, base, 1) == [first];
    var extra := 1;
    while extra < repeats
      invariant 1 <= extra <= repeats
      invariant keySeq[..] == old(keySeq[..])[keyIndex := Counter64(base + extra)]
      invariant s == SampleAt(o, clock, round, base, extra - 1)
      invariant sent == Burst(o, clock, round, base, extra)
    {
      keySeq[keyIndex] := Next64(keySeq[keyIndex]);
      s := s.(sequence := keySeq[keyIndex]);
      var now := clock(round, extra);
      s := s.(sourceTimestampNs := now);
      s := s.(ingestTimestampNs := s.sourceTimestampNs);
      sent := sent + [s];
      extra := extra + 1;
    }
  }

  /** One round of the loop. */
  method PublishRound(o: Options, clock: Clock, round: nat, keySeq: array<u64>, keys: nat, hotMultiplier: nat)
    returns (sent: seq<TelemetrySample>)
    requires round > 0 && keys == Keys(o) && hotMultiplier == Multiplier(o)
    requires Counts(o, round - 1, keySeq[..])
    modifies keySeq
    ensures Counts(o, round, keySeq[..])
    ensures sent == RoundSamples(o, clock, round)
  {
    hide NatText;
    hide Temperature;
    hide Burst;
    var keyIndex: nat := (round - 1) % keys;
    var repeats := if o.hotKey >= 0 && keyIndex == o.hotKey then hotMultiplier else 1;
    ghost var base := Total(o, round - 1, keyIndex);
    CountsNext(o, round, keySeq[..]);
    keySeq[keyIndex] := Next64(keySeq[keyIndex]);
    var number := keySeq[keyIndex];
    if round == o.dropAt {
      return [];
    }
    var now := clock(round, 0);
    var s := TelemetrySample(if keys > 1 then KEY_PREFIX + NatText(keyIndex) else o.sourceId,
                             number, now, now, Temperature(number), NOMINAL_VOLTAGE, 0, CURRENT_SCHEMA_VERSION);
    if round == o.staleAt {
      s := s.(sourceTimestampNs := s.sourceTimestampNs - STALE_OFFSET_NS);
    }
    if round == o.schemaDriftAt {
      s := s.(schemaVersion := CURRENT_SCHEMA_VERSION + 1);
    }
    s, sent := PublishExtras(o, clock, round, base, s, keySeq, keyIndex, repeats);
    if round == o.duplicateAt {
      sent := sent + [s];
    }
  }

  /** What the loop hands to the writer, in order. */
  method PublishLoop(o: Options, clock: Clock) returns (sent: seq<TelemetrySample>)
    ensures sent == Published(o, clock, o.count)
  {
    hide KeyOf;
    hide RoundSamples;
    hide Repeats;
    var keys, hotMultiplier := o.keys, o.hotMultiplier;
    if keys == 0 { keys := 1; }
    if hotMultiplier == 0 { hotMultiplier := 1; }
    sent := [];
    var keySeq := new u64[keys](_ => 0);
    var round := 1;
    while round <= o.count
      invariant 1 <= round <= o.count + 1
      invariant Counts(o, round - 1, keySeq[..])
      invariant sent == Published(o, clock, round - 1)
    {
      var more := PublishRound(o, clock, round, keySeq, keys, hotMultiplier);
      sent := sent + more;
      round := round + 1;
    }
  }
}
