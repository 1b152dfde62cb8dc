// Exact loss accounting from the publish loop, over a lossy in-order channel, to the detector.
module Loss {
  import opened Arithmetic
  import opened Ordering
  import opened Telemetry
  import opened Decimal
  import opened Detector
  import opened DetectorRuns
  import opened Publisher

  // ---------------------------------------------------------------- arithmetic of the loop

  /** How often a key's turn comes in the first `rounds` rounds. */
  function Visits(keys: nat, rounds: nat, k: nat): nat
    requires k < keys
  {
    (rounds + keys - 1 - k) / keys
  }

  lemma DivisionIs(a: int, b: int, q: int, r: int)
    requires b > 0 && a == q * b + r && 0 <= r < b
    ensures a / b == q
  {
    assert a == (a / b) * b + a % b;
    if a / b > q {
      MulMonotone(q + 1, a / b, b);
    } else if a / b < q {
      MulMonotone(a / b + 1, q, b);
    }
  }

  lemma VisitsStep(keys: nat, rounds: nat, k: nat)
    requires k < keys && rounds > 0
    ensures Visits(keys, rounds, k) == Visits(keys, rounds - 1, k) + if (rounds - 1) % keys == k then 1 else 0
  {
    var m := rounds - 1;
    var q, t := m / keys, m % keys;
    assert m == q * keys + t;
    assert (q + 1) * keys == q * keys + keys;
    if t >= k {
      DivisionIs(m + keys - k, keys, q + 1, t - k);
    } else {
      DivisionIs(m + keys - k, keys, q, t + keys - k);
    }
    if t > k {
      DivisionIs(m + keys - 1 - k, keys, q + 1, t - 1 - k);
    } else {
      DivisionIs(m + keys - 1 - k, keys, q, t + keys - 1 - k);
    }
  }

  predicate Dropped(o: Options, rounds: nat, k: nat) {
    1 <= o.dropAt <= rounds && KeyOf(o, o.dropAt) == k
  }

  lemma OneMoreTurn(v: nat, n: nat)
    ensures (v + 1) * n == v * n + n
  {
  }

  /** The closed form of the per-key counters: a turn uses the key's multiplier, a dropped turn just one. */
  lemma {:induction false} TotalExactly(o: Options, rounds: nat, k: nat)
    requires k < Keys(o)
    ensures Total(o, rounds, k) == Visits(Keys(o), rounds, k) * Repeats(o, k)
                                   - if Dropped(o, rounds, k) then Repeats(o, k) - 1 else 0
  {
    if rounds == 0 {
      DivisionIs(Keys(o) - 1 - k, Keys(o), 0, Keys(o) - 1 - k);
    } else {
      TotalExactly(o, rounds - 1, k);
      VisitsStep(Keys(o), rounds, k);
      TotalStep(o, rounds, k);
      OneMoreTurn(Visits(Keys(o), rounds - 1, k), Repeats(o, k));
    }
  }

  /** A key uses numbers between two rounds exactly when it has a turn between them. */
  lemma {:induction false} TurnsUseNumbers(o: Options, a: nat, b: nat, k: nat)
    requires a <= b
    ensures Total(o, a, k) <= Total(o, b, k)
    ensures Total(o, a, k) < Total(o, b, k) <==> exists r :: a < r <= b && KeyOf(o, r) == k
    decreases b
  {
    if a == b {
    } else {
      TurnsUseNumbers(o, a, b - 1, k);
    }
  }

  // ---------------------------------------------------------------- what is published for one key

  function Sequences(xs: seq<TelemetrySample>, id: string): seq<int> {
    if xs == [] then []
    else Sequences(xs[..|xs| - 1], id) + if xs[|xs| - 1].sourceId == id then [xs[|xs| - 1].sequence] else []
  }

  lemma {:induction false} SequencesConcat(xs: seq<TelemetrySample>, ys: seq<TelemetrySample>, id: string)
    ensures Sequences(xs + ys, id) == Sequences(xs, id) + Sequences(ys, id)
    decreases |ys|
  {
    if ys == [] {
      assert xs + ys == xs;
    } else {
      var n := |ys| - 1;
      assert (xs + ys)[..|xs + ys| - 1] == xs + ys[..n];
      SequencesConcat(xs, ys[..n], id);
    }
  }

  /** `n` numbers in a row, after `base` numbers used before. */
  function Consecutive(base: nat, n: nat): seq<int> {
    if n == 0 then [] else Consecutive(base, n - 1) + [Counter64(base + n)]
  }

  /** The numbers of a round that is not dropped; a duplicate repeats the last. */
  function Turn(base: nat, n: nat, again: bool): seq<int> {
    Consecutive(base, n) + if again then [Counter64(base + n)] else []
  }

  function RoundNumbers(o: Options, round: nat): seq<int>
    requires round > 0
  {
    if round == o.dropAt then []
    else Turn(Total(o, round - 1, KeyOf(o, round)), Repeats(o, KeyOf(o, round)), round == o.duplicateAt)
  }

  function KeyNumbers(o: Options, rounds: nat, k: nat): seq<int> {
    if rounds == 0 then []
    else KeyNumbers(o, rounds - 1, k) + if KeyOf(o, rounds) == k then RoundNumbers(o, rounds) else []
  }

  lemma KeyNamesDiffer(o: Options, j: nat, k: nat)
    requires j < Keys(o) && k < Keys(o)
    ensures KeyName(o, j) == KeyName(o, k) <==> j == k
  {
    if Keys(o) > 1 && KeyName(o, j) == KeyName(o, k) {
      assert KeyName(o, j)[|KEY_PREFIX|..] == NatText(j);
      assert KeyName(o, k)[|KEY_PREFIX|..] == NatText(k);
      NatTextInjective(j, k);
    }
  }

  lemma {:induction false} BurstNumbers(o: Options, clock: Clock, round: nat, base: nat, n: nat, id: string)
    requires round > 0
    ensures Sequences(Burst(o, clock, round, base, n), id)
            == if KeyName(o, KeyOf(o, round)) == id then Consecutive(base, n) else []
  {
    hide NatText;
    hide Counter64;
    if n == 0 {
    } else {
      var b := Burst(o, clock, round, base, n);
      assert b[..|b| - 1] == Burst(o, clock, round, base, n - 1);
      BurstNumbers(o, clock, round, base, n - 1, id);
    }
  }

  lemma TurnIsNumbered(o: Options, clock: Clock, round: nat, base: nat, n: nat, again: bool, id: string)
    requires round > 0 && n > 0
    ensures Sequences(Burst(o, clock, round, base, n)
                      + (if again then [SampleAt(o, clock, round, base, n - 1)] else []), id)
            == if KeyName(o, KeyOf(o, round)) == id then Turn(base, n, again) else []
  {
    var last := SampleAt(o, clock, round, base, n - 1);
    BurstNumbers(o, clock, round, base, n, id);
    if again {
      assert [last][..0] == [];
      assert Sequences([last], id) == if last.sourceId == id then [last.sequence] else [];
      SequencesConcat(Burst(o, clock, round, base, n), [last], id);
    } else {
      assert Burst(o, clock, round, base, n) + [] == Burst(o, clock, round, base, n);
    }
  }

  lemma RoundIsNumbered(o: Options, clock: Clock, round: nat, id: string)
    requires round > 0
    ensures Sequences(RoundSamples(o, clock, round), id)
            == if KeyName(o, KeyOf(o, round)) == id then RoundNumbers(o, round) else []
  {
    var base, n := Total(o, round - 1, KeyOf(o, round)), Repeats(o, KeyOf(o, round));
    TurnIsNumbered(o, clock, round, base, n, round == o.duplicateAt, id);
  }

  lemma RoundOfKey(o: Options, clock: Clock, round: nat, k: nat)
    requires round > 0 && k < Keys(o)
    ensures Sequences(RoundSamples(o, clock, round), KeyName(o, k))
            == if KeyOf(o, round) == k then RoundNumbers(o, round) else []
  {
    RoundIsNumbered(o, clock, round, KeyName(o, k));
    KeyNamesDiffer(o, KeyOf(o, round), k);
  }

  lemma KeyIsNumberedStep(o: Options, clock: Clock, round: nat, k: nat, p: seq<TelemetrySample>, q: seq<int>)
    requires round > 0 && k < Keys(o) && Sequences(p, KeyName(o, k)) == q
    ensures Sequences(p + RoundSamples(o, clock, round), KeyName(o, k))
            == q + if KeyOf(o, round) == k then RoundNumbers(o, round) else []
  {
    hide KeyName;
    RoundOfKey(o, clock, round, k);
    SequencesConcat(p, RoundSamples(o, clock, round), KeyName(o, k));
  }

  /** The samples the loop publishes for a key carry exactly the numbers of the key's own counter. */
  lemma {:induction false} KeyIsNumbered(o: Options, clock: Clock, rounds: nat, k: nat)
    requires k < Keys(o)
    ensures Sequences(Published(o, clock, rounds), KeyName(o, k)) == KeyNumbers(o, rounds, k)
  {
    if rounds == 0 {
    } else {
      KeyIsNumbered(o, clock, rounds - 1, k);
      KeyIsNumberedStep(o, clock, rounds, k, Published(o, clock, rounds - 1), KeyNumbers(o, rounds - 1, k));
    }
  }

  /** Short of the counter's width, consecutive numbers are just that. */
  lemma {:induction false} ConsecutiveNumbers(base: nat, n: nat)
    requires base + n < 0x1_0000_0000_0000_0000
    ensures |Consecutive(base, n)| == n
    ensures forall i :: 0 <= i < n ==> Consecutive(base, n)[i] == base + 1 + i
  {
    if n == 0 {
    } else {
      ConsecutiveNumbers(base, n - 1);
      Counter64IsModulo(base + n);
    }
  }

  function DroppedNumber(o: Options): nat
    requires o.dropAt > 0
  {
    Total(o, o.dropAt - 1, KeyOf(o, o.dropAt)) + 1
  }

  function DroppedNumbers(o: Options, rounds: nat, k: nat): set<int> {
    if Dropped(o, rounds, k) then {DroppedNumber(o)} else {}
  }

  lemma TurnCovers(base: nat, n: nat, again: bool)
    requires n > 0 && base + n < 0x1_0000_0000_0000_0000
    ensures NonDecreasing(Turn(base, n, again))
    ensures Observed(Turn(base, n, again)) == Interval(base + 1, base + n)
  {
    var q := Turn(base, n, again);
    hide NonDecreasing;
    hide Observed;
    hide Interval;
    hide Consecutive;
    ConsecutiveNumbers(base, n);
    Counter64IsModulo(base + n);
    hide Counter64;
    assert |q| == n + if again then 1 else 0;
    assert forall i :: 0 <= i < n ==> q[i] == base + 1 + i;
    assert again ==> q[n] == base + n;
    RampCovers(q, base, n);
  }

  lemma RampCovers(q: seq<int>, base: nat, n: nat)
    requires 0 < n <= |q| <= n + 1
    requires forall i :: 0 <= i < n ==> q[i] == base + 1 + i
    requires |q| > n ==> q[n] == base + n
    ensures NonDecreasing(q) && Observed(q) == Interval(base + 1, base + n)
  {
    forall v | base + 1 <= v <= base + n ensures v in Observed(q) {
      assert q[v - base - 1] == v;
    }
  }

  /** Every number a key uses is published, in order, except the dropped one; duplicates repeat. */
  ghost predicate Covers(q: seq<int>, total: nat, dropped: set<int>) {
    && NonDecreasing(q)
    && Observed(q) == Interval(1, total) - dropped
    && (forall v :: v in dropped ==> 1 <= v <= total)
  }

  lemma RunExtends(q: seq<int>, total: nat, dropped: set<int>, run: seq<int>, n: nat)
    requires Covers(q, total, dropped)
    requires NonDecreasing(run) && Observed(run) == Interval(total + 1, total + n)
    ensures Covers(q + run, total + n, dropped)
  {
    hide NonDecreasing;
    hide Observed;
    hide Interval;
    ObservedConcat(q, run);
    OrderedConcat(q, run, total);
  }

  lemma TurnExtends(q: seq<int>, total: nat, dropped: set<int>, n: nat, again: bool)
    requires Covers(q, total, dropped) && n > 0 && total + n < 0x1_0000_0000_0000_0000
    ensures Covers(q + Turn(total, n, again), total + n, dropped)
  {
    TurnCovers(total, n, again);
    RunExtends(q, total, dropped, Turn(total, n, again), n);
  }

  lemma DropExtends(q: seq<int>, total: nat)
    requires Covers(q, total, {})
    ensures Covers(q, total + 1, {(total + 1) as int})
  {
  }

  ghost predicate KeyCovers(o: Options, rounds: nat, k: nat) {
    Covers(KeyNumbers(o, rounds, k), Total(o, rounds, k), DroppedNumbers(o, rounds, k))
  }

  lemma OtherTurn(o: Options, round: nat, k: nat)
    requires round > 0 && KeyCovers(o, round - 1, k) && KeyOf(o, round) != k
    ensures KeyCovers(o, round, k)
  {
    assert KeyNumbers(o, round, k) == KeyNumbers(o, round - 1, k);
  }

  lemma DroppedTurn(o: Options, round: nat, k: nat)
    requires round > 0 && KeyCovers(o, round - 1, k) && KeyOf(o, round) == k && round == o.dropAt
    ensures KeyCovers(o, round, k)
  {
    hide Covers;
    hide KeyOf;
    assert KeyNumbers(o, round, k) == KeyNumbers(o, round - 1, k);
    assert DroppedNumbers(o, round - 1, k) == {};
    DropExtends(KeyNumbers(o, round - 1, k), Total(o, round - 1, k));
  }

  lemma PublishedTurn(o: Options, round: nat, k: nat)
    requires round > 0 && KeyCovers(o, round - 1, k) && KeyOf(o, round) == k && round != o.dropAt
    requires Total(o, round, k) < 0x1_0000_0000_0000_0000
    ensures KeyCovers(o, round, k)
  {
    TurnExtends(KeyNumbers(o, round - 1, k), Total(o, round - 1, k), DroppedNumbers(o, round - 1, k),
                Repeats(o, k), round == o.duplicateAt);
  }

  lemma {:induction false} KeyNumbersCover(o: Options, rounds: nat, k: nat)
    requires Total(o, rounds, k) < 0x1_0000_0000_0000_0000
    ensures KeyCovers(o, rounds, k)
  {
    if rounds == 0 {
    } else {
      KeyNumbersCover(o, rounds - 1, k);
      if KeyOf(o, rounds) != k {
        OtherTurn(o, rounds, k);
      } else if rounds == o.dropAt {
        DroppedTurn(o, rounds, k);
      } else {
        PublishedTurn(o, rounds, k);
      }
    }
  }

  lemma ObservedConcat(p: seq<int>, q: seq<int>)
    ensures Observed(p + q) == Observed(p) + Observed(q)
  {
  }

  lemma OrderedConcat(p: seq<int>, q: seq<int>, m: int)
    requires NonDecreasing(p) && NonDecreasing(q)
    requires forall v :: v in Observed(p) ==> v <= m
    requires forall v :: v in Observed(q) ==> v > m
    ensures NonDecreasing(p + q)
  {
    assert forall i :: 0 <= i < |p| ==> p[i] in Observed(p);
    assert forall i :: 0 <= i < |q| ==> q[i] in Observed(q);
  }

  // ---------------------------------------------------------------- the channel

  /** A publication as the subscriber sees it, stamped with its time of arrival. */
  function Receipt(sample: TelemetrySample, observedNs: int): Arrival {
    Arrival(sample.(ingestTimestampNs := observedNs), observedNs)
  }

  /** What a lossy in-order channel delivers: the kept publications, each with its time of arrival. */
  function Deliver(sent: seq<TelemetrySample>, kept: seq<bool>, at: nat -> int): seq<Arrival>
    requires |kept| == |sent|
  {
    if sent == [] then []
    else
      var n := |sent| - 1;
      Deliver(sent[..n], kept[..n], at) + if kept[n] then [Receipt(sent[n], at(n))] else []
  }

  /** The numbers of one source that arrive. */
  function Delivered(sent: seq<TelemetrySample>, kept: seq<bool>, at: nat -> int, id: string): seq<int>
    requires |kept| == |sent|
  {
    Numbers(OnlyArrivals(Deliver(sent, kept, at), id))
  }

  lemma DeliveredStep(sent: seq<TelemetrySample>, kept: seq<bool>, at: nat -> int, id: string)
    requires |kept| == |sent| > 0
    ensures var n := |sent| - 1;
            Delivered(sent, kept, at, id) == Delivered(sent[..n], kept[..n], at, id)
              + if kept[n] && sent[n].sourceId == id then [sent[n].sequence as int] else []
  {
    var n := |sent| - 1;
    var before := Deliver(sent[..n], kept[..n], at);
    if kept[n] {
      var all := before + [Receipt(sent[n], at(n))];
      assert all[..|all| - 1] == before;
    } else {
      assert Deliver(sent, kept, at) == before;
    }
  }

  lemma {:induction false} DeliveredWasSent(sent: seq<TelemetrySample>, kept: seq<bool>, at: nat -> int, id: string)
    requires |kept| == |sent|
    ensures Observed(Delivered(sent, kept, at, id)) <= Observed(Sequences(sent, id))
    decreases |sent|
  {
    if sent == [] {
    } else {
      var n := |sent| - 1;
      DeliveredWasSent(sent[..n], kept[..n], at, id);
      DeliveredStep(sent, kept, at, id);
      if sent[n].sourceId == id {
        ObservedConcat(Sequences(sent[..n], id), [sent[n].sequence as int]);
        ObservedConcat(Delivered(sent[..n], kept[..n], at, id), [sent[n].sequence as int]);
      } else {
        assert Sequences(sent, id) == Sequences(sent[..n], id);
        assert Delivered(sent, kept, at, id) == Delivered(sent[..n], kept[..n], at, id);
      }
    }
  }

  lemma {:induction false} DeliveredInOrder(sent: seq<TelemetrySample>, kept: seq<bool>, at: nat -> int, id: string)
    requires |kept| == |sent| && NonDecreasing(Sequences(sent, id))
    ensures NonDecreasing(Delivered(sent, kept, at, id))
    decreases |sent|
  {
    if sent == [] {
    } else {
      var n := |sent| - 1;
      var p, q := Sequences(sent[..n], id), Sequences(sent, id);
      assert forall i :: 0 <= i < |p| ==> p[i] == q[i];
      DeliveredInOrder(sent[..n], kept[..n], at, id);
      DeliveredWasSent(sent[..n], kept[..n], at, id);
      DeliveredStep(sent, kept, at, id);
      if sent[n].sourceId == id {
        AppendOrdered(Delivered(sent[..n], kept[..n], at, id), p, sent[n].sequence);
      } else {
        assert Delivered(sent, kept, at, id) == Delivered(sent[..n], kept[..n], at, id);
      }
    }
  }

  lemma AppendOrdered(d: seq<int>, p: seq<int>, v: int)
    requires NonDecreasing(d) && Observed(d) <= Observed(p) && NonDecreasing(p + [v])
    ensures NonDecreasing(d + [v])
  {
    forall i | 0 <= i < |d| ensures d[i] <= v {
      assert d[i] in Observed(d);
      var j :| 0 <= j < |p| && p[j] == d[i];
      assert (p + [v])[j] <= (p + [v])[|p|];
    }
  }

  lemma {:induction false} OnlyArrivalsAreFrom(xs: seq<Arrival>, id: string)
    ensures From(OnlyArrivals(xs, id), id)
    decreases |xs|
  {
    if xs == [] {
    } else {
      OnlyArrivalsAreFrom(xs[..|xs| - 1], id);
    }
  }

  // ---------------------------------------------------------------- the account

  /** The published numbers between the first and the highest delivered that never arrived. */
  function Lost(published: seq<int>, delivered: seq<int>): set<int>
    requires delivered != []
  {
    set v | v in Observed(published) && delivered[0] <= v <= Highest(delivered) && v !in delivered
  }

  /** The numbers of that range that were never published. */
  function NeverPublished(published: seq<int>, delivered: seq<int>): set<int>
    requires delivered != []
  {
    Interval(delivered[0], Highest(delivered)) - Observed(published)
  }

  lemma HolesAreLostOrUnpublished(published: seq<int>, delivered: seq<int>)
    requires delivered != [] && Observed(delivered) <= Observed(published)
    ensures |NeverObserved(delivered)| == |Lost(published, delivered)| + |NeverPublished(published, delivered)|
  {
    hide Highest;
    hide Interval;
    var lost, never := Lost(published, delivered), NeverPublished(published, delivered);
    assert NeverObserved(delivered) == lost + never;
    assert lost !! never;
  }

  /** The members of a set strictly between two numbers. */
  function Inside(s: set<int>, first: int, last: int): set<int> {
    set v | v in s && first < v < last
  }

  /** In order, what was never published between the first and the last delivered was dropped. */
  lemma UnpublishedWereDropped(published: seq<int>, total: nat, dropped: set<int>, delivered: seq<int>)
    requires Covers(published, total, dropped)
    requires delivered != [] && NonDecreasing(delivered) && Observed(delivered) <= Observed(published)
    ensures NeverPublished(published, delivered)
            == Inside(dropped, delivered[0], delivered[|delivered| - 1])
  {
    hide Highest;
    hide Interval;
    var first, last := delivered[0], delivered[|delivered| - 1];
    OrderedStreamsNeverRegress(delivered);
    assert first in Observed(delivered) && last in Observed(delivered);
  }

  /** The key exists and its counter has not wrapped around by the end of the loop. */
  ghost predicate Unwrapped(o: Options, k: nat) {
    k < Keys(o) && Total(o, o.count, k) < 0x1_0000_0000_0000_0000
  }

  /** What the loop publishes goes through a channel that keeps the marked samples. */
  ghost predicate Sends(o: Options, clock: Clock, sent: seq<TelemetrySample>, kept: seq<bool>) {
    sent == Published(o, clock, o.count) && |kept| == |sent|
  }

  ghost predicate Arrives(sent: seq<TelemetrySample>, kept: seq<bool>, at: nat -> int, id: string) {
    |kept| == |sent| && Delivered(sent, kept, at, id) != []
  }

  /** The events the detector emits for one source at the end of the channel. */
  function KeyEvents(sent: seq<TelemetrySample>, kept: seq<bool>, at: nat -> int, c: DetectorConfig, id: string)
    : seq<AnomalyEvent>
    requires |kept| == |sent|
  {
    OnlyEvents(Emitted(c, map[], Deliver(sent, kept, at)), id)
  }

  /** The dropped number of a key if it lies strictly between two numbers. */
  function DroppedWithin(o: Options, k: nat, first: int, last: int): set<int> {
    Inside(DroppedNumbers(o, o.count, k), first, last)
  }

  /** End to end, with any faults injected and any samples lost on the way: what the detector reports
      missing for a key is what was published between the key's first and highest delivered samples and
      never arrived, what was never published there, and what arrived late. Short of wrap-around nothing
      arrives late, and only the dropped number can be unpublished. */
  lemma LossIsAccounted(o: Options, clock: Clock, sent: seq<TelemetrySample>, kept: seq<bool>, at: nat -> int,
                        c: DetectorConfig, k: nat)
    requires k < Keys(o) && Sends(o, clock, sent, kept) && Arrives(sent, kept, at, KeyName(o, k))
    ensures var id := KeyName(o, k);
            var (published, d) := (Sequences(sent, id), Delivered(sent, kept, at, id));
            && MissingTotal(KeyEvents(sent, kept, at, c, id))
               == |Lost(published, d)| + |NeverPublished(published, d)| + |FilledLate(d, Below(d))|
            && (Unwrapped(o, k) ==>
                  && Highest(d) == d[|d| - 1] && FilledLate(d, Below(d)) == {}
                  && NeverPublished(published, d) == DroppedWithin(o, k, d[0], d[|d| - 1]))
  {
    var id := KeyName(o, k);
    var published, d := Sequences(sent, id), Delivered(sent, kept, at, id);
    KeyEventsMissing(sent, kept, at, c, id);
    DeliveredWasSent(sent, kept, at, id);
    HolesOfAStream(d);
    HolesAreLostOrUnpublished(published, d);
    if Unwrapped(o, k) {
      KeyIsNumbered(o, clock, o.count, k);
      KeyNumbersCover(o, o.count, k);
      DeliveredInOrder(sent, kept, at, id);
      OrderedStreamsNeverRegress(d);
      UnpublishedWereDropped(published, Total(o, o.count, k), DroppedNumbers(o, o.count, k), d);
    }
  }

  /** What a stream skips: how far it went, less what advanced it. */
  function Skipped(q: seq<int>): int {
    if q == [] then 0 else Highest(q) - q[0] - Advances(q)
  }

  lemma KeyEventsMissing(sent: seq<TelemetrySample>, kept: seq<bool>, at: nat -> int, c: DetectorConfig, id: string)
    requires |kept| == |sent|
    ensures MissingTotal(KeyEvents(sent, kept, at, c, id)) == Skipped(Delivered(sent, kept, at, id))
  {
    var arrivals := Deliver(sent, kept, at);
    var mine := OnlyArrivals(arrivals, id);
    StreamsDoNotInterfere(c, map[], arrivals, id);
    OnlyArrivalsAreFrom(arrivals, id);
    assert |Numbers(mine)| == |mine|;
    if mine != [] {
      DistanceIsAccounted(c, mine, id);
    }
  }

  // ---------------------------------------------------------------- a channel that loses nothing

  ghost predicate Lossless(kept: seq<bool>) {
    forall i :: 0 <= i < |kept| ==> kept[i]
  }

  lemma {:induction false} AllDelivered(sent: seq<TelemetrySample>, kept: seq<bool>, at: nat -> int, id: string)
    requires |kept| == |sent| && Lossless(kept)
    ensures Delivered(sent, kept, at, id) == Sequences(sent, id)
    decreases |sent|
  {
    if sent == [] {
    } else {
      var n := |sent| - 1;
      AllDelivered(sent[..n], kept[..n], at, id);
      DeliveredStep(sent, kept, at, id);
    }
  }

  function Gaps(es: seq<AnomalyEvent>): nat {
    if es == [] then 0 else Gaps(es[..|es| - 1]) + if es[|es| - 1].kind.SequenceGap? then 1 else 0
  }

  /** Gap events, and only they, report missing samples. */
  ghost predicate GapShaped(es: seq<AnomalyEvent>) {
    forall e :: e in es ==> (e.kind.SequenceGap? <==> e.missingSamples > 0)
  }

  lemma {:induction false} GapsReportMissing(es: seq<AnomalyEvent>)
    requires GapShaped(es)
    ensures Gaps(es) <= MissingTotal(es)
    ensures Gaps(es) == 0 <==> MissingTotal(es) == 0
    ensures Gaps(es) == 0 <==> !Has(es, SequenceGap)
    decreases |es|
  {
    if es == [] {
    } else {
      var n := |es| - 1;
      GapsReportMissing(es[..n]);
      HasConcat(es[..n], [es[n]], SequenceGap);
      assert es[..n] + [es[n]] == es && es[n] in es;
      assert Has([es[n]], SequenceGap) <==> [es[n]][0].kind == SequenceGap;
    }
  }

  lemma VerdictsGapShaped(c: DetectorConfig, s: Progress, sample: TelemetrySample, nowNs: int)
    ensures GapShaped(Verdicts(c, s, sample, nowNs))
  {
  }

  lemma {:induction false} EmittedGapShaped(c: DetectorConfig, m: Tracker, xs: seq<Arrival>)
    ensures GapShaped(Emitted(c, m, xs))
    decreases |xs|
  {
    if xs == [] {
    } else {
      var before, x := xs[..|xs| - 1], xs[|xs| - 1];
      EmittedGapShaped(c, m, before);
      VerdictsGapShaped(c, ProgressOf(Feed(m, before), x.sample.sourceId), x.sample, x.nowNs);
    }
  }

  ghost predicate HasTurn(o: Options, from: nat, to: nat, k: nat) {
    exists r :: from < r <= to && KeyOf(o, r) == k
  }

  /** The key's dropped turn lies between two of its other turns. */
  ghost predicate DroppedInside(o: Options, k: nat) {
    Dropped(o, o.count, k) && HasTurn(o, 0, o.dropAt - 1, k) && HasTurn(o, o.dropAt, o.count, k)
  }

  lemma DroppedInsideExactly(o: Options, k: nat)
    ensures DroppedInside(o, k) <==> Dropped(o, o.count, k) && 1 < DroppedNumber(o) < Total(o, o.count, k)
  {
    if Dropped(o, o.count, k) {
      TurnsUseNumbers(o, 0, o.dropAt - 1, k);
      TurnsUseNumbers(o, o.dropAt, o.count, k);
      assert HasTurn(o, 0, o.dropAt - 1, k) <==> 1 < DroppedNumber(o);
      assert HasTurn(o, o.dropAt, o.count, k) <==> DroppedNumber(o) < Total(o, o.count, k);
    }
  }

  /** A covering list skips what was dropped strictly inside it. */
  lemma CoverSkips(q: seq<int>, total: nat, dropped: set<int>)
    requires Covers(q, total, dropped)
    ensures Skipped(q) == if q == [] then 0 else |Inside(dropped, q[0], q[|q| - 1])|
  {
    if q != [] {
      OrderedStreamsNeverRegress(q);
      HolesOfAStream(q);
      HolesAreLostOrUnpublished(q, q);
      UnpublishedWereDropped(q, total, dropped, q);
      assert Lost(q, q) == {} && FilledLate(q, {}) == {};
    }
  }

  lemma CoverSkipsNothing(q: seq<int>, total: nat)
    requires Covers(q, total, {})
    ensures Skipped(q) == 0
  {
    CoverSkips(q, total, {});
    if q != [] {
      assert Inside({}, q[0], q[|q| - 1]) == {};
    }
  }

  lemma CoverSkipsDropped(q: seq<int>, total: nat, d: int)
    requires Covers(q, total, {d})
    ensures Skipped(q) == if 1 < d < total then 1 else 0
  {
    CoverSkips(q, total, {d});
    if 1 < d < total {
      assert 1 in Observed(q) && total in Observed(q);
      assert q[0] <= 1 && q[|q| - 1] >= total;
      assert Inside({d}, q[0], q[|q| - 1]) == {d};
    } else if q != [] {
      assert q[0] in Observed(q) && q[|q| - 1] in Observed(q);
      assert Inside({d}, q[0], q[|q| - 1]) == {};
    }
  }

  // ---------------------------------------------------------------- wrap-around

  const LAST: nat := 0xFFFF_FFFF_FFFF_FFFF

  /** A stream that has come within one of the largest number skips nothing more. */
  lemma {:induction false} SkippedNoMore(p: seq<int>, t: seq<int>)
    requires p != [] && Highest(p) >= LAST - 1 && forall i :: 0 <= i < |t| ==> t[i] <= LAST
    ensures Skipped(p + t) == Skipped(p) && Highest(p + t) >= LAST - 1
    decreases |t|
  {
    if t == [] {
      assert p + t == p;
    } else {
      var n := |t| - 1;
      SkippedNoMore(p, t[..n]);
      SkippedSnoc(p + t[..n], t[n]);
      assert p + t == p + t[..n] + [t[n]];
    }
  }

  lemma SkippedSnoc(q: seq<int>, v: int)
    requires q != []
    ensures Highest(q + [v]) == if v > Highest(q) then v else Highest(q)
    ensures Skipped(q + [v]) == Skipped(q) + if v > Highest(q) then v - Highest(q) - 1 else 0
  {
    assert (q + [v])[..|q|] == q;
  }

  lemma {:induction false} ConsecutivePrefix(base: nat, m: nat, n: nat)
    requires m <= n
    ensures Consecutive(base, m) <= Consecutive(base, n)
    decreases n
  {
    if m == n {
    } else {
      ConsecutivePrefix(base, m, n - 1);
    }
  }

  function EarlyDrops(o: Options, rounds: nat, k: nat): set<int> {
    if Dropped(o, rounds, k) && DroppedNumber(o) <= LAST then {DroppedNumber(o)} else {}
  }

  /** The numbers a key publishes before its counter wraps around. */
  ghost predicate EarlyPart(o: Options, rounds: nat, k: nat, p: seq<int>) {
    p <= KeyNumbers(o, rounds, k) && Covers(p, LAST, EarlyDrops(o, rounds, k))
  }

  lemma KeyNumbersGrow(o: Options, round: nat, k: nat)
    requires round > 0
    ensures KeyNumbers(o, round, k) == KeyNumbers(o, round - 1, k)
              + if KeyOf(o, round) == k then RoundNumbers(o, round) else []
  {
    hide RoundNumbers;
    hide KeyOf;
  }

  lemma EarlyStays(o: Options, round: nat, k: nat, p: seq<int>)
    requires round > 0 && Total(o, round - 1, k) >= LAST && EarlyPart(o, round - 1, k, p)
    ensures EarlyPart(o, round, k, p)
  {
    hide Total;
    hide KeyOf;
    hide Covers;
    hide KeyNumbers;
    hide RoundNumbers;
    KeyNumbersGrow(o, round, k);
    assert EarlyDrops(o, round, k) == EarlyDrops(o, round - 1, k);
  }

  lemma EarlyDropsAre(o: Options, round: nat, k: nat)
    requires round > 0 && Total(o, round - 1, k) < LAST && round != o.dropAt
    ensures EarlyDrops(o, round, k) == DroppedNumbers(o, round - 1, k)
  {
    hide Total;
    hide KeyOf;
    if Dropped(o, round - 1, k) {
      TurnsUseNumbers(o, o.dropAt - 1, round - 1, k);
      assert KeyOf(o, o.dropAt) == k && o.dropAt - 1 < o.dropAt <= round - 1;
    }
  }

  /** The turn in which the counter of a key passes the largest number. */
  lemma WrappingTurn(o: Options, round: nat, k: nat) returns (p: seq<int>)
    requires round > 0 && Total(o, round - 1, k) < LAST < Total(o, round, k)
    ensures EarlyPart(o, round, k, p)
  {
    hide Total;
    hide KeyOf;
    hide Repeats;
    hide Covers;
    hide KeyNumbers;
    hide Consecutive;
    var base := Total(o, round - 1, k);
    var q, n := KeyNumbers(o, round - 1, k), LAST - base;
    p := q + Consecutive(base, n);
    TotalStep(o, round, k);
    KeyNumbersCover(o, round - 1, k);
    assert Turn(base, n, false) == Consecutive(base, n);
    TurnExtends(q, base, DroppedNumbers(o, round - 1, k), n, false);
    ConsecutivePrefix(base, n, Repeats(o, k));
    KeyNumbersGrow(o, round, k);
    assert Consecutive(base, n) <= RoundNumbers(o, round);
    EarlyDropsAre(o, round, k);
  }

  lemma {:induction false} WrappedKey(o: Options, rounds: nat, k: nat) returns (p: seq<int>)
    requires Total(o, rounds, k) >= LAST
    ensures EarlyPart(o, rounds, k, p)
    decreases rounds
  {
    if Total(o, rounds, k) == LAST {
      p := KeyNumbers(o, rounds, k);
      KeyNumbersCover(o, rounds, k);
    } else if Total(o, rounds - 1, k) >= LAST {
      p := WrappedKey(o, rounds - 1, k);
      EarlyStays(o, rounds, k, p);
    } else {
      p := WrappingTurn(o, rounds, k);
    }
  }

  lemma {:induction false} KeyNumbersBounded(o: Options, rounds: nat, k: nat)
    ensures forall i :: 0 <= i < |KeyNumbers(o, rounds, k)| ==> KeyNumbers(o, rounds, k)[i] <= LAST
  {
    if rounds == 0 {
    } else {
      KeyNumbersBounded(o, rounds - 1, k);
      if rounds != o.dropAt { ConsecutiveBounded(Total(o, rounds - 1, KeyOf(o, rounds)), Repeats(o, KeyOf(o, rounds))); }
    }
  }

  lemma {:induction false} ConsecutiveBounded(base: nat, n: nat)
    ensures forall i :: 0 <= i < |Consecutive(base, n)| ==> Consecutive(base, n)[i] <= LAST
  {
    if n == 0 {
    } else {
      ConsecutiveBounded(base, n - 1);
    }
  }

  /** What a key's published numbers skip, wrapped around or not. */
  lemma KeySkips(o: Options, k: nat)
    ensures Skipped(KeyNumbers(o, o.count, k)) == if DroppedInside(o, k) && DroppedNumber(o) < LAST then 1 else 0
  {
    var q, total := KeyNumbers(o, o.count, k), Total(o, o.count, k);
    DroppedInsideExactly(o, k);
    if total <= LAST {
      KeyNumbersCover(o, o.count, k);
      if Dropped(o, o.count, k) { CoverSkipsDropped(q, total, DroppedNumber(o)); } else { CoverSkipsNothing(q, total); }
    } else {
      var p := WrappedKey(o, o.count, k);
      if EarlyDrops(o, o.count, k) == {} {
        CoverSkipsNothing(p, LAST);
      } else {
        CoverSkipsDropped(p, LAST, DroppedNumber(o));
      }
      WrappedTail(o, k, p);
    }
  }

  lemma WrappedTail(o: Options, k: nat, p: seq<int>)
    requires EarlyPart(o, o.count, k, p)
    ensures Skipped(KeyNumbers(o, o.count, k)) == Skipped(p)
  {
    var q := KeyNumbers(o, o.count, k);
    assert LAST in Observed(p) || LAST - 1 in Observed(p);
    HighestIsMaximum(p);
    KeyNumbersBounded(o, o.count, k);
    SkippedNoMore(p, q[|p|..]);
    assert p + q[|p|..] == q;
  }

  lemma KeyEventsGaps(sent: seq<TelemetrySample>, kept: seq<bool>, at: nat -> int, c: DetectorConfig, id: string)
    requires |kept| == |sent|
    ensures var events := KeyEvents(sent, kept, at, c, id);
            Gaps(events) <= MissingTotal(events) && (Gaps(events) == 0 <==> MissingTotal(events) == 0)
  {
    var arrivals := Deliver(sent, kept, at);
    StreamsDoNotInterfere(c, map[], arrivals, id);
    EmittedGapShaped(c, map[], OnlyArrivals(arrivals, id));
    GapsReportMissing(Emitted(c, map[], OnlyArrivals(arrivals, id)));
  }

  /** With every publication delivered, a drop shows as exactly one gap of one sample when its key was
      published both before and after it, and as nothing otherwise; without a drop there is no gap. If the
      counter wraps around, a drop of the largest number or after it shows as nothing. */
  lemma DropIsOneGap(o: Options, clock: Clock, sent: seq<TelemetrySample>, kept: seq<bool>, at: nat -> int,
                     c: DetectorConfig, k: nat)
    requires k < Keys(o) && Sends(o, clock, sent, kept) && Lossless(kept)
    ensures var events := KeyEvents(sent, kept, at, c, KeyName(o, k));
            MissingTotal(events) == Gaps(events) == if DroppedInside(o, k) && DroppedNumber(o) < LAST then 1 else 0
    ensures Unwrapped(o, k) && DroppedInside(o, k) ==> DroppedNumber(o) < LAST
  {
    AllDelivered(sent, kept, at, KeyName(o, k));
    KeyIsNumbered(o, clock, o.count, k);
    KeyEventsMissing(sent, kept, at, c, KeyName(o, k));
    KeyEventsGaps(sent, kept, at, c, KeyName(o, k));
    KeySkips(o, k);
    DroppedInsideExactly(o, k);
  }

  // ---------------------------------------------------------------- no faults at all

  ghost predicate Faultless(o: Options, rounds: nat, k: nat) {
    !Dropped(o, rounds, k) && !(1 <= o.duplicateAt <= rounds && KeyOf(o, o.duplicateAt) == k)
  }

  lemma {:induction false} ConsecutiveJoin(m: nat, n: nat)
    ensures Consecutive(0, m) + Consecutive(m, n) == Consecutive(0, m + n)
  {
    if n == 0 {
    } else {
      ConsecutiveJoin(m, n - 1);
    }
  }

  lemma FaultlessTurn(o: Options, round: nat, k: nat, p: seq<int>)
    requires round > 0 && Faultless(o, round, k) && KeyOf(o, round) == k && p == Consecutive(0, Total(o, round - 1, k))
    ensures p + RoundNumbers(o, round) == Consecutive(0, Total(o, round, k))
  {
    ConsecutiveJoin(Total(o, round - 1, k), Repeats(o, k));
  }

  lemma {:induction false} FaultlessNumbers(o: Options, rounds: nat, k: nat)
    requires Faultless(o, rounds, k)
    ensures KeyNumbers(o, rounds, k) == Consecutive(0, Total(o, rounds, k))
  {
    if rounds == 0 {
    } else {
      FaultlessNumbers(o, rounds - 1, k);
      if KeyOf(o, rounds) == k {
        FaultlessTurn(o, rounds, k, KeyNumbers(o, rounds - 1, k));
      } else {
        assert KeyNumbers(o, rounds, k) == KeyNumbers(o, rounds - 1, k);
      }
    }
  }

  ghost predicate SequenceClean(es: seq<AnomalyEvent>) {
    !Has(es, Duplicate) && !Has(es, SequenceGap) && !Has(es, OutOfOrder)
  }

  lemma NextIsClean(c: DetectorConfig, s: Progress, sample: TelemetrySample, nowNs: int, before: seq<AnomalyEvent>)
    requires SequenceClean(before) && (s.initialized ==> s.lastSequence + 1 == sample.sequence)
    ensures SequenceClean(before + Verdicts(c, s, sample, nowNs))
  {
    hide Verdicts;
    hide Has;
    forall kind | kind in {Duplicate, SequenceGap, OutOfOrder}
      ensures !Has(before + Verdicts(c, s, sample, nowNs), kind)
    {
      VerdictsExactly(c, s, sample, nowNs, kind);
      HasConcat(before, Verdicts(c, s, sample, nowNs), kind);
    }
  }

  lemma RisingPosition(xs: seq<Arrival>, id: string)
    requires xs != [] && From(xs, id)
    requires forall i :: 0 <= i < |xs| ==> xs[i].sample.sequence == i + 1
    ensures ProgressOf(Feed(map[], xs), id).lastSequence == |xs|
  {
    PositionIsHighest(xs, id);
    OrderedStreamsNeverRegress(Numbers(xs));
    assert Numbers(xs)[|xs| - 1] == |xs|;
  }

  lemma {:induction false} RisingIsClean(c: DetectorConfig, xs: seq<Arrival>, id: string)
    requires From(xs, id)
    requires forall i :: 0 <= i < |xs| ==> xs[i].sample.sequence == i + 1
    ensures SequenceClean(Emitted(c, map[], xs))
    decreases |xs|
  {
    if xs == [] {
    } else {
      hide SequenceClean;
      hide Verdicts;
      var n := |xs| - 1;
      RisingIsClean(c, xs[..n], id);
      if n > 0 { RisingPosition(xs[..n], id); }
      NextIsClean(c, ProgressOf(Feed(map[], xs[..n]), id), xs[n].sample, xs[n].nowNs, Emitted(c, map[], xs[..n]));
    }
  }

  lemma {:induction false} BelowContains(q: seq<int>, i: nat, j: nat)
    requires i < j < |q| && q[j] < q[i]
    ensures q[j] in Below(q)
    decreases |q|
  {
    var before := q[..|q| - 1];
    HighestIsMaximum(before);
    if j < |q| - 1 {
      BelowContains(before, i, j);
    } else {
      assert before[i] <= Highest(before);
    }
  }

  lemma {:induction false} RegressedHas(es: seq<AnomalyEvent>)
    requires Regressed(es) != {}
    ensures Has(es, OutOfOrder)
    decreases |es|
  {
    var n := |es| - 1;
    if es[n].kind == OutOfOrder {
    } else {
      RegressedHas(es[..n]);
      HasConcat(es[..n], [es[n]], OutOfOrder);
      assert es[..n] + [es[n]] == es;
    }
  }

  lemma {:induction false} ConsecutiveAt(base: nat, n: nat, i: nat)
    requires i < n
    ensures |Consecutive(base, n)| == n && Consecutive(base, n)[i] == Counter64(base + 1 + i)
    decreases n
  {
    if i < n - 1 {
      ConsecutiveAt(base, n - 1, i);
    } else if n > 1 {
      ConsecutiveAt(base, n - 1, 0);
    }
  }

  /** With no faults and no loss a key shows no duplicate, gap or reordering, exactly as long as its
      counter has not wrapped around. */
  lemma LosslessIsCleanExactly(o: Options, clock: Clock, sent: seq<TelemetrySample>, kept: seq<bool>,
                               at: nat -> int, c: DetectorConfig, k: nat)
    requires k < Keys(o) && Faultless(o, o.count, k) && Sends(o, clock, sent, kept) && Lossless(kept)
    ensures SequenceClean(KeyEvents(sent, kept, at, c, KeyName(o, k))) <==> Unwrapped(o, k)
  {
    var id, total := KeyName(o, k), Total(o, o.count, k);
    var mine := OnlyArrivals(Deliver(sent, kept, at), id);
    StreamsDoNotInterfere(c, map[], Deliver(sent, kept, at), id);
    OnlyArrivalsAreFrom(Deliver(sent, kept, at), id);
    AllDelivered(sent, kept, at, id);
    KeyIsNumbered(o, clock, o.count, k);
    FaultlessNumbers(o, o.count, k);
    assert Numbers(mine) == Consecutive(0, total);
    StreamIsCleanExactly(c, mine, id, total);
  }

  lemma StreamIsCleanExactly(c: DetectorConfig, xs: seq<Arrival>, id: string, total: nat)
    requires From(xs, id) && Numbers(xs) == Consecutive(0, total)
    ensures SequenceClean(Emitted(c, map[], xs)) <==> total < 0x1_0000_0000_0000_0000
  {
    if total < 0x1_0000_0000_0000_0000 {
      ConsecutiveNumbers(0, total);
      assert forall i :: 0 <= i < |xs| ==> xs[i].sample.sequence == Numbers(xs)[i];
      RisingIsClean(c, xs, id);
    } else {
      ConsecutiveAt(0, total, 0);
      ConsecutiveAt(0, total, 0xFFFF_FFFF_FFFF_FFFF);
      Counter64IsModulo(1);
      Counter64IsModulo(0x1_0000_0000_0000_0000);
      BelowContains(Numbers(xs), 0, 0xFFFF_FFFF_FFFF_FFFF);
      RegressedAreBelow(c, xs, id);
      RegressedHas(Emitted(c, map[], xs));
    }
  }

  // ---------------------------------------------------------------- no alarm at all

  /** An arrival with the schema and the age the detector accepts. */
  predicate Acceptable(c: DetectorConfig, x: Arrival) {
    x.sample.schemaVersion == c.expectedSchemaVersion && Timely(c, x)
  }

  /** An arrival whose age the detector accepts. */
  predicate Timely(c: DetectorConfig, x: Arrival) {
    -c.maxFutureSkewMs <= AgeMs(x.sample, x.nowNs) <= c.maxAgeMs
  }

  lemma NoEventOfAnyKind(es: seq<AnomalyEvent>)
    ensures es == [] <==> forall kind :: !Has(es, kind)
  {
    if es != [] {
      assert es[0].kind == es[0].kind;
      assert Has(es, es[0].kind);
    }
  }

  lemma QuietExactly(c: DetectorConfig, s: Progress, x: Arrival)
    ensures Verdicts(c, s, x.sample, x.nowNs) == [] <==>
            SequenceClean(Verdicts(c, s, x.sample, x.nowNs)) && Acceptable(c, x)
  {
    hide Verdicts;
    hide Has;
    hide AgeMs;
    var es := Verdicts(c, s, x.sample, x.nowNs);
    NoEventOfAnyKind(es);
    VerdictsExactly(c, s, x.sample, x.nowNs, SchemaMismatch);
    VerdictsExactly(c, s, x.sample, x.nowNs, Stale);
    VerdictsExactly(c, s, x.sample, x.nowNs, FutureTimestamp);
    if SequenceClean(es) && Acceptable(c, x) {
      forall kind ensures !Has(es, kind) { VerdictsExactly(c, s, x.sample, x.nowNs, kind); }
    }
  }

  lemma CleanSplits(es: seq<AnomalyEvent>, fs: seq<AnomalyEvent>)
    ensures SequenceClean(es + fs) <==> SequenceClean(es) && SequenceClean(fs)
  {
    hide Has;
    HasConcat(es, fs, Duplicate);
    HasConcat(es, fs, SequenceGap);
    HasConcat(es, fs, OutOfOrder);
  }

  /** A stream raises nothing at all exactly when its numbers are clean and every arrival is acceptable. */
  lemma {:induction false} StreamIsQuietExactly(c: DetectorConfig, m: Tracker, xs: seq<Arrival>)
    ensures Emitted(c, m, xs) == [] <==>
            SequenceClean(Emitted(c, m, xs)) && forall x :: x in xs ==> Acceptable(c, x)
    decreases |xs|
  {
    hide Verdicts;
    hide SequenceClean;
    hide Acceptable;
    if xs == [] {
      NothingIsClean();
    } else {
      var n := |xs| - 1;
      var s := ProgressOf(Feed(m, xs[..n]), xs[n].sample.sourceId);
      StreamIsQuietExactly(c, m, xs[..n]);
      QuietExactly(c, s, xs[n]);
      CleanSplits(Emitted(c, m, xs[..n]), Verdicts(c, s, xs[n].sample, xs[n].nowNs));
      assert xs == xs[..n] + [xs[n]];
    }
  }

  lemma NothingIsClean()
    ensures SequenceClean([])
  {
  }

  ghost predicate Drifted(o: Options, rounds: nat, k: nat) {
    1 <= o.schemaDriftAt <= rounds && KeyOf(o, o.schemaDriftAt) == k
  }

  /** Every sample published under a source id has this schema version. */
  ghost predicate HasSchema(xs: seq<TelemetrySample>, id: string, version: u32) {
    forall x :: x in xs && x.sourceId == id ==> x.schemaVersion == version
  }

  lemma {:induction false} BurstSchema(o: Options, clock: Clock, round: nat, base: nat, n: nat, id: string)
    requires round > 0 && round != o.schemaDriftAt
    ensures HasSchema(Burst(o, clock, round, base, n), id, CURRENT_SCHEMA_VERSION)
  {
    hide KeyName;
    hide Counter64;
    if n == 0 {
    } else {
      BurstSchema(o, clock, round, base, n - 1, id);
    }
  }

  lemma RoundSchema(o: Options, clock: Clock, round: nat, k: nat)
    requires round > 0 && k < Keys(o) && !Drifted(o, round, k)
    ensures HasSchema(RoundSamples(o, clock, round), KeyName(o, k), CURRENT_SCHEMA_VERSION)
  {
    hide Counter64;
    var base, n := Total(o, round - 1, KeyOf(o, round)), Repeats(o, KeyOf(o, round));
    if KeyOf(o, round) == k {
      BurstSchema(o, clock, round, base, n, KeyName(o, k));
    } else {
      KeyNamesDiffer(o, KeyOf(o, round), k);
      BurstIsAbout(o, clock, round, base, n);
    }
  }

  lemma {:induction false} BurstIsAbout(o: Options, clock: Clock, round: nat, base: nat, n: nat)
    requires round > 0
    ensures forall x :: x in Burst(o, clock, round, base, n) ==> x.sourceId == KeyName(o, KeyOf(o, round))
  {
    hide KeyName;
    hide Counter64;
    if n == 0 {
    } else {
      BurstIsAbout(o, clock, round, base, n - 1);
    }
  }

  lemma {:induction false} PublishedSchema(o: Options, clock: Clock, rounds: nat, k: nat)
    requires k < Keys(o) && !Drifted(o, rounds, k)
    ensures HasSchema(Published(o, clock, rounds), KeyName(o, k), CURRENT_SCHEMA_VERSION)
  {
    hide KeyName;
    hide KeyOf;
    hide RoundSamples;
    if rounds == 0 {
    } else {
      PublishedSchema(o, clock, rounds - 1, k);
      RoundSchema(o, clock, rounds, k);
    }
  }

  lemma {:induction false} DeliveredSchema(sent: seq<TelemetrySample>, kept: seq<bool>, at: nat -> int, id: string, version: u32)
    requires |kept| == |sent| && HasSchema(sent, id, version)
    ensures forall x :: x in OnlyArrivals(Deliver(sent, kept, at), id) ==> x.sample.schemaVersion == version
    decreases |sent|
  {
    if sent == [] {
    } else {
      var n := |sent| - 1;
      var before := Deliver(sent[..n], kept[..n], at);
      DeliveredSchema(sent[..n], kept[..n], at, id, version);
      assert sent[n] in sent;
      if kept[n] {
        var all := before + [Receipt(sent[n], at(n))];
        assert all[..|all| - 1] == before;
      } else {
        assert Deliver(sent, kept, at) == before;
      }
    }
  }

  /** With no faults and no loss a key raises nothing at all exactly when every sample arrives in time and
      the key's counter has not wrapped around. */
  lemma FaultlessIsQuietExactly(o: Options, clock: Clock, sent: seq<TelemetrySample>, kept: seq<bool>,
                                at: nat -> int, c: DetectorConfig, k: nat)
    requires k < Keys(o) && Faultless(o, o.count, k) && !Drifted(o, o.count, k)
    requires Sends(o, clock, sent, kept) && Lossless(kept)
    requires c.expectedSchemaVersion == CURRENT_SCHEMA_VERSION
    ensures KeyEvents(sent, kept, at, c, KeyName(o, k)) == [] <==>
            Unwrapped(o, k) && forall x :: x in OnlyArrivals(Deliver(sent, kept, at), KeyName(o, k)) ==> Timely(c, x)
  {
    hide KeyName;
    hide Published;
    hide Deliver;
    hide SequenceClean;
    hide Faultless;
    hide Unwrapped;
    hide AgeMs;
    var id := KeyName(o, k);
    var arrivals := Deliver(sent, kept, at);
    LosslessIsCleanExactly(o, clock, sent, kept, at, c, k);
    StreamsDoNotInterfere(c, map[], arrivals, id);
    StreamIsQuietExactly(c, map[], OnlyArrivals(arrivals, id));
    PublishedSchema(o, clock, o.count, k);
    DeliveredSchema(sent, kept, at, id, CURRENT_SCHEMA_VERSION);
    assert forall x :: x in OnlyArrivals(arrivals, id) ==> (Acceptable(c, x) <==> Timely(c, x));
  }
}
