// Conservation laws of the detector over arbitrary streams: reordered, duplicated, interleaved.
module DetectorRuns {
  import opened Arithmetic
  import opened Ordering
  import opened Telemetry
  import opened Decimal
  import opened Detector

  datatype Arrival = Arrival(sample: TelemetrySample, nowNs: int)

  /** The detector's table after a stream, oldest arrival first. */
  function Feed(m: Tracker, xs: seq<Arrival>): Tracker {
    if xs == [] then m else Track(Feed(m, xs[..|xs| - 1]), xs[|xs| - 1].sample)
  }

  /** Every event the detector emits over a stream, in order. */
  function Emitted(c: DetectorConfig, m: Tracker, xs: seq<Arrival>): seq<AnomalyEvent> {
    if xs == [] then []
    else
      var (before, x) := (xs[..|xs| - 1], xs[|xs| - 1]);
      Emitted(c, m, before) + Verdicts(c, ProgressOf(Feed(m, before), x.sample.sourceId), x.sample, x.nowNs)
  }

  // ---------------------------------------------------------------- one sample

  predicate Has(events: seq<AnomalyEvent>, kind: AnomalyKind) {
    exists i :: 0 <= i < |events| && events[i].kind == kind
  }

  lemma HasConcat(es: seq<AnomalyEvent>, fs: seq<AnomalyEvent>, kind: AnomalyKind)
    ensures Has(es + fs, kind) <==> Has(es, kind) || Has(fs, kind)
  {
    if Has(es, kind) {
      var i :| 0 <= i < |es| && es[i].kind == kind;
      assert (es + fs)[i] == es[i];
    }
    if Has(fs, kind) {
      var i :| 0 <= i < |fs| && fs[i].kind == kind;
      assert (es + fs)[|es| + i] == fs[i];
    }
  }

  lemma PartsExactly(c: DetectorConfig, s: Progress, sample: TelemetrySample, nowNs: int, kind: AnomalyKind)
    ensures var age := AgeMs(sample, nowNs);
            && (Has(SchemaEvents(c, sample), kind) <==>
                  kind.SchemaMismatch? && sample.schemaVersion != c.expectedSchemaVersion)
            && (Has(AgeEvents(c, sample, nowNs), kind) <==>
                  || (kind.Stale? && age > c.maxAgeMs)
                  || (kind.FutureTimestamp? && age <= c.maxAgeMs && age < -c.maxFutureSkewMs))
            && (Has(SequenceEvents(s, sample, age), kind) <==>
                  && s.initialized
                  && (|| (kind.Duplicate? && sample.sequence == s.lastSequence)
                      || (kind.OutOfOrder? && sample.sequence < s.lastSequence)
                      || (kind.SequenceGap? && sample.sequence > s.lastSequence + 1)))
  {
    var a, b := SchemaEvents(c, sample), AgeEvents(c, sample, nowNs);
    var d := SequenceEvents(s, sample, AgeMs(sample, nowNs));
    assert a != [] ==> a[0].kind == SchemaMismatch;
    assert b != [] ==> b[0].kind == Stale || b[0].kind == FutureTimestamp;
    assert d != [] ==> d[0].kind == Duplicate || d[0].kind == OutOfOrder || d[0].kind == SequenceGap;
  }

  /** Each kind of event is emitted exactly when its condition holds. */
  lemma VerdictsExactly(c: DetectorConfig, s: Progress, sample: TelemetrySample, nowNs: int, kind: AnomalyKind)
    ensures Has(Verdicts(c, s, sample, nowNs), kind) <==>
            match kind
            case SchemaMismatch => sample.schemaVersion != c.expectedSchemaVersion
            case Stale => AgeMs(sample, nowNs) > c.maxAgeMs
            case FutureTimestamp => AgeMs(sample, nowNs) <= c.maxAgeMs && AgeMs(sample, nowNs) < -c.maxFutureSkewMs
            case Duplicate => s.initialized && sample.sequence == s.lastSequence
            case OutOfOrder => s.initialized && sample.sequence < s.lastSequence
            case SequenceGap => s.initialized && sample.sequence > s.lastSequence + 1
  {
    var a, b := SchemaEvents(c, sample), AgeEvents(c, sample, nowNs);
    var d := SequenceEvents(s, sample, AgeMs(sample, nowNs));
    PartsExactly(c, s, sample, nowNs, kind);
    HasConcat(a, b, kind);
    HasConcat(a + b, d, kind);
  }

  function CountKind(es: seq<AnomalyEvent>, kind: AnomalyKind): nat {
    if es == [] then 0 else CountKind(es[..|es| - 1], kind) + if es[|es| - 1].kind == kind then 1 else 0
  }

  /** The order in which the checks report. */
  function Stage(kind: AnomalyKind): nat {
    match kind
    case SchemaMismatch => 0
    case Stale => 1
    case FutureTimestamp => 1
    case _ => 2
  }

  ghost predicate AtMostOnePerStage(es: seq<AnomalyEvent>) {
    forall i, j :: 0 <= i < j < |es| ==> Stage(es[i].kind) < Stage(es[j].kind)
  }

  lemma {:induction false} CountIsHas(es: seq<AnomalyEvent>, kind: AnomalyKind)
    requires AtMostOnePerStage(es)
    ensures CountKind(es, kind) == if Has(es, kind) then 1 else 0
    decreases |es|
  {
    hide Stage;
    if es == [] {
    } else {
      var n := |es| - 1;
      var before := es[..n];
      assert forall i :: 0 <= i < n ==> before[i] == es[i];
      assert forall i :: 0 <= i < n ==> Stage(es[i].kind) < Stage(es[n].kind);
      CountIsHas(before, kind);
      HasLast(es, kind);
      if es[n].kind == kind {
        assert !Has(before, kind);
      }
    }
  }

  lemma HasLast(es: seq<AnomalyEvent>, kind: AnomalyKind)
    requires es != []
    ensures Has(es, kind) <==> Has(es[..|es| - 1], kind) || es[|es| - 1].kind == kind
  {
    var last := [es[|es| - 1]];
    HasConcat(es[..|es| - 1], last, kind);
    assert es[..|es| - 1] + last == es;
    assert Has(last, kind) <==> last[0].kind == kind;
  }

  /** The text that goes with a kind of event. */
  function TextOf(c: DetectorConfig, sample: TelemetrySample, kind: AnomalyKind): string {
    match kind
    case Duplicate => "same sequence observed twice"
    case SequenceGap => "one or more samples were not observed"
    case OutOfOrder => "sequence regressed"
    case Stale => "sample exceeded freshness budget"
    case FutureTimestamp => "source clock is ahead of accepted skew"
    case SchemaMismatch =>
      "expected schema " + NatText(c.expectedSchemaVersion) + " but received " + NatText(sample.schemaVersion)
  }

  /** When a kind of event is called for, the sample having age `age`. */
  predicate Occurs(c: DetectorConfig, s: Progress, sample: TelemetrySample, age: int, kind: AnomalyKind) {
    match kind
    case SchemaMismatch => sample.schemaVersion != c.expectedSchemaVersion
    case Stale => age > c.maxAgeMs
    case FutureTimestamp => age <= c.maxAgeMs && age < -c.maxFutureSkewMs
    case Duplicate => s.initialized && sample.sequence == s.lastSequence
    case OutOfOrder => s.initialized && sample.sequence < s.lastSequence
    case SequenceGap => s.initialized && sample.sequence > s.lastSequence + 1
  }

  /** What an event says of a sample of age `age`. */
  predicate Says(c: DetectorConfig, s: Progress, sample: TelemetrySample, age: int, e: AnomalyEvent) {
    && e.sourceId == sample.sourceId && e.sequence == sample.sequence
    && e.missingSamples == (if e.kind == SequenceGap then sample.sequence - s.lastSequence - 1 else 0)
    && e.ageMs == (if e.kind == SchemaMismatch then 0 else age)
    && e.detail == TextOf(c, sample, e.kind)
  }

  /** What the detector answers to a sample of age `age`: each kind once if its condition holds and not at
      all otherwise, schema before age before sequence, and what every event says. */
  lemma EventsExactly(c: DetectorConfig, s: Progress, sample: TelemetrySample, nowNs: int, age: int)
    requires Truncates(nowNs - sample.sourceTimestampNs, 1_000_000, age)
    ensures var es := Verdicts(c, s, sample, nowNs);
            && AtMostOnePerStage(es)
            && (forall kind :: CountKind(es, kind) == if Occurs(c, s, sample, age, kind) then 1 else 0)
            && (forall e :: e in es ==> Says(c, s, sample, age, e))
  {
    hide Verdicts;
    hide Has;
    hide CountKind;
    hide AtMostOnePerStage;
    hide Says;
    hide TruncDiv;
    TruncDivExactly(nowNs - sample.sourceTimestampNs, 1_000_000, age);
    EventsInOrder(c, s, sample, nowNs);
    EventsSay(c, s, sample, nowNs);
    forall kind ensures CountKind(Verdicts(c, s, sample, nowNs), kind) == if Occurs(c, s, sample, age, kind) then 1 else 0 {
      CountIsHas(Verdicts(c, s, sample, nowNs), kind);
      VerdictsExactly(c, s, sample, nowNs, kind);
    }
  }

  lemma EventsInOrder(c: DetectorConfig, s: Progress, sample: TelemetrySample, nowNs: int)
    ensures AtMostOnePerStage(Verdicts(c, s, sample, nowNs))
  {
    hide NatText;
  }

  lemma EventsSay(c: DetectorConfig, s: Progress, sample: TelemetrySample, nowNs: int)
    ensures forall e :: e in Verdicts(c, s, sample, nowNs) ==> Says(c, s, sample, AgeMs(sample, nowNs), e)
  {
    hide NatText;
    hide TruncDiv;
  }

  /** Every event names the sample it is about. */
  lemma VerdictsAreAbout(c: DetectorConfig, s: Progress, sample: TelemetrySample, nowNs: int)
    ensures forall e :: e in Verdicts(c, s, sample, nowNs) ==>
              e.sourceId == sample.sourceId && e.sequence == sample.sequence
  {
  }

  // ---------------------------------------------------------------- many sources

  function OnlyArrivals(xs: seq<Arrival>, id: string): seq<Arrival> {
    if xs == [] then []
    else OnlyArrivals(xs[..|xs| - 1], id) + if xs[|xs| - 1].sample.sourceId == id then [xs[|xs| - 1]] else []
  }

  function OnlyEvents(es: seq<AnomalyEvent>, id: string): seq<AnomalyEvent> {
    if es == [] then []
    else OnlyEvents(es[..|es| - 1], id) + if es[|es| - 1].sourceId == id then [es[|es| - 1]] else []
  }

  lemma {:induction false} OnlyEventsConcat(es: seq<AnomalyEvent>, fs: seq<AnomalyEvent>, id: string)
    ensures OnlyEvents(es + fs, id) == OnlyEvents(es, id) + OnlyEvents(fs, id)
    decreases |fs|
  {
    if fs == [] {
      assert es + fs == es;
    } else {
      var n := |fs| - 1;
      assert (es + fs)[..|es + fs| - 1] == es + fs[..n];
      OnlyEventsConcat(es, fs[..n], id);
    }
  }

  lemma {:induction false} OnlyEventsAllOrNothing(es: seq<AnomalyEvent>, id: string, owner: string)
    requires forall e :: e in es ==> e.sourceId == owner
    ensures OnlyEvents(es, id) == if id == owner then es else []
    decreases |es|
  {
    if es == [] {
    } else {
      OnlyEventsAllOrNothing(es[..|es| - 1], id, owner);
      assert es[..|es| - 1] + [es[|es| - 1]] == es;
    }
  }

  lemma FeedSnoc(m: Tracker, xs: seq<Arrival>, x: Arrival)
    ensures Feed(m, xs + [x]) == Track(Feed(m, xs), x.sample)
  {
    assert (xs + [x])[..|xs|] == xs;
  }

  lemma EmittedSnoc(c: DetectorConfig, m: Tracker, xs: seq<Arrival>, x: Arrival)
    ensures Emitted(c, m, xs + [x])
            == Emitted(c, m, xs) + Verdicts(c, ProgressOf(Feed(m, xs), x.sample.sourceId), x.sample, x.nowNs)
  {
    assert (xs + [x])[..|xs|] == xs;
  }

  /** Non-interference: a source's position and events are those its own samples alone produce. */
  lemma {:induction false} StreamsDoNotInterfere(c: DetectorConfig, m: Tracker, xs: seq<Arrival>, id: string)
    ensures ProgressOf(Feed(m, xs), id) == ProgressOf(Feed(m, OnlyArrivals(xs, id)), id)
    ensures OnlyEvents(Emitted(c, m, xs), id) == Emitted(c, m, OnlyArrivals(xs, id))
    decreases |xs|
  {
    if xs == [] {
    } else {
      var before, x := xs[..|xs| - 1], xs[|xs| - 1];
      StreamsDoNotInterfere(c, m, before, id);
      var now := Verdicts(c, ProgressOf(Feed(m, before), x.sample.sourceId), x.sample, x.nowNs);
      VerdictsAreAbout(c, ProgressOf(Feed(m, before), x.sample.sourceId), x.sample, x.nowNs);
      OnlyEventsConcat(Emitted(c, m, before), now, id);
      OnlyEventsAllOrNothing(now, id, x.sample.sourceId);
      if x.sample.sourceId == id {
        FeedSnoc(m, OnlyArrivals(before, id), x);
        EmittedSnoc(c, m, OnlyArrivals(before, id), x);
      } else {
        assert OnlyArrivals(xs, id) == OnlyArrivals(before, id);
        assert OnlyEvents(Emitted(c, m, xs), id) == OnlyEvents(Emitted(c, m, before), id);
      }
    }
  }

  // ---------------------------------------------------------------- streams with resets

  /** Everything that can happen to the detector. */
  datatype Input = Take(arrival: Arrival) | Reset(id: string)

  function AfterInput(m: Tracker, i: Input): Tracker {
    match i
    case Take(x) => Track(m, x.sample)
    case Reset(id) => m - {id}
  }

  function EventsFor(c: DetectorConfig, m: Tracker, i: Input): seq<AnomalyEvent> {
    match i
    case Take(x) => Verdicts(c, ProgressOf(m, x.sample.sourceId), x.sample, x.nowNs)
    case Reset(_) => []
  }

  function Follow(m: Tracker, ins: seq<Input>): Tracker {
    if ins == [] then m else AfterInput(Follow(m, ins[..|ins| - 1]), ins[|ins| - 1])
  }

  function Reports(c: DetectorConfig, m: Tracker, ins: seq<Input>): seq<AnomalyEvent> {
    if ins == [] then []
    else
      var before := ins[..|ins| - 1];
      Reports(c, m, before) + EventsFor(c, Follow(m, before), ins[|ins| - 1])
  }

  function OwnerOf(i: Input): string {
    match i
    case Take(x) => x.sample.sourceId
    case Reset(id) => id
  }

  function OnlyInputs(ins: seq<Input>, id: string): seq<Input> {
    if ins == [] then []
    else OnlyInputs(ins[..|ins| - 1], id) + if OwnerOf(ins[|ins| - 1]) == id then [ins[|ins| - 1]] else []
  }

  lemma InputSnoc(c: DetectorConfig, m: Tracker, ins: seq<Input>, i: Input)
    ensures Follow(m, ins + [i]) == AfterInput(Follow(m, ins), i)
    ensures Reports(c, m, ins + [i]) == Reports(c, m, ins) + EventsFor(c, Follow(m, ins), i)
  {
    hide AfterInput;
    hide EventsFor;
    assert (ins + [i])[..|ins|] == ins;
  }

  lemma InputIsAbout(c: DetectorConfig, m: Tracker, i: Input)
    ensures forall e :: e in EventsFor(c, m, i) ==> e.sourceId == OwnerOf(i)
    ensures forall id :: id != OwnerOf(i) ==> ProgressOf(AfterInput(m, i), id) == ProgressOf(m, id)
  {
    if i.Take? {
      VerdictsAreAbout(c, ProgressOf(m, OwnerOf(i)), i.arrival.sample, i.arrival.nowNs);
    }
  }

  lemma InputDependsOnOwner(c: DetectorConfig, m: Tracker, n: Tracker, i: Input)
    requires ProgressOf(m, OwnerOf(i)) == ProgressOf(n, OwnerOf(i))
    ensures ProgressOf(AfterInput(m, i), OwnerOf(i)) == ProgressOf(AfterInput(n, i), OwnerOf(i))
    ensures EventsFor(c, m, i) == EventsFor(c, n, i)
  {
  }

  /** Non-interference with resets: a source's position and events are those its own samples and its own
      resets alone produce. */
  lemma {:induction false} ResetsDoNotInterfere(c: DetectorConfig, m: Tracker, ins: seq<Input>, id: string)
    ensures ProgressOf(Follow(m, ins), id) == ProgressOf(Follow(m, OnlyInputs(ins, id)), id)
    ensures OnlyEvents(Reports(c, m, ins), id) == Reports(c, m, OnlyInputs(ins, id))
    decreases |ins|
  {
    hide AfterInput;
    hide EventsFor;
    if ins == [] {
    } else {
      var before, i := ins[..|ins| - 1], ins[|ins| - 1];
      var own := OnlyInputs(before, id);
      ResetsDoNotInterfere(c, m, before, id);
      InputIsAbout(c, Follow(m, before), i);
      OnlyEventsConcat(Reports(c, m, before), EventsFor(c, Follow(m, before), i), id);
      OnlyEventsAllOrNothing(EventsFor(c, Follow(m, before), i), id, OwnerOf(i));
      if OwnerOf(i) == id {
        InputSnoc(c, m, own, i);
        InputDependsOnOwner(c, Follow(m, before), Follow(m, own), i);
      } else {
        assert OnlyInputs(ins, id) == own;
        assert OnlyEvents(Reports(c, m, ins), id) == OnlyEvents(Reports(c, m, before), id);
      }
    }
  }

  function Takes(xs: seq<Arrival>): seq<Input> {
    seq(|xs|, i requires 0 <= i < |xs| => Take(xs[i]))
  }

  /** After a reset a source starts afresh: its samples are judged as a new detector would judge them,
      so every law below about a stream from the start holds of the stream since the reset. */
  lemma {:induction false} ResetStartsAfresh(c: DetectorConfig, m: Tracker, before: seq<Input>, id: string, xs: seq<Arrival>)
    requires From(xs, id)
    ensures var ins := before + [Reset(id)] + Takes(xs);
            && ProgressOf(Follow(m, ins), id) == ProgressOf(Feed(map[], xs), id)
            && Reports(c, m, ins) == Reports(c, m, before) + Emitted(c, map[], xs)
    decreases |xs|
  {
    hide AfterInput;
    hide EventsFor;
    hide Verdicts;
    hide Follow;
    hide Reports;
    hide Feed;
    hide Emitted;
    if xs == [] {
      ResetForgets(c, m, before, id);
      assert before + [Reset(id)] + Takes(xs) == before + [Reset(id)];
    } else {
      var n := |xs| - 1;
      var ins := before + [Reset(id)] + Takes(xs[..n]);
      ResetStartsAfresh(c, m, before, id, xs[..n]);
      InputSnoc(c, m, ins, Take(xs[n]));
      InputDependsOnOwner(c, Follow(m, ins), Feed(map[], xs[..n]), Take(xs[n]));
      TakeFeeds(c, map[], xs[..n], xs[n]);
      assert before + [Reset(id)] + Takes(xs) == ins + [Take(xs[n])];
      assert xs[..n] + [xs[n]] == xs;
    }
  }

  lemma ResetForgets(c: DetectorConfig, m: Tracker, before: seq<Input>, id: string)
    ensures ProgressOf(Follow(m, before + [Reset(id)]), id) == ProgressOf(Feed(map[], []), id)
    ensures Reports(c, m, before + [Reset(id)]) == Reports(c, m, before) + Emitted(c, map[], [])
  {
    hide Follow;
    hide Reports;
    InputSnoc(c, m, before, Reset(id));
  }

  lemma TakeFeeds(c: DetectorConfig, m: Tracker, xs: seq<Arrival>, x: Arrival)
    ensures AfterInput(Feed(m, xs), Take(x)) == Feed(m, xs + [x])
    ensures Emitted(c, m, xs) + EventsFor(c, Feed(m, xs), Take(x)) == Emitted(c, m, xs + [x])
  {
    FeedSnoc(m, xs, x);
    EmittedSnoc(c, m, xs, x);
  }

  // ---------------------------------------------------------------- one source

  ghost predicate From(xs: seq<Arrival>, id: string) {
    forall i :: 0 <= i < |xs| ==> xs[i].sample.sourceId == id
  }

  function Numbers(xs: seq<Arrival>): seq<int> {
    seq(|xs|, i requires 0 <= i < |xs| => xs[i].sample.sequence)
  }

  /** The numbers that exceeded everything before them, the first one included. */
  function RunningMaxima(q: seq<int>): set<int> {
    if q == [] then {}
    else
      var (before, v) := (q[..|q| - 1], q[|q| - 1]);
      RunningMaxima(before) + if before == [] || v > Highest(before) then {v} else {}
  }

  /** How many samples after the first advanced the stream. */
  function Advances(q: seq<int>): nat {
    if |q| <= 1 then 0
    else Advances(q[..|q| - 1]) + if q[|q| - 1] > Highest(q[..|q| - 1]) then 1 else 0
  }

  function MissingTotal(es: seq<AnomalyEvent>): nat {
    if es == [] then 0 else MissingTotal(es[..|es| - 1]) + es[|es| - 1].missingSamples
  }

  lemma {:induction false} MissingTotalConcat(es: seq<AnomalyEvent>, fs: seq<AnomalyEvent>)
    ensures MissingTotal(es + fs) == MissingTotal(es) + MissingTotal(fs)
    decreases |fs|
  {
    if fs == [] {
      assert es + fs == es;
    } else {
      var n := |fs| - 1;
      assert (es + fs)[..|es + fs| - 1] == es + fs[..n];
      MissingTotalConcat(es, fs[..n]);
    }
  }

  /** What one sample adds to the missing total. */
  function Gap(s: Progress, sequence: u64): nat {
    if s.initialized && sequence > s.lastSequence then sequence - s.lastSequence - 1 else 0
  }

  lemma MissingTotalSmall(es: seq<AnomalyEvent>)
    requires |es| <= 1
    ensures MissingTotal(es) == if es == [] then 0 else es[0].missingSamples
  {
    if |es| == 1 {
      assert es[..0] == [];
    }
  }

  lemma OtherEventsMissNothing(c: DetectorConfig, sample: TelemetrySample, nowNs: int)
    ensures MissingTotal(SchemaEvents(c, sample)) == 0
    ensures MissingTotal(AgeEvents(c, sample, nowNs)) == 0
  {
    MissingTotalSmall(SchemaEvents(c, sample));
    MissingTotalSmall(AgeEvents(c, sample, nowNs));
  }

  lemma SequenceEventsMissing(s: Progress, sample: TelemetrySample, age: int)
    ensures MissingTotal(SequenceEvents(s, sample, age)) == Gap(s, sample.sequence)
  {
    MissingTotalSmall(SequenceEvents(s, sample, age));
  }

  lemma VerdictsMissing(c: DetectorConfig, s: Progress, sample: TelemetrySample, nowNs: int)
    ensures MissingTotal(Verdicts(c, s, sample, nowNs)) == Gap(s, sample.sequence)
  {
    var a, b := SchemaEvents(c, sample), AgeEvents(c, sample, nowNs);
    var d := SequenceEvents(s, sample, AgeMs(sample, nowNs));
    OtherEventsMissNothing(c, sample, nowNs);
    SequenceEventsMissing(s, sample, AgeMs(sample, nowNs));
    MissingTotalConcat(a + b, d);
    MissingTotalConcat(a, b);
  }

  lemma {:induction false} PositionIsHighest(xs: seq<Arrival>, id: string)
    requires xs != [] && From(xs, id)
    ensures var s := ProgressOf(Feed(map[], xs), id); s.initialized && s.lastSequence == Highest(Numbers(xs))
    decreases |xs|
  {
    var n := |xs| - 1;
    assert Numbers(xs)[..n] == Numbers(xs[..n]);
    if n > 0 {
      PositionIsHighest(xs[..n], id);
    } else {
      assert Feed(map[], xs[..0]) == map[];
    }
  }

  /** Conservation: the distance travelled is what was missed plus what advanced. */
  lemma {:induction false} DistanceIsAccounted(c: DetectorConfig, xs: seq<Arrival>, id: string)
    requires xs != [] && From(xs, id)
    ensures Highest(Numbers(xs)) - Numbers(xs)[0]
            == MissingTotal(Emitted(c, map[], xs)) + Advances(Numbers(xs))
    decreases |xs|
  {
    var n := |xs| - 1;
    var x := xs[n];
    var s := ProgressOf(Feed(map[], xs[..n]), id);
    assert Numbers(xs)[..n] == Numbers(xs[..n]);
    VerdictsMissing(c, s, x.sample, x.nowNs);
    MissingTotalConcat(Emitted(c, map[], xs[..n]), Verdicts(c, s, x.sample, x.nowNs));
    if n == 0 {
    } else {
      DistanceIsAccounted(c, xs[..n], id);
      PositionIsHighest(xs[..n], id);
    }
  }

  // ---------------------------------------------------------------- what was never observed

  function Interval(lo: int, hi: int): (r: set<int>)
    ensures forall v :: v in r <==> lo <= v <= hi
    ensures lo <= hi ==> |r| == hi - lo + 1
    decreases hi - lo
  {
    if lo > hi then {} else Interval(lo, hi - 1) + {hi}
  }

  lemma {:induction false} RunningMaximaSize(q: seq<int>)
    requires q != []
    ensures |RunningMaxima(q)| == Advances(q) + 1
    ensures Highest(q) in RunningMaxima(q)
    ensures forall v :: v in RunningMaxima(q) ==> q[0] <= v <= Highest(q)
    decreases |q|
  {
    if |q| == 1 {
      assert RunningMaxima(q[..0]) == {};
    } else {
      RunningMaximaSize(q[..|q| - 1]);
    }
  }

  function Observed(q: seq<int>): set<int> {
    set v | v in q
  }

  lemma ObservedStep(q: seq<int>)
    requires q != []
    ensures Observed(q) == Observed(q[..|q| - 1]) + {q[|q| - 1]}
  {
    assert q == q[..|q| - 1] + [q[|q| - 1]];
  }

  /** The sequence numbers between the first sample and the highest that never arrived. */
  function NeverObserved(q: seq<int>): set<int>
    requires q != []
  {
    Interval(q[0], Highest(q)) - Observed(q)
  }

  /** The sequence numbers reported out of order. */
  function Regressed(es: seq<AnomalyEvent>): set<int> {
    if es == [] then {}
    else Regressed(es[..|es| - 1]) + if es[|es| - 1].kind.OutOfOrder? then {es[|es| - 1].sequence} else {}
  }

  /** The holes of a stream that a late sample filled: reported out of order, not below the first
      number, and never a running maximum. */
  function FilledLate(q: seq<int>, regressed: set<int>): set<int>
    requires q != []
  {
    set v | v in regressed && q[0] <= v && v !in RunningMaxima(q)
  }

  lemma {:induction false} RegressedConcat(es: seq<AnomalyEvent>, fs: seq<AnomalyEvent>)
    ensures Regressed(es + fs) == Regressed(es) + Regressed(fs)
    decreases |fs|
  {
    if fs == [] {
      assert es + fs == es;
    } else {
      var n := |fs| - 1;
      assert (es + fs)[..|es + fs| - 1] == es + fs[..n];
      RegressedConcat(es, fs[..n]);
    }
  }

  lemma {:induction false} RegressedOf(es: seq<AnomalyEvent>, sequence: int)
    requires forall e :: e in es ==> e.sequence == sequence
    ensures Regressed(es) == if Has(es, OutOfOrder) then {sequence} else {}
    decreases |es|
  {
    if es == [] {
    } else {
      var n := |es| - 1;
      RegressedOf(es[..n], sequence);
      HasConcat(es[..n], [es[n]], OutOfOrder);
      assert es[..n] + [es[n]] == es;
      assert Has([es[n]], OutOfOrder) <==> [es[n]][0].kind == OutOfOrder;
      assert es[n] in es;
    }
  }

  /** A sample is reported out of order exactly when it lies below the maximum before it. */
  lemma RegressedStep(c: DetectorConfig, xs: seq<Arrival>, id: string)
    requires xs != [] && From(xs, id)
    ensures var (p, v) := (xs[..|xs| - 1], xs[|xs| - 1].sample.sequence);
            Regressed(Emitted(c, map[], xs)) == Regressed(Emitted(c, map[], p))
              + if p != [] && v < Highest(Numbers(p)) then {v} else {}
  {
    var n := |xs| - 1;
    var x, p := xs[n], xs[..n];
    var s := ProgressOf(Feed(map[], p), id);
    var now := Verdicts(c, s, x.sample, x.nowNs);
    RegressedConcat(Emitted(c, map[], p), now);
    VerdictsAreAbout(c, s, x.sample, x.nowNs);
    VerdictsExactly(c, s, x.sample, x.nowNs, OutOfOrder);
    RegressedOf(now, x.sample.sequence);
    if n > 0 { PositionIsHighest(p, id); }
  }

  /** The numbers that lay below the maximum when they arrived. */
  function Below(q: seq<int>): set<int> {
    if q == [] then {}
    else
      var (before, v) := (q[..|q| - 1], q[|q| - 1]);
      Below(before) + if before != [] && v < Highest(before) then {v} else {}
  }

  lemma BelowStep(xs: seq<Arrival>)
    requires xs != []
    ensures var (p, v) := (xs[..|xs| - 1], xs[|xs| - 1].sample.sequence as int);
            Below(Numbers(xs)) == Below(Numbers(p)) + if p != [] && v < Highest(Numbers(p)) then {v} else {}
  {
    assert Numbers(xs)[..|xs| - 1] == Numbers(xs[..|xs| - 1]);
  }

  lemma {:induction false} RegressedAreBelow(c: DetectorConfig, xs: seq<Arrival>, id: string)
    requires From(xs, id)
    ensures Regressed(Emitted(c, map[], xs)) == Below(Numbers(xs))
    decreases |xs|
  {
    if xs == [] {
    } else {
      RegressedAreBelow(c, xs[..|xs| - 1], id);
      RegressedStep(c, xs, id);
      BelowStep(xs);
    }
  }

  lemma {:induction false} MaximaWereObserved(q: seq<int>)
    ensures RunningMaxima(q) <= Observed(q)
    decreases |q|
  {
    if q == [] {
    } else {
      MaximaWereObserved(q[..|q| - 1]);
      ObservedStep(q);
    }
  }

  /** Whatever arrives either advances the stream, repeats its maximum, or lies below it. */
  lemma {:induction false} ArrivalsAreAccounted(q: seq<int>)
    ensures Below(q) <= Observed(q) <= Below(q) + RunningMaxima(q)
    decreases |q|
  {
    if q == [] {
    } else {
      var p := q[..|q| - 1];
      ArrivalsAreAccounted(p);
      ObservedStep(q);
      if p != [] { RunningMaximaSize(p); }
    }
  }

  lemma HolesOfAStream(q: seq<int>)
    requires q != []
    ensures |NeverObserved(q)| == Highest(q) - q[0] - Advances(q) - |FilledLate(q, Below(q))|
  {
    hide Highest;
    hide RunningMaxima;
    hide Below;
    hide Interval;
    RunningMaximaSize(q);
    MaximaWereObserved(q);
    ArrivalsAreAccounted(q);
    HighestIsMaximum(q);
    assert q[0] <= Highest(q);
    RangeSplits(Interval(q[0], Highest(q)), q[0], Observed(q), Below(q), RunningMaxima(q), FilledLate(q, Below(q)));
  }

  lemma RangeSplits(all: set<int>, first: int, observed: set<int>, below: set<int>, maxima: set<int>, late: set<int>)
    requires below <= observed <= below + maxima && maxima <= observed && maxima <= all
    requires forall v :: v in observed && first <= v ==> v in all
    requires forall v :: v in all ==> first <= v
    requires late == set v | v in below && first <= v && v !in maxima
    ensures |all - observed| == |all| - |late| - |maxima|
  {
    assert all - observed == all - (late + maxima);
    SizeWithout(all, late, maxima);
  }

  lemma SizeWithout(all: set<int>, a: set<int>, b: set<int>)
    requires a <= all && b <= all && a !! b
    ensures |all - (a + b)| == |all| - |a| - |b|
  {
    assert |a + b| == |a| + |b|;
    assert all == (all - (a + b)) + (a + b);
  }

  /** Conservation over arbitrary streams: of the samples reported missing, those still never
      observed are all but the ones a late sample filled in. */
  lemma NeverObservedExactly(c: DetectorConfig, xs: seq<Arrival>, id: string)
    requires xs != [] && From(xs, id)
    ensures |NeverObserved(Numbers(xs))|
            == MissingTotal(Emitted(c, map[], xs)) - |FilledLate(Numbers(xs), Regressed(Emitted(c, map[], xs)))|
  {
    DistanceIsAccounted(c, xs, id);
    RegressedAreBelow(c, xs, id);
    HolesOfAStream(Numbers(xs));
  }

  /** Without reordering, the missing total is exactly the number of samples never observed. */
  lemma OrderedStreamsMissExactly(c: DetectorConfig, xs: seq<Arrival>, id: string)
    requires xs != [] && From(xs, id)
    requires NonDecreasing(Numbers(xs))
    ensures MissingTotal(Emitted(c, map[], xs)) == |NeverObserved(Numbers(xs))|
  {
    OrderedStreamsNeverRegress(Numbers(xs));
    RegressedAreBelow(c, xs, id);
    NeverObservedExactly(c, xs, id);
    assert FilledLate(Numbers(xs), {}) == {};
  }

  lemma {:induction false} OrderedStreamsNeverRegress(q: seq<int>)
    requires NonDecreasing(q)
    ensures Below(q) == {}
    ensures q != [] ==> Highest(q) == q[|q| - 1]
    decreases |q|
  {
    if q == [] {
    } else {
      OrderedStreamsNeverRegress(q[..|q| - 1]);
    }
  }
}
