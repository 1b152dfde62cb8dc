// src/dds_transport.cpp, TelemetryPublisher::publish: the concurrent total and the compare-and-swap
// maximum of the time spent in write(). Each atomic operation is one step; any number of calls run at
// once, interleaved in any order, and a weak compare-and-swap may fail for no reason.
module CasMaximum {
  import opened Arithmetic
  import opened Ordering

  /** Where one call of publish() stands between its atomic operations. */
  datatype Pc = Started | Added | Trying(prev: nat) | Finished

  datatype Shared = Shared(total: u64, max: nat, pcs: seq<Pc>)

  /** The next atomic operation of a call; `spurious` only matters to a compare-and-swap. */
  datatype Step = Step(call: nat, spurious: bool)

  /** `blocked` holds, for each call, the microseconds its write took. */
  function Initial(blocked: seq<nat>): Shared {
    Shared(0, 0, seq(|blocked|, _ => Started))
  }

  function Next(blocked: seq<nat>, s: Shared, step: Step): Shared
    requires |s.pcs| == |blocked|
  {
    var i := step.call;
    if i >= |blocked| then s
    else
      match s.pcs[i]
      case Started => s.(total := Wrap(s.total + blocked[i]), pcs := s.pcs[i := Added])
      case Added => s.(pcs := s.pcs[i := Trying(s.max)])
      case Trying(prev) =>
        if blocked[i] <= prev then s.(pcs := s.pcs[i := Finished])
        else if s.max == prev && !step.spurious then s.(max := blocked[i], pcs := s.pcs[i := Finished])
        else s.(pcs := s.pcs[i := Trying(s.max)])
      case Finished => s
  }

  function Wrap(x: nat): u64 {
    x % 0x1_0000_0000_0000_0000
  }

  function Run(blocked: seq<nat>, steps: seq<Step>): (s: Shared)
    ensures |s.pcs| == |blocked|
  {
    if steps == [] then Initial(blocked) else Next(blocked, Run(blocked, steps[..|steps| - 1]), steps[|steps| - 1])
  }

  // ---------------------------------------------------------------- the invariant

  /** The blocked time of the calls that have added theirs. */
  function Contributed(blocked: seq<nat>, pcs: seq<Pc>): nat
    requires |pcs| == |blocked|
  {
    if pcs == [] then 0
    else
      var n := |pcs| - 1;
      Contributed(blocked[..n], pcs[..n]) + if pcs[n].Started? then 0 else blocked[n]
  }

  function Sum(blocked: seq<nat>): nat {
    if blocked == [] then 0 else Sum(blocked[..|blocked| - 1]) + blocked[|blocked| - 1]
  }

  ghost predicate Valid(blocked: seq<nat>, s: Shared) {
    && |s.pcs| == |blocked|
    && s.total == Wrap(Contributed(blocked, s.pcs))
    && (s.max == 0 || exists i :: 0 <= i < |blocked| && s.pcs[i].Finished? && blocked[i] == s.max)
    && (forall i :: 0 <= i < |blocked| && s.pcs[i].Finished? ==> blocked[i] <= s.max)
    && (forall i :: 0 <= i < |blocked| && s.pcs[i].Trying? ==> s.pcs[i].prev <= s.max)
  }

  lemma {:induction false} ContributedUpdate(blocked: seq<nat>, pcs: seq<Pc>, i: nat, pc: Pc)
    requires |pcs| == |blocked| && i < |pcs| && !pc.Started?
    ensures Contributed(blocked, pcs[i := pc])
            == Contributed(blocked, pcs) + if pcs[i].Started? then blocked[i] else 0
    decreases |pcs|
  {
    var n := |pcs| - 1;
    if i < n {
      ContributedUpdate(blocked[..n], pcs[..n], i, pc);
      assert pcs[i := pc][..n] == pcs[..n][i := pc];
    } else {
      assert pcs[i := pc][..n] == pcs[..n];
    }
  }

  lemma {:induction false} NothingContributed(blocked: seq<nat>, pcs: seq<Pc>)
    requires |pcs| == |blocked| && forall i :: 0 <= i < |pcs| ==> pcs[i].Started?
    ensures Contributed(blocked, pcs) == 0
    decreases |pcs|
  {
    if pcs == [] {
    } else {
      NothingContributed(blocked[..|pcs| - 1], pcs[..|pcs| - 1]);
    }
  }

  lemma WrapAdd(a: nat, b: nat)
    ensures Wrap(Wrap(a) + b) == Wrap(a + b)
  {
  }

  lemma NextKeepsValid(blocked: seq<nat>, s: Shared, step: Step)
    requires Valid(blocked, s)
    ensures Valid(blocked, Next(blocked, s, step))
  {
    hide Wrap;
    var i := step.call;
    if i < |blocked| {
      var t := Next(blocked, s, step);
      if !s.pcs[i].Finished? {
        assert t.pcs == s.pcs[i := t.pcs[i]];
        ContributedUpdate(blocked, s.pcs, i, t.pcs[i]);
        WrapAdd(Contributed(blocked, s.pcs), blocked[i]);
      }
      assert t.max != s.max ==> t.pcs[i].Finished? && blocked[i] == t.max;
      if t.max == s.max && s.max != 0 {
        var w :| 0 <= w < |blocked| && s.pcs[w].Finished? && blocked[w] == s.max;
        assert t.pcs[w].Finished?;
      }
    }
  }

  lemma {:induction false} ReachableValid(blocked: seq<nat>, steps: seq<Step>)
    ensures Valid(blocked, Run(blocked, steps))
    decreases |steps|
  {
    if steps == [] {
      NothingContributed(blocked, Initial(blocked).pcs);
    } else {
      ReachableValid(blocked, steps[..|steps| - 1]);
      NextKeepsValid(blocked, Run(blocked, steps[..|steps| - 1]), steps[|steps| - 1]);
    }
  }

  // ---------------------------------------------------------------- what readers may rely on

  /** The maximum never decreases. */
  lemma {:induction false} MaximumOnlyGrows(blocked: seq<nat>, steps: seq<Step>, n: nat)
    requires n <= |steps|
    ensures Run(blocked, steps[..n]).max <= Run(blocked, steps).max
    decreases |steps|
  {
    if n == |steps| {
      assert steps[..n] == steps;
    } else {
      var shorter := steps[..|steps| - 1];
      assert shorter[..n] == steps[..n];
      MaximumOnlyGrows(blocked, shorter, n);
      ReachableValid(blocked, shorter);
    }
  }

  lemma {:induction false} ContributedCovers(blocked: seq<nat>, pcs: seq<Pc>, i: nat)
    requires |pcs| == |blocked| && i < |pcs| && !pcs[i].Started?
    ensures blocked[i] <= Contributed(blocked, pcs) <= Sum(blocked)
    decreases |pcs|
  {
    var n := |pcs| - 1;
    ContributedBound(blocked, pcs);
    if i == n {
    } else {
      ContributedCovers(blocked[..n], pcs[..n], i);
    }
  }

  lemma {:induction false} ContributedBound(blocked: seq<nat>, pcs: seq<Pc>)
    requires |pcs| == |blocked|
    ensures Contributed(blocked, pcs) <= Sum(blocked)
    ensures (forall i :: 0 <= i < |pcs| ==> !pcs[i].Started?) ==> Contributed(blocked, pcs) == Sum(blocked)
    decreases |pcs|
  {
    if pcs == [] {
    } else {
      ContributedBound(blocked[..|pcs| - 1], pcs[..|pcs| - 1]);
    }
  }

  /** At every moment, in every interleaving: the maximum covers every finished call, was reached by
      one of them, and is at most the total as long as the total has not wrapped around. */
  lemma MaximumIsSound(blocked: seq<nat>, steps: seq<Step>)
    ensures var s := Run(blocked, steps);
            && (forall i :: 0 <= i < |blocked| && s.pcs[i].Finished? ==> blocked[i] <= s.max)
            && (s.max == 0 || exists i :: 0 <= i < |blocked| && s.pcs[i].Finished? && blocked[i] == s.max)
            && s.total == Contributed(blocked, s.pcs) % 0x1_0000_0000_0000_0000
            && (Sum(blocked) < 0x1_0000_0000_0000_0000 ==> s.max <= s.total)
  {
    var s := Run(blocked, steps);
    ReachableValid(blocked, steps);
    ContributedBound(blocked, s.pcs);
    if s.max != 0 {
      var i :| 0 <= i < |blocked| && s.pcs[i].Finished? && blocked[i] == s.max;
      ContributedCovers(blocked, s.pcs, i);
    }
  }

  /** One step moves one call: it adds its time, or reads the maximum, or raises it, or learns that there is
      nothing to raise or that its reading is out of date. The maximum changes exactly when a call that
      read its current value holds a longer time and the machine does not fail it. */
  lemma StepExactly(blocked: seq<nat>, s: Shared, step: Step)
    requires |s.pcs| == |blocked| && step.call < |blocked|
    ensures var (t, pc, mine) := (Next(blocked, s, step), s.pcs[step.call], blocked[step.call]);
            var raises := pc.Trying? && pc.prev < mine && pc.prev == s.max && !step.spurious;
            && t.max == (if raises then mine else s.max)
            && t.total == (if pc.Started? then (s.total + mine) % 0x1_0000_0000_0000_0000 else s.total)
            && (t.pcs[step.call].Finished? <==> pc.Finished? || raises || (pc.Trying? && mine <= pc.prev))
            && (t.pcs[step.call].Added? <==> pc.Started?)
            && (t.pcs[step.call].Trying? ==> t.pcs[step.call].prev == s.max)
            && (forall i :: 0 <= i < |blocked| && i != step.call ==> t.pcs[i] == s.pcs[i])
  {
  }

  /** The largest of the blocked times, or 0. */
  function Largest(blocked: seq<nat>): int {
    if blocked == [] then 0 else Highest(blocked)
  }

  /** Once every call has finished, the maximum is exactly the largest time and the total the sum. */
  lemma QuiescentIsExact(blocked: seq<nat>, steps: seq<Step>)
    requires forall i :: 0 <= i < |blocked| ==> Run(blocked, steps).pcs[i].Finished?
    ensures Run(blocked, steps).max == Largest(blocked)
    ensures Run(blocked, steps).total == Sum(blocked) % 0x1_0000_0000_0000_0000
  {
    var s := Run(blocked, steps);
    ReachableValid(blocked, steps);
    ContributedBound(blocked, s.pcs);
    if blocked != [] {
      HighestIsMaximum(blocked);
    }
  }

  // ---------------------------------------------------------------- two loads

  /** What a reader of both gets: it loads the total after `n` steps and then the maximum after `m`. */
  datatype WriteStats = WriteStats(total: u64, max: nat)

  function Stats(blocked: seq<nat>, steps: seq<Step>, n: nat, m: nat): WriteStats
    requires n <= m <= |steps|
  {
    WriteStats(Run(blocked, steps[..n]).total, Run(blocked, steps[..m]).max)
  }

  /** What the pair guarantees: the maximum covers every call that had finished; and while the total has
      not wrapped around, it covers every call that had added its time, so that a maximum above the total
      belongs only to calls that had not. */
  lemma StatsAreSound(blocked: seq<nat>, steps: seq<Step>, n: nat, m: nat)
    requires n <= m <= |steps|
    ensures var (r, pcs) := (Stats(blocked, steps, n, m), Run(blocked, steps[..n]).pcs);
            && (r.max == 0 || r.max in blocked)
            && (forall i :: 0 <= i < |blocked| && pcs[i].Finished? ==> blocked[i] <= r.max)
            && (Sum(blocked) < 0x1_0000_0000_0000_0000 ==>
                  && (forall i :: 0 <= i < |blocked| && !pcs[i].Started? ==> blocked[i] <= r.total)
                  && (r.max > r.total ==> forall i :: 0 <= i < |blocked| && blocked[i] == r.max ==> pcs[i].Started?))
  {
    hide Run;
    hide Sum;
    hide Contributed;
    MaximumIsSound(blocked, steps[..m]);
    MaximumIsSound(blocked, steps[..n]);
    MaximumOnlyGrows(blocked, steps[..m], n);
    assert steps[..m][..n] == steps[..n];
    if Sum(blocked) < 0x1_0000_0000_0000_0000 { AddedAreCovered(blocked, steps[..n]); }
  }

  lemma AddedAreCovered(blocked: seq<nat>, steps: seq<Step>)
    requires Sum(blocked) < 0x1_0000_0000_0000_0000
    ensures var s := Run(blocked, steps);
            forall i :: 0 <= i < |blocked| && !s.pcs[i].Started? ==> blocked[i] <= s.total
  {
    hide Run;
    hide Sum;
    hide Contributed;
    var s := Run(blocked, steps);
    ReachableValid(blocked, steps);
    ContributedBound(blocked, s.pcs);
    forall i | 0 <= i < |blocked| && !s.pcs[i].Started? ensures blocked[i] <= s.total {
      ContributedCovers(blocked, s.pcs, i);
    }
  }

  /** The total is loaded after `before`, the maximum after `more`; the pair is one a single moment could show. */
  ghost predicate Agree(blocked: seq<nat>, before: seq<Step>, more: seq<Step>) {
    var r := Stats(blocked, before + more, |before|, |before + more|);
    r.max <= r.total
  }

  lemma AgreeMeans(blocked: seq<nat>, before: seq<Step>, more: seq<Step>)
    ensures Agree(blocked, before, more) <==> Run(blocked, before + more).max <= Run(blocked, before).total
  {
    hide Run;
    assert (before + more)[..|before|] == before && (before + more)[..|before + more|] == before + more;
  }

  lemma RunOne(blocked: seq<nat>, steps: seq<Step>, step: Step)
    ensures Run(blocked, steps + [step]) == Next(blocked, Run(blocked, steps), step)
  {
    assert (steps + [step])[..|steps|] == steps;
  }

  /** How far a call's own step takes it: from reading the current maximum the next one finishes it. */
  lemma OwnStep(blocked: seq<nat>, s: Shared, i: nat)
    requires |s.pcs| == |blocked| && i < |blocked|
    ensures var t := Next(blocked, s, Step(i, false));
            match s.pcs[i]
            case Started => t.pcs[i] == Added
            case Added => t.pcs[i] == Trying(t.max)
            case Trying(prev) => t.pcs[i].Finished? || (t.pcs[i] == Trying(t.max) && prev != s.max)
            case Finished => t == s
  {
    hide Wrap;
  }

  /** A call left alone finishes within three steps, wherever it stands. */
  lemma AloneItFinishes(blocked: seq<nat>, before: seq<Step>, i: nat)
    requires i < |blocked|
    ensures var go := Step(i, false); Run(blocked, before + [go, go, go]).pcs[i].Finished?
  {
    hide Run;
    hide Next;
    var go := Step(i, false);
    var s1, s2 := Run(blocked, before + [go]), Run(blocked, before + [go] + [go]);
    RunOne(blocked, before, go);
    RunOne(blocked, before + [go], go);
    RunOne(blocked, before + [go] + [go], go);
    OwnStep(blocked, Run(blocked, before), i);
    OwnStep(blocked, s1, i);
    OwnStep(blocked, s2, i);
    assert before + [go] + [go] + [go] == before + [go, go, go];
  }

  /** Exactly when the two loads agree whatever happens between them: no call's time exceeds the total. */
  lemma StatsAgreeExactly(blocked: seq<nat>, before: seq<Step>)
    ensures (forall more :: Agree(blocked, before, more)) <==>
            (forall i :: 0 <= i < |blocked| ==> blocked[i] <= Run(blocked, before).total)
  {
    hide Run;
    hide Agree;
    var total := Run(blocked, before).total;
    if forall i :: 0 <= i < |blocked| ==> blocked[i] <= total {
      forall more ensures Agree(blocked, before, more) {
        MaximumIsSound(blocked, before + more);
        AgreeMeans(blocked, before, more);
      }
    }
    if forall more :: Agree(blocked, before, more) {
      forall i | 0 <= i < |blocked| ensures blocked[i] <= total {
        var go := Step(i, false);
        AloneItFinishes(blocked, before, i);
        MaximumIsSound(blocked, before + [go, go, go]);
        assert Agree(blocked, before, [go, go, go]);
        AgreeMeans(blocked, before, [go, go, go]);
      }
    }
  }

  /** While the total has not wrapped around, only the calls that have not added their time matter. */
  lemma StatsAgreeUnwrapped(blocked: seq<nat>, before: seq<Step>)
    requires Sum(blocked) < 0x1_0000_0000_0000_0000
    ensures var s := Run(blocked, before);
            (forall more :: Agree(blocked, before, more)) <==>
            (forall i :: 0 <= i < |blocked| && s.pcs[i].Started? ==> blocked[i] <= s.total)
  {
    hide Run;
    hide Agree;
    StatsAgreeExactly(blocked, before);
    AddedAreCovered(blocked, before);
  }

  /** Such a pair exists: a whole call may fall between the two loads. */
  lemma StatsCanDisagree()
    ensures exists blocked: seq<nat>, steps: seq<Step>, n: nat, m: nat ::
              n <= m <= |steps| && Stats(blocked, steps, n, m).max > Stats(blocked, steps, n, m).total
  {
    var go := Step(0, false);
    var steps := [go, go, go];
    assert steps[..0] == [] && steps[..1] == [go] && steps[..2] == [go, go] && steps[..3] == steps;
    assert [go][..0] == [] && [go, go][..1] == [go] && steps[..|steps| - 1] == [go, go];
    assert Run([5], [go]).pcs == [Added];
    assert Run([5], [go, go]).pcs == [Trying(0)];
    assert Stats([5], steps, 0, 3) == WriteStats(0, 5);
  }

  // ---------------------------------------------------------------- failures mean progress

  /** A step at which a call's compare-and-swap fails although the machine did not fail it. */
  predicate HonestFailure(blocked: seq<nat>, s: Shared, step: Step)
    requires |s.pcs| == |blocked|
  {
    && step.call < |blocked| && !step.spurious
    && s.pcs[step.call].Trying? && Next(blocked, s, step).pcs[step.call].Trying?
  }

  /** Such a failure means that the maximum strictly grew since the call last read it. */
  lemma {:induction false} FailureMeansGrowth(blocked: seq<nat>, steps: seq<Step>, step: Step)
    requires HonestFailure(blocked, Run(blocked, steps), step)
    ensures var s := Run(blocked, steps);
            s.pcs[step.call].prev < s.max == Next(blocked, s, step).pcs[step.call].prev
  {
    ReachableValid(blocked, steps);
  }

  /** How often a call's compare-and-swap failed honestly in a run. */
  function Failures(blocked: seq<nat>, steps: seq<Step>, call: nat): nat {
    if steps == [] then 0
    else
      var (before, step) := (steps[..|steps| - 1], steps[|steps| - 1]);
      Failures(blocked, before, call)
      + if step.call == call && HonestFailure(blocked, Run(blocked, before), step) then 1 else 0
  }

  /** The times that do not exceed `m`. */
  function Upto(blocked: seq<nat>, m: nat): set<nat> {
    set v | v in blocked && v <= m
  }

  /** The distinct times of all calls. */
  function Values(blocked: seq<nat>): set<nat> {
    set v | v in blocked
  }

  /** The maximum as a call last knew it. */
  function Known(s: Shared, call: nat): nat
    requires call < |s.pcs|
  {
    match s.pcs[call]
    case Trying(prev) => prev
    case Finished => s.max
    case _ => 0
  }

  lemma UptoGrows(blocked: seq<nat>, a: nat, b: nat)
    requires a <= b
    ensures |Upto(blocked, a)| <= |Upto(blocked, b)|
    ensures a < b && b in blocked ==> |Upto(blocked, a)| < |Upto(blocked, b)|
  {
    var x, y := Upto(blocked, a), Upto(blocked, b);
    assert y == x + (y - x);
    if a < b && b in blocked {
      assert b in y - x;
    }
  }

  lemma KnownGrows(blocked: seq<nat>, s: Shared, step: Step, call: nat)
    requires Valid(blocked, s) && call < |blocked|
    ensures Known(s, call) <= Known(Next(blocked, s, step), call)
    ensures step.call == call && HonestFailure(blocked, s, step) ==>
              && Known(s, call) < Known(Next(blocked, s, step), call)
              && Known(Next(blocked, s, step), call) in blocked
  {
  }

  lemma {:induction false} FailuresAreGrowth(blocked: seq<nat>, steps: seq<Step>, call: nat)
    requires call < |blocked|
    ensures Failures(blocked, steps, call) <= |Upto(blocked, Known(Run(blocked, steps), call))|
    decreases |steps|
  {
    hide Upto;
    hide Next;
    if steps == [] {
    } else {
      var before, step := steps[..|steps| - 1], steps[|steps| - 1];
      FailuresAreGrowth(blocked, before, call);
      ReachableValid(blocked, before);
      KnownGrows(blocked, Run(blocked, before), step, call);
      UptoGrows(blocked, Known(Run(blocked, before), call), Known(Run(blocked, steps), call));
    }
  }

  /** Lock-freedom, bounded: a call's compare-and-swap fails honestly at most once for each distinct
      value that any call wants to store, however the calls are scheduled. */
  lemma FailuresAreBounded(blocked: seq<nat>, steps: seq<Step>, call: nat)
    requires call < |blocked|
    ensures Failures(blocked, steps, call) <= |Values(blocked)|
  {
    FailuresAreGrowth(blocked, steps, call);
    var distinct, upto := Values(blocked), Upto(blocked, Known(Run(blocked, steps), call));
    assert distinct == upto + (distinct - upto);
  }
}
