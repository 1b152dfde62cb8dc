// apps/dds_subscriber.cpp: the poller that logs the health of one source whenever it changes, and
// scripts/analyze_recovery.py: the search of that log for detection and recovery times.
module Timeline {
  import opened Arithmetic
  import opened Ordering
  import opened Health
  import opened HealthRuns

  /** One HEALTH_AT entry. */
  datatype Entry = Entry(tMs: int, snap: HealthSnapshot)

  /** One turn of the poller: what other threads reported before it, and its two readings of the clock. */
  datatype Turn = Turn(before: seq<Tagged>, tickNs: int, printNs: int)

  predicate Same(a: Entry, b: Entry) {
    a.snap.state == b.snap.state && a.snap.reason == b.snap.reason
  }

  // ---------------------------------------------------------------- specification

  function TableAfter(p: HealthPolicy, m: Sources, id: string, turns: seq<Turn>): Sources {
    if turns == [] then m
    else
      var (earlier, turn) := (turns[..|turns| - 1], turns[|turns| - 1]);
      Observe(p, RunAll(p, TableAfter(p, m, id, earlier), turn.before), id, Tick(turn.tickNs))
  }

  /** What every single poll saw. */
  function History(p: HealthPolicy, m: Sources, id: string, startNs: int, turns: seq<Turn>): seq<Entry> {
    if turns == [] then []
    else
      var (earlier, turn) := (turns[..|turns| - 1], turns[|turns| - 1]);
      var s := StateOf(RunAll(p, TableAfter(p, m, id, earlier), turn.before), id);
      History(p, m, id, startNs, earlier)
      + [Entry(TruncDiv(turn.printNs - startNs, NS_PER_MS), Decided(p, s, turn.tickNs))]
  }

  /** The entries that differ from the one before them. */
  function Compressed(es: seq<Entry>): seq<Entry> {
    if es == [] then []
    else
      var (before, e) := (es[..|es| - 1], es[|es| - 1]);
      Compressed(before) + if before == [] || !Same(before[|before| - 1], e) then [e] else []
  }

  lemma CompressedSnoc(es: seq<Entry>, e: Entry)
    ensures Compressed(es + [e]) == Compressed(es) + if es == [] || !Same(es[|es| - 1], e) then [e] else []
  {
    assert (es + [e])[..|es|] == es;
  }

  lemma PollsStart(p: HealthPolicy, m: Sources, id: string, startNs: int)
    ensures TableAfter(p, m, id, []) == m && History(p, m, id, startNs, []) == [] && Compressed([]) == []
  {
  }

  lemma TurnDone(p: HealthPolicy, m: Sources, id: string, startNs: int, turns: seq<Turn>, i: nat)
    requires i < |turns|
    ensures var table := RunAll(p, TableAfter(p, m, id, turns[..i]), turns[i].before);
            && TableAfter(p, m, id, turns[..i + 1]) == Observe(p, table, id, Tick(turns[i].tickNs))
            && History(p, m, id, startNs, turns[..i + 1])
               == History(p, m, id, startNs, turns[..i])
                  + [Entry(TruncDiv(turns[i].printNs - startNs, NS_PER_MS),
                           Decided(p, StateOf(table, id), turns[i].tickNs))]
  {
    hide Observe;
    hide Decided;
    hide RunAll;
    assert turns[..i + 1][..i] == turns[..i];
  }

  // ---------------------------------------------------------------- the poller

  method HandleAll(health: HealthMonitor, events: seq<Tagged>)
    modifies health
    ensures health.states == RunAll(health.policy, old(health.states), events)
  {
    for i := 0 to |events|
      invariant health.states == RunAll(health.policy, old(health.states), events[..i])
    {
      assert events[..i + 1][..i] == events[..i];
      health.Handle(events[i].id, events[i].event);
    }
    assert events[..|events|] == events;
  }

  method PollLoop(health: HealthMonitor, id: string, startNs: int, turns: seq<Turn>) returns (log: seq<Entry>)
    modifies health
    ensures health.states == TableAfter(health.policy, old(health.states), id, turns)
    ensures log == Compressed(History(health.policy, old(health.states), id, startNs, turns))
  {
    hide Compressed;
    hide History;
    hide TableAfter;
    hide Observe;
    hide Decided;
    hide RunAll;
    PollsStart(health.policy, health.states, id, startNs);
    log := [];
    var last, lastReason, first := Lost, NoData, true;
    ghost var history: seq<Entry> := [];
    for i := 0 to |turns|
      invariant health.states == TableAfter(health.policy, old(health.states), id, turns[..i])
      invariant history == History(health.policy, old(health.states), id, startNs, turns[..i])
      invariant log == Compressed(history)
      invariant first <==> history == []
      invariant !first ==> history[|history| - 1].snap.state == last && history[|history| - 1].snap.reason == lastReason
    {
      TurnDone(health.policy, old(health.states), id, startNs, turns, i);
      HandleAll(health, turns[i].before);
      var snap := health.TickSource(id, turns[i].tickNs);
      var entry := Entry(TruncDiv(turns[i].printNs - startNs, NS_PER_MS), snap);
      CompressedSnoc(history, entry);
      if first || snap.state != last || snap.reason != lastReason {
        log := log + [entry];
        last := snap.state;
        lastReason := snap.reason;
        first := false;
      }
      history := history + [entry];
    }
    assert turns[..|turns|] == turns;
  }

  // ---------------------------------------------------------------- what compression keeps

  /** The latest entry of the log tells the state and the reason of every poll. */
  lemma {:induction false} LatestEntryTells(es: seq<Entry>, i: nat)
    requires i < |es|
    ensures var log := Compressed(es[..i + 1]);
            && log != []
            && log[|log| - 1].snap.state == es[i].snap.state && log[|log| - 1].snap.reason == es[i].snap.reason
    decreases i
  {
    assert es[..i + 1][..i] == es[..i];
    if i == 0 {
    } else {
      LatestEntryTells(es, i - 1);
    }
  }

  lemma {:induction false} NoRepeats(es: seq<Entry>, j: nat)
    requires j + 1 < |Compressed(es)|
    ensures var (a, b) := (Compressed(es)[j].snap, Compressed(es)[j + 1].snap);
            a.state != b.state || a.reason != b.reason
    decreases |es|
  {
    var n := |es| - 1;
    var log := Compressed(es[..n]);
    if j + 1 < |log| {
      NoRepeats(es[..n], j);
    } else if n > 0 {
      LatestEntryTells(es, n - 1);
      assert es[..n - 1 + 1] == es[..n];
    }
  }

  /** Compression invents nothing. */
  lemma {:induction false} EntriesWerePolled(es: seq<Entry>)
    ensures forall e :: e in Compressed(es) ==> e in es
    decreases |es|
  {
    if es == [] {
    } else {
      EntriesWerePolled(es[..|es| - 1]);
    }
  }

  // ---------------------------------------------------------------- searching the log

  datatype Found = NotFound | At(tMs: int)

  /** The time of the first entry at or after the floor in the sought state. */
  function FirstAfter(es: seq<Entry>, floor: int, sought: HealthState): Found {
    if es == [] then NotFound
    else
      var (before, e) := (FirstAfter(es[..|es| - 1], floor, sought), es[|es| - 1]);
      if before != NotFound then before
      else if e.tMs >= floor && e.snap.state == sought then At(e.tMs) else NotFound
  }

  /** What the search means: the hit is an entry, it qualifies, and no earlier entry does. */
  lemma {:induction false} FirstAfterMeaning(es: seq<Entry>, floor: int, sought: HealthState)
    ensures match FirstAfter(es, floor, sought)
            case NotFound => forall i :: 0 <= i < |es| ==> es[i].tMs < floor || es[i].snap.state != sought
            case At(t) =>
              exists i :: 0 <= i < |es| && es[i].tMs == t && t >= floor && es[i].snap.state == sought
                && forall h :: 0 <= h < i ==> es[h].tMs < floor || es[h].snap.state != sought
    decreases |es|
  {
    if es == [] {
    } else {
      var n := |es| - 1;
      FirstAfterMeaning(es[..n], floor, sought);
      assert forall h :: 0 <= h < n ==> es[..n][h] == es[h];
      if FirstAfter(es[..n], floor, sought) == NotFound && es[n].tMs >= floor && es[n].snap.state == sought {
        assert es[n].tMs == FirstAfter(es, floor, sought).tMs;
      }
    }
  }

  lemma FirstAfterSnoc(es: seq<Entry>, e: Entry, floor: int, sought: HealthState)
    ensures FirstAfter(es + [e], floor, sought)
            == if FirstAfter(es, floor, sought) != NotFound then FirstAfter(es, floor, sought)
               else if e.tMs >= floor && e.snap.state == sought then At(e.tMs) else NotFound
  {
    assert (es + [e])[..|es|] == es;
  }

  /** The floor falls between two polls with the same verdict, already in the sought state. */
  ghost predicate StraddledAt(es: seq<Entry>, floor: int, sought: HealthState, i: int) {
    0 < i < |es| && es[i - 1].tMs < floor <= es[i].tMs && es[i].snap.state == sought && Same(es[i - 1], es[i])
  }

  ghost predicate Straddled(es: seq<Entry>, floor: int, sought: HealthState) {
    exists i :: StraddledAt(es, floor, sought, i)
  }

  lemma SearchStep(es: seq<Entry>, e: Entry, floor: int, sought: HealthState)
    requires FirstAfter(Compressed(es), floor, sought) == FirstAfter(es, floor, sought)
    requires !StraddledAt(es + [e], floor, sought, |es|)
    ensures FirstAfter(Compressed(es + [e]), floor, sought) == FirstAfter(es + [e], floor, sought)
  {
    assert (es + [e])[..|es|] == es;
    FirstAfterSnoc(es, e, floor, sought);
    if es != [] && Same(es[|es| - 1], e) {
      assert Compressed(es + [e]) == Compressed(es);
      assert (es + [e])[|es| - 1] == es[|es| - 1];
    } else {
      FirstAfterSnoc(Compressed(es), e, floor, sought);
    }
  }

  /** Searching the compressed log finds what searching every poll would. */
  lemma {:induction false} SearchAgrees(es: seq<Entry>, floor: int, sought: HealthState)
    requires !Straddled(es, floor, sought)
    ensures FirstAfter(Compressed(es), floor, sought) == FirstAfter(es, floor, sought)
    decreases |es|
  {
    if es == [] {
    } else {
      var n := |es| - 1;
      assert forall i :: StraddledAt(es[..n], floor, sought, i) ==> StraddledAt(es, floor, sought, i);
      SearchAgrees(es[..n], floor, sought);
      assert es[..n] + [es[n]] == es;
      SearchStep(es[..n], es[n], floor, sought);
    }
  }

  ghost predicate Rising(es: seq<Entry>) {
    forall i, j :: 0 <= i < j < |es| ==> es[i].tMs < es[j].tMs
  }

  lemma {:induction false} StraddledIsSuppressed(es: seq<Entry>, floor: int, sought: HealthState, i: nat)
    requires Rising(es) && StraddledAt(es, floor, sought, i)
    ensures FirstAfter(es, floor, sought) == At(es[i].tMs)
    ensures es[i] !in Compressed(es)
    decreases |es|
  {
    var n := |es| - 1;
    if i < n {
      assert StraddledAt(es[..n], floor, sought, i);
      StraddledIsSuppressed(es[..n], floor, sought, i);
    } else {
      FirstAfterMeaning(es[..n], floor, sought);
      EntriesWerePolled(es[..n]);
    }
  }

  lemma NoOtherEntryAt(es: seq<Entry>, i: nat)
    requires i < |es| && Rising(es) && es[i] !in Compressed(es)
    ensures forall j :: 0 <= j < |Compressed(es)| ==> Compressed(es)[j].tMs != es[i].tMs
  {
    EntriesWerePolled(es);
    forall j | 0 <= j < |Compressed(es)| ensures Compressed(es)[j].tMs != es[i].tMs {
      assert Compressed(es)[j] in Compressed(es);
      var h :| 0 <= h < |es| && es[h] == Compressed(es)[j];
      assert h < i || i < h;
    }
  }

  /** With polls at increasing times the search agrees exactly when the floor straddles no repeat. */
  lemma SearchAgreesExactly(es: seq<Entry>, floor: int, sought: HealthState)
    requires Rising(es)
    ensures FirstAfter(Compressed(es), floor, sought) == FirstAfter(es, floor, sought)
            <==> !Straddled(es, floor, sought)
  {
    if Straddled(es, floor, sought) {
      var i :| StraddledAt(es, floor, sought, i);
      StraddledIsSuppressed(es, floor, sought, i);
      NoOtherEntryAt(es, i);
      FirstAfterMeaning(Compressed(es), floor, sought);
    } else {
      SearchAgrees(es, floor, sought);
    }
  }
}
