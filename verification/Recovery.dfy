// scripts/analyze_recovery.py: what its searches of the health timeline measure. The time between the
// freshness breach and the loss, and the time from restoration to recovery.
module Recovery {
  import opened Arithmetic
  import opened Ordering
  import opened Health
  import opened HealthRuns
  import opened Timeline

  // ---------------------------------------------------------------- what a poller logs

  function TickTimes(turns: seq<Turn>): seq<int> {
    seq(|turns|, i requires 0 <= i < |turns| => turns[i].tickNs)
  }

  function EntryMs(turn: Turn, startNs: int): int {
    TruncDiv(turn.printNs - startNs, NS_PER_MS)
  }

  /** The poller prints after it polls, at most `lagNs` later, and in order. */
  ghost predicate Prompt(turns: seq<Turn>, lagNs: nat) {
    && (forall i :: 0 <= i < |turns| ==> turns[i].tickNs <= turns[i].printNs <= turns[i].tickNs + lagNs)
    && (forall i, j :: 0 <= i <= j < |turns| ==> turns[i].printNs <= turns[j].printNs)
  }

  /** What happens to one source over some turns: its own events, then the poll, turn by turn. */
  function SourceRun(turns: seq<Turn>, id: string): seq<Event> {
    if turns == [] then []
    else
      var (earlier, turn) := (turns[..|turns| - 1], turns[|turns| - 1]);
      SourceRun(earlier, id) + Only(turn.before, id) + [Tick(turn.tickNs)]
  }

  /** The k-th report on a source that starts in state `s`. */
  function PollOf(p: HealthPolicy, s: SourceState, turns: seq<Turn>, id: string, k: nat): HealthSnapshot
    requires k < |turns|
  {
    Decided(p, Run(p, s, SourceRun(turns[..k], id) + Only(turns[k].before, id)), turns[k].tickNs)
  }

  /** The time of an entry: the whole milliseconds, toward zero, between the start and its printing. */
  lemma EntryTimeExactly(turn: Turn, startNs: int)
    ensures Truncates(turn.printNs - startNs, 1_000_000, EntryMs(turn, startNs))
  {
    TruncDivExactly(turn.printNs - startNs, 1_000_000, EntryMs(turn, startNs));
  }

  lemma TurnAdds(p: HealthPolicy, m: Sources, id: string, startNs: int, turns: seq<Turn>, turn: Turn)
    ensures var after := turns + [turn];
            var s := Run(p, StateOf(TableAfter(p, m, id, turns), id), Only(turn.before, id));
            && StateOf(TableAfter(p, m, id, after), id) == Step(p, s, Tick(turn.tickNs))
            && History(p, m, id, startNs, after)
               == History(p, m, id, startNs, turns) + [Entry(EntryMs(turn, startNs), Decided(p, s, turn.tickNs))]
  {
    hide Step;
    hide Decided;
    hide Run;
    hide RunAll;
    hide Only;
    hide TruncDiv;
    hide History;
    hide TableAfter;
    SourcesDoNotInterfere(p, TableAfter(p, m, id, turns), turn.before, id);
    TurnDone(p, m, id, startNs, turns + [turn], |turns|);
    assert (turns + [turn])[..|turns|] == turns && (turns + [turn])[..|turns| + 1] == turns + [turn];
  }

  lemma SourceRunSnoc(turns: seq<Turn>, turn: Turn, id: string)
    ensures SourceRun(turns + [turn], id) == SourceRun(turns, id) + Only(turn.before, id) + [Tick(turn.tickNs)]
  {
    assert (turns + [turn])[..|turns|] == turns;
  }

  /** The turns take the source where its own events and the polls alone would. */
  lemma {:induction false} TableRuns(p: HealthPolicy, m: Sources, id: string, earlier: seq<Turn>, turns: seq<Turn>)
    ensures StateOf(TableAfter(p, m, id, earlier + turns), id)
            == Run(p, StateOf(TableAfter(p, m, id, earlier), id), SourceRun(turns, id))
    decreases |turns|
  {
    hide Step;
    hide TableAfter;
    hide Only;
    if turns == [] {
      assert earlier + turns == earlier;
    } else {
      var n := |turns| - 1;
      var s, es := StateOf(TableAfter(p, m, id, earlier), id), SourceRun(turns[..n], id);
      TableRuns(p, m, id, earlier, turns[..n]);
      TurnAdds(p, m, id, 0, earlier + turns[..n], turns[n]);
      RunConcat(p, s, es, Only(turns[n].before, id));
      RunSnoc(p, s, es + Only(turns[n].before, id), Tick(turns[n].tickNs));
      assert earlier + turns == earlier + turns[..n] + [turns[n]];
    }
  }

  /** After a past, a poller logs its reports, each with its time. */
  ghost predicate Logs(history: seq<Entry>, past: seq<Entry>, p: HealthPolicy, s: SourceState, startNs: int,
                       turns: seq<Turn>, id: string) {
    && |history| == |past| + |turns| && history[..|past|] == past
    && forall k :: 0 <= k < |turns| ==>
         history[|past| + k] == Entry(EntryMs(turns[k], startNs), PollOf(p, s, turns, id, k))
  }

  lemma PollOfPrefix(p: HealthPolicy, s: SourceState, turns: seq<Turn>, turn: Turn, id: string, k: nat)
    requires k < |turns|
    ensures PollOf(p, s, turns + [turn], id, k) == PollOf(p, s, turns, id, k)
  {
    assert (turns + [turn])[..k] == turns[..k];
  }

  lemma LogsOneMore(history: seq<Entry>, past: seq<Entry>, e: Entry, p: HealthPolicy, s: SourceState, startNs: int,
                    turns: seq<Turn>, turn: Turn, id: string)
    requires Logs(history, past, p, s, startNs, turns, id)
    requires var state := Run(p, s, SourceRun(turns, id) + Only(turn.before, id));
             e == Entry(EntryMs(turn, startNs), Decided(p, state, turn.tickNs))
    ensures Logs(history + [e], past, p, s, startNs, turns + [turn], id)
  {
    hide Decided;
    hide EntryMs;
    hide Run;
    hide SourceRun;
    hide Only;
    var all := turns + [turn];
    assert all[..|turns|] == turns && PollOf(p, s, all, id, |turns|) == PollOf(p, s, all, id, |all| - 1);
    forall k | 0 <= k < |turns| ensures PollOf(p, s, all, id, k) == PollOf(p, s, turns, id, k) {
      PollOfPrefix(p, s, turns, turn, id, k);
    }
  }

  lemma {:induction false} HistoryLogs(p: HealthPolicy, m: Sources, id: string, startNs: int,
                                       earlier: seq<Turn>, turns: seq<Turn>)
    ensures Logs(History(p, m, id, startNs, earlier + turns), History(p, m, id, startNs, earlier),
                 p, StateOf(TableAfter(p, m, id, earlier), id), startNs, turns, id)
    decreases |turns|
  {
    hide Decided;
    hide EntryMs;
    hide Run;
    hide PollOf;
    hide History;
    hide TableAfter;
    hide SourceRun;
    hide Only;
    if turns == [] {
      assert earlier + turns == earlier;
    } else {
      hide Logs;
      var n := |turns| - 1;
      var start, table := StateOf(TableAfter(p, m, id, earlier), id), TableAfter(p, m, id, earlier + turns[..n]);
      var s := Run(p, StateOf(table, id), Only(turns[n].before, id));
      HistoryLogs(p, m, id, startNs, earlier, turns[..n]);
      TableRuns(p, m, id, earlier, turns[..n]);
      RunConcat(p, start, SourceRun(turns[..n], id), Only(turns[n].before, id));
      TurnAdds(p, m, id, startNs, earlier + turns[..n], turns[n]);
      LogsOneMore(History(p, m, id, startNs, earlier + turns[..n]), History(p, m, id, startNs, earlier),
                  Entry(EntryMs(turns[n], startNs), Decided(p, s, turns[n].tickNs)),
                  p, start, startNs, turns[..n], turns[n], id);
      assert turns[..n] + [turns[n]] == turns;
      assert earlier + turns == earlier + turns[..n] + [turns[n]];
    }
  }

  /** The last entry of the history has the state the poll left the source in. */
  lemma LastPollIsKept(p: HealthPolicy, m: Sources, id: string, startNs: int, turns: seq<Turn>)
    ensures var (history, s) := (History(p, m, id, startNs, turns), StateOf(TableAfter(p, m, id, turns), id));
            history != [] ==> history[|history| - 1].snap.state == s.state
  {
    hide RunAll;
    hide Verdict;
    hide TruncDiv;
  }

  lemma {:induction false} TableKeepsConsistent(p: HealthPolicy, m: Sources, id: string, turns: seq<Turn>)
    requires Consistent(p, StateOf(m, id))
    ensures Consistent(p, StateOf(TableAfter(p, m, id, turns), id))
    decreases |turns|
  {
    hide Step;
    hide Consistent;
    if turns == [] {
    } else {
      var earlier, turn := turns[..|turns| - 1], turns[|turns| - 1];
      var table := TableAfter(p, m, id, earlier);
      TableKeepsConsistent(p, m, id, earlier);
      SourcesDoNotInterfere(p, table, turn.before, id);
      RunKeepsConsistent(p, StateOf(table, id), Only(turn.before, id));
      RunKeepsConsistent(p, StateOf(RunAll(p, table, turn.before), id), [Tick(turn.tickNs)]);
      RunSnoc(p, StateOf(RunAll(p, table, turn.before), id), [], Tick(turn.tickNs));
      assert [] + [Tick(turn.tickNs)] == [Tick(turn.tickNs)];
    }
  }

  lemma LoggedAt(history: seq<Entry>, past: seq<Entry>, p: HealthPolicy, s: SourceState, startNs: int,
                 turns: seq<Turn>, id: string, h: nat)
    requires Logs(history, past, p, s, startNs, turns, id)
    ensures |history| == |past| + |turns|
    ensures h < |past| ==> history[h] == past[h] && past[h] in past
    ensures |past| <= h < |history| ==>
              history[h] == Entry(EntryMs(turns[h - |past|], startNs), PollOf(p, s, turns, id, h - |past|))
  {
    hide PollOf;
    if |past| <= h < |history| {
      assert history[h] == history[|past| + (h - |past|)];
    } else if h < |past| {
      assert history[..|past|][h] == history[h];
    }
  }

  lemma MillisecondsOrdered(x: int, y: int)
    requires 0 <= x <= y
    ensures TruncDiv(x, NS_PER_MS) <= TruncDiv(y, NS_PER_MS)
  {
  }

  lemma EntriesInOrder(turns: seq<Turn>, lagNs: nat, startNs: int, g: nat, h: nat)
    requires Prompt(turns, lagNs) && g <= h < |turns| && startNs <= turns[0].printNs
    ensures EntryMs(turns[g], startNs) <= EntryMs(turns[h], startNs)
  {
    MillisecondsOrdered(turns[g].printNs - startNs, turns[h].printNs - startNs);
  }

  // ---------------------------------------------------------------- the entry a search finds

  predicate Qualifies(e: Entry, floor: int, sought: HealthState) {
    e.tMs >= floor && e.snap.state == sought
  }

  /** The entry whose time the search of a log returns. */
  ghost predicate Finds(log: seq<Entry>, floor: int, sought: HealthState, e: Entry) {
    exists i :: FindsAt(log, floor, sought, e, i)
  }

  ghost predicate FindsAt(log: seq<Entry>, floor: int, sought: HealthState, e: Entry, i: int) {
    0 <= i < |log| && log[i] == e && Qualifies(e, floor, sought) && forall h :: 0 <= h < i ==> !Qualifies(log[h], floor, sought)
  }

  lemma FindsLonger(log: seq<Entry>, more: seq<Entry>, floor: int, sought: HealthState, e: Entry)
    requires Finds(log, floor, sought, e)
    ensures Finds(log + more, floor, sought, e)
  {
    var i :| FindsAt(log, floor, sought, e, i);
    assert FindsAt(log + more, floor, sought, e, i);
  }

  /** An entry that begins the sought state and is the first to qualify is kept by compression, and found. */
  lemma {:induction false} FirstIsFound(es: seq<Entry>, floor: int, sought: HealthState, i: nat)
    requires i < |es| && Qualifies(es[i], floor, sought)
    requires i > 0 ==> es[i - 1].snap.state != sought
    requires forall h :: 0 <= h < i ==> !Qualifies(es[h], floor, sought)
    ensures Finds(Compressed(es), floor, sought, es[i])
    decreases |es|
  {
    var n := |es| - 1;
    var log := Compressed(es[..n]);
    if i < n {
      FirstIsFound(es[..n], floor, sought, i);
      FindsLonger(log, Compressed(es)[|log|..], floor, sought, es[i]);
      assert Compressed(es) == log + Compressed(es)[|log|..];
    } else {
      EntriesWerePolled(es[..n]);
      assert Compressed(es) == log + [es[n]];
      forall h | 0 <= h < |log| ensures !Qualifies(log[h], floor, sought) { assert log[h] in log; }
      assert FindsAt(Compressed(es), floor, sought, es[n], |log|);
    }
  }

  /** The search of the compressed log finds an entry that begins the sought state after the floor. */
  lemma FirstAfterIs(es: seq<Entry>, floor: int, sought: HealthState, i: nat)
    requires i < |es| && es[i].snap.state == sought
    requires i > 0 ==> es[i - 1].snap.state != sought
    requires forall h :: 0 <= h < i ==> es[h].tMs < floor || es[h].snap.state != sought
    requires forall h :: i <= h < |es| ==> es[h].tMs >= floor
    ensures FirstAfter(Compressed(es), floor, sought) == At(es[i].tMs)
    ensures Finds(Compressed(es), floor, sought, es[i])
  {
    FirstIsFound(es, floor, sought, i);
    SearchAgrees(es, floor, sought);
    FirstAfterMeaning(es, floor, sought);
  }

  // ---------------------------------------------------------------- from the breach to the loss

  ghost predicate OthersOnly(log: seq<Tagged>, id: string) {
    forall e :: e in log ==> e.id != id
  }

  /** Turns in which nothing happens to the source but the polls; other sources may do anything. */
  ghost predicate Silent(turns: seq<Turn>, id: string) {
    forall i :: 0 <= i < |turns| ==> OthersOnly(turns[i].before, id)
  }

  lemma {:induction false} NothingOfOthers(log: seq<Tagged>, id: string)
    requires OthersOnly(log, id)
    ensures Only(log, id) == []
    decreases |log|
  {
    if log == [] {
    } else {
      assert log[|log| - 1] in log;
      NothingOfOthers(log[..|log| - 1], id);
    }
  }

  lemma {:induction false} SilentRun(turns: seq<Turn>, id: string)
    requires Silent(turns, id)
    ensures SourceRun(turns, id) == TickEvents(TickTimes(turns))
    decreases |turns|
  {
    if turns == [] {
    } else {
      var n := |turns| - 1;
      SilentRun(turns[..n], id);
      NothingOfOthers(turns[n].before, id);
      assert TickEvents(TickTimes(turns)) == TickEvents(TickTimes(turns[..n])) + [Tick(turns[n].tickNs)];
    }
  }

  /** Of a silent source the poller reports what its times alone determine. */
  lemma SilentPoll(p: HealthPolicy, s: SourceState, turns: seq<Turn>, id: string, k: nat)
    requires Silent(turns, id) && k < |turns|
    ensures (PollOf(p, s, turns, id, k).state, PollOf(p, s, turns, id, k).reason) == Report(p, s, TickTimes(turns), k)
  {
    hide Verdict;
    SilentRun(turns[..k], id);
    NothingOfOthers(turns[k].before, id);
    assert TickTimes(turns)[..k] == TickTimes(turns[..k]);
    assert SourceRun(turns[..k], id) + [] == SourceRun(turns[..k], id);
  }

  /** Reading two times in whole milliseconds changes their distance by less than one. */
  lemma MillisecondsApart(x: int, y: int, distanceMs: int, slack: nat)
    requires 0 <= x && 0 <= y && 0 - slack < y - x - distanceMs * NS_PER_MS < slack
    ensures var error := (TruncDiv(y, NS_PER_MS) - TruncDiv(x, NS_PER_MS) - distanceMs) * NS_PER_MS;
            0 - slack - NS_PER_MS < error < slack + NS_PER_MS
  {
  }

  lemma PrintedApart(quiet: seq<Turn>, lagNs: nat, startNs: int, i: nat, j: nat, distanceMs: int, period: nat)
    requires Prompt(quiet, lagNs) && i < j < |quiet| && startNs <= quiet[0].printNs
    requires 0 - period < quiet[j].tickNs - quiet[i].tickNs - distanceMs * NS_PER_MS < period
    ensures var error := (EntryMs(quiet[j], startNs) - EntryMs(quiet[i], startNs) - distanceMs) * NS_PER_MS;
            0 - period - lagNs - NS_PER_MS < error < period + lagNs + NS_PER_MS
  {
    hide TruncDiv;
    MillisecondsApart(quiet[i].printNs - startNs, quiet[j].printNs - startNs, distanceMs, period + lagNs);
  }

  /** The first degraded and the first lost report of a silence that lasts until the loss. */
  lemma WindowOf(p: HealthPolicy, s: SourceState, ts: seq<int>, period: nat) returns (i: nat, j: nat)
    requires Consistent(p, s) && s.state.Healthy? && s.lastSampleNs != 0
    requires PolledEvery(ts, period) && period <= (p.lostAfterMs - p.degradedAfterMs) * NS_PER_MS
    requires ts != [] && ts[0] - s.lastSampleNs < p.degradedAfterMs * NS_PER_MS + period
    requires ts[|ts| - 1] - s.lastSampleNs >= p.lostAfterMs * NS_PER_MS
    ensures i < j < |ts| && DegradedFrom(p, s, ts, i, j) && Report(p, s, ts, j) == (Lost, NoData)
    ensures 0 - period < ts[j] - ts[i] - (p.lostAfterMs - p.degradedAfterMs) * NS_PER_MS < period
  {
    hide Report;
    forall h | 0 <= h < |ts| ensures Report(p, s, ts, h) == ByAge(p, ts[h] - s.lastSampleNs) {
      SilentReport(p, s, ts, h);
    }
    j := FirstReaching(ts, s.lastSampleNs + p.lostAfterMs * NS_PER_MS, |ts| - 1);
    UnsafeWindow(p, s, ts, period, j);
    i :| 0 <= i < j && DegradedFrom(p, s, ts, i, j)
         && 0 - period < ts[j] - ts[i] - (p.lostAfterMs - p.degradedAfterMs) * NS_PER_MS < period;
  }

  lemma SilentReported(p: HealthPolicy, s: SourceState, quiet: seq<Turn>, id: string, i: nat, j: nat, k: nat)
    requires Silent(quiet, id) && k < |quiet| && i < j < |quiet|
    requires DegradedFrom(p, s, TickTimes(quiet), i, j) && Report(p, s, TickTimes(quiet), j) == (Lost, NoData)
    ensures var poll := PollOf(p, s, quiet, id, k);
            && (k < i ==> poll.state == Healthy && poll.reason == NoReason)
            && (i <= k < j ==> poll.state == Degraded && poll.reason == StaleData)
            && (k == j ==> poll.state == Lost && poll.reason == NoData)
  {
    hide PollOf;
    hide Report;
    SilentPoll(p, s, quiet, id, k);
  }

  lemma MeasuredFrom(p: HealthPolicy, s: SourceState, startNs: int, quiet: seq<Turn>, id: string, lagNs: nat,
                     floor: int, past: seq<Entry>, history: seq<Entry>, i: nat, j: nat)
    requires Logs(history, past, p, s, startNs, quiet, id) && Prompt(quiet, lagNs) && Silent(quiet, id)
    requires i < j < |quiet| && DegradedFrom(p, s, TickTimes(quiet), i, j)
    requires Report(p, s, TickTimes(quiet), j) == (Lost, NoData)
    requires startNs <= quiet[0].printNs && floor <= EntryMs(quiet[0], startNs)
    requires past != [] ==> past[|past| - 1].snap.state.Healthy?
    requires forall e :: e in past ==> e.tMs < floor || e.snap.state.Healthy?
    ensures |history| == |past| + |quiet|
    ensures MeasuredAs(Compressed(history), floor, EntryMs(quiet[i], startNs), history[|past| + i], Degraded, StaleData)
    ensures MeasuredAs(Compressed(history), floor, EntryMs(quiet[j], startNs), history[|past| + j], Lost, NoData)
  {
    hide Report;
    hide PollOf;
    hide EntryMs;
    hide FirstAfter;
    hide Compressed;
    hide Logs;
    hide Finds;
    hide DegradedFrom;
    hide Silent;
    hide Prompt;
    var n := |past|;
    LoggedAt(history, past, p, s, startNs, quiet, id, 0);
    forall h | 0 <= h < |history|
      ensures h < n ==> history[h] == past[h] && past[h] in past
      ensures h >= n ==> history[h].tMs == EntryMs(quiet[h - n], startNs) >= floor
      ensures n <= h < n + i ==> history[h].snap.state == Healthy
      ensures n + i <= h < n + j ==> history[h].snap.state == Degraded && history[h].snap.reason == StaleData
      ensures h == n + j ==> history[h].snap.state == Lost && history[h].snap.reason == NoData
    {
      LoggedAt(history, past, p, s, startNs, quiet, id, h);
      if h >= n {
        SilentReported(p, s, quiet, id, i, j, h - n);
        EntriesInOrder(quiet, lagNs, startNs, 0, h - n);
      }
    }
    FirstAfterIs(history, floor, Degraded, n + i);
    FirstAfterIs(history, floor, Lost, n + j);
  }

  /** The search returns this time, from this entry, which has this state and this reason. */
  ghost predicate MeasuredAs(log: seq<Entry>, floor: int, tMs: int, e: Entry, state: HealthState, reason: HealthReason) {
    && FirstAfter(log, floor, state) == At(tMs)
    && Finds(log, floor, state, e)
    && e.tMs == tMs && e.snap.state == state && e.snap.reason == reason
  }

  /** What the recovery analysis prints as the time between the freshness breach and the loss is the
      configured distance, to within one poll period, the lag of printing and one millisecond: whatever
      came before the silence, as long as nothing but healthy was logged from the floor on, and whatever
      the other sources do meanwhile. The breach found is staleness and the loss found is ageing. */
  lemma MeasuredUnsafeWindow(p: HealthPolicy, m: Sources, id: string, startNs: int, earlier: seq<Turn>,
                             quiet: seq<Turn>, period: nat, lagNs: nat, floor: int)
    returns (breach: Entry, loss: Entry)
    requires Consistent(p, StateOf(m, id))
    requires var s := StateOf(TableAfter(p, m, id, earlier), id); s.state.Healthy? && s.lastSampleNs != 0
    requires quiet != [] && Silent(quiet, id) && Prompt(quiet, lagNs)
    requires PolledEvery(TickTimes(quiet), period) && period <= (p.lostAfterMs - p.degradedAfterMs) * NS_PER_MS
    requires var last := StateOf(TableAfter(p, m, id, earlier), id).lastSampleNs;
             && quiet[0].tickNs - last < p.degradedAfterMs * NS_PER_MS + period
             && quiet[|quiet| - 1].tickNs - last >= p.lostAfterMs * NS_PER_MS
    requires startNs <= quiet[0].printNs && floor <= EntryMs(quiet[0], startNs)
    requires forall e :: e in History(p, m, id, startNs, earlier) ==> e.tMs < floor || e.snap.state.Healthy?
    ensures var log := Compressed(History(p, m, id, startNs, earlier + quiet));
            && MeasuredAs(log, floor, breach.tMs, breach, Degraded, StaleData)
            && MeasuredAs(log, floor, loss.tMs, loss, Lost, NoData)
    ensures var error := (loss.tMs - breach.tMs - (p.lostAfterMs - p.degradedAfterMs)) * NS_PER_MS;
            0 - period - lagNs - NS_PER_MS < error < period + lagNs + NS_PER_MS
  {
    hide Consistent;
    hide TableAfter;
    hide History;
    hide Compressed;
    hide FirstAfter;
    hide Finds;
    hide Report;
    hide Logs;
    hide Silent;
    hide EntryMs;
    hide PolledEvery;
    hide DegradedFrom;
    var s, ts := StateOf(TableAfter(p, m, id, earlier), id), TickTimes(quiet);
    var past, history := History(p, m, id, startNs, earlier), History(p, m, id, startNs, earlier + quiet);
    TableKeepsConsistent(p, m, id, earlier);
    HistoryLogs(p, m, id, startNs, earlier, quiet);
    LastPollIsKept(p, m, id, startNs, earlier);
    var i, j := WindowOf(p, s, ts, period);
    MeasuredFrom(p, s, startNs, quiet, id, lagNs, floor, past, history, i, j);
    PrintedApart(quiet, lagNs, startNs, i, j, p.lostAfterMs - p.degradedAfterMs, period);
    breach, loss := history[|past| + i], history[|past| + j];
  }

  // ---------------------------------------------------------------- from restoration to recovery

  lemma {:induction false} SourceRunPrefix(turns: seq<Turn>, id: string, k: nat)
    requires k <= |turns|
    ensures SourceRun(turns[..k], id) <= SourceRun(turns, id)
    decreases |turns|
  {
    if k == |turns| {
      assert turns[..k] == turns;
    } else {
      var n := |turns| - 1;
      SourceRunPrefix(turns[..n], id, k);
      assert turns[..n][..k] == turns[..k];
      assert SourceRun(turns[..n], id) <= SourceRun(turns, id);
    }
  }

  /** A poll of a steady source late enough after restoration reports it healthy. */
  lemma LatePollIsHealthy(p: HealthPolicy, s: SourceState, turns: seq<Turn>, id: string, restoredNs: int, gapNs: nat, k: nat)
    requires gapNs < p.degradedAfterMs * NS_PER_MS && p.degradedAfterMs <= p.lostAfterMs
    requires Consistent(p, s) && Steady(p, SourceRun(turns, id), restoredNs, gapNs)
    requires k < |turns| && turns[k].tickNs > restoredNs + Enough(p) * gapNs
    ensures PollOf(p, s, turns, id, k).state == Healthy && PollOf(p, s, turns, id, k).reason == NoReason
  {
    var es, all := SourceRun(turns[..k], id) + Only(turns[k].before, id), SourceRun(turns, id);
    var shown := SourceRun(turns[..k + 1], id);
    SourceRunSnoc(turns[..k], turns[k], id);
    assert turns[..k + 1] == turns[..k] + [turns[k]];
    SourceRunPrefix(turns, id, k + 1);
    SteadyPrefix(p, all, |shown|, restoredNs, gapNs);
    assert all[..|shown|] == es + [Tick(turns[k].tickNs)];
    RecoversInTime(p, s, es, restoredNs, gapNs, turns[k].tickNs);
  }

  /** The search finds something no later than a qualifying entry, once the log is past the floor. */
  lemma FoundBy(es: seq<Entry>, floor: int, sought: HealthState, n: nat, i: nat)
    requires n <= i < |es| && es[i].snap.state == sought
    requires forall h :: 0 <= h < n ==> !Qualifies(es[h], floor, sought)
    requires n > 0 ==> es[n - 1].snap.state != sought
    requires forall h :: n <= h < |es| ==> es[h].tMs >= floor
    requires forall g, h :: n <= g <= h < |es| ==> es[g].tMs <= es[h].tMs
    ensures var found := FirstAfter(Compressed(es), floor, sought); found.At? && found.tMs <= es[i].tMs
  {
    SearchAgrees(es, floor, sought);
    FirstAfterMeaning(es, floor, sought);
    assert Qualifies(es[i], floor, sought);
  }

  /** A recovered source is found in the log of its polls. */
  lemma RecoveryFrom(p: HealthPolicy, s: SourceState, startNs: int, turns: seq<Turn>, id: string, lagNs: nat,
                     floor: int, past: seq<Entry>, history: seq<Entry>, i: nat)
    requires Logs(history, past, p, s, startNs, turns, id) && Prompt(turns, lagNs)
    requires i < |turns| && PollOf(p, s, turns, id, i).state.Healthy?
    requires startNs <= turns[0].printNs && floor <= EntryMs(turns[0], startNs)
    requires past != [] ==> !past[|past| - 1].snap.state.Healthy?
    requires forall e :: e in past ==> e.tMs < floor || !e.snap.state.Healthy?
    ensures var found := FirstAfter(Compressed(history), floor, Healthy);
            found.At? && found.tMs <= EntryMs(turns[i], startNs)
  {
    hide PollOf;
    hide EntryMs;
    hide FirstAfter;
    hide Compressed;
    hide Logs;
    var n := |past|;
    LoggedAt(history, past, p, s, startNs, turns, id, n + i);
    forall h | 0 <= h < |history|
      ensures h < n ==> history[h] == past[h] && past[h] in past
      ensures h >= n ==> history[h].tMs == EntryMs(turns[h - n], startNs) >= floor
    {
      LoggedAt(history, past, p, s, startNs, turns, id, h);
      if h >= n { EntriesInOrder(turns, lagNs, startNs, 0, h - n); }
    }
    forall g, h | n <= g <= h < |history| ensures history[g].tMs <= history[h].tMs {
      EntriesInOrder(turns, lagNs, startNs, g - n, h - n);
    }
    FoundBy(history, floor, Healthy, n, n + i);
  }

  lemma PrintedSoon(turn: Turn, startNs: int, restoredNs: int, floor: int, slack: nat)
    requires startNs <= restoredNs && startNs <= turn.printNs <= restoredNs + slack
    requires floor == TruncDiv(restoredNs - startNs, NS_PER_MS)
    ensures (EntryMs(turn, startNs) - floor) * NS_PER_MS < slack + NS_PER_MS
  {
  }

  /** What the recovery analysis prints as the time to recover: if from restoration on fresh samples come
      at most `gapNs` apart with nothing adverse among them, and polls at most `period` apart, then healthy
      is found within as many gaps as recovery asks for samples, one period, the lag of printing and one
      millisecond, whatever came before, as long as nothing healthy was logged from the floor on and the
      last poll before did not report healthy. */
  lemma MeasuredRecovery(p: HealthPolicy, m: Sources, id: string, startNs: int, earlier: seq<Turn>, later: seq<Turn>,
                         gapNs: nat, period: nat, lagNs: nat, restoredNs: int, floor: int)
    requires gapNs < p.degradedAfterMs * NS_PER_MS && p.degradedAfterMs <= p.lostAfterMs
    requires Consistent(p, StateOf(m, id))
    requires later != [] && Prompt(later, lagNs) && Steady(p, SourceRun(later, id), restoredNs, gapNs)
    requires PolledEvery(TickTimes(later), period) && later[0].tickNs <= restoredNs + period
    requires later[|later| - 1].tickNs > restoredNs + Enough(p) * gapNs
    requires startNs <= restoredNs && floor == TruncDiv(restoredNs - startNs, NS_PER_MS)
    requires startNs <= later[0].printNs && floor <= EntryMs(later[0], startNs)
    requires var past := History(p, m, id, startNs, earlier);
             && (past != [] ==> !past[|past| - 1].snap.state.Healthy?)
             && (forall e :: e in past ==> e.tMs < floor || !e.snap.state.Healthy?)
    ensures var found := FirstAfter(Compressed(History(p, m, id, startNs, earlier + later)), floor, Healthy);
            found.At? && (found.tMs - floor) * NS_PER_MS < Enough(p) * gapNs + period + lagNs + NS_PER_MS
  {
    hide Consistent;
    hide TableAfter;
    hide History;
    hide Compressed;
    hide FirstAfter;
    hide PollOf;
    hide Logs;
    hide Steady;
    hide SourceRun;
    hide Enough;
    hide TruncDiv;
    var s, ts := StateOf(TableAfter(p, m, id, earlier), id), TickTimes(later);
    var past, history := History(p, m, id, startNs, earlier), History(p, m, id, startNs, earlier + later);
    TableKeepsConsistent(p, m, id, earlier);
    HistoryLogs(p, m, id, startNs, earlier, later);
    var dueNs := restoredNs + Enough(p) * gapNs;
    assert dueNs >= restoredNs by { MulMonotone(0, Enough(p), gapNs); }
    var i := FirstReaching(ts, dueNs + 1, |ts| - 1);
    Crossing(ts, period, dueNs + 1, i);
    LatePollIsHealthy(p, s, later, id, restoredNs, gapNs, i);
    RecoveryFrom(p, s, startNs, later, id, lagNs, floor, past, history, i);
    PrintedSoon(later[i], startNs, restoredNs, floor, dueNs - restoredNs + period + lagNs);
  }
}
