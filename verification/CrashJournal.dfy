/**
 The journal of daemon runs, pruned to its newest 200 rows, and the crash-loop backoff computed
 from it at every start.
 */
module CrashJournal {
  import opened Wrappers

  const KEEP_RUNS := 200
  const CRASH_LOOP_THRESHOLD := 3
  const CRASH_BACKOFF_BASE := 5
  const CRASH_BACKOFF_CAP := 300
  const CRASH_WINDOW := 600
  const U32_MAX := 0xFFFF_FFFF

  datatype RunRow = RunRow(runId: nat, startedAt: int, stoppedAt: Option<int>)

  datatype RunStats = RunStats(runId: nat, consecutiveUnclean: nat, lastCrash: Option<int>)

  // ---------------------------------------------------------------- what the numbers mean

  /** How many of the newest runs never stopped cleanly. */
  function TrailingUnclean(rows: seq<RunRow>): nat {
    if rows == [] || rows[|rows| - 1].stoppedAt.Some? then 0
    else 1 + TrailingUnclean(rows[..|rows| - 1])
  }

  /** The start of the newest run, if it crashed. */
  function LastCrash(rows: seq<RunRow>): Option<int> {
    if TrailingUnclean(rows) == 0 then None else Some(rows[|rows| - 1].startedAt)
  }

  /** `crash_backoff`, in seconds. */
  function CrashBackoff(stats: RunStats, now: int): nat {
    if stats.consecutiveUnclean < CRASH_LOOP_THRESHOLD then 0
    else if stats.lastCrash.None? || now - stats.lastCrash.value > CRASH_WINDOW then 0
    else Min(CRASH_BACKOFF_BASE * Pow2(Min(stats.consecutiveUnclean - CRASH_LOOP_THRESHOLD, 16)), CRASH_BACKOFF_CAP)
  }

  function Pow2(n: nat): nat { if n == 0 then 1 else 2 * Pow2(n - 1) }

  // ---------------------------------------------------------------- the unpruned history

  datatype Op = Begin(now: int) | Finish(runId: nat, now: int)

  /** UPDATE of one row by id; a row that is not there is not touched. */
  function Finished(rows: seq<RunRow>, runId: nat, now: int): seq<RunRow> {
    if rows == [] then []
    else Finished(rows[..|rows| - 1], runId, now)
         + [if rows[|rows| - 1].runId == runId then rows[|rows| - 1].(stoppedAt := Some(now)) else rows[|rows| - 1]]
  }

  /** Every run ever begun: the journal if it were never pruned. */
  function FullHistory(ops: seq<Op>): seq<RunRow> {
    if ops == [] then []
    else
      var before := FullHistory(ops[..|ops| - 1]);
      match ops[|ops| - 1]
      case Begin(now) => before + [RunRow(|before| + 1, now, None)]
      case Finish(runId, now) => Finished(before, runId, now)
  }

  /** The last n rows. */
  function Newest(rows: seq<RunRow>, n: nat): seq<RunRow> { rows[Max(|rows| - n, 0)..] }

  predicate NumberedFrom(rows: seq<RunRow>, first: nat) {
    forall i :: 0 <= i < |rows| ==> rows[i].runId == first + i
  }

  lemma {:induction false} FinishedFacts(rows: seq<RunRow>, runId: nat, now: int)
    ensures |Finished(rows, runId, now)| == |rows|
    ensures forall i :: 0 <= i < |rows| ==>
              Finished(rows, runId, now)[i] == if rows[i].runId == runId then rows[i].(stoppedAt := Some(now)) else rows[i]
  {
    if rows != [] { FinishedFacts(rows[..|rows| - 1], runId, now); }
  }

  /** Finishing commutes with pruning. */
  lemma FinishedNewest(rows: seq<RunRow>, runId: nat, now: int, n: nat)
    ensures Newest(Finished(rows, runId, now), n) == Finished(Newest(rows, n), runId, now)
  {
    FinishedFacts(rows, runId, now);
    FinishedFacts(Newest(rows, n), runId, now);
  }

  lemma {:induction false} HistoryNumbered(ops: seq<Op>)
    ensures NumberedFrom(FullHistory(ops), 1)
  {
    if ops != [] {
      HistoryNumbered(ops[..|ops| - 1]);
      if ops[|ops| - 1].Finish? {
        FinishedFacts(FullHistory(ops[..|ops| - 1]), ops[|ops| - 1].runId, ops[|ops| - 1].now);
      }
    }
  }

  /** The streak read from the newest n rows is the true streak, cut off at n. */
  lemma {:induction false} PrunedStreak(rows: seq<RunRow>, n: nat)
    ensures TrailingUnclean(Newest(rows, n)) == Min(TrailingUnclean(rows), n)
    decreases |rows|
  {
    if rows != [] && n > 0 {
      PrunedStreak(rows[..|rows| - 1], n - 1);
      assert Newest(rows, n)[..|Newest(rows, n)| - 1] == Newest(rows[..|rows| - 1], n - 1);
    }
  }

  // ---------------------------------------------------------------- the journal as an object

  class Journal {
    var rows: seq<RunRow>
    var nextId: nat          // the AUTOINCREMENT high-water mark plus one
    ghost var history: seq<Op>

    /** The table holds exactly the newest rows of the full history. */
    ghost predicate Valid()
      reads this
    {
      rows == Newest(FullHistory(history), KEEP_RUNS) && nextId == |FullHistory(history)| + 1
    }

    constructor ()
      ensures Valid() && history == []
    {
      rows, nextId, history := [], 1, [];
    }

    method BeginRun(now: int) returns (stats: RunStats)
      requires Valid()
      modifies this
      ensures Valid() && history == old(history) + [Begin(now)]
      ensures stats.runId == |FullHistory(history)|
      ensures stats.consecutiveUnclean == Min(TrailingUnclean(FullHistory(old(history))), 200)
      ensures stats.lastCrash == LastCrash(FullHistory(old(history)))
      ensures rows == FullHistory(history)[Max(|FullHistory(history)| - 200, 0)..]
      ensures FullHistory(history) == FullHistory(old(history)) + [RunRow(stats.runId, now, None)]
    {
      var unclean, lastCrash := ScanStreak(rows);
      PrunedStreak(FullHistory(history), KEEP_RUNS);
      var runId := nextId;
      ghost var full := FullHistory(history);
      rows := rows + [RunRow(runId, now, None)];
      nextId := nextId + 1;
      history := history + [Begin(now)];
      assert history[..|history| - 1] == old(history);
      HistoryNumbered(old(history));
      PruneKeepsNewest(full + [RunRow(runId, now, None)], rows, runId);
      rows := Pruned(rows, runId);
      stats := RunStats(runId, unclean, lastCrash);
    }

    method FinishRun(runId: nat, now: int)
      requires Valid()
      modifies this
      ensures Valid() && history == old(history) + [Finish(runId, now)]
      // Only that run's row is stopped, if it is still there.
      ensures |rows| == |old(rows)| && forall i :: 0 <= i < |rows| ==>
                rows[i] == RunRow(old(rows)[i].runId, old(rows)[i].startedAt,
                                  if old(rows)[i].runId == runId then Some(now) else old(rows)[i].stoppedAt)
    {
      FinishedNewest(FullHistory(history), runId, now, KEEP_RUNS);
      FinishedFacts(FullHistory(history), runId, now);
      FinishedFacts(rows, runId, now);
      rows := Finished(rows, runId, now);
      history := history + [Finish(runId, now)];
      assert history[..|history| - 1] == old(history);
    }
  }

  /** Newest first, until the first clean run. */
  method ScanStreak(rows: seq<RunRow>) returns (unclean: nat, lastCrash: Option<int>)
    requires |rows| <= U32_MAX
    ensures unclean == TrailingUnclean(rows) && lastCrash == LastCrash(rows)
    // The newest runs that never stopped, back to the first that did, or to the beginning.
    ensures unclean <= |rows| && forall i :: |rows| - unclean <= i < |rows| ==> rows[i].stoppedAt.None?
    ensures unclean < |rows| ==> rows[|rows| - 1 - unclean].stoppedAt.Some?
    ensures lastCrash == if unclean == 0 then None else Some(rows[|rows| - 1].startedAt)
  {
    unclean, lastCrash := 0, None;
    var i := |rows|;
    assert rows[..i] == rows;
    while i > 0
      invariant 0 <= i <= |rows|
      invariant unclean == |rows| - i && forall j :: i <= j < |rows| ==> rows[j].stoppedAt.None?
      invariant TrailingUnclean(rows) == unclean + TrailingUnclean(rows[..i])
      invariant lastCrash == if unclean == 0 then None else Some(rows[|rows| - 1].startedAt)
    {
      assert rows[..i][..i - 1] == rows[..i - 1];
      if rows[i - 1].stoppedAt.Some? { break; }
      unclean := SatAdd(unclean, 1, U32_MAX);
      if lastCrash.None? { lastCrash := Some(rows[i - 1].startedAt); }
      i := i - 1;
    }
  }

  /** DELETE WHERE run_id <= newest - 200. */
  function Pruned(rows: seq<RunRow>, newest: nat): seq<RunRow> {
    if rows == [] then []
    else (if rows[0].runId <= newest - KEEP_RUNS then [] else [rows[0]]) + Pruned(rows[1..], newest)
  }

  lemma {:induction false} PrunedIsSuffix(rows: seq<RunRow>, first: nat, newest: nat)
    requires NumberedFrom(rows, first)
    ensures Pruned(rows, newest) == rows[Min(Max(newest - KEEP_RUNS + 1 - first, 0), |rows|)..]
  {
    if rows != [] {
      assert NumberedFrom(rows[1..], first + 1);
      PrunedIsSuffix(rows[1..], first + 1, newest);
    }
  }

  /** Deleting by id keeps exactly the newest 200 rows. */
  lemma PruneKeepsNewest(full: seq<RunRow>, rows: seq<RunRow>, runId: nat)
    requires NumberedFrom(full, 1) && runId == |full| > 0
    requires rows == Newest(full[..|full| - 1], KEEP_RUNS) + [full[|full| - 1]]
    ensures Pruned(rows, runId) == Newest(full, KEEP_RUNS)
  {
    var first := Max(|full| - 1 - KEEP_RUNS, 0) + 1;
    assert rows == full[first - 1..];
    PrunedIsSuffix(rows, first, runId);
  }

  // ---------------------------------------------------------------- backoff from the pruned journal

  lemma {:induction false} Pow2Grows(n: nat, m: nat)
    requires n <= m
    ensures Pow2(n) <= Pow2(m)
  {
    if n < m { Pow2Grows(n, m - 1); }
  }

  /** Five doublings of the base stay below the cap, six reach it. */
  lemma CapAtSix(n: nat)
    ensures n >= 6 <==> CRASH_BACKOFF_BASE * Pow2(n) >= CRASH_BACKOFF_CAP
  {
    assert Pow2(6) == 64 && Pow2(5) == 32;
    if n >= 6 { Pow2Grows(6, n); } else { Pow2Grows(n, 5); }
  }

  /** The pruned journal gives the same delay as the unpruned history would, at every clock reading. */
  lemma PrunedBackoffExact(ops: seq<Op>, runId: nat, now: int)
    ensures var full := FullHistory(ops);
            CrashBackoff(RunStats(runId, Min(TrailingUnclean(full), KEEP_RUNS), LastCrash(full)), now)
            == CrashBackoff(RunStats(runId, TrailingUnclean(full), LastCrash(full)), now)
  {
  }

  /** The trailing streak: runs that never stopped, and before them one that did, or none. */
  lemma {:induction false} StreakMeans(rows: seq<RunRow>)
    ensures var n := TrailingUnclean(rows);
            && n <= |rows| && (forall i :: |rows| - n <= i < |rows| ==> rows[i].stoppedAt.None?)
            && (n < |rows| ==> rows[|rows| - 1 - n].stoppedAt.Some?)
            && LastCrash(rows) == if n == 0 then None else Some(rows[|rows| - 1].startedAt)
  {
    if rows != [] && rows[|rows| - 1].stoppedAt.None? { StreakMeans(rows[..|rows| - 1]); }
  }

  /** The delay in seconds, streak by streak. */
  lemma BackoffTable(stats: RunStats, now: int)
    ensures CrashBackoff(stats, now) ==
            if stats.consecutiveUnclean < 3 || stats.lastCrash.None? || now - stats.lastCrash.value > 600 then 0
            else match stats.consecutiveUnclean
                 case 3 => 5
                 case 4 => 10
                 case 5 => 20
                 case 6 => 40
                 case 7 => 80
                 case 8 => 160
                 case _ => 300
  {
    if stats.consecutiveUnclean >= 9 { CapAtSix(Min(stats.consecutiveUnclean - 3, 16)); }
  }

  /** The exponent's own ceiling never shows: the delay is min(5 * 2^(n-3), 300) for every streak. */
  lemma BackoffClosedForm(stats: RunStats, now: int)
    requires stats.consecutiveUnclean >= 3
    requires stats.lastCrash.Some? && now - stats.lastCrash.value <= 600
    ensures CrashBackoff(stats, now) == Min(5 * Pow2(stats.consecutiveUnclean - 3), 300)
  {
    var n := stats.consecutiveUnclean - CRASH_LOOP_THRESHOLD;
    CapAtSix(n);
    CapAtSix(Min(n, 16));
  }

  // ---------------------------------------------------------------- whole runs of crashes

  /** Starts at the given clock readings, none of them ever finished. */
  function Crashes(starts: seq<int>): seq<Op> {
    if starts == [] then [] else Crashes(starts[..|starts| - 1]) + [Begin(starts[|starts| - 1])]
  }

  /** The delay the n-th of these starts waits, after `ops` and the n crashed starts before it. */
  function DelayAt(ops: seq<Op>, starts: seq<int>, n: nat): nat
    requires n < |starts|
  {
    var full := FullHistory(ops + Crashes(starts[..n]));
    CrashBackoff(RunStats(|full| + 1, TrailingUnclean(full), LastCrash(full)), starts[n])
  }

  /** Each crash plus restart falls within 300 seconds of the end of that run's backoff. */
  predicate TightLoop(ops: seq<Op>, starts: seq<int>) {
    forall n :: 0 <= n < |starts| - 1 ==> starts[n + 1] <= starts[n] + DelayAt(ops, starts, n) + 300
  }

  /** The history just before the loop ends with a clean run, or is empty. */
  predicate EndsClean(ops: seq<Op>) { TrailingUnclean(FullHistory(ops)) == 0 }

  lemma BeginAppends(ops: seq<Op>, now: int)
    ensures FullHistory(ops + [Begin(now)]) == FullHistory(ops) + [RunRow(|FullHistory(ops)| + 1, now, None)]
  {
    assert (ops + [Begin(now)])[..|ops|] == ops;
  }

  lemma FinishAppends(ops: seq<Op>, runId: nat, now: int)
    ensures FullHistory(ops + [Finish(runId, now)]) == Finished(FullHistory(ops), runId, now)
  {
    assert (ops + [Finish(runId, now)])[..|ops|] == ops;
  }

  lemma StreakAppends(rows: seq<RunRow>, row: RunRow)
    requires row.stoppedAt.None?
    ensures TrailingUnclean(rows + [row]) == TrailingUnclean(rows) + 1
    ensures LastCrash(rows + [row]) == Some(row.startedAt)
  {
    assert (rows + [row])[..|rows|] == rows;
  }

  lemma {:induction false} CrashesStreak(ops: seq<Op>, starts: seq<int>)
    requires EndsClean(ops)
    ensures TrailingUnclean(FullHistory(ops + Crashes(starts))) == |starts|
    ensures starts != [] ==> LastCrash(FullHistory(ops + Crashes(starts))) == Some(starts[|starts| - 1])
  {
    if starts == [] {
      assert ops + Crashes(starts) == ops;
    } else {
      var n := |starts| - 1;
      CrashesStreak(ops, starts[..n]);
      var before := ops + Crashes(starts[..n]);
      assert ops + Crashes(starts) == before + [Begin(starts[n])];
      BeginAppends(before, starts[n]);
      StreakAppends(FullHistory(before), RunRow(|FullHistory(before)| + 1, starts[n], None));
    }
  }

  lemma GapWithinWindow(ops: seq<Op>, starts: seq<int>, n: nat)
    requires TightLoop(ops, starts) && 1 <= n < |starts|
    ensures starts[n] - starts[n - 1] <= CRASH_WINDOW
  {
    assert starts[n - 1 + 1] <= starts[n - 1] + DelayAt(ops, starts, n - 1) + 300;
  }

  /** In a tight loop the start preceded by n crashes waits exactly min(5 * 2^(n-3), 300) seconds, from n = 3 on. */
  lemma TightLoopDelay(ops: seq<Op>, starts: seq<int>, n: nat)
    requires EndsClean(ops) && TightLoop(ops, starts) && n < |starts|
    ensures DelayAt(ops, starts, n) ==
            if n < 3 then 0 else Min(5 * Pow2(n - 3), 300)
  {
    CrashesStreak(ops, starts[..n]);
    if n >= CRASH_LOOP_THRESHOLD {
      var full := FullHistory(ops + Crashes(starts[..n]));
      GapWithinWindow(ops, starts, n);
      BackoffClosedForm(RunStats(|full| + 1, TrailingUnclean(full), LastCrash(full)), starts[n]);
    }
  }

  /** While the loop lasts the delay never falls and never lapses. */
  lemma DelayNeverFalls(ops: seq<Op>, starts: seq<int>, n: nat, m: nat)
    requires EndsClean(ops) && TightLoop(ops, starts) && n <= m < |starts|
    ensures DelayAt(ops, starts, n) <= DelayAt(ops, starts, m)
  {
    TightLoopDelay(ops, starts, n);
    TightLoopDelay(ops, starts, m);
    if n >= CRASH_LOOP_THRESHOLD {
      Pow2Grows(n - CRASH_LOOP_THRESHOLD, m - CRASH_LOOP_THRESHOLD);
    }
  }

  /** Any start more than 600 seconds after the last one lapses to no delay, however long the streak. */
  lemma LapsesIffGapExceedsWindow(ops: seq<Op>, starts: seq<int>, n: nat)
    requires EndsClean(ops) && 3 <= n < |starts|
    ensures DelayAt(ops, starts, n) == 0 <==> starts[n] - starts[n - 1] > 600
  {
    CrashesStreak(ops, starts[..n]);
    Pow2Grows(0, Min(n - CRASH_LOOP_THRESHOLD, 16));
  }

  /** After a clean finish of the newest run the next start waits 0. */
  lemma CleanFinishResets(ops: seq<Op>, stopped: int, now: int)
    requires FullHistory(ops) != []
    ensures var full := FullHistory(ops + [Finish(|FullHistory(ops)|, stopped)]);
            TrailingUnclean(full) == 0 && CrashBackoff(RunStats(|full| + 1, TrailingUnclean(full), LastCrash(full)), now) == 0
  {
    var n := |FullHistory(ops)|;
    FinishAppends(ops, n, stopped);
    HistoryNumbered(ops);
    FinishedFacts(FullHistory(ops), n, stopped);
  }
}
