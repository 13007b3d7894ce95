/**
 The drainer's outer loop: when it embeds, when it calls the clustering pass, and the counter that
 decides.  What the queue and the engine answer is given tick by tick, errors included.
 */
module Drainer {
  import opened Wrappers
  import IndexQueue
  import SegmentIndex

  const INDEX_REBUILD_THRESHOLD := 256
  const ROUNDS_PER_TICK := IndexQueue.INDEXER_BATCH / 4

  datatype FlushResult = Embedded(n: nat) | FlushFails

  /**
   The answers to one loop iteration: a queue read error, or n rows, then what each embedding call
   would return (0 behind the last one given) and whether a clustering pass would succeed.
   */
  datatype TickResult = QueueFails | Drained(n: nat, flushes: seq<FlushResult>, indexOk: bool)

  /** What the loop does, in order: every tick, and every call with its answer. */
  datatype Action = Tick(result: TickResult) | Call(answer: FlushResult) | FlushIndex(ok: bool)

  // ---------------------------------------------------------------- the calls of one tick

  /** The answer to the i-th embedding call. */
  function Answer(flushes: seq<FlushResult>, i: nat): FlushResult {
    if i < |flushes| then flushes[i] else Embedded(0)
  }

  /** An answer after which the tick makes no further embedding call. */
  predicate Stops(r: FlushResult) { r == Embedded(0) || r.FlushFails? }

  /** How many of the given answers come before the first that stops the tick. */
  function FirstStop(flushes: seq<FlushResult>): (n: nat)
    ensures n <= |flushes| && (n < |flushes| ==> Stops(flushes[n]))
    ensures forall i :: 0 <= i < n ==> !Stops(flushes[i])
  {
    if flushes == [] || Stops(flushes[0]) then 0 else 1 + FirstStop(flushes[1..])
  }

  /** The calls of a non-empty tick: up to and including the first that stops it, at most eight. */
  function Rounds(flushes: seq<FlushResult>): seq<FlushResult> {
    (flushes + [Embedded(0)])[..Min(FirstStop(flushes) + 1, ROUNDS_PER_TICK)]
  }

  /** They are the answers in order, only the last may stop the tick, and if there are fewer than eight it does. */
  lemma RoundsExact(flushes: seq<FlushResult>, calls: seq<FlushResult>)
    ensures calls == Rounds(flushes) <==>
            && |calls| <= 8
            && (forall j :: 0 <= j < |calls| ==> calls[j] == if j < |flushes| then flushes[j] else Embedded(0))
            && (forall j :: 0 <= j < |calls| - 1 ==> calls[j] != Embedded(0) && calls[j] != FlushFails)
            && (|calls| < 8 ==> calls != [] && (calls[|calls| - 1] == Embedded(0) || calls[|calls| - 1] == FlushFails))
  {
    var stop := FirstStop(flushes);
    if (forall j :: 0 <= j < |calls| ==> calls[j] == Answer(flushes, j)) && calls != Rounds(flushes) {
      if stop + 1 < |calls| {
        assert Stops(calls[stop]);
      }
    }
  }

  /** The calls tick `t` must make: none unless it drained rows. */
  function Expected(t: TickResult): seq<FlushResult> {
    if t.Drained? && t.n > 0 then Rounds(t.flushes) else []
  }

  /** The calls of each tick of a run. */
  function ExpectedAll(ticks: seq<TickResult>): (calls: seq<seq<FlushResult>>)
    ensures |calls| == |ticks|
  {
    if ticks == [] then [] else ExpectedAll(ticks[..|ticks| - 1]) + [Expected(ticks[|ticks| - 1])]
  }

  lemma {:induction false} ExpectedAllAt(ticks: seq<TickResult>, i: nat)
    requires i < |ticks|
    ensures ExpectedAll(ticks)[i] == Expected(ticks[i])
  {
    if i < |ticks| - 1 { ExpectedAllAt(ticks[..|ticks| - 1], i); }
  }

  // ---------------------------------------------------------------- reading a trace

  /**
   What a trace amounts to: its ticks, the embedding calls of each tick before the current one and
   of the current one, the documents embedded since the last `flush_index` call, those embedded
   since the last one that returned Ok, and the calls that failed since then.
   */
  datatype View = View(
    ticks: seq<TickResult>,
    earlier: seq<seq<FlushResult>>,
    calls: seq<FlushResult>,
    since: nat,
    sinceOk: nat,
    failed: nat)

  function Count(r: FlushResult): nat { if r.Embedded? then r.n else 0 }

  function Observe(v: View, a: Action): View {
    match a
    case Tick(r) =>
      v.(ticks := v.ticks + [r], earlier := if v.ticks == [] then [] else v.earlier + [v.calls], calls := [])
    case Call(r) =>
      v.(calls := v.calls + [r], since := v.since + Count(r), sinceOk := v.sinceOk + Count(r))
    case FlushIndex(ok) =>
      if ok then v.(since := 0, sinceOk := 0, failed := 0) else v.(since := 0, failed := v.failed + 1)
  }

  function Read(trace: seq<Action>): View {
    if trace == [] then View([], [], [], 0, 0, 0) else Observe(Read(trace[..|trace| - 1]), trace[|trace| - 1])
  }

  // ---------------------------------------------------------------- what a trace must look like

  /** The embedding calls of every tick. */
  function AllCalls(v: View): seq<seq<FlushResult>> { if v.ticks == [] then [] else v.earlier + [v.calls] }

  /** The current tick is `t`, and `calls` are the embedding calls it has made. */
  predicate InTick(v: View, t: TickResult, calls: seq<FlushResult>) {
    v.ticks != [] && v.ticks[|v.ticks| - 1] == t && v.calls == calls
  }

  /** The current tick has made all its calls. */
  predicate AllCalled(v: View) {
    v.ticks != [] && v.calls == Expected(v.ticks[|v.ticks| - 1])
  }

  predicate Idle(v: View) { v.ticks != [] && v.ticks[|v.ticks| - 1].Drained? && v.ticks[|v.ticks| - 1].n == 0 }

  /** Loop top: all calls are made, a full threshold has been handed over, and after an idle tick everything has. */
  predicate Settled(v: View) {
    && (v.ticks != [] ==> AllCalled(v))
    && v.since < INDEX_REBUILD_THRESHOLD
    && (Idle(v) ==> v.since == 0)
  }

  /** May `a` follow what was read so far? */
  predicate Allowed(v: View, a: Action) {
    match a
    case Tick(_) => Settled(v)
    case Call(r) =>
      && v.ticks != [] && |v.calls| < |Expected(v.ticks[|v.ticks| - 1])|
      && r == Expected(v.ticks[|v.ticks| - 1])[|v.calls|]
    case FlushIndex(ok) =>
      // Behind the tick's last call: on idle with work owed, or at the threshold.
      && AllCalled(v) && v.ticks[|v.ticks| - 1].Drained? && ok == v.ticks[|v.ticks| - 1].indexOk
      && if Idle(v) then v.since > 0 else v.since >= INDEX_REBUILD_THRESHOLD
  }

  predicate WellBehaved(trace: seq<Action>) {
    trace == []
    || (WellBehaved(trace[..|trace| - 1]) && Allowed(Read(trace[..|trace| - 1]), trace[|trace| - 1]))
  }

  // ---------------------------------------------------------------- what is read, said without reading

  /** The documents the calls of a stretch of the trace report. */
  function Embeds(trace: seq<Action>): nat {
    if trace == [] then 0
    else
      Embeds(trace[..|trace| - 1])
      + match trace[|trace| - 1] case Call(Embedded(n)) => n case _ => 0
  }

  function CallsIn(trace: seq<Action>): seq<FlushResult> {
    if trace == [] then []
    else
      CallsIn(trace[..|trace| - 1])
      + match trace[|trace| - 1] case Call(r) => [r] case _ => []
  }

  function FailuresIn(trace: seq<Action>): nat {
    if trace == [] then 0 else FailuresIn(trace[..|trace| - 1]) + if trace[|trace| - 1] == FlushIndex(false) then 1 else 0
  }

  lemma ReadSnoc(before: seq<Action>, after: seq<Action>)
    requires after != []
    ensures Read(before + after) == Observe(Read(before + after[..|after| - 1]), after[|after| - 1])
  {
    assert (before + after)[..|before + after| - 1] == before + after[..|after| - 1];
  }

  lemma {:induction false} SinceBehind(before: seq<Action>, after: seq<Action>)
    requires forall a <- after :: !a.FlushIndex?
    ensures Read(before + after).since == Read(before).since + Embeds(after)
    decreases |after|
  {
    if after == [] {
      assert before + after == before;
    } else {
      SinceBehind(before, after[..|after| - 1]);
      ReadSnoc(before, after);
    }
  }

  lemma {:induction false} SinceOkBehind(before: seq<Action>, after: seq<Action>)
    requires FlushIndex(true) !in after
    ensures Read(before + after).sinceOk == Read(before).sinceOk + Embeds(after)
    ensures Read(before + after).failed == Read(before).failed + FailuresIn(after)
    decreases |after|
  {
    if after == [] {
      assert before + after == before;
    } else {
      SinceOkBehind(before, after[..|after| - 1]);
      ReadSnoc(before, after);
    }
  }

  lemma {:induction false} CallsBehind(before: seq<Action>, after: seq<Action>)
    requires forall a <- after :: !a.Tick?
    ensures var v, w := Read(before), Read(before + after);
            w.ticks == v.ticks && w.earlier == v.earlier && w.calls == v.calls + CallsIn(after)
    decreases |after|
  {
    if after == [] {
      assert before + after == before;
    } else {
      CallsBehind(before, after[..|after| - 1]);
      ReadSnoc(before, after);
    }
  }

  /**
   The counters are what they are called: the documents reported since the last `flush_index` call,
   those since the last one that returned Ok, and the failures since then.
   */
  lemma CountersMean(before: seq<Action>, a: Action, after: seq<Action>)
    ensures a.FlushIndex? && (forall b <- after :: !b.FlushIndex?) ==> Read(before + [a] + after).since == Embeds(after)
    ensures a == FlushIndex(true) && FlushIndex(true) !in after ==>
              Read(before + [a] + after).sinceOk == Embeds(after) && Read(before + [a] + after).failed == FailuresIn(after)
  {
    ReadLast(before, a);
    if a.FlushIndex? && forall b <- after :: !b.FlushIndex? { SinceBehind(before + [a], after); }
    if a == FlushIndex(true) && FlushIndex(true) !in after { SinceOkBehind(before + [a], after); }
  }

  lemma ReadLast(before: seq<Action>, a: Action)
    ensures Read(before + [a]) == Observe(Read(before), a)
  {
    assert (before + [a])[..|before|] == before;
  }

  /** The calls of a tick are those between it and the next. */
  lemma CallsMean(before: seq<Action>, t: TickResult, after: seq<Action>)
    requires forall b <- after :: !b.Tick?
    ensures var v := Read(before + [Tick(t)] + after);
            v.ticks == Read(before).ticks + [t] && v.calls == CallsIn(after)
            && AllCalls(v) == AllCalls(Read(before)) + [CallsIn(after)]
  {
    ReadLast(before, Tick(t));
    CallsBehind(before + [Tick(t)], after);
    assert [] + CallsIn(after) == CallsIn(after);
  }

  /** Before the first call the counters count from the start. */
  lemma CountersFromStart(trace: seq<Action>)
    ensures (forall b <- trace :: !b.FlushIndex?) ==> Read(trace).since == Embeds(trace)
    ensures FlushIndex(true) !in trace ==> Read(trace).sinceOk == Embeds(trace) && Read(trace).failed == FailuresIn(trace)
  {
    assert [] + trace == trace;
    if forall b <- trace :: !b.FlushIndex? { SinceBehind([], trace); }
    if FlushIndex(true) !in trace { SinceOkBehind([], trace); }
  }

  lemma PrefixOfPrefix(trace: seq<Action>, i: nat)
    requires i < |trace|
    ensures trace[..|trace| - 1][..i] == trace[..i]
  {
  }

  lemma LastBehaves(trace: seq<Action>)
    requires WellBehaved(trace) && trace != []
    ensures WellBehaved(trace[..|trace| - 1]) && Allowed(Read(trace[..|trace| - 1]), trace[|trace| - 1])
  {
  }

  lemma {:induction false} PrefixBehaves(trace: seq<Action>, i: nat)
    requires WellBehaved(trace) && i < |trace|
    ensures Allowed(Read(trace[..i]), trace[i])
    decreases |trace|
  {
    LastBehaves(trace);
    if i < |trace| - 1 {
      PrefixBehaves(trace[..|trace| - 1], i);
      PrefixOfPrefix(trace, i);
    }
  }

  /** The pass is called with anything owed behind an idle tick, with 256 owed behind a busy one; no tick begins while it is due. */
  predicate PassDue(v: View, a: Action) {
    && (a.FlushIndex? ==>
          && v.ticks != [] && v.ticks[|v.ticks| - 1].Drained? && a.ok == v.ticks[|v.ticks| - 1].indexOk
          && if v.ticks[|v.ticks| - 1].n == 0 then v.since > 0 else v.since >= 256)
    && (a.Tick? && v.ticks != [] ==>
          v.since < 256 && (v.ticks[|v.ticks| - 1].Drained? && v.ticks[|v.ticks| - 1].n == 0 ==> v.since == 0))
  }

  lemma AllowedIsDue(v: View, a: Action)
    requires Allowed(v, a)
    ensures PassDue(v, a)
  {
  }

  /** Over a whole run: the pass is called exactly when it is due. */
  lemma PassCalledWhen(trace: seq<Action>, i: nat)
    requires WellBehaved(trace) && i < |trace|
    ensures PassDue(Read(trace[..i]), trace[i])
  {
    PrefixBehaves(trace, i);
    AllowedIsDue(Read(trace[..i]), trace[i]);
  }

  // ---------------------------------------------------------------- the debt

  /** The engine embeds at most four documents per call. */
  predicate Small(flushes: seq<FlushResult>) {
    forall j :: 0 <= j < |flushes| ==> Count(flushes[j]) <= SegmentIndex.FLUSH_EMBED_BATCH
  }

  predicate Bounded(ticks: seq<TickResult>) {
    forall i :: 0 <= i < |ticks| && ticks[i].Drained? ==> Small(ticks[i].flushes)
  }

  /** Every finished tick made exactly its calls, the current one a prefix of them. */
  predicate CallsExact(v: View) {
    if v.ticks == [] then v.earlier == [] && v.calls == []
    else
      && v.earlier == ExpectedAll(v.ticks[..|v.ticks| - 1])
      && v.calls <= Expected(v.ticks[|v.ticks| - 1])
  }

  /** The debt is below 256 plus four per call so far, and each failed pass left at most 287 behind. */
  predicate DebtBounded(v: View) {
    && v.since <= INDEX_REBUILD_THRESHOLD - 1 + SegmentIndex.FLUSH_EMBED_BATCH * |v.calls|
    && v.sinceOk <= 287 * v.failed + v.since
  }

  /** The counter counts the documents no successful pass has seen, unless a pass has failed since the last success. */
  predicate FailuresShow(v: View) { v.since <= v.sinceOk && (v.since == v.sinceOk <==> v.failed == 0) }

  lemma ExpectedSmall(t: TickResult)
    requires t.Drained? ==> Small(t.flushes)
    ensures |Expected(t)| <= ROUNDS_PER_TICK && Small(Expected(t))
  {
  }

  lemma PrefixGrows<T>(s: seq<T>, n: nat)
    requires n < |s|
    ensures s[..n + 1] == s[..n] + [s[n]]
  {
  }

  lemma PrefixExtends<T>(s: seq<T>, all: seq<T>)
    requires s <= all && |s| < |all|
    ensures s + [all[|s|]] <= all
  {
  }

  lemma StepCalls(v: View, a: Action)
    requires CallsExact(v) && Allowed(v, a)
    ensures CallsExact(Observe(v, a))
  {
    match a {
      case Tick(t) => assert (v.ticks + [t])[..|v.ticks|] == v.ticks;
      case Call(_) =>
        PrefixExtends(v.calls, Expected(v.ticks[|v.ticks| - 1]));
      case FlushIndex(_) =>
    }
  }

  lemma StepDebt(v: View, a: Action)
    requires CallsExact(v) && DebtBounded(v) && Bounded(v.ticks) && Allowed(v, a)
    ensures DebtBounded(Observe(v, a))
  {
    if v.ticks != [] {
      ExpectedSmall(v.ticks[|v.ticks| - 1]);
    }
  }

  lemma StepFailures(v: View, a: Action)
    requires FailuresShow(v) && Allowed(v, a)
    ensures FailuresShow(Observe(v, a))
  {
  }

  lemma {:induction false} TraceKeeps(trace: seq<Action>)
    requires WellBehaved(trace)
    ensures CallsExact(Read(trace)) && FailuresShow(Read(trace))
    ensures Bounded(Read(trace).ticks) ==> DebtBounded(Read(trace))
  {
    if trace != [] {
      var v, a := Read(trace[..|trace| - 1]), trace[|trace| - 1];
      TraceKeeps(trace[..|trace| - 1]);
      StepCalls(v, a);
      StepFailures(v, a);
      if Bounded(Read(trace).ticks) {
        assert forall i :: 0 <= i < |v.ticks| ==> v.ticks[i] == Read(trace).ticks[i];
        StepDebt(v, a);
      }
    }
  }

  /** At no moment of any run have more than 287 documents been embedded since the last `flush_index` call. */
  lemma DebtNeverExceeds287(trace: seq<Action>)
    requires WellBehaved(trace) && Bounded(Read(trace).ticks)
    ensures Read(trace).since <= 287
  {
    TraceKeeps(trace);
    var v := Read(trace);
    if v.ticks != [] { ExpectedSmall(v.ticks[|v.ticks| - 1]); }
  }

  /**
   A failed pass resets the counter too: the counter is the number of documents no successful
   pass has seen exactly when none has failed since the last success, and each failure leaves at
   most 287 more behind.
   */
  lemma CounterTruthfulIff(trace: seq<Action>)
    requires WellBehaved(trace)
    ensures Read(trace).since == Read(trace).sinceOk <==> Read(trace).failed == 0
    ensures Bounded(Read(trace).ticks) ==> Read(trace).sinceOk <= 287 * (Read(trace).failed + 1)
  {
    TraceKeeps(trace);
    if Bounded(Read(trace).ticks) { DebtNeverExceeds287(trace); }
  }

  // ---------------------------------------------------------------- the loop

  /** One more action. */
  lemma Step(trace: seq<Action>, a: Action)
    requires WellBehaved(trace) && Allowed(Read(trace), a)
    ensures WellBehaved(trace + [a]) && Read(trace + [a]) == Observe(Read(trace), a)
  {
    assert (trace + [a])[..|trace|] == trace;
  }

  /** The next of the calls tick `t` must make. */
  lemma NextCall(v: View, t: TickResult, done: seq<FlushResult>, r: FlushResult)
    requires InTick(v, t, done) && |done| < |Expected(t)| && r == Expected(t)[|done|]
    ensures Allowed(v, Call(r)) && InTick(Observe(v, Call(r)), t, done + [r])
  {
  }

  lemma CallStep(trace: seq<Action>, t: TickResult, n: nat)
    requires WellBehaved(trace) && n < |Expected(t)| && InTick(Read(trace), t, Expected(t)[..n])
    ensures var v := Read(trace + [Call(Expected(t)[n])]);
            && WellBehaved(trace + [Call(Expected(t)[n])])
            && v.ticks == Read(trace).ticks && InTick(v, t, Expected(t)[..n + 1])
            && v.since == Read(trace).since + Count(Expected(t)[n])
            && v.sinceOk == Read(trace).sinceOk + Count(Expected(t)[n])
  {
    var calls := Expected(t);
    NextCall(Read(trace), t, calls[..n], calls[n]);
    PrefixGrows(calls, n);
    Step(trace, Call(calls[n]));
  }

  lemma TickStep(trace: seq<Action>, t: TickResult)
    requires WellBehaved(trace) && Settled(Read(trace))
    ensures var v := Read(trace + [Tick(t)]);
            && WellBehaved(trace + [Tick(t)])
            && v.ticks == Read(trace).ticks + [t] && InTick(v, t, [])
            && v.since == Read(trace).since && v.sinceOk == Read(trace).sinceOk
  {
    TraceKeeps(trace);
    Step(trace, Tick(t));
  }

  /** A tick after which one document is embedded. */
  function OneDocument(): TickResult { Drained(1, [Embedded(1)], true) }

  lemma OneDocumentCalls()
    ensures Expected(OneDocument()) == [Embedded(1), Embedded(0)]
  {
    RoundsExact([Embedded(1)], [Embedded(1), Embedded(0)]);
  }

  /** The sum of what the calls report. */
  function Total(calls: seq<FlushResult>): nat {
    if calls == [] then 0 else Total(calls[..|calls| - 1]) + Count(calls[|calls| - 1])
  }

  /** Continue a trace by a tick and the first n of its calls. */
  lemma {:induction false} TickCalls(before: seq<Action>, t: TickResult, n: nat) returns (trace: seq<Action>)
    requires WellBehaved(before) && Settled(Read(before)) && n <= |Expected(t)|
    ensures WellBehaved(trace) && InTick(Read(trace), t, Expected(t)[..n])
    ensures Read(trace).ticks == Read(before).ticks + [t]
    ensures Read(trace).since == Read(before).since + Total(Expected(t)[..n])
    ensures Read(trace).sinceOk == Read(before).sinceOk + Total(Expected(t)[..n])
  {
    if n == 0 {
      TickStep(before, t);
      trace := before + [Tick(t)];
    } else {
      var shorter := TickCalls(before, t, n - 1);
      CallStep(shorter, t, n - 1);
      assert Expected(t)[..n][..n - 1] == Expected(t)[..n - 1];
      trace := shorter + [Call(Expected(t)[n - 1])];
    }
  }

  /** Continue a trace by a tick that embeds one document. */
  lemma OneEmbedded(before: seq<Action>) returns (trace: seq<Action>)
    requires WellBehaved(before) && Settled(Read(before)) && Read(before).since == 0
    ensures WellBehaved(trace) && Settled(Read(trace)) && Read(trace).ticks == Read(before).ticks + [OneDocument()]
    ensures Read(trace).since == 1 && Read(trace).sinceOk == Read(before).sinceOk + 1
  {
    OneDocumentCalls();
    trace := TickCalls(before, OneDocument(), 2);
    var calls := [Embedded(1), Embedded(0)];
    assert calls[..2] == calls && calls[..1] == [Embedded(1)];
    assert Total([Embedded(1)]) == 1;
  }

  /** A pass that keeps failing: the documents no successful pass has seen grow without bound, while the counter is 0. */
  lemma {:induction false} FailingPassesPileUp(k: nat) returns (trace: seq<Action>)
    ensures WellBehaved(trace) && Bounded(Read(trace).ticks) && Settled(Read(trace))
    ensures Read(trace).since == 0 && Read(trace).sinceOk == k
  {
    if k == 0 { return []; }
    var before := FailingPassesPileUp(k - 1);
    var busy := OneEmbedded(before);
    trace := FailedOnIdle(busy);
    BoundedAppended(Read(before).ticks, OneDocument());
    BoundedAppended(Read(busy).ticks, FailingIdle());
  }

  lemma BoundedAppended(ticks: seq<TickResult>, t: TickResult)
    requires Bounded(ticks) && t.Drained? && Small(t.flushes)
    ensures Bounded(ticks + [t])
  {
  }

  function FailingIdle(): TickResult { Drained(0, [], false) }

  /** Continue a trace that owes something by an idle tick whose pass fails. */
  lemma FailedOnIdle(before: seq<Action>) returns (trace: seq<Action>)
    requires WellBehaved(before) && Settled(Read(before)) && Read(before).since > 0
    ensures WellBehaved(trace) && Settled(Read(trace)) && Read(trace).ticks == Read(before).ticks + [FailingIdle()]
    ensures Read(trace).since == 0 && Read(trace).sinceOk == Read(before).sinceOk
  {
    TickStep(before, FailingIdle());
    var idle := before + [Tick(FailingIdle())];
    Step(idle, FlushIndex(false));
    trace := idle + [FlushIndex(false)];
  }

  /** A call that stops the tick is its last; any other is followed by one more, up to eight. */
  lemma RoundAt(flushes: seq<FlushResult>, n: nat)
    requires n < |Rounds(flushes)|
    ensures Rounds(flushes)[n] == Answer(flushes, n)
    ensures |Rounds(flushes)| == n + 1 <==> Stops(Answer(flushes, n)) || n + 1 == ROUNDS_PER_TICK
  {
  }

  /** The embedding calls of one non-empty tick. */
  method EmbedRounds(traceIn: seq<Action>, counterIn: nat, t: TickResult) returns (trace: seq<Action>, counter: nat)
    requires WellBehaved(traceIn) && counterIn == Read(traceIn).since
    requires t.Drained? && t.n > 0 && InTick(Read(traceIn), t, [])
    ensures traceIn <= trace && WellBehaved(trace)
    ensures Read(trace).ticks == Read(traceIn).ticks && InTick(Read(trace), t, Rounds(t.flushes))
    ensures counter == Read(trace).since
  {
    trace, counter := traceIn, counterIn;
    ghost var calls := Rounds(t.flushes);
    for round := 0 to ROUNDS_PER_TICK
      invariant traceIn <= trace && WellBehaved(trace) && counter == Read(trace).since
      invariant round <= |calls| && (round < ROUNDS_PER_TICK ==> round < |calls|)
      invariant Read(trace).ticks == Read(traceIn).ticks && InTick(Read(trace), t, calls[..round])
    {
      var result := Answer(t.flushes, round);
      RoundAt(t.flushes, round);
      CallStep(trace, t, round);
      trace := trace + [Call(result)];
      if Stops(result) {
        // Nothing left, or an error that is only logged.
        assert calls[..round + 1] == calls;
        return;
      }
      counter := counter + result.n;
    }
    assert calls[..ROUNDS_PER_TICK] == calls;
  }

  /** `run_flush_index`, whose error is only logged, and the reset behind it. */
  method CallFlushIndex(traceIn: seq<Action>, t: TickResult) returns (trace: seq<Action>, counter: nat)
    requires WellBehaved(traceIn) && InTick(Read(traceIn), t, Expected(t)) && t.Drained?
    requires if t.n == 0 then Read(traceIn).since > 0 else Read(traceIn).since >= INDEX_REBUILD_THRESHOLD
    ensures trace == traceIn + [FlushIndex(t.indexOk)] && WellBehaved(trace) && Settled(Read(trace))
    ensures Read(trace).ticks == Read(traceIn).ticks
    ensures counter == Read(trace).since
  {
    Step(traceIn, FlushIndex(t.indexOk));
    trace, counter := traceIn + [FlushIndex(t.indexOk)], 0;
  }

  /** One loop iteration. */
  method Iterate(traceIn: seq<Action>, counterIn: nat, t: TickResult) returns (trace: seq<Action>, counter: nat)
    requires WellBehaved(traceIn) && Settled(Read(traceIn)) && counterIn == Read(traceIn).since
    ensures WellBehaved(trace) && Settled(Read(trace)) && counter == Read(trace).since
    ensures Read(trace).ticks == Read(traceIn).ticks + [t]
  {
    TickStep(traceIn, t);
    trace, counter := traceIn + [Tick(t)], counterIn;
    if t.Drained? {
      if t.n == 0 {
        if counter > 0 {
          trace, counter := CallFlushIndex(trace, t);
        }
      } else {
        trace, counter := EmbedRounds(trace, counter, t);
        if counter >= INDEX_REBUILD_THRESHOLD {
          trace, counter := CallFlushIndex(trace, t);
        }
      }
    }
  }

  lemma SettledCalls(trace: seq<Action>)
    requires WellBehaved(trace) && Settled(Read(trace))
    ensures AllCalls(Read(trace)) == ExpectedAll(Read(trace).ticks)
  {
    TraceKeeps(trace);
  }

  /**
   The whole loop over a given sequence of tick outcomes, until shutdown.  The trace has these
   ticks and no others, and each of them made exactly its calls.
   */
  method Run(ticks: seq<TickResult>) returns (trace: seq<Action>, counter: nat)
    ensures WellBehaved(trace) && Settled(Read(trace))
    ensures Read(trace).ticks == ticks && AllCalls(Read(trace)) == ExpectedAll(ticks)
    ensures counter == Read(trace).since < 256
  {
    trace, counter := [], 0;
    for i := 0 to |ticks|
      invariant WellBehaved(trace) && Settled(Read(trace)) && counter == Read(trace).since
      invariant Read(trace).ticks == ticks[..i]
    {
      PrefixGrows(ticks, i);
      trace, counter := Iterate(trace, counter, ticks[i]);
    }
    assert ticks[..|ticks|] == ticks;
    SettledCalls(trace);
  }

  // ---------------------------------------------------------------- on the production index

  /** The first call on which the engine would fail. */
  function FirstError(errors: seq<Option<nat>>): (n: nat)
    ensures n <= |errors| && (n < |errors| ==> errors[n].Some?)
    ensures forall i :: 0 <= i < n ==> errors[i].None?
  {
    if errors == [] || errors[0].Some? then 0 else 1 + FirstError(errors[1..])
  }

  /** How many of the eight calls the engine would answer. */
  function Healthy(errors: seq<Option<nat>>): (n: nat)
    ensures n <= 8 && forall i :: 0 <= i < n && i < |errors| ==> errors[i].None?
    ensures n < 8 ==> n < |errors| && errors[n].Some?
  {
    if FirstError(errors) == |errors| then ROUNDS_PER_TICK else Min(FirstError(errors), ROUNDS_PER_TICK)
  }

  /** The engine fails on the first call it does not answer. */
  lemma FailsBehindHealthy(errors: seq<Option<nat>>, round: nat)
    requires round <= Healthy(errors) && round < ROUNDS_PER_TICK
    ensures round < |errors| && errors[round].Some? <==> round == Healthy(errors)
    ensures round == Healthy(errors) ==> FirstError(errors) < |errors|
  {
  }

  /** The calls of a tick that still goes on. */
  predicate GoingOn(calls: seq<FlushResult>) {
    forall i :: 0 <= i < |calls| ==> calls[i].Embedded? && 1 <= calls[i].n <= SegmentIndex.FLUSH_EMBED_BATCH
  }

  lemma CallAppended(calls: seq<FlushResult>, r: FlushResult)
    requires GoingOn(calls) && Count(r) <= SegmentIndex.FLUSH_EMBED_BATCH
    ensures Total(calls + [r]) == Total(calls) + Count(r)
    ensures Small(calls + [r]) && (FlushFails in calls + [r] <==> r == FlushFails)
    ensures !Stops(r) ==> GoingOn(calls + [r])
  {
    assert (calls + [r])[..|calls|] == calls;
  }

  /** Calls of which only the last stops the tick are what their own answers lead to. */
  lemma LastCall(calls: seq<FlushResult>)
    requires 0 < |calls| <= ROUNDS_PER_TICK && GoingOn(calls[..|calls| - 1]) && Stops(calls[|calls| - 1])
    ensures calls == Rounds(calls)
  {
    assert forall j :: 0 <= j < |calls| - 1 ==> calls[j] == calls[..|calls| - 1][j];
    RoundsExact(calls, calls);
  }

  lemma AllRoundsUsed(calls: seq<FlushResult>)
    requires GoingOn(calls) && |calls| == ROUNDS_PER_TICK
    ensures Small(calls) && FlushFails !in calls && calls == Rounds(calls)
  {
    RoundsExact(calls, calls);
  }

  /**
   The embedding calls of a non-empty tick on the production index.  From a truthful flag they
   report min(waiting, 4 per call the engine answers), 32 in all when it does not fail.
   */
  method TickEmbeds(index: SegmentIndex.SegmentedIndexer, errors: seq<Option<nat>>) returns (calls: seq<FlushResult>)
    requires index.Tracked()
    modifies index`unembedded, index`dirty
    ensures index.Tracked() && index.unembedded <= old(index.unembedded)
    ensures Small(calls) && calls == Rounds(calls)
    ensures Total(calls) == Min(4 * Healthy(errors), |old(index.unembedded)|)
    ensures FlushFails !in calls ==> |index.unembedded| == |old(index.unembedded)| - Total(calls)
    ensures FirstError(errors) == |errors| ==> FlushFails !in calls
  {
    calls := [];
    for round := 0 to ROUNDS_PER_TICK
      invariant index.Tracked() && index.unembedded <= old(index.unembedded)
      invariant |calls| == round <= Healthy(errors) && GoingOn(calls)
      invariant Total(calls) == Min(SegmentIndex.FLUSH_EMBED_BATCH * round, |old(index.unembedded)|)
      invariant |index.unembedded| == |old(index.unembedded)| - Total(calls)
    {
      FailsBehindHealthy(errors, round);
      var embedded := index.FlushEmbeddings(if round < |errors| then errors[round] else None);
      var result := if embedded.Some? then Embedded(embedded.value) else FlushFails;
      CallAppended(calls, result);
      ghost var before := calls;
      calls := calls + [result];
      if Stops(result) {
        assert calls[..round] == before;
        LastCall(calls);
        return;
      }
    }
    AllRoundsUsed(calls);
  }
}
