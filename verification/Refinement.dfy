/**
 The loops of `Fetch` and the step system of `SyncProtocol` do the same: on a server that stands
 still, whatever the loops make of the connection and the sink is where a run of steps leads.
 */
module Refinement {
  import opened Wrappers
  import opened SyncProtocol
  import opened Fetch

  function Submits(n: nat): seq<Event> { seq(n, _ => SubmitOk) }

  /** Where n submissions lead. */
  function AfterSubmits(s: State, n: nat): State
    requires (s.phase.Batch? || s.phase.Incremental?) && n <= |s.phase.pending|
  {
    var pending := s.phase.pending;
    s.(acked := s.acked + AckedBy(s.phase.v, pending[..n]),
       phase := s.phase.(maxSeen := MaxSeen(s.phase.maxSeen, pending[..n]), pending := pending[n..]))
  }

  lemma AfterOneMore(s: State, n: nat)
    requires (s.phase.Batch? || s.phase.Incremental?) && n < |s.phase.pending|
    ensures Enabled(AfterSubmits(s, n), SubmitOk)
    ensures Apply(AfterSubmits(s, n), SubmitOk) == AfterSubmits(s, n + 1)
  {
    var pending := s.phase.pending;
    assert pending[..n + 1] == pending[..n] + [pending[n]];
    assert pending[..n + 1][..n] == pending[..n];
    AckedConcat(s.phase.v, pending[..n], [pending[n]]);
    assert AckedBy(s.phase.v, [pending[n]]) == {(s.phase.v, pending[n])};
  }

  lemma {:induction false} SubmitsRun(s: State, n: nat)
    requires (s.phase.Batch? || s.phase.Incremental?) && n <= |s.phase.pending|
    ensures Run(s, Submits(n)) == At(AfterSubmits(s, n), 0)
  {
    if n > 0 {
      SubmitsRun(s, n - 1);
      AfterOneMore(s, n - 1);
      Extend(s, Submits(n - 1), AfterSubmits(s, n - 1), SubmitOk, AfterSubmits(s, n));
      assert Submits(n) == Submits(n - 1) + [SubmitOk];
    }
  }

  lemma OneStep(s: State, e: Event)
    requires Enabled(s, e)
    ensures Run(s, [e]) == At(Apply(s, e), if Fault(s, e) then 1 else 0)
  {
    Extend(s, [], s, e, Apply(s, e));
    assert [] + [e] == [e];
  }

  lemma ConcatSnoc(a: seq<Event>, b: seq<Event>)
    requires b != []
    ensures a + b == (a + b[..|b| - 1]) + [b[|b| - 1]]
  {
  }

  lemma {:induction false} RunConcat(s: State, a: seq<Event>, m: State, b: seq<Event>)
    requires Run(s, a).At? && Run(s, a).state == m && Run(m, b).At?
    ensures Run(s, a + b) == At(Run(m, b).state, Run(s, a).faults + Run(m, b).faults)
    decreases |b|
  {
    if b == [] {
      assert a + b == a;
    } else {
      var n := |b| - 1;
      var before := Run(m, b[..n]);
      RunConcat(s, a, m, b[..n]);
      Extend(s, a + b[..n], before.state, b[n], Apply(before.state, b[n]));
      ConcatSnoc(a, b);
    }
  }

  /** The step system where the walk has come n batches far. */
  function Standing(s: State, v: nat, target: Option<nat>, n: nat, p: Progress): State {
    s.(row := p.row, acked := p.acked, phase := Walking(v, target, RangeLo(n), p.maxSeen))
  }

  function BatchEvents(batch: seq<nat>): seq<Event> { [FetchBatch(batch)] + Submits(|batch|) + [FinishBatch] }

  /** The server answers request n with what the mailbox holds in that range. */
  predicate Answers(world: World, mailbox: set<nat>, n: nat) {
    Delivers(world.Response(n), FetchRange(mailbox, RangeLo(n), RangeHi(n)))
  }

  predicate AnswersBefore(world: World, mailbox: set<nat>, n: nat) {
    n == 0 || (AnswersBefore(world, mailbox, n - 1) && Answers(world, mailbox, n - 1))
  }

  /** Request n and the submission of the first k of its messages. */
  lemma FetchedRun(s: State, v: nat, target: Option<nat>, n: nat, p: Progress, batch: seq<nat>, k: nat)
    requires !WalkOver(Standing(s, v, target, n, p)) && k <= |batch|
    requires Delivers(batch, FetchRange(s.server.mailbox, RangeLo(n), RangeHi(n)))
    ensures Run(Standing(s, v, target, n, p), [FetchBatch(batch)] + Submits(k))
            == At(s.(row := p.row, acked := p.acked + AckedBy(v, batch[..k]),
                     phase := Batch(v, target, RangeHi(n), MaxSeen(p.maxSeen, batch[..k]), batch[k..])), 0)
  {
    var m := Standing(s, v, target, n, p);
    RangeStep(n);
    var fetched := s.(row := p.row, acked := p.acked, phase := Batch(v, target, RangeHi(n), p.maxSeen, batch));
    OneStep(m, FetchBatch(batch));
    SubmitsRun(fetched, k);
    RunConcat(m, [FetchBatch(batch)], fetched, Submits(k));
  }

  /** One whole batch: the steps lead where `BatchStep` says, to IDLE when the target is reached. */
  lemma BatchRun(s: State, v: nat, target: Option<nat>, n: nat, p: Progress, batch: seq<nat>)
    requires !WalkOver(Standing(s, v, target, n, p))
    requires Delivers(batch, FetchRange(s.server.mailbox, RangeLo(n), RangeHi(n)))
    ensures var q := BatchStep(p, v, batch);
            Run(Standing(s, v, target, n, p), BatchEvents(batch))
            == At(if target.Some? && RangeHi(n) >= target.value
                  then s.(row := q.row, acked := q.acked, phase := Idling(s.supervisorMem))
                  else Standing(s, v, target, n + 1, q), 0)
  {
    var m, k := Standing(s, v, target, n, p), |batch|;
    FetchedRun(s, v, target, n, p, batch, k);
    RangeStep(n);
    assert batch[..k] == batch && batch[k..] == [];
    var events := [FetchBatch(batch)] + Submits(k);
    var submitted := Run(m, events).state;
    Extend(m, events, submitted, FinishBatch, Apply(submitted, FinishBatch));
  }

  function WalkEvents(world: World, n: nat): seq<Event> {
    if n == 0 then [] else WalkEvents(world, n - 1) + BatchEvents(world.Response(n - 1))
  }

  lemma HeadOpen(s: State, v: nat, target: Option<nat>, world: World, n: nat, p: Progress)
    requires !s.shutdown && GoesOn(target, world, n + 1)
    ensures !WalkOver(Standing(s, v, target, n, p))
    ensures target.Some? ==> RangeHi(n) < target.value || RangeHi(n) == UID_MAX
    ensures GoesOn(target, world, n)
  {
  }

  /** n batches, none of them the last. */
  lemma {:induction false} WalkRun(s: State, v: nat, target: Option<nat>, world: World, n: nat, p: Progress)
    requires s == Standing(s, v, target, 0, p) && !s.shutdown && (target.Some? ==> target.value < UID_MAX)
    requires GoesOn(target, world, n) && AnswersBefore(world, s.server.mailbox, n)
    ensures Run(s, WalkEvents(world, n)) == At(Standing(s, v, target, n, AfterBatches(p, v, world, n)), 0)
  {
    if n > 0 {
      var at := AfterBatches(p, v, world, n - 1);
      HeadOpen(s, v, target, world, n - 1, at);
      WalkRun(s, v, target, world, n - 1, p);
      BatchRun(s, v, target, n - 1, at, world.Response(n - 1));
      RunConcat(s, WalkEvents(world, n - 1), Standing(s, v, target, n - 1, at), BatchEvents(world.Response(n - 1)));
    }
  }

  // ---------------------------------------------------------------- whole sessions

  /** What closes a walk of n batches: nothing when its last batch reached the target, else shutdown or an empty target. */
  function Closing(target: Option<nat>, n: nat): seq<Event> {
    if target.Some? && n == BatchesFor(target.value) then if n > 0 then [] else [LeaveBackfill]
    else [SignalShutdown, LeaveBackfill]
  }

  /** The state behind the epoch check. */
  lemma CheckRun(s: State, world: World)
    requires s.phase.Examined? && !ResetBreaks(s.row, s.phase.v, world)
    ensures var at := Checked(s.row, s.acked, s.phase.v, world);
            Run(s, [CheckEpoch(world.readOk)])
            == At(Standing(s, s.phase.v, s.phase.target, 0, at), if Fault(s, CheckEpoch(world.readOk)) then 1 else 0)
  {
    OneStep(s, CheckEpoch(world.readOk));
  }

  /** Behind the last batch of an undisturbed walk, or where it stops without one. */
  lemma WalkEnds(s: State, v: nat, target: Option<nat>, world: World, n: nat, p: Progress)
    requires s == Standing(s, v, target, 0, p) && !s.shutdown && (target.Some? ==> target.value < UID_MAX)
    requires Completed(target, world, n, true) && AnswersBefore(world, s.server.mailbox, n)
    ensures var at := AfterBatches(p, v, world, n);
            Run(s, WalkEvents(world, n) + Closing(target, n))
            == At(s.(row := at.row, acked := at.acked, phase := Idling(s.supervisorMem),
                     shutdown := !(target.Some? && n == BatchesFor(target.value))), 0)
  {
    if target.Some? && n == BatchesFor(target.value) {
      if n > 0 {
        TargetEnds(s, v, target.value, world, n, p);
        assert WalkEvents(world, n) + [] == WalkEvents(world, n);
      } else {
        EmptyEnds(s, v, p);
        assert [] + [LeaveBackfill] == [LeaveBackfill];
      }
    } else {
      ShutdownEnds(s, v, target, world, n, p);
    }
  }

  lemma EmptyEnds(s: State, v: nat, p: Progress)
    requires s == Standing(s, v, Some(0), 0, p)
    ensures Run(s, [LeaveBackfill]) == At(s.(row := p.row, acked := p.acked, phase := Idling(s.supervisorMem)), 0)
  {
    OneStep(s, LeaveBackfill);
  }

  lemma TargetEnds(s: State, v: nat, target: nat, world: World, n: nat, p: Progress)
    requires s == Standing(s, v, Some(target), 0, p) && !s.shutdown && target < UID_MAX
    requires n == BatchesFor(target) > 0 && (world.shutdownAt.Some? ==> n <= world.shutdownAt.value)
    requires AnswersBefore(world, s.server.mailbox, n)
    ensures var at := AfterBatches(p, v, world, n);
            Run(s, WalkEvents(world, n)) == At(s.(row := at.row, acked := at.acked, phase := Idling(s.supervisorMem)), 0)
  {
    var before := AfterBatches(p, v, world, n - 1);
    WalkRun(s, v, Some(target), world, n - 1, p);
    BatchRun(s, v, Some(target), n - 1, before, world.Response(n - 1));
    RunConcat(s, WalkEvents(world, n - 1), Standing(s, v, Some(target), n - 1, before), BatchEvents(world.Response(n - 1)));
  }

  lemma ShutdownEnds(s: State, v: nat, target: Option<nat>, world: World, n: nat, p: Progress)
    requires s == Standing(s, v, target, 0, p) && !s.shutdown && (target.Some? ==> target.value < UID_MAX)
    requires GoesOn(target, world, n) && AnswersBefore(world, s.server.mailbox, n)
    ensures var at := AfterBatches(p, v, world, n);
            Run(s, WalkEvents(world, n) + [SignalShutdown, LeaveBackfill])
            == At(s.(row := at.row, acked := at.acked, phase := Idling(s.supervisorMem), shutdown := true), 0)
  {
    var walk := WalkEvents(world, n);
    var m := Standing(s, v, target, n, AfterBatches(p, v, world, n));
    WalkRun(s, v, target, world, n, p);
    var told := m.(shutdown := true);
    Extend(s, walk, m, SignalShutdown, told);
    Extend(s, walk + [SignalShutdown], told, LeaveBackfill, Apply(told, LeaveBackfill));
    assert walk + [SignalShutdown] + [LeaveBackfill] == walk + [SignalShutdown, LeaveBackfill];
  }

  /** The run of a session's backfill that completes n batches and succeeds. */
  function BackfillEvents(target: Option<nat>, world: World, n: nat): seq<Event> {
    [CheckEpoch(world.readOk)] + (WalkEvents(world, n) + Closing(target, n))
  }

  /**
   A backfill that succeeds: exactly where `RunInitialBackfill` leaves the accepted set and the
   stored row, the step system stands in IDLE; the only fault on the way is a skipped reset.
   */
  lemma BackfillRefinesRun(s: State, world: World, n: nat)
    requires s.phase.Examined? && !s.shutdown && (s.phase.target.Some? ==> s.phase.target.value < UID_MAX)
    requires !ResetBreaks(s.row, s.phase.v, world)
    requires Completed(s.phase.target, world, n, true) && AnswersBefore(world, s.server.mailbox, n)
    ensures var at := AfterBatches(Checked(s.row, s.acked, s.phase.v, world), s.phase.v, world, n);
            Run(s, BackfillEvents(s.phase.target, world, n))
            == At(s.(row := at.row, acked := at.acked, phase := Idling(s.supervisorMem),
                     shutdown := !(s.phase.target.Some? && n == BatchesFor(s.phase.target.value))),
                  if Fault(s, CheckEpoch(world.readOk)) then 1 else 0)
  {
    var v, target := s.phase.v, s.phase.target;
    var p := Checked(s.row, s.acked, v, world);
    var m := Standing(s, v, target, 0, p);
    CheckRun(s, world);
    WalkEnds(m, v, target, world, n, p);
    RunConcat(s, [CheckEpoch(world.readOk)], m, WalkEvents(world, n) + Closing(target, n));
  }

  // ---------------------------------------------------------------- sessions that end in an error

  /** The steps of batch n when an error ends it. */
  function ErrorEvents(world: World, n: nat): seq<Event>
    requires ErrorAt(world, n)
  {
    var batch := world.Response(n);
    var k := AcceptedPrefix(batch, world);
    if world.fetchFailsAt == Some(n) then [SessionFails]
    else if k < |batch| then [FetchBatch(batch)] + Submits(k) + [SessionFails]
    else
      match world.WriteFailure(n).value
      case 0 => [FetchBatch(batch)] + Submits(k) + [SessionFails]
      case 1 => [FetchBatch(batch)] + Submits(k) + [TornWrite(false)]
      case _ => [FetchBatch(batch)] + Submits(k) + [FinishBatch] + [SessionFails]
  }

  lemma ErrorRun(s: State, v: nat, target: Option<nat>, world: World, n: nat, p: Progress)
    requires !s.shutdown && !WalkOver(Standing(s, v, target, n, p)) && ErrorAt(world, n)
    requires world.fetchFailsAt != Some(n) ==> Answers(world, s.server.mailbox, n)
    ensures var f := AfterError(p, v, world, n);
            Run(Standing(s, v, target, n, p), ErrorEvents(world, n)) == At(s.(row := f.row, acked := f.acked, phase := Offline), 0)
  {
    var m := Standing(s, v, target, n, p);
    if world.fetchFailsAt == Some(n) {
      OneStep(m, SessionFails);
    } else {
      var batch := world.Response(n);
      var k := AcceptedPrefix(batch, world);
      FetchedRun(s, v, target, n, p, batch, k);
      var events := [FetchBatch(batch)] + Submits(k);
      var submitted := Run(m, events).state;
      if k < |batch| {
        Extend(m, events, submitted, SessionFails, Apply(submitted, SessionFails));
      } else {
        assert batch[..k] == batch && batch[k..] == [];
        match world.WriteFailure(n).value {
          case 0 => Extend(m, events, submitted, SessionFails, Apply(submitted, SessionFails));
          case 1 => Extend(m, events, submitted, TornWrite(false), Apply(submitted, TornWrite(false)));
          case _ =>
            var written := Apply(submitted, FinishBatch);
            Extend(m, events, submitted, FinishBatch, written);
            Extend(m, events + [FinishBatch], written, SessionFails, Apply(written, SessionFails));
        }
      }
    }
  }

  /** A backfill that an error ends behind n batches: again the steps lead exactly where the loops do. */
  lemma FailedBackfillRefinesRun(s: State, world: World, n: nat)
    requires s.phase.Examined? && !s.shutdown && (s.phase.target.Some? ==> s.phase.target.value < UID_MAX)
    requires !ResetBreaks(s.row, s.phase.v, world)
    requires Completed(s.phase.target, world, n, false) && AnswersBefore(world, s.server.mailbox, n)
    requires world.fetchFailsAt != Some(n) ==> Answers(world, s.server.mailbox, n)
    ensures var f := AfterError(AfterBatches(Checked(s.row, s.acked, s.phase.v, world), s.phase.v, world, n), s.phase.v, world, n);
            Run(s, [CheckEpoch(world.readOk)] + (WalkEvents(world, n) + ErrorEvents(world, n)))
            == At(s.(row := f.row, acked := f.acked, phase := Offline), if Fault(s, CheckEpoch(world.readOk)) then 1 else 0)
  {
    var v, target := s.phase.v, s.phase.target;
    var p := Checked(s.row, s.acked, v, world);
    var m := Standing(s, v, target, 0, p);
    var at := AfterBatches(p, v, world, n);
    CheckRun(s, world);
    BelowCount(m, v, target, world, n, at);
    WalkRun(m, v, target, world, n, p);
    ErrorRun(m, v, target, world, n, at);
    RunConcat(m, WalkEvents(world, n), Standing(m, v, target, n, at), ErrorEvents(world, n));
    RunConcat(s, [CheckEpoch(world.readOk)], m, WalkEvents(world, n) + ErrorEvents(world, n));
  }

  /** Below its count the walk is still going on. */
  lemma BelowCount(s: State, v: nat, target: Option<nat>, world: World, n: nat, p: Progress)
    requires !s.shutdown && (RequestCount(target, world).Some? ==> n < RequestCount(target, world).value)
    ensures GoesOn(target, world, n) && !WalkOver(Standing(s, v, target, n, p))
  {
  }

  /** The steps of an epoch reset whose write fails. */
  function ResetEvents(failAt: nat): seq<Event> {
    match failAt
    case 0 => [SessionFails]
    case 1 => [TornReset(false)]
    case _ => [CheckEpoch(true), SessionFails]
  }

  /** A failed reset leads where `RunInitialBackfill` does; it is a fault exactly when torn above an old watermark. */
  lemma FailedResetRefinesRun(s: State, world: World)
    requires s.phase.Examined? && !s.shutdown && ResetBreaks(s.row, s.phase.v, world)
    ensures var row := Merge(s.row, FirstColumns(SyncUpdate(Some(s.phase.v), Some(0)), world.resetFails));
            Run(s, ResetEvents(world.resetFails.value))
            == At(s.(row := row, phase := Offline), if world.resetFails == Some(1) && s.row.lastSeen > 0 then 1 else 0)
  {
    match world.resetFails.value {
      case 0 => OneStep(s, SessionFails);
      case 1 => OneStep(s, TornReset(false));
      case _ => ResetThenFails(s);
    }
  }

  lemma ResetThenFails(s: State)
    requires s.phase.Examined? && NeedsReset(s) && !s.shutdown
    ensures Run(s, [CheckEpoch(true), SessionFails]) == At(s.(row := SyncRow(Some(s.phase.v), 0), phase := Offline), 0)
  {
    var reset := Apply(s, CheckEpoch(true));
    OneStep(s, CheckEpoch(true));
    Extend(s, [CheckEpoch(true)], reset, SessionFails, Apply(reset, SessionFails));
    assert [CheckEpoch(true)] + [SessionFails] == [CheckEpoch(true), SessionFails];
  }

  // ---------------------------------------------------------------- what this is worth

  /** The target an EXAMINE of a valid server yields is a 32-bit number below the limit. */
  lemma TargetBelowLimit(s: State, es: seq<Event>, m: State)
    requires Reaches(s, es, m) && m.phase.Examined?
    ensures m.phase.target.Some? && m.phase.target.value < UID_MAX
  {
    RunKeepsInv(s, es, m);
  }

  /**
   From every state a fault-free history leads to, the row that `RunInitialBackfill` leaves behind
   never over-claims, whether it succeeds or an error ends it.
   */
  lemma BackfillNeverOverclaims(s: State, es: seq<Event>, m: State, world: World, n: nat, ok: bool)
    requires Reaches(s, es, m) && m.phase.Examined? && !m.shutdown && world.readOk
    requires !ResetBreaks(m.row, m.phase.v, world)
    requires Completed(m.phase.target, world, n, ok) && AnswersBefore(world, m.server.mailbox, n)
    requires !ok && world.fetchFailsAt != Some(n) ==> Answers(world, m.server.mailbox, n)
    ensures var at := AfterBatches(Checked(m.row, m.acked, m.phase.v, world), m.phase.v, world, n);
            if ok then Safe(m.(row := at.row, acked := at.acked))
            else
              var f := AfterError(at, m.phase.v, world, n);
              Safe(m.(row := f.row, acked := f.acked))
  {
    TargetBelowLimit(s, es, m);
    var events;
    if ok {
      BackfillRefinesRun(m, world, n);
      events := BackfillEvents(m.phase.target, world, n);
    } else {
      FailedBackfillRefinesRun(m, world, n);
      events := [CheckEpoch(world.readOk)] + (WalkEvents(world, n) + ErrorEvents(world, n));
    }
    RunConcat(s, es, m, events);
    WatermarkNeverOverclaims(s, es + events, Run(m, events).state);
  }

  // ---------------------------------------------------------------- the loops themselves

  /** The server answers every request with what its mailbox holds in that range. */
  ghost predicate AnswersAll(world: World, mailbox: set<nat>) { forall n: nat :: Answers(world, mailbox, n) }

  lemma {:induction false} AllBefore(world: World, mailbox: set<nat>, n: nat)
    requires AnswersAll(world, mailbox)
    ensures AnswersBefore(world, mailbox, n)
  {
    if n > 0 { AllBefore(world, mailbox, n - 1); }
  }

  /** The EXAMINE that opens the session, and the target it yields. */
  lemma ExamineRun(s: State, meta: MailboxMeta, examined: State)
    requires s.phase.Offline? && !s.shutdown && meta.uidValidity == Some(s.server.epoch)
    requires meta.uidNext.Some? ==> meta.uidNext.value == s.server.uidNext
    requires examined == s.(phase := Examined(s.server.epoch, TargetOf(meta)))
    ensures Run(s, [Examine(meta.uidNext.Some?)]) == At(examined, if meta.uidNext.Some? then 0 else 1)
  {
    OneStep(s, Examine(meta.uidNext.Some?));
  }

  /** The steps behind the EXAMINE, by how the session ended. */
  ghost function SessionEvents(examined: State, world: World, n: nat, ok: bool): seq<Event>
    requires examined.phase.Examined?
    requires !ResetBreaks(examined.row, examined.phase.v, world) && !ok ==> ErrorAt(world, n)
  {
    if ResetBreaks(examined.row, examined.phase.v, world) then ResetEvents(world.resetFails.value)
    else if ok then BackfillEvents(examined.phase.target, world, n)
    else [CheckEpoch(world.readOk)] + (WalkEvents(world, n) + ErrorEvents(world, n))
  }

  /**
   `run_initial_backfill` against a server: whatever row and record it leaves behind, on success and
   on error, is where a run of the step system leads, from the EXAMINE on.  Without UIDNEXT, or with
   an unreadable or torn epoch, that run may hold a fault; otherwise it holds none.
   */
  method BackfillOnServer(conn: Connection, sink: Sink, meta: MailboxMeta, world: World, ghost s: State)
    returns (r: Result<(), ClientError>, ghost es: seq<Event>)
    requires s.phase.Offline? && !s.shutdown && ValidServer(s.server) && sink.row == s.row && sink.acked == s.acked
    requires meta.uidValidity == Some(s.server.epoch) && (meta.uidNext.Some? ==> meta.uidNext.value == s.server.uidNext)
    requires AnswersAll(world, s.server.mailbox)
    requires meta.uidNext.Some? || world.shutdownAt.Some? || exists n :: ErrorAt(world, n)
    modifies conn, sink
    ensures es != [] && es[0] == Examine(meta.uidNext.Some?)
    ensures Run(s, es).At? && Run(s, es).state.row == sink.row && Run(s, es).state.acked == sink.acked
    ensures Run(s, es).state.phase == if r.Ok? then Idling(s.supervisorMem) else Offline
    ensures Run(s, es).state.server == s.server
    ensures meta.uidNext.Some? && world.readOk && world.resetFails != Some(1) ==> Run(s, es).faults == 0
  {
    ghost var examined := s.(phase := Examined(s.server.epoch, TargetOf(meta)));
    var ranges, n;
    r, ranges, n := RunInitialBackfill(conn, sink, meta, world);
    AllBefore(world, s.server.mailbox, n);
    ExamineRun(s, meta, examined);
    ghost var rest := SessionEvents(examined, world, n, r.Ok?);
    SessionRun(examined, world, n, r.Ok?);
    RunConcat(s, [Examine(meta.uidNext.Some?)], examined, rest);
    es := [Examine(meta.uidNext.Some?)] + rest;
  }

  /** Where the steps behind the EXAMINE lead. */
  lemma SessionRun(examined: State, world: World, n: nat, ok: bool)
    requires examined.phase.Examined? && !examined.shutdown
    requires examined.phase.target.Some? ==> examined.phase.target.value < UID_MAX
    requires !ResetBreaks(examined.row, examined.phase.v, world) ==> Completed(examined.phase.target, world, n, ok)
    requires AnswersAll(world, examined.server.mailbox) && AnswersBefore(world, examined.server.mailbox, n)
    requires ResetBreaks(examined.row, examined.phase.v, world) ==> !ok
    ensures var v := examined.phase.v;
            var end := Run(examined, SessionEvents(examined, world, n, ok));
            var at := AfterBatches(Checked(examined.row, examined.acked, v, world), v, world, n);
            && end.At? && end.state.server == examined.server
            && end.state.phase == (if ok then Idling(examined.supervisorMem) else Offline)
            && (world.readOk && world.resetFails != Some(1) ==> end.faults == 0)
            && if ResetBreaks(examined.row, v, world) then
                 && end.state.acked == examined.acked
                 && end.state.row == Merge(examined.row, FirstColumns(SyncUpdate(Some(v), Some(0)), world.resetFails))
               else if ok then end.state.acked == at.acked && end.state.row == at.row
               else end.state.acked == AfterError(at, v, world, n).acked && end.state.row == AfterError(at, v, world, n).row
  {
    if ResetBreaks(examined.row, examined.phase.v, world) {
      FailedResetRefinesRun(examined, world);
    } else if ok {
      BackfillRefinesRun(examined, world, n);
    } else {
      assert Answers(world, examined.server.mailbox, n);
      FailedBackfillRefinesRun(examined, world, n);
    }
  }

  /** The FETCH of an incremental pass and the submission of the first k of its messages. */
  lemma WakeRun(s: State, batch: seq<nat>, k: nat)
    requires s.phase.Idling? && !s.shutdown && k <= |batch|
    requires Delivers(batch, FetchFrom(s.server.mailbox, SatAdd(s.phase.mem, 1, UID_MAX)))
    ensures Run(s, [IdleWake(batch)] + Submits(k))
            == At(s.(acked := s.acked + AckedBy(s.server.epoch, batch[..k]),
                     phase := Incremental(s.server.epoch, s.phase.mem, MaxSeen(s.phase.mem, batch[..k]), batch[k..])), 0)
  {
    var woken := s.(phase := Incremental(s.server.epoch, s.phase.mem, s.phase.mem, batch));
    OneStep(s, IdleWake(batch));
    SubmitsRun(woken, k);
    RunConcat(s, [IdleWake(batch)], woken, Submits(k));
  }

  /** The steps of an incremental pass, by how it ended. */
  function PassEvents(world: World): seq<Event> {
    var batch := world.Response(0);
    var k := AcceptedPrefix(batch, world);
    if world.fetchFailsAt == Some(0) then [SessionFails]
    else
      [IdleWake(batch)] + Submits(k)
      + if k < |batch| then [SessionFails]
        else
          match world.WriteFailure(0)
          case None => [FinishIncremental]
          case Some(c) => if c == 0 then [SessionFails] else if c == 1 then [TornWrite(false)] else [FinishIncremental, SessionFails]
  }

  /** The row an incremental pass leaves. */
  function PassRow(s: State, world: World): SyncRow
    requires s.phase.Idling?
  {
    var batch := world.Response(0);
    var max := MaxSeen(s.phase.mem, batch);
    if world.fetchFailsAt == Some(0) || AcceptedPrefix(batch, world) < |batch| then s.row
    else
      var upd := SyncUpdate(Some(s.server.epoch), if max > s.phase.mem then Some(max) else None);
      Merge(s.row, FirstColumns(upd, world.WriteFailure(0)))
  }

  lemma PassRun(s: State, world: World)
    requires s.phase.Idling? && !s.shutdown
    requires Delivers(world.Response(0), FetchFrom(s.server.mailbox, SatAdd(s.phase.mem, 1, UID_MAX)))
    ensures var batch := world.Response(0);
            var k := AcceptedPrefix(batch, world);
            Run(s, PassEvents(world))
            == At(s.(acked := if world.fetchFailsAt == Some(0) then s.acked else s.acked + AckedBy(s.server.epoch, batch[..k]),
                     row := PassRow(s, world),
                     phase := if ErrorAt(world, 0) then Offline else Idling(MaxSeen(s.phase.mem, batch))), 0)
  {
    if world.fetchFailsAt == Some(0) {
      OneStep(s, SessionFails);
    } else {
      var batch := world.Response(0);
      var k := AcceptedPrefix(batch, world);
      WakeRun(s, batch, k);
      PassEnds(s, world, [IdleWake(batch)] + Submits(k));
    }
  }

  lemma PassEnds(s: State, world: World, events: seq<Event>)
    requires s.phase.Idling? && !s.shutdown && world.fetchFailsAt != Some(0)
    requires var batch := world.Response(0);
             var k := AcceptedPrefix(batch, world);
             events == [IdleWake(batch)] + Submits(k)
             && Run(s, events)
                == At(s.(acked := s.acked + AckedBy(s.server.epoch, batch[..k]),
                         phase := Incremental(s.server.epoch, s.phase.mem, MaxSeen(s.phase.mem, batch[..k]), batch[k..])), 0)
    ensures var batch := world.Response(0);
            var k := AcceptedPrefix(batch, world);
            Run(s, PassEvents(world))
            == At(s.(acked := s.acked + AckedBy(s.server.epoch, batch[..k]), row := PassRow(s, world),
                     phase := if ErrorAt(world, 0) then Offline else Idling(MaxSeen(s.phase.mem, batch))), 0)
  {
    var batch := world.Response(0);
    var k := AcceptedPrefix(batch, world);
    var submitted := Run(s, events).state;
    if k < |batch| {
      Extend(s, events, submitted, SessionFails, Apply(submitted, SessionFails));
    } else {
      assert batch[..k] == batch && batch[k..] == [];
      MaxSeenIsLargest(s.phase.mem, batch);
      match world.WriteFailure(0) {
        case None => Extend(s, events, submitted, FinishIncremental, Apply(submitted, FinishIncremental));
        case Some(c) =>
          if c == 0 {
            Extend(s, events, submitted, SessionFails, Apply(submitted, SessionFails));
          } else if c == 1 {
            Extend(s, events, submitted, TornWrite(false), Apply(submitted, TornWrite(false)));
          } else {
            var written := Apply(submitted, FinishIncremental);
            Extend(s, events, submitted, FinishIncremental, written);
            Extend(s, events + [FinishIncremental], written, SessionFails, Apply(written, SessionFails));
            assert events + [FinishIncremental] + [SessionFails] == events + [FinishIncremental, SessionFails];
          }
      }
    }
  }

  /** `run_incremental` against a server, from IDLE: row, record and watermark are where a run without faults leads. */
  method IncrementalOnServer(conn: Connection, sink: Sink, meta: MailboxMeta, lastSeenUid: nat, world: World, ghost s: State)
    returns (r: Result<nat, ClientError>, from: nat, ghost es: seq<Event>)
    requires s.phase == Idling(lastSeenUid) && !s.shutdown && sink.row == s.row && sink.acked == s.acked
    requires meta.uidValidity == Some(s.server.epoch)
    requires Delivers(world.Response(0), FetchFrom(s.server.mailbox, Min(lastSeenUid + 1, 4294967295)))
    modifies conn, sink
    ensures from == Min(lastSeenUid + 1, 4294967295)
    ensures Run(s, es).At? && Run(s, es).faults == 0
    ensures Run(s, es).state.row == sink.row && Run(s, es).state.acked == sink.acked && Run(s, es).state.server == s.server
    ensures Run(s, es).state.phase == if r.Ok? then Idling(r.value) else Offline
  {
    r, from := RunIncremental(conn, sink, meta, lastSeenUid, world);
    es := PassEvents(world);
    PassRun(s, world);
    assert world.Response(0)[..|world.Response(0)|] == world.Response(0);
  }
}
