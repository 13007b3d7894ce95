/**
 The mailbox synchronisation protocol of one (account, folder) pair as a step system.

 The server delivers and expunges messages at any moment and changes its UID epoch
 (UIDVALIDITY) between sessions, as section 2.3.1.1 of RFC 3501 demands.  The client runs
 sessions: EXAMINE, epoch check, backfill in batches of 500 UIDs, then IDLE with incremental
 fetches.  Any await may fail, and the process may die between any two steps.

 The subject of the proof is the stored claim `(uidvalidity, last_seen_uid)`.
 */
module SyncProtocol {
  import opened Wrappers

  const UID_MAX := 0xFFFF_FFFF
  const INCREMENTAL_FETCH_BATCH := 500

  // ---------------------------------------------------------------- server

  datatype Server = Server(epoch: nat, mailbox: set<nat>, uidNext: nat)

  /** UIDs are positive, below UIDNEXT, and UIDNEXT itself is a 32-bit number. */
  predicate ValidServer(srv: Server) {
    && srv.uidNext <= UID_MAX
    && forall u <- srv.mailbox :: 1 <= u < srv.uidNext
  }

  /** The messages `UID FETCH lo:hi` selects. */
  function FetchRange(mailbox: set<nat>, lo: nat, hi: nat): set<nat> {
    set u <- mailbox | lo <= u <= hi
  }

  /**
   The messages `UID FETCH from:*` selects.  `*` is the largest UID present, and a range is
   unordered, so the newest message is selected even when it lies below `from`
   (section 6.4.8 of RFC 3501).
   */
  function FetchFrom(mailbox: set<nat>, from: nat): set<nat> {
    set u <- mailbox | from <= u || (forall x <- mailbox :: x <= u)
  }

  /**
   `from:*` is the range between `from` and the largest UID present, whichever comes first; of an
   empty mailbox it selects nothing.
   */
  lemma StarIsLargest(mailbox: set<nat>, from: nat, largest: nat)
    ensures mailbox == {} ==> FetchFrom(mailbox, from) == {}
    ensures largest in mailbox && (forall u <- mailbox :: u <= largest) ==>
              FetchFrom(mailbox, from) == FetchRange(mailbox, Min(from, largest), Max(from, largest))
  {
  }

  /** The wire delivers a selected set in any order. */
  predicate Delivers(order: seq<nat>, selected: set<nat>) {
    && (forall u <- order :: u in selected)
    && (forall u <- selected :: u in order)
  }

  // ---------------------------------------------------------------- storage

  /** The two columns of a `sync_state` row that matter here; an absent row reads as `(None, 0)`. */
  datatype SyncRow = SyncRow(uidvalidity: Option<nat>, lastSeen: nat)

  datatype SyncUpdate = SyncUpdate(uidvalidity: Option<nat>, lastSeen: Option<nat>)

  /** `update_sync_state`: only fields that are `Some` are written. */
  function Merge(row: SyncRow, upd: SyncUpdate): SyncRow {
    SyncRow(
      if upd.uidvalidity.Some? then upd.uidvalidity else row.uidvalidity,
      if upd.lastSeen.Some? then upd.lastSeen.value else row.lastSeen)
  }

  /** What a backfill batch writes: a batch run that saw nothing preserves the stored value. */
  function LastSeenUidUpdate(maxSeen: nat): Option<nat> {
    if maxSeen > 0 then Some(maxSeen) else None
  }

  // ---------------------------------------------------------------- client

  datatype Phase =
    | Offline
    | Examined(v: nat, target: Option<nat>)
    | Walking(v: nat, target: Option<nat>, lo: nat, maxSeen: nat)
    | Batch(v: nat, target: Option<nat>, hi: nat, maxSeen: nat, pending: seq<nat>)
    | Idling(mem: nat)
    | Incremental(v: nat, mem: nat, maxSeen: nat, pending: seq<nat>)
    | Stopped

  /**
   `acked` is the history of (epoch, uid) pairs for which `submit` returned Ok.
   `supervisorMem` is the watermark the supervisor carries from one session to the next.
   */
  datatype State = State(
    server: Server,
    row: SyncRow,
    acked: set<(nat, nat)>,
    phase: Phase,
    supervisorMem: nat,
    shutdown: bool)

  datatype Event =
    // the server
    | Deliver(uid: nat)
    | Expunge(uid: nat)
    | NewEpoch(epoch: nat, mailbox: set<nat>, uidNext: nat)
    // the process
    | SignalShutdown
    | Restart
    | SessionFails
    // one session
    | Examine(reportsUidNext: bool)
    | CheckEpoch(readOk: bool)
    | TornReset(dies: bool)
    | FetchBatch(order: seq<nat>)
    | SubmitOk
    | FinishBatch
    | TornWrite(dies: bool)
    | LeaveBackfill
    | IdleWake(order: seq<nat>)
    | FinishIncremental
    | IdleRecycle
    | IdleShutdown

  /** The backfill loop is over when shutdown is signalled or the target is reached. */
  predicate WalkOver(s: State)
    requires s.phase.Walking?
  {
    || s.shutdown
    || (s.phase.target.Some? && (s.phase.target.value == 0 || s.phase.lo > s.phase.target.value))
  }

  function BatchEnd(lo: nat): nat { SatAdd(lo, INCREMENTAL_FETCH_BATCH - 1, UID_MAX) }

  predicate NeedsReset(s: State)
    requires s.phase.Examined?
  {
    s.row.uidvalidity.Some? && s.row.uidvalidity.value != s.phase.v
  }

  predicate Enabled(s: State, e: Event) {
    match e
    case Deliver(uid) => s.server.uidNext <= uid < UID_MAX && 1 <= uid
    case Expunge(uid) => uid in s.server.mailbox
    case NewEpoch(epoch, mailbox, uidNext) =>
      epoch > s.server.epoch && ValidServer(Server(epoch, mailbox, uidNext))
    case SignalShutdown => true
    case Restart => true
    case SessionFails => !s.phase.Offline? && !s.phase.Stopped?
    case Examine(_) => s.phase.Offline? && !s.shutdown
    case CheckEpoch(_) => s.phase.Examined?
    case TornReset(_) => s.phase.Examined? && NeedsReset(s)
    case FetchBatch(order) =>
      && s.phase.Walking? && !WalkOver(s)
      && Delivers(order, FetchRange(s.server.mailbox, s.phase.lo, BatchEnd(s.phase.lo)))
    case SubmitOk => (s.phase.Batch? || s.phase.Incremental?) && s.phase.pending != []
    case FinishBatch => s.phase.Batch? && s.phase.pending == []
    case TornWrite(_) => (s.phase.Batch? || s.phase.Incremental?) && s.phase.pending == []
    case LeaveBackfill => s.phase.Walking? && WalkOver(s)
    case IdleWake(order) =>
      && s.phase.Idling? && !s.shutdown
      && Delivers(order, FetchFrom(s.server.mailbox, SatAdd(s.phase.mem, 1, UID_MAX)))
    case FinishIncremental => s.phase.Incremental? && s.phase.pending == []
    case IdleRecycle => s.phase.Idling?
    case IdleShutdown => s.phase.Idling? && s.shutdown
  }

  /** The process dies; the next one starts without memory. */
  function Died(s: State): State { s.(phase := Offline, supervisorMem := 0, shutdown := false) }

  /** An error discards the session's own watermark; the supervisor retries unless told to stop. */
  function Failed(s: State): State { s.(phase := if s.shutdown then Stopped else Offline) }

  /**
   A state write that ends after its first UPDATE: the columns are separate statements outside any
   transaction, and `uidvalidity` comes first.
   */
  function Torn(s: State, v: nat, dies: bool): State {
    var written := s.(row := Merge(s.row, SyncUpdate(Some(v), None)));
    if dies then Died(written) else Failed(written)
  }

  function Apply(s: State, e: Event): State
    requires Enabled(s, e)
  {
    match e
    case Deliver(uid) =>
      s.(server := Server(s.server.epoch, s.server.mailbox + {uid}, uid + 1))
    case Expunge(uid) =>
      s.(server := s.server.(mailbox := s.server.mailbox - {uid}))
    case NewEpoch(epoch, mailbox, uidNext) =>
      s.(server := Server(epoch, mailbox, uidNext))
    case SignalShutdown => s.(shutdown := true)
    case Restart => Died(s)
    case SessionFails => Failed(s)
    case Examine(reportsUidNext) =>
      s.(phase := Examined(s.server.epoch,
                           if reportsUidNext then Some(if s.server.uidNext > 0 then s.server.uidNext - 1 else 0)
                           else None))
    case CheckEpoch(readOk) =>
      var row := if readOk && NeedsReset(s) then Merge(s.row, SyncUpdate(Some(s.phase.v), Some(0))) else s.row;
      s.(row := row, phase := Walking(s.phase.v, s.phase.target, 1, 0))
    case TornReset(dies) => Torn(s, s.phase.v, dies)
    case FetchBatch(order) =>
      s.(phase := Batch(s.phase.v, s.phase.target, BatchEnd(s.phase.lo), s.phase.maxSeen, order))
    case SubmitOk =>
      var u := s.phase.pending[0];
      s.(acked := s.acked + {(s.phase.v, u)},
         phase := s.phase.(maxSeen := if u > s.phase.maxSeen then u else s.phase.maxSeen,
                           pending := s.phase.pending[1..]))
    case FinishBatch =>
      var p := s.phase;
      s.(row := Merge(s.row, SyncUpdate(Some(p.v), LastSeenUidUpdate(p.maxSeen))),
         phase := if p.target.Some? && p.hi >= p.target.value then Idling(s.supervisorMem)
                  else Walking(p.v, p.target, SatAdd(p.hi, 1, UID_MAX), p.maxSeen))
    case TornWrite(dies) => Torn(s, s.phase.v, dies)
    case LeaveBackfill => s.(phase := Idling(s.supervisorMem))
    case IdleWake(order) =>
      s.(phase := Incremental(s.server.epoch, s.phase.mem, s.phase.mem, order))
    case FinishIncremental =>
      var p := s.phase;
      s.(row := Merge(s.row, SyncUpdate(Some(p.v), if p.maxSeen > p.mem then Some(p.maxSeen) else None)),
         phase := Idling(if p.maxSeen > p.mem then p.maxSeen else p.mem))
    case IdleRecycle => s
    case IdleShutdown => s.(supervisorMem := s.phase.mem, phase := Stopped)
  }

  predicate Init(s: State) {
    && ValidServer(s.server)
    && s.row == SyncRow(None, 0)
    && s.acked == {}
    && s.phase == Offline
    && s.supervisorMem == 0
    && !s.shutdown
  }

  // ---------------------------------------------------------------- runs

  /**
   The four things the environment must not do.  Each is a real possibility the code leaves
   open; the lemmas at the end of this module show that each one alone breaks the claim.
   */
  predicate Fault(s: State, e: Event)
    requires Enabled(s, e)
  {
    match e
    case NewEpoch(_, _, _) => !s.phase.Offline? && !s.phase.Stopped?
    case Examine(reportsUidNext) => !reportsUidNext
    case CheckEpoch(readOk) => !readOk && NeedsReset(s) && s.row.lastSeen > 0
    case TornReset(_) => s.row.lastSeen > 0
    case _ => false
  }

  /** What a run leads to: a step that is not enabled is `Stuck`; otherwise the state and the faults on the way. */
  datatype Outcome = Stuck | At(state: State, faults: nat)

  function Run(s: State, es: seq<Event>): Outcome
    decreases |es|
  {
    if es == [] then At(s, 0)
    else
      var before := Run(s, es[..|es| - 1]);
      var e := es[|es| - 1];
      if before.At? && Enabled(before.state, e)
      then At(Apply(before.state, e), before.faults + if Fault(before.state, e) then 1 else 0)
      else Stuck
  }

  /** `m` is reachable from a fresh installation by a run without faults. */
  ghost predicate Reaches(s: State, es: seq<Event>, m: State) {
    Init(s) && Run(s, es) == At(m, 0)
  }

  // ---------------------------------------------------------------- the claim

  /** Every message of epoch `v` still in the mailbox with UID at most `w` was accepted under `v`. */
  predicate Claim(s: State, v: nat, w: nat) {
    s.server.epoch == v ==> forall u <- s.server.mailbox :: u <= w ==> (v, u) in s.acked
  }

  predicate Safe(s: State) {
    s.row.uidvalidity.Some? ==> Claim(s, s.row.uidvalidity.value, s.row.lastSeen)
  }

  // ---------------------------------------------------------------- invariant

  /** A message the session has neither had accepted nor fetched is newer than all it has fetched. */
  predicate MissingIsNewer(s: State, maxSeen: nat, pending: seq<nat>) {
    && maxSeen < Max(s.server.uidNext, 1)
    && (forall p <- pending :: p < s.server.uidNext)
    && (forall u <- s.server.mailbox ::
          || (s.server.epoch, u) in s.acked
          || u in pending
          || (u > maxSeen && forall p <- pending :: u > p))
  }

  /** The stored row claims nothing, or speaks of the epoch the server is in. */
  predicate RowFresh(s: State) {
    s.row.lastSeen == 0 || s.row.uidvalidity == Some(s.server.epoch)
  }

  /** The walk has left nothing behind up to `hi`, except mail that arrived after EXAMINE. */
  predicate WalkedTo(s: State, target: Option<nat>, hi: nat, pending: seq<nat>) {
    && target.Some?
    && target.value < Max(s.server.uidNext, 1)
    && (forall u <- s.server.mailbox ::
          (s.server.epoch, u) in s.acked || u in pending || u > hi || u > target.value)
  }

  predicate PhaseInv(s: State) {
    match s.phase
    case Offline => true
    case Stopped => true
    case Examined(v, target) =>
      v == s.server.epoch && target.Some? && target.value < Max(s.server.uidNext, 1)
    case Walking(v, target, lo, maxSeen) =>
      && v == s.server.epoch && RowFresh(s) && MissingIsNewer(s, maxSeen, [])
      && lo >= 1 && WalkedTo(s, target, lo - 1, [])
    case Batch(v, target, hi, maxSeen, pending) =>
      && v == s.server.epoch && RowFresh(s) && MissingIsNewer(s, maxSeen, pending)
      && WalkedTo(s, target, hi, pending)
    case Idling(mem) => RowFresh(s) && MissingIsNewer(s, mem, [])
    case Incremental(v, mem, maxSeen, pending) =>
      v == s.server.epoch && RowFresh(s) && mem <= maxSeen && MissingIsNewer(s, maxSeen, pending)
  }

  predicate Inv(s: State) {
    && ValidServer(s.server)
    && (s.row.uidvalidity.None? ==> s.row.lastSeen == 0)
    && (s.row.uidvalidity.Some? ==> s.row.uidvalidity.value <= s.server.epoch)
    && (s.row.uidvalidity == Some(s.server.epoch) ==> MissingIsNewer(s, s.row.lastSeen, []))
    && (!s.phase.Stopped? ==> s.supervisorMem == 0)
    && PhaseInv(s)
  }

  lemma SubmitKeepsInv(s: State)
    requires Inv(s) && Enabled(s, SubmitOk)
    ensures Inv(Apply(s, SubmitOk))
  {
    var pending := s.phase.pending;
    assert pending[0] in pending;
    assert forall u <- pending :: u == pending[0] || u in pending[1..];
    assert forall u <- pending[1..] :: u in pending;
  }

  lemma FetchKeepsInv(s: State, e: Event)
    requires Inv(s) && Enabled(s, e) && (e.FetchBatch? || e.IdleWake?)
    ensures Inv(Apply(s, e))
  {
    if e.FetchBatch? {
      assert s.phase.lo <= s.phase.target.value;
    }
  }

  /** New mail lies at or above UIDNEXT, hence above everything fetched. */
  lemma DeliverKeepsInv(s: State, uid: nat)
    requires Inv(s) && Enabled(s, Deliver(uid))
    ensures Inv(Apply(s, Deliver(uid)))
  {
  }

  lemma ServerKeepsInv(s: State, e: Event)
    requires Inv(s) && Enabled(s, e) && !Fault(s, e) && (e.Expunge? || e.NewEpoch?)
    ensures Inv(Apply(s, e))
  {
  }

  lemma PersistKeepsInv(s: State, e: Event)
    requires Inv(s) && Enabled(s, e) && (e.FinishBatch? || e.FinishIncremental?)
    ensures Inv(Apply(s, e))
  {
  }

  /** Relabelling a row that is fresh already changes nothing it claims. */
  lemma TornWriteKeepsInv(s: State, dies: bool)
    requires Inv(s) && Enabled(s, TornWrite(dies))
    ensures Inv(Apply(s, TornWrite(dies)))
  {
  }

  /** A torn reset is harmless while the old watermark is 0. */
  lemma TornResetKeepsInv(s: State, dies: bool)
    requires Inv(s) && Enabled(s, TornReset(dies)) && !Fault(s, TornReset(dies))
    ensures Inv(Apply(s, TornReset(dies)))
  {
  }

  lemma ExamineKeepsInv(s: State, reportsUidNext: bool)
    requires Inv(s) && Enabled(s, Examine(reportsUidNext)) && !Fault(s, Examine(reportsUidNext))
    ensures Inv(Apply(s, Examine(reportsUidNext)))
  {
  }

  lemma CheckKeepsInv(s: State, readOk: bool)
    requires Inv(s) && Enabled(s, CheckEpoch(readOk)) && !Fault(s, CheckEpoch(readOk))
    ensures Inv(Apply(s, CheckEpoch(readOk)))
  {
  }

  lemma LeaveKeepsInv(s: State, e: Event)
    requires Inv(s) && Enabled(s, e) && (e.LeaveBackfill? || e.IdleShutdown?)
    ensures Inv(Apply(s, e))
  {
  }

  lemma EndKeepsInv(s: State, e: Event)
    requires Inv(s) && Enabled(s, e) && (e.SessionFails? || e.Restart? || e.SignalShutdown? || e.IdleRecycle?)
    ensures Inv(Apply(s, e))
  {
  }

  lemma StepKeepsInv(s: State, e: Event)
    requires Inv(s) && Enabled(s, e) && !Fault(s, e)
    ensures Inv(Apply(s, e))
  {
    match e {
      case Deliver(uid) => DeliverKeepsInv(s, uid);
      case Expunge(_) => ServerKeepsInv(s, e);
      case NewEpoch(_, _, _) => ServerKeepsInv(s, e);
      case SignalShutdown => EndKeepsInv(s, e);
      case Restart => EndKeepsInv(s, e);
      case SessionFails => EndKeepsInv(s, e);
      case Examine(reportsUidNext) => ExamineKeepsInv(s, reportsUidNext);
      case CheckEpoch(readOk) => CheckKeepsInv(s, readOk);
      case TornReset(dies) => TornResetKeepsInv(s, dies);
      case FetchBatch(_) => FetchKeepsInv(s, e);
      case SubmitOk => SubmitKeepsInv(s);
      case FinishBatch => PersistKeepsInv(s, e);
      case TornWrite(dies) => TornWriteKeepsInv(s, dies);
      case LeaveBackfill => LeaveKeepsInv(s, e);
      case IdleWake(_) => FetchKeepsInv(s, e);
      case FinishIncremental => PersistKeepsInv(s, e);
      case IdleRecycle => EndKeepsInv(s, e);
      case IdleShutdown => LeaveKeepsInv(s, e);
    }
  }

  lemma {:induction false} RunKeepsInv(s: State, es: seq<Event>, m: State)
    requires Reaches(s, es, m)
    ensures Inv(m)
    decreases |es|
  {
    if es != [] {
      var before := Run(s, es[..|es| - 1]);
      RunKeepsInv(s, es[..|es| - 1], before.state);
      StepKeepsInv(before.state, es[|es| - 1]);
    }
  }

  // ---------------------------------------------------------------- theorems

  /** In every reachable state the stored watermark never over-claims. */
  lemma WatermarkNeverOverclaims(s: State, es: seq<Event>, m: State)
    requires Reaches(s, es, m)
    ensures Safe(m)
  {
    RunKeepsInv(s, es, m);
  }

  /**
   A session enters IDLE with watermark 0.  A session that ends in an error forgets its own
   watermark, and the one that ends Ok was told to stop.
   */
  lemma SessionsStartAtZero(s: State, es: seq<Event>, m: State, e: Event)
    requires Reaches(s, es, m) && Enabled(m, e) && !Fault(m, e)
    requires m.phase.Walking? || m.phase.Batch?
    ensures Apply(m, e).phase.Idling? ==> Apply(m, e).phase.mem == 0
    ensures e.LeaveBackfill? ==> Apply(m, e).phase.Idling?
  {
    RunKeepsInv(s, es, m);
  }

  /**
   How a session ends: by the death of the process, which forgets everything; by an error, which the
   supervisor answers with another session unless told to stop; or by being told to stop, which
   alone hands the session's watermark on.
   */
  lemma SessionEnds(s: State, e: Event)
    requires Enabled(s, e)
    ensures e.Restart? || (e.TornReset? && e.dies) || (e.TornWrite? && e.dies) ==>
              Apply(s, e).phase == Offline && Apply(s, e).supervisorMem == 0 && !Apply(s, e).shutdown
    ensures e.SessionFails? || (e.TornReset? && !e.dies) || (e.TornWrite? && !e.dies) ==>
              && Apply(s, e).phase == (if s.shutdown then Stopped else Offline)
              && Apply(s, e).supervisorMem == s.supervisorMem && Apply(s, e).shutdown == s.shutdown
    ensures e.IdleShutdown? ==> s.shutdown && Apply(s, e).phase == Stopped && Apply(s, e).supervisorMem == s.phase.mem
    ensures !s.phase.Offline? && !s.phase.Stopped? && (Apply(s, e).phase.Offline? || Apply(s, e).phase.Stopped?) ==>
              e.Restart? || e.TornReset? || e.TornWrite? || e.SessionFails? || e.IdleShutdown?
  {
  }

  /** The events that may fall between the FETCH and the end of one incremental pass. */
  predicate DuringIncremental(e: Event) {
    e.Deliver? || e.Expunge? || e.SignalShutdown? || e.SubmitOk?
  }

  /** Everything present at the FETCH has been accepted or is still to be submitted. */
  predicate Covers(s: State, v: nat, present: set<nat>) {
    && s.phase.Incremental? && s.phase.v == v
    && forall u <- present :: (v, u) in s.acked || u in s.phase.pending
  }

  lemma WakeCovers(s: State, order: seq<nat>)
    requires Inv(s) && Enabled(s, IdleWake(order))
    ensures Covers(Apply(s, IdleWake(order)), s.server.epoch, s.server.mailbox)
  {
    forall u <- s.server.mailbox ensures (s.server.epoch, u) in s.acked || u in order {
      if (s.server.epoch, u) !in s.acked {
        assert u > s.phase.mem;
      }
    }
  }

  lemma DuringKeepsCovers(s: State, e: Event, v: nat, present: set<nat>)
    requires Covers(s, v, present) && Enabled(s, e) && DuringIncremental(e)
    ensures Covers(Apply(s, e), v, present)
  {
    if e.SubmitOk? {
      var pending := s.phase.pending;
      assert forall u <- pending :: u == pending[0] || u in pending[1..];
    }
  }

  lemma {:induction false} PassCovers(s: State, mid: seq<Event>, v: nat, present: set<nat>)
    requires Covers(s, v, present) && Run(s, mid).At? && forall e <- mid :: DuringIncremental(e)
    ensures Covers(Run(s, mid).state, v, present)
    decreases |mid|
  {
    if mid != [] {
      var before := mid[..|mid| - 1];
      PassCovers(s, before, v, present);
      DuringKeepsCovers(Run(s, before).state, mid[|mid| - 1], v, present);
    }
  }

  /**
   When an incremental pass returns Ok, every message that was in the mailbox at its FETCH has
   been accepted, whatever the server did meanwhile.
   */
  lemma IncrementalCoversMailbox(s: State, es: seq<Event>, m: State, order: seq<nat>, mid: seq<Event>)
    requires Reaches(s, es, m) && Enabled(m, IdleWake(order))
    requires forall e <- mid :: DuringIncremental(e)
    requires Run(Apply(m, IdleWake(order)), mid + [FinishIncremental]).At?
    ensures forall u <- m.server.mailbox ::
              (m.server.epoch, u) in Run(Apply(m, IdleWake(order)), mid + [FinishIncremental]).state.acked
  {
    RunKeepsInv(s, es, m);
    WakeCovers(m, order);
    assert (mid + [FinishIncremental])[..|mid|] == mid;
    PassCovers(Apply(m, IdleWake(order)), mid, m.server.epoch, m.server.mailbox);
  }

  // ---------------------------------------------------------------- why each assumption is needed

  lemma Extend(s: State, es: seq<Event>, m: State, e: Event, m': State)
    requires Run(s, es).At? && Run(s, es).state == m && Enabled(m, e) && m' == Apply(m, e)
    ensures Run(s, es + [e]) == At(m', Run(s, es).faults + if Fault(m, e) then 1 else 0)
  {
    assert (es + [e])[..|es|] == es;
  }

  /** Continue a run by opening a session whose epoch is the stored one, or the first. */
  lemma SessionOpens(s: State, es: seq<Event>, m: State) returns (es': seq<Event>, m': State)
    requires Run(s, es).At? && Run(s, es).state == m && m.phase.Offline? && !m.shutdown && m.server.uidNext > 0
    requires m.row.uidvalidity.None? || m.row.uidvalidity.value == m.server.epoch
    ensures es <= es' && Run(s, es') == At(m', Run(s, es).faults)
    ensures m' == m.(phase := Walking(m.server.epoch, Some(m.server.uidNext - 1), 1, 0))
  {
    var m1 := m.(phase := Examined(m.server.epoch, Some(m.server.uidNext - 1)));
    Extend(s, es, m, Examine(true), m1);
    m' := m.(phase := Walking(m.server.epoch, Some(m.server.uidNext - 1), 1, 0));
    Extend(s, es + [Examine(true)], m1, CheckEpoch(true), m');
    es' := es + [Examine(true)] + [CheckEpoch(true)];
  }

  /** A first session that stores the claim `(1, 600)`. */
  lemma FirstSession() returns (s: State, es: seq<Event>, m: State)
    ensures Reaches(s, es, m)
    ensures m == State(Server(1, {600}, 601), SyncRow(Some(1), 600), {(1, 600)}, Idling(0), 0, false)
  {
    s := State(Server(1, {600}, 601), SyncRow(None, 0), {}, Offline, 0, false);
    es, m := SessionOpens(s, [], s);
    es, m := EmptyBatch(s, es, m);
    es, m := BatchOfOne(s, es, m, 600);
  }

  /** Continue a run by a backfill batch that finds nothing. */
  lemma EmptyBatch(s: State, es: seq<Event>, m: State) returns (es': seq<Event>, m': State)
    requires Run(s, es).At? && Run(s, es).state == m && m.phase.Walking? && !WalkOver(m)
    requires FetchRange(m.server.mailbox, m.phase.lo, BatchEnd(m.phase.lo)) == {}
    ensures Run(s, es') == At(m', Run(s, es).faults)
    ensures m' == m.(row := Merge(m.row, SyncUpdate(Some(m.phase.v), LastSeenUidUpdate(m.phase.maxSeen))),
                     phase := m'.phase)
    ensures m'.phase == if m.phase.target.Some? && BatchEnd(m.phase.lo) >= m.phase.target.value then Idling(m.supervisorMem)
                        else Walking(m.phase.v, m.phase.target, SatAdd(BatchEnd(m.phase.lo), 1, UID_MAX), m.phase.maxSeen)
  {
    var m1 := Apply(m, FetchBatch([]));
    Extend(s, es, m, FetchBatch([]), m1);
    m' := Apply(m1, FinishBatch);
    Extend(s, es + [FetchBatch([])], m1, FinishBatch, m');
    es' := es + [FetchBatch([])] + [FinishBatch];
  }

  /** Continue a run by fetching and submitting a batch of one message. */
  lemma OneFetched(s: State, es: seq<Event>, m: State, u: nat) returns (es': seq<Event>, m': State)
    requires Run(s, es).At? && Run(s, es).state == m && m.phase.Walking? && !WalkOver(m)
    requires FetchRange(m.server.mailbox, m.phase.lo, BatchEnd(m.phase.lo)) == {u} && u > m.phase.maxSeen
    ensures es <= es' && Run(s, es') == At(m', Run(s, es).faults)
    ensures m' == m.(phase := Batch(m.phase.v, m.phase.target, BatchEnd(m.phase.lo), u, []),
                     acked := m.acked + {(m.phase.v, u)})
  {
    var p := m.phase;
    var m1 := m.(phase := Batch(p.v, p.target, BatchEnd(p.lo), p.maxSeen, [u]));
    Extend(s, es, m, FetchBatch([u]), m1);
    m' := m.(phase := Batch(p.v, p.target, BatchEnd(p.lo), u, []), acked := m.acked + {(p.v, u)});
    assert [u][1..] == [];
    Extend(s, es + [FetchBatch([u])], m1, SubmitOk, m');
    es' := es + [FetchBatch([u])] + [SubmitOk];
  }

  /** Continue a run by a backfill batch that finds one message. */
  lemma BatchOfOne(s: State, es: seq<Event>, m: State, u: nat) returns (es': seq<Event>, m': State)
    requires Run(s, es).At? && Run(s, es).state == m && m.phase.Walking? && !WalkOver(m)
    requires FetchRange(m.server.mailbox, m.phase.lo, BatchEnd(m.phase.lo)) == {u} && u > m.phase.maxSeen
    ensures es <= es' && Run(s, es') == At(m', Run(s, es).faults)
    ensures m' == m.(row := SyncRow(Some(m.phase.v), u), acked := m.acked + {(m.phase.v, u)}, phase := m'.phase)
    ensures m'.phase == if m.phase.target.Some? && BatchEnd(m.phase.lo) >= m.phase.target.value then Idling(m.supervisorMem)
                        else Walking(m.phase.v, m.phase.target, SatAdd(BatchEnd(m.phase.lo), 1, UID_MAX), u)
  {
    var m1;
    es', m1 := OneFetched(s, es, m, u);
    m' := Apply(m1, FinishBatch);
    Extend(s, es', m1, FinishBatch, m');
    es' := es' + [FinishBatch];
  }

  /** Continue a run, from IDLE, by an incremental pass that returns one message. */
  lemma WakeOfOne(s: State, es: seq<Event>, m: State, u: nat) returns (es': seq<Event>, m': State)
    requires Run(s, es).At? && Run(s, es).state == m && m.phase.Idling? && !m.shutdown
    requires FetchFrom(m.server.mailbox, SatAdd(m.phase.mem, 1, UID_MAX)) == {u}
    ensures Run(s, es') == At(m', Run(s, es).faults)
    ensures m' == m.(row := Merge(m.row, SyncUpdate(Some(m.server.epoch), if u > m.phase.mem then Some(u) else None)),
                     acked := m.acked + {(m.server.epoch, u)},
                     phase := Idling(Max(u, m.phase.mem)))
  {
    var m1;
    es', m1 := OneWoken(s, es, m, u);
    m' := m.(row := Merge(m.row, SyncUpdate(Some(m.server.epoch), if u > m.phase.mem then Some(u) else None)),
             acked := m.acked + {(m.server.epoch, u)},
             phase := Idling(Max(u, m.phase.mem)));
    Extend(s, es', m1, FinishIncremental, m');
    es' := es' + [FinishIncremental];
  }

  /** Continue a run, from IDLE, by fetching and submitting one message. */
  lemma OneWoken(s: State, es: seq<Event>, m: State, u: nat) returns (es': seq<Event>, m': State)
    requires Run(s, es).At? && Run(s, es).state == m && m.phase.Idling? && !m.shutdown
    requires FetchFrom(m.server.mailbox, SatAdd(m.phase.mem, 1, UID_MAX)) == {u}
    ensures Run(s, es') == At(m', Run(s, es).faults)
    ensures m' == m.(acked := m.acked + {(m.server.epoch, u)},
                     phase := Incremental(m.server.epoch, m.phase.mem, Max(u, m.phase.mem), []))
  {
    var m1 := m.(phase := Incremental(m.server.epoch, m.phase.mem, m.phase.mem, [u]));
    Extend(s, es, m, IdleWake([u]), m1);
    m' := m.(acked := m.acked + {(m.server.epoch, u)},
             phase := Incremental(m.server.epoch, m.phase.mem, Max(u, m.phase.mem), []));
    assert [u][1..] == [];
    Extend(s, es + [IdleWake([u])], m1, SubmitOk, m');
    es' := es + [IdleWake([u])] + [SubmitOk];
  }

  /** Continue a run by a process restart, an epoch change and the next session's EXAMINE. */
  lemma NextEpochExamined(s: State, es: seq<Event>, m: State, u: nat) returns (es': seq<Event>, m': State)
    requires Run(s, es).At? && Run(s, es).state == m && m.server.epoch == 1 && 1 <= u < UID_MAX
    ensures Run(s, es') == At(m', Run(s, es).faults)
    ensures m' == State(Server(2, {u}, u + 1), m.row, m.acked, Examined(2, Some(u)), 0, false)
  {
    var m1 := Apply(m, Restart);
    Extend(s, es, m, Restart, m1);
    var change := NewEpoch(2, {u}, u + 1);
    var m2 := Apply(m1, change);
    Extend(s, es + [Restart], m1, change, m2);
    m' := Apply(m2, Examine(true));
    Extend(s, es + [Restart] + [change], m2, Examine(true), m');
    es' := es + [Restart] + [change] + [Examine(true)];
  }

  /** An epoch change inside a session: `run_incremental` never compares epochs. */
  lemma MidSessionEpochOverclaims() returns (s: State, es: seq<Event>)
    ensures Init(s) && Run(s, es).At? && Run(s, es).faults == 1 && !Safe(Run(s, es).state)
  {
    var m;
    s, es, m := FirstSession();
    es, m := WakeOfOne(s, es, m, 600);
    var change := NewEpoch(2, {7, 9}, 10);
    Extend(s, es, m, change, Apply(m, change));
    es, m := es + [change], Apply(m, change);
    es, m := WakeOfOne(s, es, m, 9);
    assert 7 in m.server.mailbox;
  }

  /** A failed read of the stored epoch: the reset is skipped and the old watermark is kept. */
  lemma SkippedResetOverclaims() returns (s: State, es: seq<Event>)
    ensures Init(s) && Run(s, es).At? && Run(s, es).faults == 1 && !Safe(Run(s, es).state)
  {
    var m;
    s, es, m := FirstSession();
    es, m := NextEpochExamined(s, es, m, 550);
    Extend(s, es, m, CheckEpoch(false), Apply(m, CheckEpoch(false)));
    es, m := es + [CheckEpoch(false)], Apply(m, CheckEpoch(false));
    es, m := EmptyBatch(s, es, m);
    assert 550 in m.server.mailbox;
  }

  /** A crash between the two UPDATE statements of the epoch reset. */
  lemma TornResetOverclaims() returns (s: State, es: seq<Event>)
    ensures Init(s) && Run(s, es).At? && Run(s, es).faults == 1 && !Safe(Run(s, es).state)
  {
    var m;
    s, es, m := FirstSession();
    es, m := NextEpochExamined(s, es, m, 5);
    Extend(s, es, m, TornReset(true), Apply(m, TornReset(true)));
    es, m := es + [TornReset(true)], Apply(m, TornReset(true));
    assert 5 in m.server.mailbox;
  }

  /** Without UIDNEXT the walk runs on past mail that arrived behind it. */
  lemma MissingUidNextOverclaims() returns (s: State, es: seq<Event>)
    ensures Init(s) && Run(s, es).At? && Run(s, es).faults == 1 && !Safe(Run(s, es).state)
  {
    s := State(Server(1, {}, 1), SyncRow(None, 0), {}, Offline, 0, false);
    Extend(s, [], s, Examine(false), Apply(s, Examine(false)));
    var m := Apply(s, Examine(false));
    Extend(s, [Examine(false)], m, CheckEpoch(true), Apply(m, CheckEpoch(true)));
    es, m := [Examine(false), CheckEpoch(true)], Apply(m, CheckEpoch(true));
    es, m := EmptyBatch(s, es, m);
    Extend(s, es, m, Deliver(400), Apply(m, Deliver(400)));
    es, m := es + [Deliver(400)], Apply(m, Deliver(400));
    Extend(s, es, m, Deliver(700), Apply(m, Deliver(700)));
    es, m := es + [Deliver(700)], Apply(m, Deliver(700));
    es, m := BatchOfOne(s, es, m, 700);
    assert 400 in m.server.mailbox;
  }

  /** The stored watermark is not monotone: a new session may lower it without any fault. */
  lemma WatermarkMayFall() returns (s: State, es: seq<Event>, m: State, later: seq<Event>, m': State)
    ensures Reaches(s, es, m) && Reaches(s, later, m') && es <= later
    ensures m'.row.uidvalidity == m.row.uidvalidity && m'.row.lastSeen < m.row.lastSeen
  {
    s := State(Server(1, {3, 600}, 601), SyncRow(None, 0), {}, Offline, 0, false);
    es, m := SessionOpens(s, [], s);
    es, m := BatchOfOne(s, es, m, 3);
    es, m := BatchOfOne(s, es, m, 600);
    Extend(s, es, m, Restart, Apply(m, Restart));
    later, m' := es + [Restart], Apply(m, Restart);
    later, m' := SessionOpens(s, later, m');
    later, m' := BatchOfOne(s, later, m', 3);
  }
}
