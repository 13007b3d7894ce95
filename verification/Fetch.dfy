/**
 The two fetch loops of a session, with the connection object they drive and the sink they
 write through.  The outside world is a parameter: what each FETCH returns, which calls fail, and
 when shutdown is first seen.
 */
module Fetch {
  import opened Wrappers
  import opened SyncProtocol

  datatype ConnState = Disconnected | InitialBackfilling(lastUid: nat, target: Option<nat>) | ConnIdling | Fetching

  datatype ClientError = MissingUidValidity | FetchFailed | SubmitFailed(uid: nat) | StoreFailed

  datatype MailboxMeta = MailboxMeta(uidValidity: Option<nat>, uidNext: Option<nat>)

  /** What the outside world answers during one loop. */
  datatype World = World(
    batches: seq<seq<nat>>,           // the UIDs each FETCH of the loop returns, in wire order; then nothing
    fetchFailsAt: Option<nat>,        // the FETCH that fails
    refused: set<nat>,                // UIDs for which `submit` returns an error
    writeFails: Option<(nat, nat)>,   // the batch whose state write fails, and the columns written before
    shutdownAt: Option<nat>,          // the loop head at which shutdown is first seen
    readOk: bool,                     // the stored UIDVALIDITY can be read
    resetFails: Option<nat>)          // the write of the epoch reset fails behind that many columns
  {
    function Response(n: nat): seq<nat> { if n < |batches| then batches[n] else [] }

    predicate ShutdownSeen(n: nat) { shutdownAt.Some? && shutdownAt.value <= n }

    /** The write of batch n fails behind this many columns. */
    function WriteFailure(n: nat): Option<nat> {
      if writeFails.Some? && writeFails.value.0 == n then Some(writeFails.value.1) else None
    }
  }

  /** The part of an update that is written when the statements end behind `failAt` columns. */
  function FirstColumns(upd: SyncUpdate, failAt: Option<nat>): SyncUpdate {
    match failAt
    case None => upd
    case Some(n) => SyncUpdate(if n >= 1 then upd.uidvalidity else None, if n >= 2 then upd.lastSeen else None)
  }

  class Connection {
    var state: ConnState

    constructor ()
      ensures state == Disconnected
    {
      state := Disconnected;
    }

    method EnterBackfill(target: Option<nat>)
      modifies this
      ensures state == InitialBackfilling(0, target)
    {
      state := InitialBackfilling(0, target);
    }

    /** Raises the backfill watermark, never lowers it; does nothing in any other state. */
    method AdvanceBackfill(newLastUid: nat)
      modifies this
      ensures old(state).InitialBackfilling? ==>
                state == InitialBackfilling(Max(old(state).lastUid, newLastUid), old(state).target)
      ensures !old(state).InitialBackfilling? ==> state == old(state)
    {
      match state {
        case InitialBackfilling(lastUid, target) =>
          if newLastUid > lastUid {
            state := InitialBackfilling(newLastUid, target);
          }
        case _ =>
      }
    }
  }

  class Sink {
    var row: SyncRow
    var acked: set<(nat, nat)>

    method Submit(v: nat, uid: nat, world: World) returns (ok: bool)
      modifies this`acked
      ensures ok == (uid !in world.refused)
      ensures acked == old(acked) + if ok then {(v, uid)} else {}
    {
      ok := uid !in world.refused;
      if ok { acked := acked + {(v, uid)}; }
    }

    /** One UPDATE per given column, in order and outside any transaction: an error leaves the columns before it written. */
    method UpdateSyncState(upd: SyncUpdate, failAt: Option<nat>) returns (ok: bool)
      modifies this`row
      ensures ok <==> failAt.None?
      ensures row == Merge(old(row), FirstColumns(upd, failAt))
      ensures row.uidvalidity == if upd.uidvalidity.Some? && failAt != Some(0) then upd.uidvalidity else old(row).uidvalidity
      ensures row.lastSeen == if upd.lastSeen.Some? && failAt != Some(0) && failAt != Some(1) then upd.lastSeen.value
                              else old(row).lastSeen
    {
      if failAt == Some(0) { return false; }
      if upd.uidvalidity.Some? { row := row.(uidvalidity := upd.uidvalidity); }
      if failAt == Some(1) { return false; }
      if upd.lastSeen.Some? { row := row.(lastSeen := upd.lastSeen.value); }
      ok := failAt.None?;
    }
  }

  /** The fold both loops compute: the running maximum, starting from `floor`. */
  function MaxSeen(floor: nat, batch: seq<nat>): nat {
    if batch == [] then floor else Max(MaxSeen(floor, batch[..|batch| - 1]), batch[|batch| - 1])
  }

  /** It is the largest element, or the floor when nothing is larger. */
  lemma {:induction false} MaxSeenIsLargest(floor: nat, batch: seq<nat>)
    ensures var m := MaxSeen(floor, batch);
            m >= floor && (forall u <- batch :: u <= m) && (m == floor || m in batch)
  {
    if batch != [] {
      MaxSeenIsLargest(floor, batch[..|batch| - 1]);
      assert batch == batch[..|batch| - 1] + [batch[|batch| - 1]];
    }
  }

  function AckedBy(v: nat, batch: seq<nat>): set<(nat, nat)> { set u <- batch :: (v, u) }

  /** The first UID of a batch the sink refuses, or its length. */
  function AcceptedPrefix(batch: seq<nat>, world: World): (n: nat)
    ensures n <= |batch| && (forall i :: 0 <= i < n ==> batch[i] !in world.refused)
    ensures n < |batch| ==> batch[n] in world.refused
  {
    if batch == [] then 0
    else if batch[0] in world.refused then 0
    else 1 + AcceptedPrefix(batch[1..], world)
  }

  lemma PrefixUnique(batch: seq<nat>, world: World, n: nat)
    requires n <= |batch| && (forall i :: 0 <= i < n ==> batch[i] !in world.refused)
    requires n < |batch| ==> batch[n] in world.refused
    ensures n == AcceptedPrefix(batch, world)
  {
  }

  /** Submit one batch in order, stopping at the first refusal. */
  method SubmitBatch(conn: Connection, sink: Sink, v: nat, batch: seq<nat>, maxIn: nat, world: World)
    returns (r: Result<nat, ClientError>)
    requires conn.state.InitialBackfilling?
    modifies conn, sink`acked
    ensures conn.state.InitialBackfilling? && conn.state.target == old(conn.state).target
    ensures r.Ok? <==> AcceptedPrefix(batch, world) == |batch|
    ensures r.Ok? ==> r.value == MaxSeen(maxIn, batch)
    ensures r.Ok? ==> conn.state.lastUid == MaxSeen(old(conn.state).lastUid, batch)
    ensures r.Err? ==> r.error == SubmitFailed(batch[AcceptedPrefix(batch, world)])
    ensures sink.acked == old(sink.acked) + AckedBy(v, batch[..AcceptedPrefix(batch, world)])
  {
    var max := maxIn;
    var i := 0;
    while i < |batch|
      invariant 0 <= i <= |batch|
      invariant forall j :: 0 <= j < i ==> batch[j] !in world.refused
      invariant max == MaxSeen(maxIn, batch[..i])
      invariant conn.state == InitialBackfilling(MaxSeen(old(conn.state).lastUid, batch[..i]), old(conn.state).target)
      invariant sink.acked == old(sink.acked) + AckedBy(v, batch[..i])
    {
      assert batch[..i + 1][..i] == batch[..i];
      var observed := batch[i];
      if observed > max { max := observed; }
      var ok := sink.Submit(v, observed, world);
      if !ok {
        PrefixUnique(batch, world, i);
        return Err(SubmitFailed(observed));
      }
      conn.AdvanceBackfill(observed);
      i := i + 1;
    }
    assert batch[..i] == batch;
    PrefixUnique(batch, world, |batch|);
    r := Ok(max);
  }

  /** First and last UID of the n-th backfill request. */
  function RangeLo(n: nat): nat { Min(1 + INCREMENTAL_FETCH_BATCH * n, UID_MAX) }

  function RangeHi(n: nat): nat { Min(INCREMENTAL_FETCH_BATCH * (n + 1), UID_MAX) }

  lemma RangeStep(n: nat)
    ensures BatchEnd(RangeLo(n)) == RangeHi(n) && SatAdd(RangeHi(n), 1, UID_MAX) == RangeLo(n + 1)
  {
  }

  /** The first n requests. */
  function Ranges(n: nat): (rs: seq<(nat, nat)>)
    ensures |rs| == n
  {
    if n == 0 then [] else Ranges(n - 1) + [(RangeLo(n - 1), RangeHi(n - 1))]
  }

  function BatchesFor(target: nat): nat { (target + INCREMENTAL_FETCH_BATCH - 1) / INCREMENTAL_FETCH_BATCH }

  /** The first n batches an undisturbed walk receives, concatenated. */
  function Received(world: World, n: nat): seq<nat> {
    if n == 0 then [] else Received(world, n - 1) + world.Response(n - 1)
  }

  /** Request by request: 500 UIDs each, on from 1, up to the last 32-bit number. */
  lemma {:induction false} RangesAt(n: nat, i: nat)
    requires i < n
    ensures Ranges(n)[i] == (Min(500 * i + 1, 4294967295), Min(500 * i + 500, 4294967295))
  {
    if i < n - 1 { RangesAt(n - 1, i); }
  }

  /** What was received is what the batches held. */
  lemma {:induction false} ReceivedMeans(world: World, n: nat, u: nat)
    ensures u in Received(world, n) <==> exists i :: 0 <= i < n && i < |world.batches| && u in world.batches[i]
  {
    if n > 0 {
      ReceivedMeans(world, n - 1, u);
      assert u in world.Response(n - 1) <==> n - 1 < |world.batches| && u in world.batches[n - 1];
    }
  }

  lemma MaxSeenConcat(floor: nat, a: seq<nat>, b: seq<nat>)
    ensures MaxSeen(floor, a + b) == MaxSeen(MaxSeen(floor, a), b)
  {
    if b == [] {
      assert a + b == a;
    } else {
      assert (a + b)[..|a + b| - 1] == a + b[..|b| - 1];
      MaxSeenConcat(floor, a, b[..|b| - 1]);
    }
  }

  lemma AckedConcat(v: nat, a: seq<nat>, b: seq<nat>)
    ensures AckedBy(v, a + b) == AckedBy(v, a) + AckedBy(v, b)
  {
  }

  // ---------------------------------------------------------------- the walk

  /** How far a walk has come: the largest UID seen, what was accepted, and the stored row. */
  datatype Progress = Progress(maxSeen: nat, acked: set<(nat, nat)>, row: SyncRow)

  predicate Shows(conn: Connection, sink: Sink, target: Option<nat>, p: Progress)
    reads conn, sink
  {
    conn.state == InitialBackfilling(p.maxSeen, target) && sink.acked == p.acked && sink.row == p.row
  }

  /** What a batch of epoch `v` writes. */
  function BatchUpdate(p: Progress, v: nat, batch: seq<nat>): SyncUpdate {
    SyncUpdate(Some(v), LastSeenUidUpdate(MaxSeen(p.maxSeen, batch)))
  }

  /** A completed batch. */
  function BatchStep(p: Progress, v: nat, batch: seq<nat>): Progress {
    Progress(MaxSeen(p.maxSeen, batch), p.acked + AckedBy(v, batch), Merge(p.row, BatchUpdate(p, v, batch)))
  }

  /** The first n batches completed. */
  function AfterBatches(p: Progress, v: nat, world: World, n: nat): Progress {
    if n == 0 then p else BatchStep(AfterBatches(p, v, world, n - 1), v, world.Response(n - 1))
  }

  /**
   In one formula: everything received is accepted, the largest UID received is remembered, and it
   is what the row holds, unless nothing was received.
   */
  lemma {:induction false} AfterBatchesClosed(p: Progress, v: nat, world: World, n: nat)
    requires p.maxSeen == 0
    ensures var seen := MaxSeen(0, Received(world, n));
            AfterBatches(p, v, world, n)
            == Progress(seen, p.acked + AckedBy(v, Received(world, n)),
                        if n == 0 then p.row else SyncRow(Some(v), if seen > 0 then seen else p.row.lastSeen))
  {
    if n > 0 {
      var batch := world.Response(n - 1);
      AfterBatchesClosed(p, v, world, n - 1);
      MaxSeenConcat(0, Received(world, n - 1), batch);
      MaxSeenIsLargest(MaxSeen(0, Received(world, n - 1)), batch);
      AckedConcat(v, Received(world, n - 1), batch);
    }
  }

  /** Batch n ends in an error. */
  predicate ErrorAt(world: World, n: nat) {
    || world.fetchFailsAt == Some(n)
    || AcceptedPrefix(world.Response(n), world) < |world.Response(n)|
    || world.WriteFailure(n).Some?
  }

  predicate NoErrorBefore(world: World, n: nat) {
    n == 0 || (NoErrorBefore(world, n - 1) && !ErrorAt(world, n - 1))
  }

  datatype Failure = Failure(error: ClientError, acked: set<(nat, nat)>, row: SyncRow)

  /**
   What an error in batch n leaves behind: only the messages before it are accepted, and the row
   speaks of the completed batches, but for the columns a failed write had already reached.
   */
  function AfterError(p: Progress, v: nat, world: World, n: nat): Failure
    requires ErrorAt(world, n)
  {
    var batch := world.Response(n);
    var k := AcceptedPrefix(batch, world);
    if world.fetchFailsAt == Some(n) then Failure(FetchFailed, p.acked, p.row)
    else if k < |batch| then Failure(SubmitFailed(batch[k]), p.acked + AckedBy(v, batch[..k]), p.row)
    else Failure(StoreFailed, p.acked + AckedBy(v, batch),
                 Merge(p.row, FirstColumns(BatchUpdate(p, v, batch), world.WriteFailure(n))))
  }

  /** One batch of the walk: fetch, submit in order, persist the running maximum. */
  method BackfillBatch(conn: Connection, sink: Sink, v: nat, world: World, n: nat, maxIn: nat,
                       ghost target: Option<nat>, ghost p: Progress)
    returns (r: Result<nat, ClientError>)
    requires Shows(conn, sink, target, p) && maxIn == p.maxSeen
    modifies conn, sink
    ensures r.Ok? <==> !ErrorAt(world, n)
    ensures r.Ok? ==> Shows(conn, sink, target, BatchStep(p, v, world.Response(n))) && r.value == conn.state.lastUid
    ensures r.Err? ==> Failure(r.error, sink.acked, sink.row) == AfterError(p, v, world, n)
  {
    if world.fetchFailsAt == Some(n) {
      return Err(FetchFailed);
    }
    var batch := world.Response(n);
    r := SubmitBatch(conn, sink, v, batch, maxIn, world);
    if r.Ok? {
      assert batch[..|batch|] == batch;
      var ok := sink.UpdateSyncState(SyncUpdate(Some(v), LastSeenUidUpdate(r.value)), world.WriteFailure(n));
      if !ok { return Err(StoreFailed); }
    }
  }

  lemma BatchCount(target: nat, n: nat)
    requires n == 0 ==> target == 0
    requires n > 0 ==> INCREMENTAL_FETCH_BATCH * (n - 1) < target <= INCREMENTAL_FETCH_BATCH * n
    ensures n == BatchesFor(target)
  {
  }

  /** The number of requests of a walk no error ends: as many as the target needs, fewer when shutdown comes first. */
  function RequestCount(target: Option<nat>, world: World): Option<nat> {
    match target
    case None => world.shutdownAt
    case Some(t) => Some(if world.shutdownAt.Some? then Min(BatchesFor(t), world.shutdownAt.value) else BatchesFor(t))
  }

  /** A walk ends: by its own count or by an error. */
  ghost predicate Ends(target: Option<nat>, world: World) {
    RequestCount(target, world).Some? || exists n :: ErrorAt(world, n)
  }

  /** A walk that ends behind n completed batches: they are all it was to make, or an error ends the next one. */
  predicate Completed(target: Option<nat>, world: World, n: nat, ok: bool) {
    && NoErrorBefore(world, n)
    && if ok then RequestCount(target, world) == Some(n)
       else ErrorAt(world, n) && (RequestCount(target, world).Some? ==> n < RequestCount(target, world).value)
  }

  /** The walk itself.  Without UIDNEXT only shutdown or an error ends it. */
  method Walk(conn: Connection, sink: Sink, v: nat, target: Option<nat>, world: World, ghost p: Progress)
    returns (r: Result<(), ClientError>, ranges: seq<(nat, nat)>, n: nat)
    requires target.Some? ==> target.value < UID_MAX
    requires Ends(target, world)
    requires Shows(conn, sink, target, p) && p.maxSeen == 0
    modifies conn, sink
    ensures Completed(target, world, n, r.Ok?) && ranges == Ranges(if r.Ok? then n else n + 1)
    ensures r.Ok? ==> Shows(conn, sink, target, AfterBatches(p, v, world, n))
    ensures r.Err? ==> Failure(r.error, sink.acked, sink.row) == AfterError(AfterBatches(p, v, world, n), v, world, n)
  {
    ghost var last: nat := EndOf(target, world);
    ranges, n := [], 0;
    var lo: nat, maxUidSeen: nat := 1, 0;
    while true
      invariant ranges == Ranges(n) && lo == RangeLo(n)
      invariant Shows(conn, sink, target, AfterBatches(p, v, world, n)) && maxUidSeen == conn.state.lastUid
      invariant GoesOn(target, world, n) && NoErrorBefore(world, n)
      invariant n <= last
      decreases last - n
    {
      var step := WalkHead(conn, sink, v, target, world, n, lo, maxUidSeen, p, last);
      if step.Over? { break; }
      var hi: nat := BatchEnd(lo);
      RangeStep(n);
      ranges := ranges + [(lo, hi)];
      assert ranges == Ranges(n + 1);
      if step.Broken? {
        return Err(step.error), ranges, n;
      }
      NextOrDone(target, world, n);
      n := n + 1;
      if target.Some? && hi >= target.value { break; }
      maxUidSeen, lo := step.maxSeen, SatAdd(hi, 1, UID_MAX);
    }
    r := Ok(());
  }

  datatype Step = Over | Broken(error: ClientError) | Advanced(maxSeen: nat)

  /** The loop body up to the batch: stop at shutdown or behind the target, else fetch and submit one batch. */
  method WalkHead(conn: Connection, sink: Sink, v: nat, target: Option<nat>, world: World, n: nat, lo: nat, maxIn: nat,
                  ghost p: Progress, ghost last: nat)
    returns (step: Step)
    requires target.Some? ==> target.value < UID_MAX
    requires lo == RangeLo(n) && GoesOn(target, world, n) && NoErrorBefore(world, n)
    requires Shows(conn, sink, target, AfterBatches(p, v, world, n)) && maxIn == AfterBatches(p, v, world, n).maxSeen
    requires n <= last && (RequestCount(target, world) == Some(last) || ErrorAt(world, last))
    modifies conn, sink
    ensures step.Over? ==> Completed(target, world, n, true) && Shows(conn, sink, target, AfterBatches(p, v, world, n))
    ensures step.Broken? ==> Completed(target, world, n, false)
                             && Failure(step.error, sink.acked, sink.row) == AfterError(AfterBatches(p, v, world, n), v, world, n)
    ensures step.Advanced? ==> Shows(conn, sink, target, AfterBatches(p, v, world, n + 1)) && step.maxSeen == conn.state.lastUid
    ensures step.Advanced? ==> NoErrorBefore(world, n + 1) && !WalkOverAt(target, world, n, lo)
    ensures step.Advanced? ==> n < last
  {
    if WalkOverAt(target, world, n, lo) {
      StoppedAt(target, world, n);
      return Over;
    }
    StillBelow(target, world, n);
    var submitted := BackfillBatch(conn, sink, v, world, n, maxIn, target, AfterBatches(p, v, world, n));
    step := if submitted.Ok? then Advanced(submitted.value) else Broken(submitted.error);
  }

  /** Loop head: shutdown has been signalled, or nothing lies between the next UID and the target. */
  predicate WalkOverAt(target: Option<nat>, world: World, n: nat, lo: nat) {
    world.ShutdownSeen(n) || (target.Some? && (target.value == 0 || lo > target.value))
  }

  /** Where the walk stands behind n undisturbed requests, none the last the target needs. */
  predicate GoesOn(target: Option<nat>, world: World, n: nat) {
    n > 0 ==> (target.Some? ==> INCREMENTAL_FETCH_BATCH * n < target.value) && !world.ShutdownSeen(n - 1)
  }

  /** A number of requests no walk passes. */
  ghost function EndOf(target: Option<nat>, world: World): (last: nat)
    requires Ends(target, world)
    ensures RequestCount(target, world) == Some(last) || ErrorAt(world, last)
  {
    if RequestCount(target, world).Some? then RequestCount(target, world).value else (var n: nat :| ErrorAt(world, n); n)
  }

  lemma StoppedAt(target: Option<nat>, world: World, n: nat)
    requires GoesOn(target, world, n) && WalkOverAt(target, world, n, RangeLo(n)) && (target.Some? ==> target.value < UID_MAX)
    requires NoErrorBefore(world, n)
    ensures Completed(target, world, n, true)
  {
  }

  /** Behind request n the target is reached, or the walk goes on. */
  lemma NextOrDone(target: Option<nat>, world: World, n: nat)
    requires target.Some? ==> target.value < UID_MAX
    requires GoesOn(target, world, n) && !WalkOverAt(target, world, n, RangeLo(n)) && NoErrorBefore(world, n + 1)
    ensures if target.Some? && RangeHi(n) >= target.value then Completed(target, world, n + 1, true)
            else GoesOn(target, world, n + 1)
  {
    if target.Some? && RangeHi(n) >= target.value { BatchCount(target.value, n + 1); }
  }

  /** A walk that makes one more request has not reached its count. */
  lemma StillBelow(target: Option<nat>, world: World, n: nat)
    requires GoesOn(target, world, n) && !WalkOverAt(target, world, n, RangeLo(n))
    ensures RequestCount(target, world).Some? ==> n < RequestCount(target, world).value
  {
  }

  /** The epoch reset: the stored claim becomes "nothing of the new epoch", unless its write fails part-way. */
  method HandleChange(conn: Connection, sink: Sink, newUidValidity: nat, failAt: Option<nat>) returns (ok: bool)
    modifies conn, sink`row
    ensures ok <==> failAt.None?
    ensures ok ==> sink.row == SyncRow(Some(newUidValidity), 0) && conn.state == InitialBackfilling(0, None)
    ensures !ok ==> conn.state == old(conn.state)
    ensures !ok ==> sink.row == match failAt.value
                                case 0 => old(sink.row)
                                case 1 => SyncRow(Some(newUidValidity), old(sink.row).lastSeen)
                                case _ => SyncRow(Some(newUidValidity), 0)
  {
    ok := sink.UpdateSyncState(SyncUpdate(Some(newUidValidity), Some(0)), failAt);
    if ok { conn.state := InitialBackfilling(0, None); }
  }

  /** The epoch check finds a stored epoch that is not `v`. */
  predicate Resets(row: SyncRow, v: nat, world: World) {
    world.readOk && row.uidvalidity.Some? && row.uidvalidity.value != v
  }

  predicate ResetBreaks(row: SyncRow, v: nat, world: World) { Resets(row, v, world) && world.resetFails.Some? }

  /** Where the walk starts: the row as the epoch check leaves it. */
  function Checked(row: SyncRow, acked: set<(nat, nat)>, v: nat, world: World): Progress {
    Progress(0, acked, if Resets(row, v, world) then SyncRow(Some(v), 0) else row)
  }

  function TargetOf(meta: MailboxMeta): Option<nat> {
    if meta.uidNext.Some? then Some(if meta.uidNext.value > 0 then meta.uidNext.value - 1 else 0) else None
  }

  /** `run_initial_backfill`: epoch check, then the walk from UID 1 to UIDNEXT - 1; n counts the completed batches. */
  method RunInitialBackfill(conn: Connection, sink: Sink, meta: MailboxMeta, world: World)
    returns (r: Result<(), ClientError>, ranges: seq<(nat, nat)>, n: nat)
    requires meta.uidNext.Some? ==> meta.uidNext.value <= UID_MAX
    requires meta.uidNext.Some? || world.shutdownAt.Some? || exists n :: ErrorAt(world, n)
    modifies conn, sink
    ensures meta.uidValidity.None? ==>
              r == Err(MissingUidValidity) && ranges == [] && sink.row == old(sink.row) && sink.acked == old(sink.acked)
    // A reset whose write fails ends the session before the walk.
    ensures meta.uidValidity.Some? && ResetBreaks(old(sink.row), meta.uidValidity.value, world) ==>
              && r == Err(StoreFailed) && ranges == [] && sink.acked == old(sink.acked)
              && sink.row == Merge(old(sink.row), FirstColumns(SyncUpdate(meta.uidValidity, Some(0)), world.resetFails))
    // Otherwise request n asks for 500n+1 .. 500n+500, and there are exactly as many as the target and
    // shutdown allow, or the first error ends the walk.
    ensures meta.uidValidity.Some? && !ResetBreaks(old(sink.row), meta.uidValidity.value, world) ==>
              var v := meta.uidValidity.value;
              var at := AfterBatches(Checked(old(sink.row), old(sink.acked), v, world), v, world, n);
              && Completed(TargetOf(meta), world, n, r.Ok?) && ranges == Ranges(if r.Ok? then n else n + 1)
              && (r.Ok? ==> conn.state == ConnIdling && sink.acked == at.acked && sink.row == at.row)
              && (r.Err? ==> Failure(r.error, sink.acked, sink.row) == AfterError(at, v, world, n))
    ensures r.Ok? ==> BackfillLeaves(old(sink.row), old(sink.acked), meta.uidValidity.value, world, n, sink.row, sink.acked)
    ensures RequestsPromised(meta.uidNext, world.shutdownAt, ranges, r.Ok?)
  {
    n := 0;
    if meta.uidValidity.None? {
      return Err(MissingUidValidity), [], n;
    }
    var v := meta.uidValidity.value;
    if world.readOk && sink.row.uidvalidity.Some? && sink.row.uidvalidity.value != v {
      var ok := HandleChange(conn, sink, v, world.resetFails);
      if !ok { return Err(StoreFailed), [], n; }
    }
    var target := TargetOf(meta);
    conn.EnterBackfill(target);
    ghost var start := Checked(old(sink.row), old(sink.acked), v, world);
    r, ranges, n := Walk(conn, sink, v, target, world, start);
    RangesCover(meta, world, ranges, n, r.Ok?);
    if r.Ok? {
      BackfillLeft(old(sink.row), old(sink.acked), v, world, n);
      conn.state := ConnIdling;
    }
  }

  /** The UID came in one of the first n batches. */
  predicate InBatches(world: World, n: nat, u: nat) { exists i :: 0 <= i < n && i < |world.batches| && u in world.batches[i] }

  /**
   What n batches leave behind: everything that came was accepted under the epoch, and nothing else;
   the row speaks of that epoch and of the largest UID that came, or, when nothing did, of what it
   spoke of before, which a change of epoch has made 0.
   */
  ghost predicate BackfillLeaves(row0: SyncRow, acked0: set<(nat, nat)>, v: nat, world: World, n: nat,
                                 row: SyncRow, acked: set<(nat, nat)>)
  {
    var reset := world.readOk && row0.uidvalidity.Some? && row0.uidvalidity.value != v;
    && (forall a :: a in acked <==> a in acked0 || (a.0 == v && InBatches(world, n, a.1)))
    && row.uidvalidity == (if n > 0 || reset then Some(v) else row0.uidvalidity)
    && if exists u: nat :: u > 0 && InBatches(world, n, u)
       then InBatches(world, n, row.lastSeen) && forall u: nat :: InBatches(world, n, u) ==> u <= row.lastSeen
       else row.lastSeen == if reset then 0 else row0.lastSeen
  }

  lemma BackfillLeft(row0: SyncRow, acked0: set<(nat, nat)>, v: nat, world: World, n: nat)
    ensures var at := AfterBatches(Checked(row0, acked0, v, world), v, world, n);
            BackfillLeaves(row0, acked0, v, world, n, at.row, at.acked)
  {
    var start, seen := Checked(row0, acked0, v, world), MaxSeen(0, Received(world, n));
    AfterBatchesClosed(start, v, world, n);
    MaxSeenIsLargest(0, Received(world, n));
    forall u: nat ensures u in Received(world, n) <==> InBatches(world, n, u) { ReceivedMeans(world, n, u); }
    if n == 0 { assert Received(world, n) == []; }
  }

  predicate Asked(ranges: seq<(nat, nat)>, u: nat) { exists i :: 0 <= i < |ranges| && ranges[i].0 <= u <= ranges[i].1 }

  /**
   The requests in plain numbers: 500 UIDs each, on from 1, up to the last 32-bit number.  A walk
   that ends well made one for every 500 below UIDNEXT, fewer if shutdown came first; undisturbed
   it has asked for every UID below UIDNEXT.
   */
  predicate RequestsPromised(uidNext: Option<nat>, shutdownAt: Option<nat>, ranges: seq<(nat, nat)>, ok: bool) {
    && (forall i :: 0 <= i < |ranges| ==> ranges[i] == (Min(500 * i + 1, 4294967295), Min(500 * i + 500, 4294967295)))
    && (ok && uidNext.None? ==> shutdownAt == Some(|ranges|))
    && (ok && uidNext.Some? && shutdownAt.None? ==> |ranges| == (Max(uidNext.value - 1, 0) + 499) / 500)
    && (ok && uidNext.Some? && shutdownAt.Some? ==> |ranges| == Min((Max(uidNext.value - 1, 0) + 499) / 500, shutdownAt.value))
    && (ok && uidNext.Some? && shutdownAt.None? ==> forall u: nat :: 1 <= u < uidNext.value ==> Asked(ranges, u))
  }

  lemma RangesCover(meta: MailboxMeta, world: World, ranges: seq<(nat, nat)>, n: nat, ok: bool)
    requires meta.uidNext.Some? ==> meta.uidNext.value <= UID_MAX
    requires Completed(TargetOf(meta), world, n, ok) && ranges == Ranges(if ok then n else n + 1)
    ensures RequestsPromised(meta.uidNext, world.shutdownAt, ranges, ok)
  {
    forall i | 0 <= i < |ranges| ensures ranges[i] == (Min(500 * i + 1, 4294967295), Min(500 * i + 500, 4294967295)) {
      RangesAt(|ranges|, i);
    }
    if ok && meta.uidNext.Some? && world.shutdownAt.None? {
      forall u: nat | 1 <= u < meta.uidNext.value ensures Asked(ranges, u) {
        var i := (u - 1) / 500;
        assert ranges[i].0 <= u <= ranges[i].1;
      }
    }
  }

  /** Every UID up to the target lies in exactly one of the requests of an undisturbed walk. */
  lemma RangesPartitionTarget(target: nat, u: nat)
    requires 1 <= u <= target < UID_MAX
    ensures exists n :: 0 <= n < BatchesFor(target) && RangeLo(n) <= u <= RangeHi(n)
    ensures forall n: nat, m: nat ::
              RangeLo(n) <= u <= RangeHi(n) && RangeLo(m) <= u <= RangeHi(m) ==> n == m
  {
    var n := (u - 1) / INCREMENTAL_FETCH_BATCH;
    assert RangeLo(n) <= u <= RangeHi(n);
  }

  /** One incremental pass. */
  method RunIncremental(conn: Connection, sink: Sink, meta: MailboxMeta, lastSeenUid: nat, world: World)
    returns (r: Result<nat, ClientError>, from: nat)
    modifies conn, sink
    // It asks for everything behind the caller's watermark.
    ensures from == Min(lastSeenUid + 1, 4294967295)
    ensures meta.uidValidity.None? ==> r == Err(MissingUidValidity) && sink.row == old(sink.row) && sink.acked == old(sink.acked)
    ensures meta.uidValidity.Some? ==> (r.Ok? <==> !ErrorAt(world, 0))
    // It accepts the one batch up to the first refusal.
    ensures meta.uidValidity.Some? && world.fetchFailsAt == Some(0) ==>
              r == Err(FetchFailed) && sink.acked == old(sink.acked) && sink.row == old(sink.row)
    ensures meta.uidValidity.Some? && world.fetchFailsAt != Some(0) ==>
              var batch := world.Response(0);
              sink.acked == old(sink.acked) + AckedBy(meta.uidValidity.value, batch[..AcceptedPrefix(batch, world)])
    ensures r.Ok? ==> r.value == MaxSeen(lastSeenUid, world.Response(0))
    // The stored watermark moves exactly when something newer than the caller's was seen.
    ensures r.Ok? ==> sink.row == SyncRow(meta.uidValidity, if r.value > lastSeenUid then r.value else old(sink.row).lastSeen)
    // A refusal is the error, with the row as it was; a failed write leaves the columns it had reached.
    ensures meta.uidValidity.Some? && r.Err? && world.fetchFailsAt != Some(0) ==>
              var batch := world.Response(0);
              var k, max := AcceptedPrefix(batch, world), MaxSeen(lastSeenUid, batch);
              var upd := SyncUpdate(meta.uidValidity, if max > lastSeenUid then Some(max) else None);
              if k < |batch| then r.error == SubmitFailed(batch[k]) && sink.row == old(sink.row)
              else r.error == StoreFailed && sink.row == Merge(old(sink.row), FirstColumns(upd, world.WriteFailure(0)))
  {
    from := SatAdd(lastSeenUid, 1, UID_MAX);
    if meta.uidValidity.None? {
      return Err(MissingUidValidity), from;
    }
    var v := meta.uidValidity.value;
    conn.state := Fetching;
    if world.fetchFailsAt == Some(0) {
      return Err(FetchFailed), from;
    }
    var batch := world.Response(0);
    var max, i := lastSeenUid, 0;
    while i < |batch|
      invariant 0 <= i <= |batch|
      invariant forall j :: 0 <= j < i ==> batch[j] !in world.refused
      invariant max == MaxSeen(lastSeenUid, batch[..i])
      invariant sink.acked == old(sink.acked) + AckedBy(v, batch[..i])
      invariant sink.row == old(sink.row)
    {
      assert batch[..i + 1][..i] == batch[..i];
      if batch[i] > max { max := batch[i]; }
      var ok := sink.Submit(v, batch[i], world);
      if !ok {
        PrefixUnique(batch, world, i);
        return Err(SubmitFailed(batch[i])), from;
      }
      i := i + 1;
    }
    assert batch[..i] == batch;
    PrefixUnique(batch, world, |batch|);
    var written := sink.UpdateSyncState(SyncUpdate(Some(v), if max > lastSeenUid then Some(max) else None), world.WriteFailure(0));
    r := if written then Ok(max) else Err(StoreFailed);
  }
}
