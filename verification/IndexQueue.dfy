/**
 The `index_queue` table and the drainer's tick over it: attempts, the permanent-failure
 ceiling, and why draining terminates.
 */
module IndexQueue {
  import opened Wrappers

  const MAX_ATTEMPTS := 5
  const INDEXER_BATCH := 32

  datatype QueueRow = QueueRow(attempts: nat, lastError: Option<string>, queuedAt: int, failedPermanent: bool)

  /** The table, by its primary key `message_id`. */
  type Table = map<string, QueueRow>

  function FreshRow(now: int): QueueRow { QueueRow(0, None, now, false) }

  /** INSERT OR IGNORE. */
  function Enqueued(t: Table, id: string, now: int): Table {
    if id in t then t else t[id := FreshRow(now)]
  }

  /** The UPDATE of `mark_failed`. */
  function Failed(r: QueueRow, err: string, maxAttempts: nat): QueueRow {
    r.(attempts := r.attempts + 1, lastError := Some(err), failedPermanent := r.attempts + 1 >= maxAttempts)
  }

  function MarkedFailed(t: Table, id: string, err: string, maxAttempts: nat): Table {
    if id in t then t[id := Failed(t[id], err, maxAttempts)] else t
  }

  function Deleted(t: Table, id: string): Table { t - {id} }

  /** INSERT OR REPLACE of every live message. */
  function Reenqueued(t: Table, live: set<string>, now: int): Table {
    t + map id <- live :: FreshRow(now)
  }

  /** Attempts never pass the ceiling, and the flag says exactly "ceiling reached". */
  predicate ValidRow(r: QueueRow) {
    r.attempts <= MAX_ATTEMPTS && (r.failedPermanent <==> r.attempts == MAX_ATTEMPTS)
  }

  predicate Valid(t: Table) { forall id <- t :: ValidRow(t[id]) }

  predicate IsDrainable(t: Table, id: string) { id in t && !t[id].failedPermanent }

  function DrainableIds(t: Table): set<string> { set id <- t | IsDrainable(t, id) }

  /** What `pop_batch` may return: distinct drainable rows, as many as fit, none younger than one left behind. */
  ghost predicate IsBatch(t: Table, limit: nat, batch: seq<string>) {
    && |batch| == Min(limit, |DrainableIds(t)|)
    && Distinct(batch)
    && (forall i :: 0 <= i < |batch| ==> IsDrainable(t, batch[i]))
    && (forall i, j :: 0 <= i < j < |batch| ==> t[batch[i]].queuedAt <= t[batch[j]].queuedAt)
    && (forall i, id :: 0 <= i < |batch| && IsDrainable(t, id) && id !in batch ==> t[batch[i]].queuedAt <= t[id].queuedAt)
  }

  /** Such a batch leaves a drainable row behind only when it is full, and only one queued no earlier than any it holds. */
  lemma BatchIsOldest(t: Table, limit: nat, batch: seq<string>, id: string)
    requires IsBatch(t, limit, batch) && id in t && !t[id].failedPermanent && id !in batch
    ensures |batch| == limit && forall i :: 0 <= i < |batch| ==> t[batch[i]].queuedAt <= t[id].queuedAt
  {
    if |batch| < limit {
      BatchIds(t, batch);
      SubsetCardinality(BatchSet(batch), DrainableIds(t) - {id});
    }
  }

  function BatchSet(batch: seq<string>): set<string> { set x | x in batch }

  lemma {:induction false} BatchIds(t: Table, batch: seq<string>)
    requires Distinct(batch)
    ensures |BatchSet(batch)| == |batch|
  {
    if batch != [] {
      var n := |batch| - 1;
      BatchIds(t, batch[..n]);
      assert BatchSet(batch) == BatchSet(batch[..n]) + {batch[n]};
    }
  }

  // ---------------------------------------------------------------- what one tick does

  /** What the world answers for one popped row. */
  datatype Verdict = MessageGone | IndexAccepted | IndexRefused(err: string)

  function Processed(t: Table, id: string, v: Verdict): Table {
    match v
    case MessageGone => Deleted(t, id)
    case IndexAccepted => Deleted(t, id)
    case IndexRefused(err) => MarkedFailed(t, id, err, MAX_ATTEMPTS)
  }

  function ProcessedAll(t: Table, batch: seq<string>, verdicts: seq<Verdict>): Table
    requires |batch| == |verdicts|
  {
    if batch == [] then t
    else Processed(ProcessedAll(t, batch[..|batch| - 1], verdicts[..|batch| - 1]), batch[|batch| - 1], verdicts[|batch| - 1])
  }

  /** The attempts a row still has before the ceiling. */
  function Weight(r: QueueRow): nat {
    if r.failedPermanent || r.attempts >= MAX_ATTEMPTS then 0 else MAX_ATTEMPTS - r.attempts
  }

  /** The sum of the remaining attempts over the whole table. */
  ghost function Potential(t: Table): nat
    decreases |t|
  {
    if t == map[] then 0
    else
      var id :| id in t;
      assert (t - {id}).Keys == t.Keys - {id};
      Weight(t[id]) + Potential(t - {id})
  }

  /** The sum does not depend on the order of summation. */
  lemma {:induction false} PotentialSplit(t: Table, id: string)
    requires id in t
    ensures Potential(t) == Weight(t[id]) + Potential(t - {id})
    decreases |t|
  {
    var first :| first in t && Potential(t) == Weight(t[first]) + Potential(t - {first});
    if first != id {
      assert (t - {first}).Keys == t.Keys - {first};
      assert (t - {id}).Keys == t.Keys - {id};
      PotentialSplit(t - {first}, id);
      PotentialSplit(t - {id}, first);
      assert t - {first} - {id} == t - {id} - {first};
    }
  }

  /** Replacing one row's weight. */
  lemma PotentialUpdate(t: Table, id: string, r: QueueRow)
    requires id in t
    ensures Potential(t[id := r]) == Potential(t) - Weight(t[id]) + Weight(r)
  {
    PotentialSplit(t, id);
    PotentialSplit(t[id := r], id);
    assert t[id := r] - {id} == t - {id};
  }

  /** Settling one drainable row spends at least one attempt. */
  lemma ProcessedSpends(t: Table, id: string, v: Verdict)
    requires Valid(t) && IsDrainable(t, id)
    ensures Valid(Processed(t, id, v))
    ensures Potential(Processed(t, id, v)) + 1 <= Potential(t)
  {
    PotentialSplit(t, id);
    if v.IndexRefused? {
      PotentialUpdate(t, id, Failed(t[id], v.err, MAX_ATTEMPTS));
    }
  }

  /** The fate of one row in a tick: untouched, gone, or one attempt further with the reason. */
  function Settled(t: Table, id: string, batch: seq<string>, verdicts: seq<Verdict>): Option<QueueRow>
    requires |batch| == |verdicts|
  {
    if batch == [] then if id in t then Some(t[id]) else None
    else if batch[0] != id then Settled(t, id, batch[1..], verdicts[1..])
    else if id in t && verdicts[0].IndexRefused? then Some(Failed(t[id], verdicts[0].err, MAX_ATTEMPTS))
    else None
  }

  predicate Distinct(batch: seq<string>) { forall i, j :: 0 <= i < j < |batch| ==> batch[i] != batch[j] }

  lemma {:induction false} SettledLast(t: Table, id: string, batch: seq<string>, verdicts: seq<Verdict>)
    requires |batch| == |verdicts| > 0 && Distinct(batch)
    ensures var n := |batch| - 1;
            if batch[n] == id
            then Settled(t, id, batch[..n], verdicts[..n]) == (if id in t then Some(t[id]) else None)
                 && Settled(t, id, batch, verdicts) == Settled(t, id, [id], [verdicts[n]])
            else Settled(t, id, batch, verdicts) == Settled(t, id, batch[..n], verdicts[..n])
  {
    var n := |batch| - 1;
    if n > 0 {
      assert batch[0] != batch[n];
      assert batch[1..][..n - 1] == batch[..n][1..] && verdicts[1..][..n - 1] == verdicts[..n][1..];
      SettledLast(t, id, batch[1..], verdicts[1..]);
    } else {
      assert batch == [batch[0]] && verdicts == [verdicts[0]];
    }
  }

  /** A tick settles each row of its batch once and leaves every other row alone. */
  lemma {:induction false} TickSettles(t: Table, batch: seq<string>, verdicts: seq<Verdict>, id: string)
    requires |batch| == |verdicts| && Distinct(batch)
    ensures var t' := ProcessedAll(t, batch, verdicts);
            (if id in t' then Some(t'[id]) else None) == Settled(t, id, batch, verdicts)
  {
    if batch != [] {
      var n := |batch| - 1;
      TickSettles(t, batch[..n], verdicts[..n], id);
      SettledLast(t, id, batch, verdicts);
    }
  }

  lemma {:induction false} SettledOutside(t: Table, id: string, batch: seq<string>, verdicts: seq<Verdict>)
    requires |batch| == |verdicts| && id !in batch
    ensures Settled(t, id, batch, verdicts) == if id in t then Some(t[id]) else None
  {
    if batch != [] {
      assert id !in batch[1..];
      SettledOutside(t, id, batch[1..], verdicts[1..]);
    }
  }

  lemma {:induction false} SettledAt(t: Table, batch: seq<string>, verdicts: seq<Verdict>, i: nat)
    requires |batch| == |verdicts| && Distinct(batch) && i < |batch|
    ensures Settled(t, batch[i], batch, verdicts) ==
            if batch[i] in t && verdicts[i].IndexRefused? then Some(Failed(t[batch[i]], verdicts[i].err, MAX_ATTEMPTS)) else None
    decreases |batch|
  {
    if i > 0 {
      assert batch[0] != batch[i];
      SettledAt(t, batch[1..], verdicts[1..], i - 1);
    }
  }

  lemma PoppedFate(t: Table, batch: seq<string>, verdicts: seq<Verdict>, i: nat)
    requires |batch| == |verdicts| && Distinct(batch) && i < |batch| && batch[i] in t
    ensures var t', id := ProcessedAll(t, batch, verdicts), batch[i];
            if verdicts[i].IndexRefused?
            then id in t' && t'[id] == QueueRow(t[id].attempts + 1, Some(verdicts[i].err), t[id].queuedAt, t[id].attempts + 1 >= 5)
            else id !in t'
  {
    TickSettles(t, batch, verdicts, batch[i]);
    SettledAt(t, batch, verdicts, i);
  }

  /**
   The fate of every row in a tick, in the table's own columns: a refused row has one attempt more,
   the reason, its old place in line, and is given up exactly at the fifth attempt; any other popped
   row is gone; a row not popped is as it was.
   */
  lemma TickFate(t: Table, batch: seq<string>, verdicts: seq<Verdict>, id: string)
    requires |batch| == |verdicts| && Distinct(batch) && forall i :: 0 <= i < |batch| ==> batch[i] in t
    ensures var t' := ProcessedAll(t, batch, verdicts);
            && (forall i :: 0 <= i < |batch| && batch[i] == id && !verdicts[i].IndexRefused? ==> id !in t')
            && (forall i :: 0 <= i < |batch| && batch[i] == id && verdicts[i].IndexRefused? ==>
                  id in t' && t'[id] == QueueRow(t[id].attempts + 1, Some(verdicts[i].err), t[id].queuedAt, t[id].attempts + 1 >= 5))
            && (id !in batch ==> (id in t' <==> id in t) && (id in t ==> t'[id] == t[id]))
  {
    if id in batch {
      var i :| 0 <= i < |batch| && batch[i] == id;
      PoppedFate(t, batch, verdicts, i);
      assert forall j :: 0 <= j < |batch| && batch[j] == id ==> j == i;
    } else {
      TickSettles(t, batch, verdicts, id);
      SettledOutside(t, id, batch, verdicts);
    }
  }

  /** A tick with working storage spends at least one attempt per popped row. */
  lemma {:induction false} TickSpends(t: Table, batch: seq<string>, verdicts: seq<Verdict>)
    requires Valid(t) && |batch| == |verdicts| && Distinct(batch)
    requires forall i :: 0 <= i < |batch| ==> IsDrainable(t, batch[i])
    ensures Valid(ProcessedAll(t, batch, verdicts))
    ensures Potential(ProcessedAll(t, batch, verdicts)) + |batch| <= Potential(t)
  {
    if batch != [] {
      var n := |batch| - 1;
      TickSpends(t, batch[..n], verdicts[..n]);
      TickSettles(t, batch[..n], verdicts[..n], batch[n]);
      SettledOutside(t, batch[n], batch[..n], verdicts[..n]);
      ProcessedSpends(ProcessedAll(t, batch[..n], verdicts[..n]), batch[n], verdicts[n]);
    }
  }

  /** A row that is not drainable has nothing left to spend, any other at most five attempts. */
  lemma {:induction false} PotentialBound(t: Table)
    ensures Potential(t) <= MAX_ATTEMPTS * |DrainableIds(t)|
    decreases |t|
  {
    if t == map[] {
      assert Potential(t) == 0;
    } else {
      var id :| id in t;
      assert (t - {id}).Keys == t.Keys - {id};
      PotentialSplit(t, id);
      PotentialBound(t - {id});
      assert DrainableIds(t - {id}) == DrainableIds(t) - {id};
    }
  }

  // ---------------------------------------------------------------- tick after tick

  /** One tick: the rows popped, and what became of each. */
  datatype TickRecord = TickRecord(batch: seq<string>, verdicts: seq<Verdict>)

  predicate Shaped(ticks: seq<TickRecord>) { forall k <- ticks :: |k.batch| == |k.verdicts| }

  /** The table after the given ticks. */
  function AfterTicks(t: Table, ticks: seq<TickRecord>): Table
    requires Shaped(ticks)
  {
    if ticks == [] then t
    else
      var n := |ticks| - 1;
      assert ticks[n] in ticks;
      ProcessedAll(AfterTicks(t, ticks[..n]), ticks[n].batch, ticks[n].verdicts)
  }

  /** Each tick pops a non-empty batch of the table the ticks before it left. */
  ghost predicate TicksOf(t: Table, ticks: seq<TickRecord>)
    requires Shaped(ticks)
  {
    ticks == []
    || (var n := |ticks| - 1;
        && TicksOf(t, ticks[..n])
        && ticks[n].batch != [] && IsBatch(AfterTicks(t, ticks[..n]), INDEXER_BATCH, ticks[n].batch))
  }

  /** Rows settled, counted once per tick. */
  function Settlements(ticks: seq<TickRecord>): nat {
    if ticks == [] then 0 else Settlements(ticks[..|ticks| - 1]) + |ticks[|ticks| - 1].batch|
  }

  lemma {:induction false} TicksSpend(t: Table, ticks: seq<TickRecord>)
    requires Valid(t) && Shaped(ticks) && TicksOf(t, ticks)
    ensures Valid(AfterTicks(t, ticks))
    ensures Potential(AfterTicks(t, ticks)) + Settlements(ticks) <= Potential(t)
    ensures |ticks| <= Settlements(ticks)
  {
    if ticks != [] {
      var n := |ticks| - 1;
      assert ticks[n] in ticks;
      TicksSpend(t, ticks[..n]);
      TickSpends(AfterTicks(t, ticks[..n]), ticks[n].batch, ticks[n].verdicts);
    }
  }

  /**
   Draining terminates: whatever the indexer answers, no sequence of non-empty ticks is longer than
   five times the rows drainable at its start, and that many settlements are not exceeded either.
   */
  lemma TicksBounded(t: Table, ticks: seq<TickRecord>)
    requires Valid(t) && Shaped(ticks) && TicksOf(t, ticks)
    ensures |ticks| <= Settlements(ticks) <= Potential(t) <= 5 * |DrainableIds(t)|
  {
    TicksSpend(t, ticks);
    PotentialBound(t);
  }

  /** A row that is not drainable is never touched, and no row appears. */
  lemma {:induction false} TicksKeepOthers(t: Table, ticks: seq<TickRecord>, id: string)
    requires Shaped(ticks) && TicksOf(t, ticks) && !IsDrainable(t, id)
    ensures var t' := AfterTicks(t, ticks);
            (id in t' <==> id in t) && (id in t ==> t'[id] == t[id])
  {
    if ticks != [] {
      var n := |ticks| - 1;
      var before := AfterTicks(t, ticks[..n]);
      assert ticks[n] in ticks;
      TicksKeepOthers(t, ticks[..n], id);
      assert id !in ticks[n].batch;
      TickSettles(before, ticks[n].batch, ticks[n].verdicts, id);
      SettledOutside(before, id, ticks[n].batch, ticks[n].verdicts);
    }
  }

  /** The index refused the row in this tick. */
  predicate RefusedIn(k: TickRecord, id: string)
    requires |k.batch| == |k.verdicts|
  {
    exists i :: 0 <= i < |k.batch| && k.batch[i] == id && k.verdicts[i].IndexRefused?
  }

  /** The tick settled the row for good. */
  predicate TakenIn(k: TickRecord, id: string)
    requires |k.batch| == |k.verdicts|
  {
    exists i :: 0 <= i < |k.batch| && k.batch[i] == id && !k.verdicts[i].IndexRefused?
  }

  /** How often the index refused the row. */
  function Refusals(ticks: seq<TickRecord>, id: string): nat
    requires Shaped(ticks)
  {
    if ticks == [] then 0
    else
      var n := |ticks| - 1;
      assert ticks[n] in ticks;
      Refusals(ticks[..n], id) + if RefusedIn(ticks[n], id) then 1 else 0
  }

  predicate Taken(ticks: seq<TickRecord>, id: string)
    requires Shaped(ticks)
  {
    if ticks == [] then false
    else
      var n := |ticks| - 1;
      assert ticks[n] in ticks;
      Taken(ticks[..n], id) || TakenIn(ticks[n], id)
  }

  /** What `refusals` refusals make of a row. */
  predicate RefusedTimes(r: QueueRow, r': QueueRow, refusals: nat) {
    && r'.attempts == r.attempts + refusals && r'.queuedAt == r.queuedAt
    && if refusals == 0 then r' == r else r'.lastError.Some? && (r'.failedPermanent <==> r'.attempts >= 5)
  }

  lemma TickCounts(t: Table, k: TickRecord, id: string)
    requires |k.batch| == |k.verdicts| && Distinct(k.batch) && forall i :: 0 <= i < |k.batch| ==> k.batch[i] in t
    ensures var t' := ProcessedAll(t, k.batch, k.verdicts);
            && (id in t' <==> id in t && !TakenIn(k, id))
            && (id in t' ==> RefusedTimes(t[id], t'[id], if RefusedIn(k, id) then 1 else 0))
  {
    TickFate(t, k.batch, k.verdicts, id);
  }

  /**
   Over any ticks a row's attempts rise by exactly the refusals it met; it keeps its place in line,
   and it leaves the table exactly when a tick settles it otherwise.
   */
  lemma {:induction false} AttemptsCountRefusals(t: Table, ticks: seq<TickRecord>, id: string)
    requires Shaped(ticks) && TicksOf(t, ticks)
    ensures var t' := AfterTicks(t, ticks);
            && (id in t' <==> id in t && !Taken(ticks, id))
            && (id in t' ==> RefusedTimes(t[id], t'[id], Refusals(ticks, id)))
  {
    if ticks != [] {
      var n := |ticks| - 1;
      assert ticks[n] in ticks;
      AttemptsCountRefusals(t, ticks[..n], id);
      TickCounts(AfterTicks(t, ticks[..n]), ticks[n], id);
    }
  }

  lemma TickAppended(t: Table, ticks: seq<TickRecord>, k: TickRecord)
    requires Shaped(ticks) && TicksOf(t, ticks) && |k.batch| == |k.verdicts|
    requires k.batch != [] && IsBatch(AfterTicks(t, ticks), INDEXER_BATCH, k.batch)
    ensures Shaped(ticks + [k]) && TicksOf(t, ticks + [k])
    ensures AfterTicks(t, ticks + [k]) == ProcessedAll(AfterTicks(t, ticks), k.batch, k.verdicts)
  {
    assert (ticks + [k])[..|ticks|] == ticks;
  }

  /** Some row of a nonempty set was queued no later than the others. */
  lemma {:induction false} OldestExists(t: Table, ids: set<string>)
    requires ids != {} && ids <= t.Keys
    ensures exists id :: id in ids && forall o <- ids :: t[id].queuedAt <= t[o].queuedAt
    decreases |ids|
  {
    var x :| x in ids;
    if ids != {x} {
      assert ids - {x} != {};
      OldestExists(t, ids - {x});
      var y :| y in ids - {x} && forall o <- ids - {x} :: t[y].queuedAt <= t[o].queuedAt;
      var best := if t[x].queuedAt <= t[y].queuedAt then x else y;
      assert best in ids && forall o <- ids :: t[best].queuedAt <= t[o].queuedAt;
    }
  }

  /** A batch under construction: `rest` holds the drainable rows not yet picked. */
  ghost predicate Picking(t: Table, batch: seq<string>, rest: set<string>) {
    && rest <= DrainableIds(t)
    && (forall i :: 0 <= i < |batch| ==> IsDrainable(t, batch[i]) && batch[i] !in rest)
    && (forall id :: IsDrainable(t, id) ==> id in rest || id in batch)
    && Distinct(batch)
    && (forall i, j :: 0 <= i < j < |batch| ==> t[batch[i]].queuedAt <= t[batch[j]].queuedAt)
    && (forall i, id :: 0 <= i < |batch| && id in rest ==> t[batch[i]].queuedAt <= t[id].queuedAt)
  }

  lemma PickNext(t: Table, batch: seq<string>, rest: set<string>, id: string)
    requires Picking(t, batch, rest) && id in rest && forall o <- rest :: t[id].queuedAt <= t[o].queuedAt
    ensures Picking(t, batch + [id], rest - {id})
  {
    assert forall x <- batch :: x in batch + [id];
    assert id in batch + [id];
  }

  // ---------------------------------------------------------------- the table as an object

  /** The verdicts of n popped rows; behind the given ones the index accepts. */
  function VerdictsFor(world: seq<Verdict>, n: nat): (vs: seq<Verdict>)
    ensures |vs| == n
  {
    if n <= |world| then world[..n] else world + seq(n - |world|, _ => IndexAccepted)
  }

  /** What the world answers in tick n. */
  function AnswersTo(world: seq<seq<Verdict>>, n: nat): seq<Verdict> { if n < |world| then world[n] else [] }

  /** Tick n met exactly the answers of `world[n]`. */
  predicate Answered(ticks: seq<TickRecord>, world: seq<seq<Verdict>>) {
    ticks == []
    || (var n := |ticks| - 1;
        Answered(ticks[..n], world) && ticks[n].verdicts == VerdictsFor(AnswersTo(world, n), |ticks[n].batch|))
  }

  lemma AnswerAppended(ticks: seq<TickRecord>, world: seq<seq<Verdict>>, k: TickRecord)
    requires Answered(ticks, world) && k.verdicts == VerdictsFor(AnswersTo(world, |ticks|), |k.batch|)
    ensures Answered(ticks + [k], world)
  {
    assert (ticks + [k])[..|ticks|] == ticks;
  }

  class Queue {
    var rows: Table

    constructor ()
      ensures rows == map[] && Valid(rows)
    {
      rows := map[];
    }

    method Enqueue(id: string, now: int)
      requires Valid(rows)
      modifies this
      ensures Valid(rows) && rows == Enqueued(old(rows), id, now)
      // A queued row keeps its attempts and its place; a new one starts afresh.
      ensures id in old(rows) ==> rows == old(rows)
      ensures id !in old(rows) ==> rows.Keys == old(rows).Keys + {id} && rows[id] == QueueRow(0, None, now, false)
      ensures forall other <- old(rows) :: rows[other] == old(rows)[other]
    {
      if id !in rows { rows := rows[id := QueueRow(0, None, now, false)]; }
    }

    method PopBatch(limit: nat) returns (batch: seq<string>)
      ensures IsBatch(rows, limit, batch)
      ensures forall id :: id in batch ==> id in rows && !rows[id].failedPermanent
      ensures forall i, j :: 0 <= i < j < |batch| ==> batch[i] != batch[j] && rows[batch[i]].queuedAt <= rows[batch[j]].queuedAt
      // Only a full batch leaves a drainable row behind, and only one queued no earlier.
      ensures |batch| <= limit
      ensures forall id <- rows :: !rows[id].failedPermanent && id !in batch ==>
                |batch| == limit && forall i :: 0 <= i < |batch| ==> rows[batch[i]].queuedAt <= rows[id].queuedAt
    {
      batch := [];
      var rest := DrainableIds(rows);
      while |batch| < limit && rest != {}
        invariant |batch| <= limit && |batch| + |rest| == |DrainableIds(rows)|
        invariant Picking(rows, batch, rest)
        decreases |rest|
      {
        OldestExists(rows, rest);
        var id :| id in rest && forall o <- rest :: rows[id].queuedAt <= rows[o].queuedAt;
        PickNext(rows, batch, rest, id);
        batch := batch + [id];
        rest := rest - {id};
      }
    }

    method DeleteRow(id: string)
      modifies this
      ensures id !in rows && rows.Keys == old(rows).Keys - {id}
      ensures forall other <- rows :: rows[other] == old(rows)[other]
    {
      rows := rows - {id};
    }

    /** Reports whether this failure was the last one allowed; an absent row stays absent. */
    method MarkFailed(id: string, err: string, maxAttempts: nat) returns (permanent: bool)
      modifies this
      ensures rows == MarkedFailed(old(rows), id, err, maxAttempts)
      ensures rows.Keys == old(rows).Keys && forall other <- rows :: other != id ==> rows[other] == old(rows)[other]
      ensures id in rows ==>
                && rows[id].attempts == old(rows)[id].attempts + 1
                && (rows[id].failedPermanent <==> rows[id].attempts >= maxAttempts)
                && rows[id].lastError == Some(err) && rows[id].queuedAt == old(rows)[id].queuedAt
      ensures permanent <==> id in rows && rows[id].attempts >= maxAttempts
    {
      if id !in rows { return false; }
      var newAttempts := rows[id].attempts + 1;
      permanent := newAttempts >= maxAttempts;
      rows := rows[id := rows[id].(attempts := newAttempts, lastError := Some(err), failedPermanent := permanent)];
    }

    method ReenqueueAll(live: set<string>, now: int)
      requires Valid(rows)
      modifies this
      ensures Valid(rows) && rows == Reenqueued(old(rows), live, now)
      // A live message's row starts afresh even when it was queued or given up; no other row is wiped.
      ensures rows.Keys == old(rows).Keys + live
      ensures forall id <- rows :: rows[id] == if id in live then QueueRow(0, None, now, false) else old(rows)[id]
    {
      rows := rows + map id <- live :: QueueRow(0, None, now, false);
    }

    /** The `process` loop: settle each popped row in turn. */
    method ProcessBatch(batch: seq<string>, world: seq<Verdict>)
      requires |batch| == |world|
      modifies this
      ensures rows == ProcessedAll(old(rows), batch, world)
    {
      var i := 0;
      while i < |batch|
        invariant 0 <= i <= |batch|
        invariant rows == ProcessedAll(old(rows), batch[..i], world[..i])
      {
        assert batch[..i + 1][..i] == batch[..i] && world[..i + 1][..i] == world[..i];
        ghost var before := rows;
        match world[i] {
          case MessageGone => DeleteRow(batch[i]);
          case IndexAccepted => DeleteRow(batch[i]);
          case IndexRefused(err) => var _ := MarkFailed(batch[i], err, MAX_ATTEMPTS);
        }
        assert rows == Processed(before, batch[i], world[i]);
        i := i + 1;
      }
      assert batch[..i] == batch && world[..i] == world;
    }

    /** One drainer tick with working storage. */
    method Tick(world: seq<Verdict>) returns (tick: TickRecord)
      requires Valid(rows)
      modifies this
      ensures IsBatch(old(rows), 32, tick.batch) && tick.verdicts == VerdictsFor(world, |tick.batch|)
      ensures rows == ProcessedAll(old(rows), tick.batch, tick.verdicts)
      ensures Valid(rows) && Potential(rows) + |tick.batch| <= Potential(old(rows))
    {
      var batch := PopBatch(INDEXER_BATCH);
      tick := TickRecord(batch, VerdictsFor(world, |batch|));
      ProcessBatch(batch, tick.verdicts);
      TickSpends(old(rows), batch, tick.verdicts);
    }

    /**
     Non-empty ticks follow one another until nothing is drainable.  Tick n meets the answers of
     `world[n]`; the table it ends with is what exactly those ticks make of the table at the start.
     */
    method Drain(world: seq<seq<Verdict>>) returns (ticks: seq<TickRecord>)
      requires Valid(rows)
      modifies this
      ensures Shaped(ticks) && TicksOf(old(rows), ticks) && rows == AfterTicks(old(rows), ticks)
      ensures Answered(ticks, world)
      ensures Valid(rows) && DrainableIds(rows) == {}
      // What is left was refused until its fifth attempt, whatever had happened to it before.
      ensures forall id <- rows :: id in old(rows) && rows[id].failedPermanent
                                   && rows[id].attempts == 5 == old(rows)[id].attempts + Refusals(ticks, id)
      ensures |ticks| <= Settlements(ticks) <= 5 * |DrainableIds(old(rows))|
    {
      ticks := [];
      while DrainableIds(rows) != {}
        invariant Valid(rows)
        invariant Shaped(ticks) && TicksOf(old(rows), ticks) && rows == AfterTicks(old(rows), ticks)
        invariant Answered(ticks, world)
        decreases Potential(rows)
      {
        ghost var id :| id in DrainableIds(rows);
        assert |DrainableIds(rows)| > 0;
        var tick := Tick(AnswersTo(world, |ticks|));
        TickAppended(old(rows), ticks, tick);
        AnswerAppended(ticks, world, tick);
        ticks := ticks + [tick];
      }
      TicksBounded(old(rows), ticks);
      forall id <- rows
        ensures id in old(rows) && rows[id].failedPermanent && rows[id].attempts == 5 == old(rows)[id].attempts + Refusals(ticks, id)
      {
        assert id !in DrainableIds(rows);
        AttemptsCountRefusals(old(rows), ticks, id);
      }
    }
  }
}
