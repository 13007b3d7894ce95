/** What the components guarantee together. */
module EndToEnd {
  import opened Wrappers
  import SyncProtocol
  import Pipeline
  import Document
  import Ranking
  import SegmentIndex

  // ---------------------------------------------------------------- sessions and sink in one process

  /** A step of the session, of the pipeline, or of both at once. */
  datatype JointEvent = JointEvent(sync: Option<SyncProtocol.Event>, pipe: Option<Pipeline.Event>)

  function SyncEvents(es: seq<JointEvent>): seq<SyncProtocol.Event> {
    if es == [] then []
    else
      var e := es[|es| - 1];
      SyncEvents(es[..|es| - 1]) + if e.sync.Some? then [e.sync.value] else []
  }

  function PipeEvents(es: seq<JointEvent>): seq<Pipeline.Event> {
    if es == [] then []
    else
      var e := es[|es| - 1];
      PipeEvents(es[..|es| - 1]) + if e.pipe.Some? then [e.pipe.value] else []
  }

  /** The sink call for `key` returns Ok: its row is queued, or there was nothing to store. */
  predicate ReturnsOk(q: Pipeline.State, e: Pipeline.Event, key: Pipeline.Key) {
    match e
    case Acknowledge(c) => c in q.calls && q.calls[c].key == key
    case Submit(_, k, parse) => k == key && parse.Unparseable?
    case _ => false
  }

  predicate Dies(e: Option<SyncProtocol.Event>) {
    e.Some? && (e.value.Restart? || e.value == SyncProtocol.TornReset(true) || e.value == SyncProtocol.TornWrite(true))
  }

  /**
   What ties the two together: a session takes a message as accepted only when the sink call for
   it returns Ok, and both die with the process.
   */
  predicate Linked(m: SyncProtocol.State, q: Pipeline.State, e: JointEvent, account: string, folder: string) {
    && (e.sync == Some(SyncProtocol.SubmitOk) && SyncProtocol.Enabled(m, SyncProtocol.SubmitOk) ==>
          e.pipe.Some? && ReturnsOk(q, e.pipe.value, Pipeline.Key(account, folder, m.phase.pending[0], m.phase.v)))
    && (Dies(e.sync) <==> e.pipe == Some(Pipeline.Crash))
  }

  /** A run of both, each step linked. */
  predicate JointRun(s: SyncProtocol.State, p: Pipeline.State, es: seq<JointEvent>, account: string, folder: string)
    decreases |es|
  {
    && SyncProtocol.Run(s, SyncEvents(es)).At?
    && Pipeline.Run(p, PipeEvents(es)).Some?
    && (es == []
        || (var before := es[..|es| - 1];
            && JointRun(s, p, before, account, folder)
            && Linked(SyncProtocol.Run(s, SyncEvents(before)).state, Pipeline.Run(p, PipeEvents(before)).value,
                      es[|es| - 1], account, folder)))
  }

  /** Every Ok a session has seen is an Ok the sink has given for the message of that UID. */
  ghost predicate OksAreSinkOks(acked: set<(nat, nat)>, sink: set<(Pipeline.Key, Pipeline.Parse)>, account: string, folder: string) {
    forall a <- acked :: exists parse :: (Pipeline.Key(account, folder, a.1, a.0), parse) in sink
  }

  lemma SyncSnoc(s: SyncProtocol.State, es: seq<SyncProtocol.Event>, e: SyncProtocol.Event)
    requires SyncProtocol.Run(s, es + [e]).At?
    ensures SyncProtocol.Run(s, es).At? && SyncProtocol.Enabled(SyncProtocol.Run(s, es).state, e)
    ensures SyncProtocol.Run(s, es + [e]).state == SyncProtocol.Apply(SyncProtocol.Run(s, es).state, e)
  {
    assert (es + [e])[..|es|] == es;
  }

  lemma PipeSnoc(p: Pipeline.State, es: seq<Pipeline.Event>, e: Pipeline.Event)
    requires Pipeline.Run(p, es + [e]).Some?
    ensures Pipeline.Run(p, es).Some? && Pipeline.Enabled(Pipeline.Run(p, es).value, e)
    ensures Pipeline.Run(p, es + [e]).value == Pipeline.Apply(Pipeline.Run(p, es).value, e)
  {
    assert (es + [e])[..|es|] == es;
  }

  /** Only an accepted submit extends the session's record. */
  lemma AckedBySubmit(m: SyncProtocol.State, e: SyncProtocol.Event)
    requires SyncProtocol.Enabled(m, e)
    ensures SyncProtocol.Apply(m, e).acked
            == m.acked + if e.SubmitOk? then {(m.phase.v, m.phase.pending[0])} else {}
  {
  }

  /** The sink's record only grows, and an Ok for a key enters it. */
  lemma SinkRecords(q: Pipeline.State, e: Pipeline.Event)
    requires Pipeline.Enabled(q, e)
    ensures q.acked <= Pipeline.Apply(q, e).acked
    ensures forall key :: ReturnsOk(q, e, key) ==> exists parse :: (key, parse) in Pipeline.Apply(q, e).acked
  {
    forall key | ReturnsOk(q, e, key) ensures exists parse :: (key, parse) in Pipeline.Apply(q, e).acked {
      var parse := if e.Submit? then e.parse else Pipeline.Parsed(q.calls[e.call].id, q.calls[e.call].content);
      assert (key, parse) in Pipeline.Apply(q, e).acked;
    }
  }

  lemma LinkedStep(m: SyncProtocol.State, q: Pipeline.State, e: JointEvent, m': SyncProtocol.State, q': Pipeline.State,
                   account: string, folder: string)
    requires OksAreSinkOks(m.acked, q.acked, account, folder) && Linked(m, q, e, account, folder)
    requires if e.sync.Some? then SyncProtocol.Enabled(m, e.sync.value) && m' == SyncProtocol.Apply(m, e.sync.value) else m' == m
    requires if e.pipe.Some? then Pipeline.Enabled(q, e.pipe.value) && q' == Pipeline.Apply(q, e.pipe.value) else q' == q
    ensures OksAreSinkOks(m'.acked, q'.acked, account, folder)
  {
    if e.sync.Some? { AckedBySubmit(m, e.sync.value); }
    if e.pipe.Some? { SinkRecords(q, e.pipe.value); }
    forall a <- m'.acked ensures exists parse :: (Pipeline.Key(account, folder, a.1, a.0), parse) in q'.acked {
      if a in m.acked {
        var parse :| (Pipeline.Key(account, folder, a.1, a.0), parse) in q.acked;
        assert (Pipeline.Key(account, folder, a.1, a.0), parse) in q'.acked;
      }
    }
  }

  lemma {:induction false} JointOks(s: SyncProtocol.State, p: Pipeline.State, es: seq<JointEvent>, account: string, folder: string)
    requires SyncProtocol.Init(s) && JointRun(s, p, es, account, folder)
    ensures OksAreSinkOks(SyncProtocol.Run(s, SyncEvents(es)).state.acked, Pipeline.Run(p, PipeEvents(es)).value.acked,
                          account, folder)
    decreases |es|
  {
    if es != [] {
      var before, e := es[..|es| - 1], es[|es| - 1];
      JointOks(s, p, before, account, folder);
      if e.sync.Some? { SyncSnoc(s, SyncEvents(before), e.sync.value); }
      if e.pipe.Some? { PipeSnoc(p, PipeEvents(before), e.pipe.value); }
      assert e.sync.None? ==> SyncEvents(es) == SyncEvents(before);
      assert e.pipe.None? ==> PipeEvents(es) == PipeEvents(before);
      LinkedStep(SyncProtocol.Run(s, SyncEvents(before)).state, Pipeline.Run(p, PipeEvents(before)).value, e,
                 SyncProtocol.Run(s, SyncEvents(es)).state, Pipeline.Run(p, PipeEvents(es)).value, account, folder);
    }
  }

  /**
   From the wire to the index: whatever the server, the sessions, the sink, the drainer and crashes
   have done, every message in the mailbox at or below the stored watermark of the current epoch is
   unparseable, or stored and still queued, or indexed with the document built from its row.
   */
  lemma WatermarkedMailIsKept(s: SyncProtocol.State, p: Pipeline.State, es: seq<JointEvent>,
                              meaning: map<Pipeline.Key, Pipeline.Parse>, account: string, folder: string, u: nat)
    requires SyncProtocol.Init(s) && Pipeline.Init(p) && JointRun(s, p, es, account, folder)
    requires SyncProtocol.Run(s, SyncEvents(es)).faults == 0 && Pipeline.Immutable(meaning, PipeEvents(es))
    requires var m := SyncProtocol.Run(s, SyncEvents(es)).state;
             m.row.uidvalidity == Some(m.server.epoch) && u in m.server.mailbox && u <= m.row.lastSeen
    ensures var key := Pipeline.Key(account, folder, u, SyncProtocol.Run(s, SyncEvents(es)).state.server.epoch);
            key in meaning && Pipeline.Kept(Pipeline.Run(p, PipeEvents(es)).value, key, meaning[key])
  {
    var m := SyncProtocol.Run(s, SyncEvents(es)).state;
    SyncProtocol.WatermarkNeverOverclaims(s, SyncEvents(es), m);
    Pipeline.RunKeepsInv(p, PipeEvents(es), meaning);
    JointOks(s, p, es, account, folder);
    assert (m.server.epoch, u) in m.acked;
  }

  /** A joint run and the states it leads to, without faults. */
  ghost predicate Leads(s: SyncProtocol.State, p: Pipeline.State, es: seq<JointEvent>, account: string, folder: string,
                        m: SyncProtocol.State, q: Pipeline.State)
  {
    && JointRun(s, p, es, account, folder)
    && SyncProtocol.Run(s, SyncEvents(es)) == SyncProtocol.At(m, 0) && Pipeline.Run(p, PipeEvents(es)) == Some(q)
  }

  lemma EventsSnoc(es: seq<JointEvent>, e: JointEvent)
    ensures SyncEvents(es + [e]) == if e.sync.Some? then SyncEvents(es) + [e.sync.value] else SyncEvents(es)
    ensures PipeEvents(es + [e]) == if e.pipe.Some? then PipeEvents(es) + [e.pipe.value] else PipeEvents(es)
  {
    assert (es + [e])[..|es|] == es;
  }

  lemma JointSnoc(s: SyncProtocol.State, p: Pipeline.State, es: seq<JointEvent>, account: string, folder: string,
                  m: SyncProtocol.State, q: Pipeline.State, e: JointEvent, m': SyncProtocol.State, q': Pipeline.State)
    requires Leads(s, p, es, account, folder, m, q) && Linked(m, q, e, account, folder)
    requires SyncProtocol.Run(s, SyncEvents(es + [e])) == SyncProtocol.At(m', 0)
    requires Pipeline.Run(p, PipeEvents(es + [e])) == Some(q')
    ensures Leads(s, p, es + [e], account, folder, m', q')
  {
    assert (es + [e])[..|es|] == es;
  }

  lemma SyncStep(s: SyncProtocol.State, p: Pipeline.State, es: seq<JointEvent>, account: string, folder: string,
                 m: SyncProtocol.State, q: Pipeline.State, e: SyncProtocol.Event)
    returns (es': seq<JointEvent>)
    requires Leads(s, p, es, account, folder, m, q) && !e.SubmitOk? && !Dies(Some(e))
    requires SyncProtocol.Enabled(m, e) && !SyncProtocol.Fault(m, e)
    ensures Leads(s, p, es', account, folder, SyncProtocol.Apply(m, e), q)
    ensures PipeEvents(es') == PipeEvents(es)
  {
    var j := JointEvent(Some(e), None);
    es' := es + [j];
    EventsSnoc(es, j);
    SyncProtocol.Extend(s, SyncEvents(es), m, e, SyncProtocol.Apply(m, e));
    JointSnoc(s, p, es, account, folder, m, q, j, SyncProtocol.Apply(m, e), q);
  }

  lemma PipeStep(s: SyncProtocol.State, p: Pipeline.State, es: seq<JointEvent>, account: string, folder: string,
                 m: SyncProtocol.State, q: Pipeline.State, e: Pipeline.Event)
    returns (es': seq<JointEvent>)
    requires Leads(s, p, es, account, folder, m, q) && !e.Crash? && Pipeline.Enabled(q, e)
    ensures Leads(s, p, es', account, folder, m, Pipeline.Apply(q, e))
    ensures PipeEvents(es') == PipeEvents(es) + [e]
  {
    var j := JointEvent(None, Some(e));
    es' := es + [j];
    EventsSnoc(es, j);
    Pipeline.Extend(p, PipeEvents(es), q, e, Pipeline.Apply(q, e));
    JointSnoc(s, p, es, account, folder, m, q, j, m, Pipeline.Apply(q, e));
  }

  /** The sink returns Ok and the session takes the message as accepted. */
  lemma BothStep(s: SyncProtocol.State, p: Pipeline.State, es: seq<JointEvent>, account: string, folder: string,
                 m: SyncProtocol.State, q: Pipeline.State, c: nat)
    returns (es': seq<JointEvent>)
    requires Leads(s, p, es, account, folder, m, q) && SyncProtocol.Enabled(m, SyncProtocol.SubmitOk)
    requires Pipeline.Enabled(q, Pipeline.Acknowledge(c))
    requires q.calls[c].key == Pipeline.Key(account, folder, m.phase.pending[0], m.phase.v)
    ensures Leads(s, p, es', account, folder, SyncProtocol.Apply(m, SyncProtocol.SubmitOk), Pipeline.Apply(q, Pipeline.Acknowledge(c)))
    ensures PipeEvents(es') == PipeEvents(es) + [Pipeline.Acknowledge(c)]
  {
    var m', q' := SyncProtocol.Apply(m, SyncProtocol.SubmitOk), Pipeline.Apply(q, Pipeline.Acknowledge(c));
    var j := JointEvent(Some(SyncProtocol.SubmitOk), Some(Pipeline.Acknowledge(c)));
    es' := es + [j];
    EventsSnoc(es, j);
    SyncProtocol.Extend(s, SyncEvents(es), m, SyncProtocol.SubmitOk, m');
    Pipeline.Extend(p, PipeEvents(es), q, Pipeline.Acknowledge(c), q');
    JointSnoc(s, p, es, account, folder, m, q, j, m', q');
  }

  /** A mailbox of one message, fetched by a first session. */
  function OneMail(phase: SyncProtocol.Phase): SyncProtocol.State {
    SyncProtocol.State(SyncProtocol.Server(1, {1}, 2), SyncProtocol.SyncRow(None, 0), {}, phase, 0, false)
  }

  function EmptyPipeline(): Pipeline.State { Pipeline.State(map[], map[], map[], {}, map[], [], Pipeline.Between, {}) }

  lemma OneMailFetched(account: string, folder: string) returns (es: seq<JointEvent>)
    ensures Leads(OneMail(SyncProtocol.Offline), EmptyPipeline(), es, account, folder,
                  OneMail(SyncProtocol.Batch(1, Some(1), 500, 0, [1])), EmptyPipeline())
    ensures PipeEvents(es) == []
  {
    var s, p := OneMail(SyncProtocol.Offline), EmptyPipeline();
    es := SyncStep(s, p, [], account, folder, s, p, SyncProtocol.Examine(true));
    var m1 := OneMail(SyncProtocol.Examined(1, Some(1)));
    es := SyncStep(s, p, es, account, folder, m1, p, SyncProtocol.CheckEpoch(true));
    var m2 := OneMail(SyncProtocol.Walking(1, Some(1), 1, 0));
    assert SyncProtocol.FetchRange({1}, 1, 500) == {1};
    es := SyncStep(s, p, es, account, folder, m2, p, SyncProtocol.FetchBatch([1]));
  }

  /** Continue a joint run by steps of the pipeline alone. */
  lemma {:induction false} PipeSteps(s: SyncProtocol.State, p: Pipeline.State, es: seq<JointEvent>, account: string, folder: string,
                                     m: SyncProtocol.State, q: Pipeline.State, ps: seq<Pipeline.Event>)
    returns (es': seq<JointEvent>)
    requires Leads(s, p, es, account, folder, m, q) && Pipeline.Run(q, ps).Some? && Pipeline.Crash !in ps
    ensures Leads(s, p, es', account, folder, m, Pipeline.Run(q, ps).value)
    ensures PipeEvents(es') == PipeEvents(es) + ps
    decreases |ps|
  {
    es' := es;
    if ps != [] {
      var first, last := ps[..|ps| - 1], ps[|ps| - 1];
      assert ps == first + [last];
      PipeSnoc(q, first, last);
      var mid := PipeSteps(s, p, es, account, folder, m, q, first);
      es' := PipeStep(s, p, mid, account, folder, m, Pipeline.Run(q, first).value, last);
      assert PipeEvents(es) + first + [last] == PipeEvents(es) + ps;
    }
  }

  /** The sink call of that message, up to its queue row. */
  lemma OneMailQueued(account: string, folder: string, id: string, content: Pipeline.Content)
    returns (es: seq<JointEvent>, q: Pipeline.State)
    ensures Leads(OneMail(SyncProtocol.Offline), EmptyPipeline(), es, account, folder,
                  OneMail(SyncProtocol.Batch(1, Some(1), 500, 0, [1])), q)
    ensures var key := Pipeline.Key(account, folder, 1, 1);
            && q.calls == map[0 := Pipeline.RowQueued(key, id, content)] && id in q.queue
            && forall e <- PipeEvents(es) :: e.Submit? ==> e == Pipeline.Submit(0, key, Pipeline.Parsed(id, content))
  {
    var s, m := OneMail(SyncProtocol.Offline), OneMail(SyncProtocol.Batch(1, Some(1), 500, 0, [1]));
    var p, key := EmptyPipeline(), Pipeline.Key(account, folder, 1, 1);
    var fetched := OneMailFetched(account, folder);
    var ps, inserted := Pipeline.CallInserts(p, [], p, 0, key, id, content);
    q := Pipeline.Apply(inserted, Pipeline.EnqueueRow(0, 0));
    Pipeline.Extend(p, ps, inserted, Pipeline.EnqueueRow(0, 0), q);
    es := PipeSteps(s, p, fetched, account, folder, m, p, ps + [Pipeline.EnqueueRow(0, 0)]);
  }

  /** The call returns, and the session's first batch is done. */
  lemma OneMailDone(account: string, folder: string, id: string, content: Pipeline.Content)
    returns (es: seq<JointEvent>, m: SyncProtocol.State, q: Pipeline.State)
    ensures Leads(OneMail(SyncProtocol.Offline), EmptyPipeline(), es, account, folder, m, q)
    ensures m.row == SyncProtocol.SyncRow(Some(1), 1) && m.server == SyncProtocol.Server(1, {1}, 2) && id in q.queue
    ensures forall e <- PipeEvents(es) ::
              e.Submit? ==> e == Pipeline.Submit(0, Pipeline.Key(account, folder, 1, 1), Pipeline.Parsed(id, content))
  {
    var s, p := OneMail(SyncProtocol.Offline), EmptyPipeline();
    var queued, before := OneMailQueued(account, folder, id, content);
    var fetched := OneMail(SyncProtocol.Batch(1, Some(1), 500, 0, [1]));
    var acked := BothStep(s, p, queued, account, folder, fetched, before, 0);
    var done := OneMail(SyncProtocol.Batch(1, Some(1), 500, 1, [])).(acked := {(1, 1)});
    assert [1][1..] == [];
    q := Pipeline.Apply(before, Pipeline.Acknowledge(0));
    es := SyncStep(s, p, acked, account, folder, done, q, SyncProtocol.FinishBatch);
    m := SyncProtocol.Apply(done, SyncProtocol.FinishBatch);
  }

  /** The theorem speaks of something: any message can come to lie under the watermark, stored and queued. */
  lemma AnyMailCanBeWatermarked(account: string, folder: string, id: string, content: Pipeline.Content)
    returns (s: SyncProtocol.State, p: Pipeline.State, es: seq<JointEvent>, meaning: map<Pipeline.Key, Pipeline.Parse>)
    ensures SyncProtocol.Init(s) && Pipeline.Init(p) && JointRun(s, p, es, account, folder)
    ensures SyncProtocol.Run(s, SyncEvents(es)).faults == 0 && Pipeline.Immutable(meaning, PipeEvents(es))
    ensures var m := SyncProtocol.Run(s, SyncEvents(es)).state;
            m.row == SyncProtocol.SyncRow(Some(m.server.epoch), 1) && m.server.mailbox == {1} && m.server.epoch == 1
    ensures meaning == map[Pipeline.Key(account, folder, 1, 1) := Pipeline.Parsed(id, content)]
    ensures id in Pipeline.Run(p, PipeEvents(es)).value.queue
  {
    s, p := OneMail(SyncProtocol.Offline), EmptyPipeline();
    meaning := map[Pipeline.Key(account, folder, 1, 1) := Pipeline.Parsed(id, content)];
    var m, q;
    es, m, q := OneMailDone(account, folder, id, content);
  }

  // ---------------------------------------------------------------- the index of the pipeline and the store

  /** The store operation behind a pipeline step: a submit of the loaded document, whole or cut short. */
  ghost function OpOf(q: Pipeline.State, e: Pipeline.Event): (ops: seq<SegmentIndex.Op>)
    ensures forall op <- ops :: SegmentIndex.ValidOp(op)
  {
    if !q.drain.Loaded? then []
    else
      var segments := Document.Segments(q.drain.document);
      match e
      case IndexAccepts => [SegmentIndex.SubmitOp(q.drain.id, segments, |segments|)]
      case IndexRefuses(done) => [SegmentIndex.SubmitOp(q.drain.id, segments, Min(done, |segments|))]
      case _ => []
  }

  /** The store operations of a whole run. */
  ghost function Ops(p: Pipeline.State, es: seq<Pipeline.Event>): (ops: seq<SegmentIndex.Op>)
    ensures forall i :: 0 <= i < |ops| ==> SegmentIndex.ValidOp(ops[i])
    decreases |es|
  {
    if es == [] then []
    else
      var before := Pipeline.Run(p, es[..|es| - 1]);
      Ops(p, es[..|es| - 1]) + if before.Some? then OpOf(before.value, es[|es| - 1]) else []
  }

  /** No message id is another one followed by `#1` to `#7`. */
  predicate NoClashes(meaning: map<Pipeline.Key, Pipeline.Parse>) {
    forall a <- meaning, b <- meaning ::
      meaning[a].Parsed? && meaning[b].Parsed? && meaning[a].id != meaning[b].id ==>
        !SegmentIndex.Clash(meaning[a].id, meaning[b].id)
  }

  ghost function SegmentsOf(q: Pipeline.State, id: string): (segments: seq<string>)
    requires id in q.messages
    ensures 1 <= |segments| <= Document.MAX_SEGMENTS_PER_MESSAGE
  {
    Document.Segments(Pipeline.DocumentOf(q.messages[id].content))
  }

  /** Every stored document belongs to a stored message and lies within its segments; an indexed message has exactly its segments. */
  ghost predicate StoreInv(q: Pipeline.State, db: SegmentIndex.Store) {
    && SegmentIndex.WellKeyed(db)
    && (forall k <- db :: db[k].id in q.messages && db[k].seg < |SegmentsOf(q, db[k].id)|)
    && (forall id <- q.index :: id in q.messages && SegmentIndex.Replaced(db, id, SegmentsOf(q, id)))
  }

  /** Under immutability a step never changes a stored row. */
  lemma RowsStay(q: Pipeline.State, e: Pipeline.Event, meaning: map<Pipeline.Key, Pipeline.Parse>)
    requires Pipeline.Inv(q, meaning) && Pipeline.Enabled(q, e)
    ensures forall id <- q.messages :: id in Pipeline.Apply(q, e).messages && Pipeline.Apply(q, e).messages[id] == q.messages[id]
  {
    if e.InsertRow? {
      var k := q.calls[e.call];
      Pipeline.ReinsertIsIdentity(q, meaning, k.id, k.key, k.content);
    }
  }

  lemma StoreInvCarries(q: Pipeline.State, q': Pipeline.State, db: SegmentIndex.Store)
    requires StoreInv(q, db) && q'.index == q.index
    requires forall id <- q.messages :: id in q'.messages && q'.messages[id] == q.messages[id]
    ensures StoreInv(q', db)
  {
  }

  /** Only the index's own answers change it, and only they are store operations. */
  lemma IndexUnchanged(q: Pipeline.State, e: Pipeline.Event)
    requires Pipeline.Enabled(q, e) && !e.IndexAccepts? && !e.IndexRefuses?
    ensures Pipeline.Apply(q, e).index == q.index && OpOf(q, e) == []
  {
  }

  /** Two stored ids do not clash. */
  lemma StoredIdsApart(q: Pipeline.State, meaning: map<Pipeline.Key, Pipeline.Parse>, a: string, b: string)
    requires Pipeline.Inv(q, meaning) && NoClashes(meaning) && a in q.messages && b in q.messages && a != b
    ensures !SegmentIndex.Clash(a, b)
  {
    var ka, kb := q.messages[a].key, q.messages[b].key;
    assert ka in meaning && kb in meaning && meaning[ka].id == a && meaning[kb].id == b;
  }

  /** A submit, whole or cut short, writes only segments of the message's own document. */
  lemma SubmitStaysWithin(q: Pipeline.State, db: SegmentIndex.Store, id: string, done: nat)
    requires StoreInv(q, db) && id in q.messages && done <= |SegmentsOf(q, id)|
    ensures var db' := SegmentIndex.Effect(db, SegmentIndex.SubmitOp(id, SegmentsOf(q, id), done));
            && SegmentIndex.WellKeyed(db')
            && forall k <- db' :: db'[k].id in q.messages && db'[k].seg < |SegmentsOf(q, db'[k].id)|
  {
    var segments := SegmentsOf(q, id);
    var op := SegmentIndex.SubmitOp(id, segments, done);
    var db' := SegmentIndex.Effect(db, op);
    SegmentIndex.EffectWellKeyed(db, op);
    forall k <- db' ensures db'[k].id in q.messages && db'[k].seg < |SegmentsOf(q, db'[k].id)| {
      if k in SegmentIndex.FirstKeys(id, done) {
        var i: nat :| i < done && k == SegmentIndex.SegmentKey(id, i);
        SegmentIndex.WrittenOwn(db, id, segments, done, i);
      } else {
        SegmentIndex.WrittenOther(db, id, segments, done, k);
      }
    }
  }

  lemma ReplacedCarries(db: SegmentIndex.Store, db': SegmentIndex.Store, id: string, segments: seq<string>)
    requires |segments| <= Document.MAX_SEGMENTS_PER_MESSAGE && SegmentIndex.Replaced(db, id, segments)
    requires SegmentIndex.DocsOf(db', id) == SegmentIndex.DocsOf(db, id)
    requires forall k <- SegmentIndex.DocsOf(db, id) :: db'[k] == db[k]
    ensures SegmentIndex.Replaced(db', id, segments)
  {
    forall i | 0 <= i < |segments|
      ensures var k := SegmentIndex.SegmentKey(id, i); k in db' && db'[k] == SegmentIndex.Doc(id, i, |segments|, segments[i])
    {
      assert SegmentIndex.SegmentKey(id, i) in SegmentIndex.DocsOf(db, id);
    }
  }

  /** A submit leaves every other indexed message whole. */
  lemma SubmitLeavesOthers(db: SegmentIndex.Store, op: SegmentIndex.Op, other: string, segments: seq<string>)
    requires SegmentIndex.WellKeyed(db) && SegmentIndex.ValidOp(op) && other != op.id && !SegmentIndex.Clash(op.id, other)
    requires |segments| <= Document.MAX_SEGMENTS_PER_MESSAGE && SegmentIndex.Replaced(db, other, segments)
    ensures SegmentIndex.Replaced(SegmentIndex.Effect(db, op), other, segments)
  {
    SegmentIndex.OthersUntouched(db, op, other);
    ReplacedCarries(db, SegmentIndex.Effect(db, op), other, segments);
  }

  lemma AcceptKeepsStore(q: Pipeline.State, db: SegmentIndex.Store, meaning: map<Pipeline.Key, Pipeline.Parse>)
    requires Pipeline.Inv(q, meaning) && NoClashes(meaning) && StoreInv(q, db) && q.drain.Loaded?
    ensures var segments := Document.Segments(q.drain.document);
            StoreInv(Pipeline.Apply(q, Pipeline.IndexAccepts),
                     SegmentIndex.Effect(db, SegmentIndex.SubmitOp(q.drain.id, segments, |segments|)))
  {
    var id := q.drain.id;
    var segments := SegmentsOf(q, id);
    var q' := Pipeline.Apply(q, Pipeline.IndexAccepts);
    SubmitStaysWithin(q, db, id, |segments|);
    SegmentIndex.SubmitReplacesIff(db, id, segments);
    forall other <- q'.index
      ensures SegmentIndex.Replaced(SegmentIndex.Effect(db, SegmentIndex.SubmitOp(id, segments, |segments|)),
                                    other, SegmentsOf(q', other))
    {
      if other != id {
        StoredIdsApart(q, meaning, id, other);
        SubmitLeavesOthers(db, SegmentIndex.SubmitOp(id, segments, |segments|), other, SegmentsOf(q, other));
      }
    }
  }

  lemma RefuseKeepsStore(q: Pipeline.State, db: SegmentIndex.Store, meaning: map<Pipeline.Key, Pipeline.Parse>, done: nat)
    requires Pipeline.Inv(q, meaning) && NoClashes(meaning) && StoreInv(q, db) && q.drain.Loaded?
    ensures var segments := Document.Segments(q.drain.document);
            StoreInv(Pipeline.Apply(q, Pipeline.IndexRefuses(done)),
                     SegmentIndex.Effect(db, SegmentIndex.SubmitOp(q.drain.id, segments, Min(done, |segments|))))
  {
    var id := q.drain.id;
    var segments := SegmentsOf(q, id);
    var d := Min(done, |segments|);
    var q' := Pipeline.Apply(q, Pipeline.IndexRefuses(done));
    SubmitStaysWithin(q, db, id, d);
    forall other <- q'.index
      ensures SegmentIndex.Replaced(SegmentIndex.Effect(db, SegmentIndex.SubmitOp(id, segments, d)), other, SegmentsOf(q', other))
    {
      if other != id {
        StoredIdsApart(q, meaning, id, other);
        SubmitLeavesOthers(db, SegmentIndex.SubmitOp(id, segments, d), other, SegmentsOf(q, other));
      }
    }
  }

  lemma HistorySnoc(ops: seq<SegmentIndex.Op>, op: SegmentIndex.Op)
    requires (forall i :: 0 <= i < |ops| ==> SegmentIndex.ValidOp(ops[i])) && SegmentIndex.ValidOp(op)
    ensures SegmentIndex.History(ops + [op]) == SegmentIndex.Effect(SegmentIndex.History(ops), op)
  {
    assert (ops + [op])[..|ops|] == ops;
  }

  lemma IndexStepKeepsStore(q: Pipeline.State, e: Pipeline.Event, ops: seq<SegmentIndex.Op>,
                            meaning: map<Pipeline.Key, Pipeline.Parse>)
    requires forall i :: 0 <= i < |ops| ==> SegmentIndex.ValidOp(ops[i])
    requires Pipeline.Inv(q, meaning) && NoClashes(meaning) && Pipeline.Enabled(q, e) && StoreInv(q, SegmentIndex.History(ops))
    requires e.IndexAccepts? || e.IndexRefuses?
    ensures StoreInv(Pipeline.Apply(q, e), SegmentIndex.History(ops + OpOf(q, e)))
  {
    var db := SegmentIndex.History(ops);
    if e.IndexAccepts? {
      AcceptKeepsStore(q, db, meaning);
    } else {
      RefuseKeepsStore(q, db, meaning, e.done);
    }
    var op := OpOf(q, e)[0];
    assert OpOf(q, e) == [op];
    HistorySnoc(ops, op);
  }

  lemma OtherStepKeepsStore(q: Pipeline.State, e: Pipeline.Event, db: SegmentIndex.Store, meaning: map<Pipeline.Key, Pipeline.Parse>)
    requires Pipeline.Inv(q, meaning) && Pipeline.Enabled(q, e) && StoreInv(q, db) && !e.IndexAccepts? && !e.IndexRefuses?
    ensures StoreInv(Pipeline.Apply(q, e), db)
  {
    var q' := Pipeline.Apply(q, e);
    RowsStay(q, e, meaning);
    assert q'.index == q.index by { IndexUnchanged(q, e); }
    StoreInvCarries(q, q', db);
  }

  lemma {:induction false} RunKeepsStore(p: Pipeline.State, es: seq<Pipeline.Event>, meaning: map<Pipeline.Key, Pipeline.Parse>)
    requires Pipeline.Init(p) && Pipeline.Run(p, es).Some? && Pipeline.Immutable(meaning, es) && NoClashes(meaning)
    ensures StoreInv(Pipeline.Run(p, es).value, SegmentIndex.History(Ops(p, es)))
    decreases |es|
  {
    if es != [] {
      var before, e := es[..|es| - 1], es[|es| - 1];
      assert es == before + [e];
      RunKeepsStore(p, before, meaning);
      Pipeline.RunKeepsInv(p, before, meaning);
      if e.IndexAccepts? || e.IndexRefuses? {
        IndexStepKeepsStore(Pipeline.Run(p, before).value, e, Ops(p, before), meaning);
      } else {
        OtherStepKeepsStore(Pipeline.Run(p, before).value, e, SegmentIndex.History(Ops(p, before)), meaning);
        IndexUnchanged(Pipeline.Run(p, before).value, e);
        assert Ops(p, es) == Ops(p, before);
      }
    }
  }

  /**
   When no two message ids clash, a message the pipeline holds for indexed has in the store exactly
   the segments of the document built from its row: all of them, in order, and nothing else.
   */
  lemma IndexedMeansStored(p: Pipeline.State, es: seq<Pipeline.Event>, meaning: map<Pipeline.Key, Pipeline.Parse>, id: string)
    requires Pipeline.Init(p) && Pipeline.Run(p, es).Some? && Pipeline.Immutable(meaning, es) && NoClashes(meaning)
    requires Pipeline.IndexedAsStored(Pipeline.Run(p, es).value, id)
    ensures SegmentIndex.Replaced(SegmentIndex.History(Ops(p, es)), id, SegmentsOf(Pipeline.Run(p, es).value, id))
  {
    RunKeepsStore(p, es, meaning);
  }

  /** From the wire to the store: a watermarked message is unparseable, queued, or stored segment by segment. */
  lemma WatermarkedMailIsStored(s: SyncProtocol.State, p: Pipeline.State, es: seq<JointEvent>,
                                meaning: map<Pipeline.Key, Pipeline.Parse>, account: string, folder: string, u: nat)
    requires SyncProtocol.Init(s) && Pipeline.Init(p) && JointRun(s, p, es, account, folder)
    requires SyncProtocol.Run(s, SyncEvents(es)).faults == 0
    requires Pipeline.Immutable(meaning, PipeEvents(es)) && NoClashes(meaning)
    requires var m := SyncProtocol.Run(s, SyncEvents(es)).state;
             m.row.uidvalidity == Some(m.server.epoch) && u in m.server.mailbox && u <= m.row.lastSeen
    ensures var key := Pipeline.Key(account, folder, u, SyncProtocol.Run(s, SyncEvents(es)).state.server.epoch);
            var q := Pipeline.Run(p, PipeEvents(es)).value;
            && key in meaning
            && (meaning[key].Parsed? ==>
                  var id, segments := meaning[key].id, Document.Segments(Pipeline.DocumentOf(meaning[key].content));
                  id in q.queue || SegmentIndex.Replaced(SegmentIndex.History(Ops(p, PipeEvents(es))), id, segments))
  {
    WatermarkedMailIsKept(s, p, es, meaning, account, folder, u);
    var key := Pipeline.Key(account, folder, u, SyncProtocol.Run(s, SyncEvents(es)).state.server.epoch);
    if meaning[key].Parsed? && meaning[key].id !in Pipeline.Run(p, PipeEvents(es)).value.queue {
      IndexedMeansStored(p, PipeEvents(es), meaning, meaning[key].id);
    }
  }

  // ---------------------------------------------------------------- from the store to the page

  /** Over every history of submits and removes the search ranks the whole index. */
  method SearchStore(ghost ops: seq<SegmentIndex.Op>, ghost keys: seq<string>, rows: seq<Ranking.Row>, sel: seq<nat>,
                     k: nat, withSnippets: bool)
    returns (hits: seq<Ranking.Hit>)
    requires forall i :: 0 <= i < |ops| ==> SegmentIndex.ValidOp(ops[i])
    requires SegmentIndex.RowsFrom(SegmentIndex.History(ops), keys, rows)
    requires k <= Ranking.USIZE_MAX && |rows| <= Ranking.USIZE_MAX
    requires Ranking.BestRows(rows, Min(8 * k, 0xFFFF_FFFF_FFFF_FFFF), sel)
    ensures Ranking.IsRanking(hits, Ranking.Best(rows), k)
  {
    SegmentIndex.HistoryIsSegmented(ops, keys, rows);
    hits := Ranking.SegmentedSearch(rows, sel, k, withSnippets);
  }
}
