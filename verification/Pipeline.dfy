/**
 The ingest pipeline as a step system: any number of sink calls in flight, one drainer, and a
 process that may die between any two steps.  Tables and the search index survive a death;
 everything else does not.
 */
module Pipeline {
  import opened Wrappers
  import opened IndexQueue
  import Document

  /** The upsert target of `messages`. */
  datatype Key = Key(account: string, folder: string, uid: nat, uidvalidity: nat)

  datatype Headers = Headers(subject: Option<string>, senderAddr: string, senderName: Option<string>)

  /** The columns the indexed document is built from. */
  datatype Content = Content(headers: Headers, body: string)

  /** What parsing the fetched bytes yields. */
  datatype Parse = Unparseable | Parsed(id: string, content: Content)

  datatype MessageRow = MessageRow(key: Key, content: Content)

  /** The `messages` table by its primary key `message_id`. */
  type Messages = map<string, MessageRow>

  function DocumentOf(c: Content): string {
    Document.Build(c.headers.subject, c.headers.senderAddr, c.headers.senderName, c.body)
  }

  /**
   `insert_message`: a row with the same 4-tuple has its body rewritten and keeps its id and headers;
   otherwise a taken `message_id` is a constraint violation that changes nothing; otherwise the row is new.
   */
  function Inserted(t: Messages, id: string, key: Key, content: Content): Option<Messages> {
    if exists other <- t :: t[other].key == key then
      Some(map other <- t ::
             if t[other].key == key then t[other].(content := t[other].content.(body := content.body)) else t[other])
    else if id in t then None
    else Some(t[id := MessageRow(key, content)])
  }

  // ---------------------------------------------------------------- state

  /** One sink call in flight: nothing written, raw file written, row inserted, row queued. */
  datatype SinkCall =
    | Started(key: Key, id: string, content: Content)
    | RawWritten(key: Key, id: string, content: Content)
    | RowInserted(key: Key, id: string, content: Content)
    | RowQueued(key: Key, id: string, content: Content)

  /** Where the drainer is inside `process` for the row it is working on. */
  datatype Drain =
    | Between
    | Loaded(id: string, document: string)
    | Gone(id: string)
    | Accepted(id: string)
    | Refused(id: string)

  datatype State = State(
    messages: Messages,
    queue: Table,
    index: map<string, string>,
    rawFiles: set<string>,
    calls: map<nat, SinkCall>,
    batch: seq<string>,
    drain: Drain,
    acked: set<(Key, Parse)>)   // history: calls that returned Ok

  datatype Event =
    | Submit(call: nat, key: Key, parse: Parse)
    | WriteRaw(call: nat)
    | InsertRow(call: nat)
    | EnqueueRow(call: nat, now: int)
    | Acknowledge(call: nat)
    | CallFails(call: nat)
    | Pop(ids: seq<string>)
    | LoadMessage
    | SkipRow
    | IndexAccepts
    | IndexRefuses(done: nat)
    | DeleteQueueRow
    | MarkQueueRow(err: string)
    | Reenqueue(live: set<string>, now: int)
    | Crash

  predicate Enabled(s: State, e: Event) {
    match e
    case Submit(c, _, _) => c !in s.calls
    case WriteRaw(c) => c in s.calls && s.calls[c].Started?
    case InsertRow(c) => c in s.calls && s.calls[c].RawWritten?
    case EnqueueRow(c, _) => c in s.calls && s.calls[c].RowInserted?
    case Acknowledge(c) => c in s.calls && s.calls[c].RowQueued?
    case CallFails(c) => c in s.calls
    case Pop(ids) =>
      && s.drain.Between? && s.batch == [] && |ids| <= INDEXER_BATCH && Distinct(ids)
      && forall i :: 0 <= i < |ids| ==> IsDrainable(s.queue, ids[i])
    case LoadMessage => s.drain.Between? && s.batch != []
    case SkipRow => (s.drain.Between? && s.batch != []) || s.drain.Gone? || s.drain.Accepted? || s.drain.Refused?
    case IndexAccepts => s.drain.Loaded?
    case IndexRefuses(_) => s.drain.Loaded?
    case DeleteQueueRow => s.drain.Gone? || s.drain.Accepted?
    case MarkQueueRow(_) => s.drain.Refused?
    case Reenqueue(live, _) => live <= s.messages.Keys
    case Crash => true
  }

  function Apply(s: State, e: Event): State
    requires Enabled(s, e)
  {
    match e
    case Submit(c, key, parse) =>
      if parse.Unparseable? then s.(acked := s.acked + {(key, parse)})
      else s.(calls := s.calls[c := Started(key, parse.id, parse.content)])
    case WriteRaw(c) =>
      var k := s.calls[c];
      s.(rawFiles := s.rawFiles + {k.id}, calls := s.calls[c := RawWritten(k.key, k.id, k.content)])
    case InsertRow(c) =>
      var k := s.calls[c];
      (match Inserted(s.messages, k.id, k.key, k.content)
       case Some(t) => s.(messages := t, calls := s.calls[c := RowInserted(k.key, k.id, k.content)])
       case None => s.(calls := s.calls - {c}))
    case EnqueueRow(c, now) =>
      var k := s.calls[c];
      s.(queue := Enqueued(s.queue, k.id, now), calls := s.calls[c := RowQueued(k.key, k.id, k.content)])
    case Acknowledge(c) =>
      var k := s.calls[c];
      s.(calls := s.calls - {c}, acked := s.acked + {(k.key, Parsed(k.id, k.content))})
    case CallFails(c) => s.(calls := s.calls - {c})
    case Pop(ids) => s.(batch := ids)
    case LoadMessage =>
      var id := s.batch[0];
      s.(batch := s.batch[1..],
         drain := if id in s.messages then Loaded(id, DocumentOf(s.messages[id].content)) else Gone(id))
    case SkipRow =>
      // A failed load, delete or update is logged and the row is left for a later tick.
      if s.drain.Between? then s.(batch := s.batch[1..]) else s.(drain := Between)
    case IndexAccepts =>
      s.(index := s.index[s.drain.id := s.drain.document], drain := Accepted(s.drain.id))
    case IndexRefuses(done) =>
      // Once a segment has been written, whatever was indexed for the message is no longer whole.
      s.(index := if done > 0 then s.index - {s.drain.id} else s.index, drain := Refused(s.drain.id))
    case DeleteQueueRow => s.(queue := Deleted(s.queue, s.drain.id), drain := Between)
    case MarkQueueRow(err) => s.(queue := MarkedFailed(s.queue, s.drain.id, err, MAX_ATTEMPTS), drain := Between)
    case Reenqueue(live, now) => s.(queue := Reenqueued(s.queue, live, now))
    case Crash => s.(calls := map[], batch := [], drain := Between)
  }

  predicate Init(s: State) {
    s == State(map[], map[], map[], {}, map[], [], Between, {})
  }

  function Run(s: State, es: seq<Event>): Option<State>
    decreases |es|
  {
    if es == [] then Some(s)
    else
      var before := Run(s, es[..|es| - 1]);
      if before.Some? && Enabled(before.value, es[|es| - 1]) then Some(Apply(before.value, es[|es| - 1])) else None
  }

  // ---------------------------------------------------------------- the guarantee

  /** An indexed document is the one built from the stored row. */
  predicate IndexedAsStored(s: State, id: string) {
    id in s.messages && id in s.index && s.index[id] == DocumentOf(s.messages[id].content)
  }

  /** What an Ok from `submit` is worth. */
  predicate Kept(s: State, key: Key, parse: Parse) {
    parse.Parsed? ==>
      && parse.id in s.messages
      && s.messages[parse.id] == MessageRow(key, parse.content)
      && (parse.id in s.queue || IndexedAsStored(s, parse.id))
  }

  /**
   A UID names one immutable message, so its bytes, and what they parse to, never change:
   `meaning` gives the one parse of each key (section 2.3.1.1 of RFC 3501).
   */
  predicate Immutable(meaning: map<Key, Parse>, es: seq<Event>) {
    forall e <- es :: e.Submit? ==> e.key in meaning && e.parse == meaning[e.key]
  }

  // ---------------------------------------------------------------- invariant

  predicate TablesInv(s: State, meaning: map<Key, Parse>) {
    && (forall id <- s.messages ::
          && s.messages[id].key in meaning
          && meaning[s.messages[id].key] == Parsed(id, s.messages[id].content)
          && id in s.rawFiles)
    && s.queue.Keys <= s.messages.Keys
    && IndexQueue.Valid(s.queue)
    && (forall id <- s.index :: IndexedAsStored(s, id))
  }

  predicate CallsInv(s: State, meaning: map<Key, Parse>) {
    forall c <- s.calls ::
      var k := s.calls[c];
      && k.key in meaning && meaning[k.key] == Parsed(k.id, k.content)
      && (!k.Started? ==> k.id in s.rawFiles)
      && (k.RowInserted? ==> k.id in s.messages && s.messages[k.id] == MessageRow(k.key, k.content))
      && (k.RowQueued? ==> Kept(s, k.key, Parsed(k.id, k.content)))
  }

  predicate DrainInv(s: State) {
    && Distinct(s.batch)
    && (forall i :: 0 <= i < |s.batch| ==> IsDrainable(s.queue, s.batch[i]))
    && !s.drain.Gone?
    && (!s.drain.Between? ==> IsDrainable(s.queue, s.drain.id) && s.drain.id !in s.batch)
    && (s.drain.Loaded? ==> s.drain.id in s.messages && s.drain.document == DocumentOf(s.messages[s.drain.id].content))
    && (s.drain.Accepted? ==> IndexedAsStored(s, s.drain.id))
  }

  predicate Inv(s: State, meaning: map<Key, Parse>) {
    && TablesInv(s, meaning) && CallsInv(s, meaning)
    && DrainInv(s)
    && forall a <- s.acked :: a.0 in meaning && a.1 == meaning[a.0] && Kept(s, a.0, a.1)
  }

  /**
   The three outcomes of an insert, row by row: the row of the same server message takes the new
   body and nothing else; else a taken id refuses; else there is one row more.
   */
  lemma InsertOutcomes(t: Messages, id: string, key: Key, content: Content)
    ensures (exists r <- t :: t[r].key == key) ==>
              && Inserted(t, id, key, content).Some? && Inserted(t, id, key, content).value.Keys == t.Keys
              && forall r <- t ::
                   var r' := Inserted(t, id, key, content).value[r];
                   && r'.key == t[r].key && r'.content.headers == t[r].content.headers
                   && r'.content.body == if t[r].key == key then content.body else t[r].content.body
    ensures (forall r <- t :: t[r].key != key) && id in t ==> Inserted(t, id, key, content) == None
    ensures (forall r <- t :: t[r].key != key) && id !in t ==>
              && Inserted(t, id, key, content).Some? && Inserted(t, id, key, content).value.Keys == t.Keys + {id}
              && Inserted(t, id, key, content).value[id] == MessageRow(key, content)
              && forall r <- t :: Inserted(t, id, key, content).value[r] == t[r]
  {
  }

  /** Under immutability a re-insert writes what is there already. */
  lemma ReinsertIsIdentity(s: State, meaning: map<Key, Parse>, id: string, key: Key, content: Content)
    requires TablesInv(s, meaning) && key in meaning && meaning[key] == Parsed(id, content)
    ensures Inserted(s.messages, id, key, content).Some? ==>
              var t := Inserted(s.messages, id, key, content).value;
              && id in t && t[id] == MessageRow(key, content)
              && t.Keys == s.messages.Keys + {id}
              && forall other <- s.messages :: t[other] == s.messages[other]
  {
  }

  lemma InsertKeepsInv(s: State, c: nat, meaning: map<Key, Parse>)
    requires Inv(s, meaning) && Enabled(s, InsertRow(c))
    ensures Inv(Apply(s, InsertRow(c)), meaning)
  {
    var k := s.calls[c];
    ReinsertIsIdentity(s, meaning, k.id, k.key, k.content);
  }

  lemma EnqueueKeepsInv(s: State, c: nat, now: int, meaning: map<Key, Parse>)
    requires Inv(s, meaning) && Enabled(s, EnqueueRow(c, now))
    ensures Inv(Apply(s, EnqueueRow(c, now)), meaning)
  {
  }

  lemma SubmitKeepsInv(s: State, e: Event, meaning: map<Key, Parse>)
    requires Inv(s, meaning) && Enabled(s, e) && e.Submit?
    requires e.key in meaning && e.parse == meaning[e.key]
    ensures Inv(Apply(s, e), meaning)
  {
  }

  lemma WriteRawKeepsInv(s: State, e: Event, meaning: map<Key, Parse>)
    requires Inv(s, meaning) && Enabled(s, e) && e.WriteRaw?
    ensures Inv(Apply(s, e), meaning)
  {
  }

  lemma AcknowledgeKeepsInv(s: State, e: Event, meaning: map<Key, Parse>)
    requires Inv(s, meaning) && Enabled(s, e) && e.Acknowledge?
    ensures Inv(Apply(s, e), meaning)
  {
  }

  lemma DropCallsKeepsInv(s: State, e: Event, meaning: map<Key, Parse>)
    requires Inv(s, meaning) && Enabled(s, e) && (e.CallFails? || e.Crash?)
    ensures Inv(Apply(s, e), meaning)
  {
  }

  lemma PopKeepsInv(s: State, e: Event, meaning: map<Key, Parse>)
    requires Inv(s, meaning) && Enabled(s, e) && e.Pop?
    ensures Inv(Apply(s, e), meaning)
  {
  }

  lemma LoadKeepsInv(s: State, e: Event, meaning: map<Key, Parse>)
    requires Inv(s, meaning) && Enabled(s, e) && (e.LoadMessage? || e.SkipRow?)
    ensures Inv(Apply(s, e), meaning)
  {
  }

  lemma AcceptKeepsInv(s: State, e: Event, meaning: map<Key, Parse>)
    requires Inv(s, meaning) && Enabled(s, e) && e.IndexAccepts?
    ensures Inv(Apply(s, e), meaning)
  {
  }

  lemma RefuseKeepsInv(s: State, e: Event, meaning: map<Key, Parse>)
    requires Inv(s, meaning) && Enabled(s, e) && e.IndexRefuses?
    ensures Inv(Apply(s, e), meaning)
  {
  }

  lemma DeleteKeepsInv(s: State, e: Event, meaning: map<Key, Parse>)
    requires Inv(s, meaning) && Enabled(s, e) && e.DeleteQueueRow?
    ensures Inv(Apply(s, e), meaning)
  {
  }

  lemma MarkKeepsInv(s: State, e: Event, meaning: map<Key, Parse>)
    requires Inv(s, meaning) && Enabled(s, e) && e.MarkQueueRow?
    ensures Inv(Apply(s, e), meaning)
  {
  }

  lemma ReenqueueKeepsInv(s: State, e: Event, meaning: map<Key, Parse>)
    requires Inv(s, meaning) && Enabled(s, e) && e.Reenqueue?
    ensures Inv(Apply(s, e), meaning)
  {
  }

  lemma StepKeepsInv(s: State, e: Event, meaning: map<Key, Parse>)
    requires Inv(s, meaning) && Enabled(s, e) && (e.Submit? ==> e.key in meaning && e.parse == meaning[e.key])
    ensures Inv(Apply(s, e), meaning)
  {
    match e {
      case Submit(_, _, _) => SubmitKeepsInv(s, e, meaning);
      case WriteRaw(_) => WriteRawKeepsInv(s, e, meaning);
      case InsertRow(c) => InsertKeepsInv(s, c, meaning);
      case EnqueueRow(c, now) => EnqueueKeepsInv(s, c, now, meaning);
      case Acknowledge(_) => AcknowledgeKeepsInv(s, e, meaning);
      case CallFails(_) => DropCallsKeepsInv(s, e, meaning);
      case Pop(_) => PopKeepsInv(s, e, meaning);
      case LoadMessage => LoadKeepsInv(s, e, meaning);
      case SkipRow => LoadKeepsInv(s, e, meaning);
      case IndexAccepts => AcceptKeepsInv(s, e, meaning);
      case IndexRefuses(_) => RefuseKeepsInv(s, e, meaning);
      case DeleteQueueRow => DeleteKeepsInv(s, e, meaning);
      case MarkQueueRow(_) => MarkKeepsInv(s, e, meaning);
      case Reenqueue(_, _) => ReenqueueKeepsInv(s, e, meaning);
      case Crash => DropCallsKeepsInv(s, e, meaning);
    }
  }

  lemma {:induction false} RunKeepsInv(s: State, es: seq<Event>, meaning: map<Key, Parse>)
    requires Init(s) && Run(s, es).Some? && Immutable(meaning, es)
    ensures Inv(Run(s, es).value, meaning)
    decreases |es|
  {
    if es != [] {
      var n := |es| - 1;
      assert es == es[..n] + [es[n]];
      RunKeepsInv(s, es[..n], meaning);
      StepKeepsInv(Run(s, es[..n]).value, es[n], meaning);
    }
  }

  // ---------------------------------------------------------------- theorems

  /** Whatever interleaving and crashes, an acknowledged message is unparseable, queued, or indexed as stored. */
  lemma AcknowledgedMessagesKept(s: State, es: seq<Event>, meaning: map<Key, Parse>)
    requires Init(s) && Run(s, es).Some? && Immutable(meaning, es)
    ensures forall a <- Run(s, es).value.acked :: Kept(Run(s, es).value, a.0, a.1)
  {
    RunKeepsInv(s, es, meaning);
  }

  /**
   What a search finds of an acknowledged message that is no longer queued: its trimmed subject, its
   sender with the trimmed name, and its whole body, under its id.
   */
  lemma AcknowledgedTextIndexed(s: State, es: seq<Event>, meaning: map<Key, Parse>, a: (Key, Parse),
                                si: nat, sj: nat, ni: nat, nj: nat)
    requires Init(s) && Run(s, es).Some? && Immutable(meaning, es)
    requires a in Run(s, es).value.acked && a.1.Parsed? && a.1.id !in Run(s, es).value.queue
    requires var h := a.1.content.headers;
             && (h.subject.Some? ==> Document.Inner(h.subject.value, si, sj))
             && (h.senderName.Some? ==> Document.Inner(h.senderName.value, ni, nj))
    ensures var h, m := a.1.content.headers, Run(s, es).value;
            a.1.id in m.index && m.index[a.1.id] ==
              (if h.subject.Some? && si < sj then h.subject.value[si..sj] + "\n\n" else "")
              + (if h.senderName.Some? && ni < nj then h.senderName.value[ni..nj] + " <" + h.senderAddr + ">" else h.senderAddr)
              + "\n\n" + a.1.content.body
  {
    AcknowledgedMessagesKept(s, es, meaning);
    var h, m := a.1.content.headers, Run(s, es).value;
    assert Kept(m, a.0, a.1);
    Document.DocumentReads(h.subject, si, sj, h.senderAddr, h.senderName, ni, nj, a.1.content.body);
  }

  /** A stored row that is neither queued nor indexed as stored was never acknowledged. */
  lemma OrphanRowsUnacknowledged(s: State, es: seq<Event>, meaning: map<Key, Parse>, id: string)
    requires Init(s) && Run(s, es).Some? && Immutable(meaning, es)
    requires var m := Run(s, es).value; id in m.messages && id !in m.queue && !IndexedAsStored(m, id)
    ensures var m := Run(s, es).value; forall a <- m.acked :: a.0 != m.messages[id].key
  {
    RunKeepsInv(s, es, meaning);
  }

  /** No two server messages are acknowledged under one id: the second insert violates the primary key. */
  lemma OneMessagePerId(s: State, es: seq<Event>, meaning: map<Key, Parse>, a: (Key, Parse), b: (Key, Parse))
    requires Init(s) && Run(s, es).Some? && Immutable(meaning, es)
    requires a in Run(s, es).value.acked && b in Run(s, es).value.acked
    requires a.1.Parsed? && b.1.Parsed? && a.1.id == b.1.id
    ensures a == b
  {
    RunKeepsInv(s, es, meaning);
  }

  /** In every reachable state each queue row has a message, and each message its raw file; attempts stay within the ceiling. */
  lemma ReachableTables(s: State, es: seq<Event>, meaning: map<Key, Parse>)
    requires Init(s) && Run(s, es).Some? && Immutable(meaning, es)
    ensures var m := Run(s, es).value;
            && m.queue.Keys <= m.messages.Keys <= m.rawFiles
            && forall id <- m.queue ::
                 m.queue[id].attempts <= 5 && (m.queue[id].failedPermanent <==> m.queue[id].attempts == 5)
  {
    RunKeepsInv(s, es, meaning);
  }

  lemma Extend(s: State, es: seq<Event>, m: State, e: Event, m': State)
    requires Run(s, es) == Some(m) && Enabled(m, e) && m' == Apply(m, e)
    ensures Run(s, es + [e]) == Some(m')
  {
    assert (es + [e])[..|es|] == es;
  }

  /** Continue a run by a sink call up to its row insert. */
  lemma CallInserts(s: State, es: seq<Event>, m: State, c: nat, key: Key, id: string, content: Content)
    returns (es': seq<Event>, m': State)
    requires Run(s, es) == Some(m) && c !in m.calls && Inserted(m.messages, id, key, content).Some?
    ensures Run(s, es') == Some(m')
    ensures m' == m.(messages := Inserted(m.messages, id, key, content).value, rawFiles := m.rawFiles + {id},
                     calls := m.calls[c := RowInserted(key, id, content)])
    ensures forall e <- es' :: e in es || ((e.Submit? ==> e == Submit(c, key, Parsed(id, content))) && !e.Crash?)
  {
    var submit := Submit(c, key, Parsed(id, content));
    var m1 := Apply(m, submit);
    Extend(s, es, m, submit, m1);
    var m2 := Apply(m1, WriteRaw(c));
    Extend(s, es + [submit], m1, WriteRaw(c), m2);
    m' := Apply(m2, InsertRow(c));
    Extend(s, es + [submit] + [WriteRaw(c)], m2, InsertRow(c), m');
    es' := es + [submit] + [WriteRaw(c)] + [InsertRow(c)];
    assert m'.calls == m.calls[c := RowInserted(key, id, content)];
  }

  /** A crash between insert and enqueue does leave a row nobody will index. */
  lemma CrashLeavesOrphan() returns (s: State, es: seq<Event>, meaning: map<Key, Parse>, id: string)
    ensures Init(s) && Run(s, es).Some? && Immutable(meaning, es)
    ensures var m := Run(s, es).value; id in m.messages && id !in m.queue && id !in m.index
  {
    s, id := State(map[], map[], map[], {}, map[], [], Between, {}), "a:1";
    var key, content := Key("a", "INBOX", 1, 1), Content(Headers(None, "x", None), "b");
    meaning := map[key := Parsed(id, content)];
    var m;
    es, m := CallInserts(s, [], s, 0, key, id, content);
    Extend(s, es, m, Crash, Apply(m, Crash));
    es := es + [Crash];
  }

  /** A message is being indexed: loaded by the drainer, still queued, its sink call long finished. */
  lemma IndexingUnderWay(key: Key, id: string, content: Content) returns (s: State, es: seq<Event>, m: State)
    ensures Init(s) && Run(s, es) == Some(m)
    ensures m == State(map[id := MessageRow(key, content)], map[id := FreshRow(0)], map[], {id}, map[], [],
                       Loaded(id, DocumentOf(content)), {(key, Parsed(id, content))})
  {
    s := State(map[], map[], map[], {}, map[], [], Between, {});
    es, m := CallInserts(s, [], s, 0, key, id, content);
    var m1;
    es, m1 := CallReturns(s, es, m, 0);
    var m2 := m1.(batch := [id]);
    Extend(s, es, m1, Pop([id]), m2);
    es := es + [Pop([id])];
    m := m2.(batch := [], drain := Loaded(id, DocumentOf(content)));
    Extend(s, es, m2, LoadMessage, m);
    es := es + [LoadMessage];
  }

  /** Continue a run by the rest of a sink call whose row is inserted. */
  lemma CallReturns(s: State, es: seq<Event>, m: State, c: nat) returns (es': seq<Event>, m': State)
    requires Run(s, es) == Some(m) && c in m.calls && m.calls[c].RowInserted?
    ensures Run(s, es') == Some(m')
    ensures var k := m.calls[c];
            m' == m.(queue := Enqueued(m.queue, k.id, 0), calls := m.calls - {c},
                     acked := m.acked + {(k.key, Parsed(k.id, k.content))})
  {
    var k := m.calls[c];
    var m1 := m.(queue := Enqueued(m.queue, k.id, 0), calls := m.calls[c := RowQueued(k.key, k.id, k.content)]);
    Extend(s, es, m, EnqueueRow(c, 0), m1);
    m' := Apply(m1, Acknowledge(c));
    Extend(s, es + [EnqueueRow(c, 0)], m1, Acknowledge(c), m');
    es' := es + [EnqueueRow(c, 0)] + [Acknowledge(c)];
    assert m'.calls == m.calls - {c};
  }

  /**
   Immutability is needed: if one key's body changes while its row is being indexed, INSERT OR
   IGNORE keeps the old queue row, and the drainer then deletes it.
   */
  lemma ChangedBodyIsLost(key: Key, id: string, headers: Headers, first: string, second: string)
    returns (s: State, es: seq<Event>)
    requires first != second
    ensures Init(s) && Run(s, es).Some?
    ensures var m := Run(s, es).value; var content := Content(headers, second);
            && (key, Parsed(id, content)) in m.acked && m.messages == map[id := MessageRow(key, content)]
            && id !in m.queue && m.index == map[id := DocumentOf(Content(headers, first))]
            && !IndexedAsStored(m, id) && !Kept(m, key, Parsed(id, content))
  {
    var a, b := Content(headers, first), Content(headers, second);
    if DocumentOf(a) == DocumentOf(b) {
      Document.BuildKeepsBody(headers.subject, headers.senderAddr, headers.senderName, first, second);
    }
    var m;
    s, es, m := IndexingUnderWay(key, id, a);
    es, m := CallInserts(s, es, m, 1, key, id, b);
    assert m.messages == map[id := MessageRow(key, b)];
    es, m := CallReturns(s, es, m, 1);
    var m2 := m.(index := map[id := DocumentOf(a)], drain := Accepted(id));
    Extend(s, es, m, IndexAccepts, m2);
    es := es + [IndexAccepts];
    var m3 := m2.(queue := map[], drain := Between);
    Extend(s, es, m2, DeleteQueueRow, m3);
    es := es + [DeleteQueueRow];
  }
}
