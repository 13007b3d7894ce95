/**
 The segmented index: one message becomes up to eight documents, each under its own key.  The
 source hashes a key to a v5 UUID; here a document is stored under the hashed name itself, which
 takes the hash to be collision-free.
 */
module SegmentIndex {
  import opened Wrappers
  import Document
  import Ranking

  const FLUSH_EMBED_BATCH := 4

  /** Metadata and body of one stored document. */
  datatype Doc = Doc(id: string, seg: nat, of_: nat, body: string)

  type Store = map<string, Doc>

  /** Segment 0 keeps the bare id; later segments append `#1` to `#7`. */
  function SegmentKey(id: string, idx: nat): string
    requires idx < Document.MAX_SEGMENTS_PER_MESSAGE
  {
    if idx == 0 then id else id + "#" + [('0' as int + idx) as char]
  }

  /** The first n keys of a message. */
  function FirstKeys(id: string, n: nat): set<string>
    requires n <= Document.MAX_SEGMENTS_PER_MESSAGE
  {
    set i: nat | i < n :: SegmentKey(id, i)
  }

  function Keys(id: string): set<string> { FirstKeys(id, Document.MAX_SEGMENTS_PER_MESSAGE) }

  /** One id is the other followed by `#1` to `#7`. */
  predicate Clash(a: string, b: string) {
    exists i :: 1 <= i < Document.MAX_SEGMENTS_PER_MESSAGE && (a == SegmentKey(b, i) || b == SegmentKey(a, i))
  }

  /** The keys of a message, spelt out. */
  lemma KeyReads(id: string, i: nat)
    requires i < 8
    ensures SegmentKey(id, i) == id + ["", "#1", "#2", "#3", "#4", "#5", "#6", "#7"][i]
  {
  }

  /** Two ids clash exactly when one is the other with such an ending. */
  lemma ClashReads(a: string, b: string)
    ensures Clash(a, b) <==>
            exists i :: 0 <= i < 7 && (a == b + ["#1", "#2", "#3", "#4", "#5", "#6", "#7"][i]
                                       || b == a + ["#1", "#2", "#3", "#4", "#5", "#6", "#7"][i])
  {
    var endings := ["#1", "#2", "#3", "#4", "#5", "#6", "#7"];
    forall i | 1 <= i < 8 ensures SegmentKey(a, i) == a + endings[i - 1] && SegmentKey(b, i) == b + endings[i - 1] {
      KeyReads(a, i);
      KeyReads(b, i);
    }
    if i :| 0 <= i < 7 && (a == b + endings[i] || b == a + endings[i]) {
      assert a == SegmentKey(b, i + 1) || b == SegmentKey(a, i + 1);
    }
    if i :| 1 <= i < 8 && (a == SegmentKey(b, i) || b == SegmentKey(a, i)) {
      assert a == b + endings[i - 1] || b == a + endings[i - 1];
    }
  }

  lemma SegmentKeysDistinct(id: string, i: nat, j: nat)
    requires i < Document.MAX_SEGMENTS_PER_MESSAGE && j < Document.MAX_SEGMENTS_PER_MESSAGE && i != j
    ensures SegmentKey(id, i) != SegmentKey(id, j)
  {
    if i != 0 && j != 0 {
      assert SegmentKey(id, i)[|id| + 1] != SegmentKey(id, j)[|id| + 1];
    } else {
      assert |SegmentKey(id, i)| != |SegmentKey(id, j)|;
    }
  }

  lemma KeyPrefix(id: string, i: nat)
    requires 1 <= i < Document.MAX_SEGMENTS_PER_MESSAGE
    ensures |SegmentKey(id, i)| == |id| + 2 && SegmentKey(id, i)[..|id|] == id
  {
  }

  /** Two different messages share a key exactly when their ids clash. */
  lemma KeysSharedIffClash(a: string, b: string)
    requires a != b
    ensures Keys(a) * Keys(b) != {} <==> Clash(a, b)
  {
    if Clash(a, b) {
      var i :| 1 <= i < Document.MAX_SEGMENTS_PER_MESSAGE && (a == SegmentKey(b, i) || b == SegmentKey(a, i));
      assert SegmentKey(a, 0) == a && SegmentKey(b, 0) == b;
      assert a in Keys(a) && b in Keys(b) && SegmentKey(a, i) in Keys(a) && SegmentKey(b, i) in Keys(b);
      if a == SegmentKey(b, i) { assert a in Keys(a) * Keys(b); } else { assert b in Keys(a) * Keys(b); }
    }
    if Keys(a) * Keys(b) != {} {
      var k :| k in Keys(a) && k in Keys(b);
      var i: nat :| i < Document.MAX_SEGMENTS_PER_MESSAGE && k == SegmentKey(a, i);
      var j: nat :| j < Document.MAX_SEGMENTS_PER_MESSAGE && k == SegmentKey(b, j);
      if i > 0 && j > 0 {
        KeyPrefix(a, i);
        KeyPrefix(b, j);
        assert false;
      }
    }
  }

  // ---------------------------------------------------------------- operations on the store

  /** The first n of the new segments written. */
  function Written(db: Store, id: string, segments: seq<string>, n: nat): Store
    requires n <= |segments| <= Document.MAX_SEGMENTS_PER_MESSAGE
  {
    if n == 0 then db
    else Written(db, id, segments, n - 1)[SegmentKey(id, n - 1) := Doc(id, n - 1, |segments|, segments[n - 1])]
  }

  /** The first n keys of a message deleted. */
  function Erased(db: Store, id: string, n: nat): Store
    requires n <= Document.MAX_SEGMENTS_PER_MESSAGE
  {
    if n == 0 then db else Erased(db, id, n - 1) - {SegmentKey(id, n - 1)}
  }

  lemma FirstKeysGrow(id: string, n: nat)
    requires n < Document.MAX_SEGMENTS_PER_MESSAGE
    ensures FirstKeys(id, n + 1) == FirstKeys(id, n) + {SegmentKey(id, n)}
    ensures SegmentKey(id, n) !in FirstKeys(id, n)
  {
    forall i | 0 <= i < n ensures SegmentKey(id, i) != SegmentKey(id, n) { SegmentKeysDistinct(id, i, n); }
  }

  /** The written keys hold the new segments. */
  lemma {:induction false} WrittenOwn(db: Store, id: string, segments: seq<string>, n: nat, i: nat)
    requires i < n <= |segments| <= Document.MAX_SEGMENTS_PER_MESSAGE
    ensures SegmentKey(id, i) in Written(db, id, segments, n)
    ensures Written(db, id, segments, n)[SegmentKey(id, i)] == Doc(id, i, |segments|, segments[i])
  {
    if i < n - 1 {
      WrittenOwn(db, id, segments, n - 1, i);
      SegmentKeysDistinct(id, i, n - 1);
    }
  }

  /** Every other key is as before. */
  lemma {:induction false} WrittenOther(db: Store, id: string, segments: seq<string>, n: nat, k: string)
    requires n <= |segments| <= Document.MAX_SEGMENTS_PER_MESSAGE && k !in FirstKeys(id, n)
    ensures k in Written(db, id, segments, n) <==> k in db
    ensures k in db ==> Written(db, id, segments, n)[k] == db[k]
  {
    if n > 0 {
      FirstKeysGrow(id, n - 1);
      WrittenOther(db, id, segments, n - 1, k);
    }
  }

  lemma {:induction false} ErasedAt(db: Store, id: string, n: nat)
    requires n <= Document.MAX_SEGMENTS_PER_MESSAGE
    ensures Erased(db, id, n) == db - FirstKeys(id, n)
  {
    if n > 0 {
      ErasedAt(db, id, n - 1);
      FirstKeysGrow(id, n - 1);
    }
  }

  // ---------------------------------------------------------------- histories

  /** One call; an upstream error stops it after `done` of its document writes or deletes. */
  datatype Op =
    | SubmitOp(id: string, segments: seq<string>, done: nat)
    | RemoveOp(id: string, done: nat)

  predicate ValidOp(op: Op) {
    match op
    case SubmitOp(_, segments, done) => done <= |segments| <= Document.MAX_SEGMENTS_PER_MESSAGE
    case RemoveOp(_, done) => done <= Document.MAX_SEGMENTS_PER_MESSAGE
  }

  function Effect(db: Store, op: Op): Store
    requires ValidOp(op)
  {
    match op
    case SubmitOp(id, segments, done) => Written(db, id, segments, done)
    case RemoveOp(id, done) => Erased(db, id, done)
  }

  function History(ops: seq<Op>): Store
    requires forall i :: 0 <= i < |ops| ==> ValidOp(ops[i])
  {
    if ops == [] then map[] else Effect(History(ops[..|ops| - 1]), ops[|ops| - 1])
  }

  /** k is the key of one of the first n segments of the message. */
  predicate AmongKeys(id: string, n: nat, k: string)
    requires n <= 8
  {
    exists i :: 0 <= i < n && k == id + ["", "#1", "#2", "#3", "#4", "#5", "#6", "#7"][i]
  }

  lemma AmongMeans(id: string, n: nat, k: string)
    requires n <= 8
    ensures k in FirstKeys(id, n) <==> AmongKeys(id, n, k)
  {
    forall i: nat | i < n ensures SegmentKey(id, i) == id + ["", "#1", "#2", "#3", "#4", "#5", "#6", "#7"][i] { KeyReads(id, i); }
    if k in FirstKeys(id, n) {
      var i: nat :| i < n && k == SegmentKey(id, i);
      assert k == id + ["", "#1", "#2", "#3", "#4", "#5", "#6", "#7"][i];
    }
    if i :| 0 <= i < n && k == id + ["", "#1", "#2", "#3", "#4", "#5", "#6", "#7"][i] {
      assert k == SegmentKey(id, i);
    }
  }

  /** A submit puts one document per segment written under that segment's key, and touches nothing else. */
  lemma SubmitReads(db: Store, id: string, segments: seq<string>, done: nat)
    requires done <= |segments| <= 8
    ensures var after := Effect(db, SubmitOp(id, segments, done));
            && (forall i :: 0 <= i < done ==>
                  var k := id + ["", "#1", "#2", "#3", "#4", "#5", "#6", "#7"][i];
                  k in after && after[k] == Doc(id, i, |segments|, segments[i]))
            && (forall k :: !AmongKeys(id, done, k) ==> (k in after <==> k in db) && (k in db ==> after[k] == db[k]))
  {
    forall i | 0 <= i < done
      ensures var k := id + ["", "#1", "#2", "#3", "#4", "#5", "#6", "#7"][i];
              var after := Effect(db, SubmitOp(id, segments, done));
              k in after && after[k] == Doc(id, i, |segments|, segments[i])
    {
      KeyReads(id, i);
      WrittenOwn(db, id, segments, done, i);
    }
    forall k | !AmongKeys(id, done, k)
      ensures var after := Effect(db, SubmitOp(id, segments, done)); (k in after <==> k in db) && (k in db ==> after[k] == db[k])
    {
      AmongMeans(id, done, k);
      WrittenOther(db, id, segments, done, k);
    }
  }

  /** A remove deletes the keys it reached, and touches nothing else. */
  lemma RemoveReads(db: Store, id: string, done: nat)
    requires done <= 8
    ensures var after := Effect(db, RemoveOp(id, done));
            && (forall k :: AmongKeys(id, done, k) ==> k !in after)
            && (forall k :: !AmongKeys(id, done, k) ==> (k in after <==> k in db) && (k in db ==> after[k] == db[k]))
  {
    ErasedAt(db, id, done);
    forall k ensures k in FirstKeys(id, done) <==> AmongKeys(id, done, k) { AmongMeans(id, done, k); }
  }

  /** Every document lies under the key its own metadata names. */
  predicate WellKeyed(db: Store) {
    forall k <- db :: db[k].seg < Document.MAX_SEGMENTS_PER_MESSAGE && k == SegmentKey(db[k].id, db[k].seg)
  }

  function DocsOf(db: Store, id: string): set<string> { set k <- db | db[k].id == id }

  lemma WrittenWellKeyed(db: Store, id: string, segments: seq<string>, n: nat)
    requires WellKeyed(db) && n <= |segments| <= Document.MAX_SEGMENTS_PER_MESSAGE
    ensures WellKeyed(Written(db, id, segments, n))
  {
    if n > 0 { WrittenWellKeyed(db, id, segments, n - 1); }
  }

  lemma EffectWellKeyed(db: Store, op: Op)
    requires WellKeyed(db) && ValidOp(op)
    ensures WellKeyed(Effect(db, op))
  {
    match op {
      case SubmitOp(id, segments, done) => WrittenWellKeyed(db, id, segments, done);
      case RemoveOp(id, done) => ErasedAt(db, id, done);
    }
  }

  /** Over every history, failures included, a message's documents lie only under its own keys 0 to 7. */
  lemma {:induction false} DocumentsStayInRange(ops: seq<Op>)
    requires forall i :: 0 <= i < |ops| ==> ValidOp(ops[i])
    ensures WellKeyed(History(ops))
    ensures forall id :: DocsOf(History(ops), id) <= Keys(id)
  {
    if ops != [] {
      DocumentsStayInRange(ops[..|ops| - 1]);
      EffectWellKeyed(History(ops[..|ops| - 1]), ops[|ops| - 1]);
    }
    forall id, k | k in DocsOf(History(ops), id) ensures k in Keys(id) {
      assert k == SegmentKey(id, History(ops)[k].seg);
    }
  }

  lemma OwnKeys(db: Store, id: string, k: string)
    requires WellKeyed(db) && k in DocsOf(db, id)
    ensures k in Keys(id) && k == SegmentKey(id, db[k].seg)
  {
  }

  /** A completed remove leaves none of the message's documents. */
  lemma RemoveLeavesNothing(db: Store, id: string)
    requires WellKeyed(db)
    ensures DocsOf(Effect(db, RemoveOp(id, Document.MAX_SEGMENTS_PER_MESSAGE)), id) == {}
  {
    ErasedAt(db, id, Document.MAX_SEGMENTS_PER_MESSAGE);
    forall k <- DocsOf(db, id) ensures k in Keys(id) { OwnKeys(db, id, k); }
  }

  /** No operation on one message touches a key that is not its own. */
  lemma ForeignKeyUntouched(db: Store, op: Op, k: string)
    requires ValidOp(op) && k !in Keys(op.id)
    ensures k in Effect(db, op) <==> k in db
    ensures k in db ==> Effect(db, op)[k] == db[k]
  {
    match op {
      case SubmitOp(id, segments, done) => WrittenOther(db, id, segments, done, k);
      case RemoveOp(id, done) => ErasedAt(db, id, done);
    }
  }

  /** An operation on one message leaves the documents of a message whose id does not clash alone. */
  lemma OthersUntouched(db: Store, op: Op, other: string)
    requires WellKeyed(db) && ValidOp(op) && op.id != other && !Clash(op.id, other)
    ensures DocsOf(Effect(db, op), other) == DocsOf(db, other)
    ensures forall k <- DocsOf(db, other) :: Effect(db, op)[k] == db[k]
  {
    KeysSharedIffClash(op.id, other);
    EffectWellKeyed(db, op);
    forall k | k in DocsOf(db, other) || k in DocsOf(Effect(db, op), other)
      ensures k in db && k in Effect(db, op) && Effect(db, op)[k] == db[k]
    {
      if k in DocsOf(db, other) { OwnKeys(db, other, k); } else { OwnKeys(Effect(db, op), other, k); }
      assert k !in Keys(op.id) * Keys(other);
      ForeignKeyUntouched(db, op, k);
    }
  }

  /** With clashing ids a submit of one message does destroy a segment of the other. */
  lemma ClashDestroys(db: Store, id: string, i: nat, segments: seq<string>)
    requires 1 <= i < Document.MAX_SEGMENTS_PER_MESSAGE && 1 <= |segments| <= Document.MAX_SEGMENTS_PER_MESSAGE
    requires SegmentKey(id, i) in DocsOf(db, id)
    ensures SegmentKey(id, i) !in DocsOf(Effect(db, SubmitOp(SegmentKey(id, i), segments, |segments|)), id)
  {
    var clashing := SegmentKey(id, i);
    WrittenOwn(db, clashing, segments, |segments|, 0);
    assert SegmentKey(clashing, 0) == clashing && |clashing| == |id| + 2;
  }

  /** After a completed submit the message holds exactly the new segments. */
  predicate Replaced(db: Store, id: string, segments: seq<string>)
    requires |segments| <= Document.MAX_SEGMENTS_PER_MESSAGE
  {
    && (forall i :: 0 <= i < |segments| ==>
          SegmentKey(id, i) in db && db[SegmentKey(id, i)] == Doc(id, i, |segments|, segments[i]))
    && DocsOf(db, id) == FirstKeys(id, |segments|)
  }

  /**
   A submit replaces the whole message exactly when no document of the message sat at or behind
   the new segment count: a shorter re-submit leaves the old tail.
   */
  lemma SubmitReplacesIff(db: Store, id: string, segments: seq<string>)
    requires WellKeyed(db) && |segments| <= Document.MAX_SEGMENTS_PER_MESSAGE
    ensures Replaced(Effect(db, SubmitOp(id, segments, |segments|)), id, segments) <==>
            (forall k <- DocsOf(db, id) :: db[k].seg < |segments|)
  {
    var after := Effect(db, SubmitOp(id, segments, |segments|));
    var current := FirstKeys(id, |segments|);
    forall i | 0 <= i < |segments|
      ensures SegmentKey(id, i) in after && after[SegmentKey(id, i)] == Doc(id, i, |segments|, segments[i])
    {
      WrittenOwn(db, id, segments, |segments|, i);
    }
    assert current <= DocsOf(after, id);
    forall k | k !in current ensures k in DocsOf(after, id) <==> k in DocsOf(db, id) {
      WrittenOther(db, id, segments, |segments|, k);
    }
    forall k <- DocsOf(db, id) ensures k in current <==> db[k].seg < |segments| {
      OwnKeys(db, id, k);
      SegmentInFirst(id, db[k].seg, |segments|);
    }
  }

  lemma SegmentInFirst(id: string, seg: nat, n: nat)
    requires seg < Document.MAX_SEGMENTS_PER_MESSAGE && n <= Document.MAX_SEGMENTS_PER_MESSAGE
    ensures SegmentKey(id, seg) in FirstKeys(id, n) <==> seg < n
  {
    if seg >= n {
      forall i | 0 <= i < n ensures SegmentKey(id, i) != SegmentKey(id, seg) { SegmentKeysDistinct(id, i, seg); }
    }
  }

  // ---------------------------------------------------------------- the store as the engine sees it

  /** One row per document, in any order, with any scores. */
  predicate RowsFrom(db: Store, keys: seq<string>, rows: seq<Ranking.Row>) {
    && |rows| == |keys|
    && (forall i, j :: 0 <= i < j < |keys| ==> keys[i] != keys[j])
    && (forall i :: 0 <= i < |keys| ==> keys[i] in db && rows[i].id == Some(db[keys[i]].id))
  }

  lemma {:induction false} InjectiveCardinality(s: set<nat>, keys: seq<string>, bound: set<string>)
    requires forall i <- s :: i < |keys| && keys[i] in bound
    requires forall i, j :: 0 <= i < j < |keys| ==> keys[i] != keys[j]
    ensures |s| <= |bound|
  {
    if s != {} {
      var i :| i in s;
      InjectiveCardinality(s - {i}, keys, bound - {keys[i]});
    }
  }

  lemma {:induction false} EightKeys(id: string, n: nat)
    requires n <= Document.MAX_SEGMENTS_PER_MESSAGE
    ensures |FirstKeys(id, n)| <= n
  {
    if n > 0 {
      EightKeys(id, n - 1);
      FirstKeysGrow(id, n - 1);
    }
  }

  /** Whatever the history, the search sees at most eight rows per message, which is what its over-fetch relies on. */
  lemma HistoryIsSegmented(ops: seq<Op>, keys: seq<string>, rows: seq<Ranking.Row>)
    requires forall i :: 0 <= i < |ops| ==> ValidOp(ops[i])
    requires RowsFrom(History(ops), keys, rows)
    ensures Ranking.Segmented(rows)
  {
    DocumentsStayInRange(ops);
    forall id ensures |Ranking.RowsOf(rows, id)| <= Document.MAX_SEGMENTS_PER_MESSAGE {
      EightKeys(id, Document.MAX_SEGMENTS_PER_MESSAGE);
      forall r <- Ranking.RowsOf(rows, id) ensures keys[r] in Keys(id) {
        assert keys[r] in DocsOf(History(ops), id);
      }
      InjectiveCardinality(Ranking.RowsOf(rows, id), keys, Keys(id));
    }
  }

  // ---------------------------------------------------------------- the index as an object

  /**
   The production index.  `unembedded` is what the engine has stored but not yet embedded; only
   embedded documents are found.
   */
  class SegmentedIndexer {
    var db: Store
    var unembedded: set<string>
    var dirty: bool

    constructor ()
      ensures db == map[] && unembedded == {} && !dirty
    {
      db, unembedded, dirty := map[], {}, false;
    }

    /** Nothing waits to be embedded unless the flag says so. */
    ghost predicate Tracked()
      reads this
    {
      unembedded <= db.Keys && (!dirty ==> unembedded == {})
    }

    /**
     Split, then add one document per segment; the engine may refuse the `failAt`-th one.  The flag
     stays truthful exactly when it was up already, the call succeeds, or the first write fails.
     */
    method Submit(id: string, document: string, failAt: Option<nat>) returns (ok: bool, segments: seq<string>)
      modifies this
      ensures segments == Document.Segments(document) && Document.IsSplit(document, segments)
      ensures Document.Joined(segments) <= document && 1 <= |segments| <= 8
      ensures (if |document| <= 14599 then |document| else 14344) <= |Document.Joined(segments)|
      ensures ok <==> failAt.None? || failAt.value >= |segments|
      ensures db == Effect(old(db), SubmitOp(id, segments, if ok then |segments| else failAt.value))
      ensures unembedded == old(unembedded) + FirstKeys(id, if ok then |segments| else failAt.value)
      ensures dirty == (ok || old(dirty))
      ensures old(Tracked()) ==>
                (Tracked() <==> old(dirty) || failAt.None? || failAt.value == 0 || failAt.value >= |segments|)
    {
      segments := Document.SplitForIndex(document);
      ok := AddSegments(id, segments, failAt);
      if ok { dirty := true; }
      if !ok && failAt.value > 0 { assert SegmentKey(id, 0) in unembedded; }
    }

    /** The `add_doc` loop. */
    method AddSegments(id: string, segments: seq<string>, failAt: Option<nat>) returns (ok: bool)
      requires |segments| <= Document.MAX_SEGMENTS_PER_MESSAGE
      modifies this`db, this`unembedded
      ensures ok <==> failAt.None? || failAt.value >= |segments|
      ensures db == Written(old(db), id, segments, if ok then |segments| else failAt.value)
      ensures unembedded == old(unembedded) + FirstKeys(id, if ok then |segments| else failAt.value)
      ensures old(unembedded) <= old(db.Keys) ==> unembedded <= db.Keys
    {
      var idx := 0;
      while idx < |segments|
        invariant 0 <= idx <= |segments| && (failAt.Some? ==> idx <= failAt.value)
        invariant db == Written(old(db), id, segments, idx)
        invariant unembedded == old(unembedded) + FirstKeys(id, idx)
        invariant old(unembedded) <= old(db.Keys) ==> unembedded <= db.Keys
      {
        if failAt == Some(idx) { return false; }
        var key := SegmentKey(id, idx);
        db := db[key := Doc(id, idx, |segments|, segments[idx])];
        unembedded := unembedded + {key};
        FirstKeysGrow(id, idx);
        idx := idx + 1;
      }
      ok := true;
    }

    method Remove(id: string, failAt: Option<nat>) returns (ok: bool)
      modifies this
      ensures ok <==> failAt.None? || failAt.value >= 8
      ensures db == Effect(old(db), RemoveOp(id, if ok then 8 else failAt.value))
      ensures unembedded == old(unembedded) - FirstKeys(id, if ok then 8 else failAt.value)
      ensures dirty == (ok || old(dirty))
      ensures old(Tracked()) ==> Tracked()
    {
      var idx := 0;
      while idx < Document.MAX_SEGMENTS_PER_MESSAGE
        invariant 0 <= idx <= Document.MAX_SEGMENTS_PER_MESSAGE && (failAt.Some? ==> idx <= failAt.value)
        invariant db == Erased(old(db), id, idx)
        invariant unembedded == old(unembedded) - FirstKeys(id, idx)
        invariant old(Tracked()) ==> unembedded <= db.Keys
        invariant dirty == old(dirty)
      {
        if failAt == Some(idx) { return false; }
        db := db - {SegmentKey(id, idx)};
        unembedded := unembedded - {SegmentKey(id, idx)};
        FirstKeysGrow(id, idx);
        idx := idx + 1;
      }
      dirty := true;
      ok := true;
    }

    method Truncate()
      modifies this
      ensures db == map[] && unembedded == {} && !dirty
    {
      db, unembedded, dirty := map[], {}, false;
    }

    /**
     Embeds at most four waiting documents; clears the flag only when fewer than four were left.
     The engine may fail after `error` of them: the call then reports nothing and the flag stays up.
     */
    method FlushEmbeddings(error: Option<nat>) returns (embedded: Option<nat>)
      modifies this`unembedded, this`dirty
      ensures embedded == if !old(dirty) then Some(0)
                          else if error.Some? then None
                          else Some(Min(4, |old(unembedded)|))
      ensures unembedded <= old(unembedded)
      ensures embedded.Some? ==> |unembedded| == |old(unembedded)| - embedded.value
      ensures dirty == (old(dirty) && (embedded.None? || embedded.value == 4))
      ensures old(Tracked()) ==> Tracked()
    {
      if !dirty { return Some(0); }
      var done, limit := 0, if error.Some? then Min(error.value, FLUSH_EMBED_BATCH) else FLUSH_EMBED_BATCH;
      while done < limit && unembedded != {}
        invariant dirty && done <= limit && unembedded <= old(unembedded)
        invariant |unembedded| == |old(unembedded)| - done
        decreases |unembedded|
      {
        var key :| key in unembedded;
        unembedded := unembedded - {key};
        done := done + 1;
      }
      if error.Some? { return None; }
      if done < FLUSH_EMBED_BATCH { dirty := false; }
      embedded := Some(done);
    }
  }

  /**
   What an untruthful flag costs: after a submit of any document of more than 2304 characters whose
   second write fails, segment 0 is stored, waits to be embedded, and an embedding call passes over it.
   */
  method PartialSubmitStrands(id: string, document: string) returns (index: SegmentedIndexer, embedded: Option<nat>)
    requires |document| > 2304
    ensures fresh(index) && !index.Tracked()
    ensures id in index.db && id in index.unembedded && embedded == Some(0)
  {
    index := new SegmentedIndexer();
    Document.LongDocumentsSplit(document);
    var ok, segments := index.Submit(id, document, Some(1));
    WrittenOwn(map[], id, segments, 1, 0);
    assert SegmentKey(id, 0) in FirstKeys(id, 1);
    embedded := index.FlushEmbeddings(None);
  }
}
