/**
 Inserting messages and resolving their threads: a forest grown one row at a time.

 `origins` is bookkeeping of the proof: for each row, the earlier row whose thread it joined, or
 None for the row that minted its thread.
 */
module Threading {
  import opened Wrappers

  datatype Insert = Insert(
    messageId: string,
    account: string,
    folder: string,
    uid: nat,
    uidvalidity: nat,
    headerId: Option<string>,
    inReplyTo: Option<string>,
    references: seq<string>,
    body: string)

  datatype Row = Row(m: Insert, threadId: string)

  datatype State = State(rows: seq<Row>, origins: seq<Option<nat>>)

  // ---------------------------------------------------------------- resolving

  /** Newest reference first, then older ones, then In-Reply-To. */
  function Candidates(m: Insert): seq<string> {
    var n := |m.references|;
    seq(n, i requires 0 <= i < n => m.references[n - 1 - i])
    + if m.inReplyTo.Some? then [m.inReplyTo.value] else []
  }

  /** What section 3.6.4 of RFC 5322 lets a message name as its ancestors. */
  predicate LinksTo(m: Insert, headerId: string) {
    headerId in m.references || m.inReplyTo == Some(headerId)
  }

  predicate Matches(rows: seq<Row>, account: string, cand: string, j: nat) {
    j < |rows| && rows[j].m.account == account && rows[j].m.headerId == Some(cand)
  }

  predicate HasMatch(rows: seq<Row>, account: string, cand: string) {
    exists j :: 0 <= j < |rows| && Matches(rows, account, cand, j)
  }

  /**
   `origin` is a row of the first candidate that has one in the same account; which one, when
   several carry that header id, the query leaves open.
   */
  predicate Resolves(rows: seq<Row>, m: Insert, origin: Option<nat>) {
    var cs := Candidates(m);
    match origin
    case None => forall c :: 0 <= c < |cs| ==> !HasMatch(rows, m.account, cs[c])
    case Some(j) =>
      exists c :: 0 <= c < |cs| && Matches(rows, m.account, cs[c], j)
                  && forall d :: 0 <= d < c ==> !HasMatch(rows, m.account, cs[d])
  }

  // ---------------------------------------------------------------- inserting

  predicate SameKey(a: Insert, b: Insert) {
    a.account == b.account && a.folder == b.folder && a.uid == b.uid && a.uidvalidity == b.uidvalidity
  }

  predicate KeyTaken(rows: seq<Row>, m: Insert) { exists i :: 0 <= i < |rows| && SameKey(rows[i].m, m) }

  predicate IdTaken(rows: seq<Row>, m: Insert) { exists i :: 0 <= i < |rows| && rows[i].m.messageId == m.messageId }

  /** ON CONFLICT on the 4-tuple: only the body columns are rewritten. */
  function Refreshed(rows: seq<Row>, m: Insert): seq<Row> {
    seq(|rows|, i requires 0 <= i < |rows| =>
      if SameKey(rows[i].m, m) then rows[i].(m := rows[i].m.(body := m.body)) else rows[i])
  }

  datatype Op = Op(m: Insert, minted: string, origin: Option<nat>)

  /** The minted id is new, and the origin is one the lookup may give. */
  predicate Enabled(s: State, op: Op) {
    && Resolves(s.rows, op.m, op.origin)
    && forall i :: 0 <= i < |s.rows| ==> s.rows[i].threadId != op.minted
  }

  function Apply(s: State, op: Op): State
    requires Enabled(s, op)
  {
    if KeyTaken(s.rows, op.m) then s.(rows := Refreshed(s.rows, op.m))
    else if IdTaken(s.rows, op.m) then s
    else State(s.rows + [Row(op.m, if op.origin.None? then op.minted else s.rows[op.origin.value].threadId)],
               s.origins + [op.origin])
  }

  function Run(ops: seq<Op>): Option<State> {
    if ops == [] then Some(State([], []))
    else
      var before := Run(ops[..|ops| - 1]);
      if before.Some? && Enabled(before.value, ops[|ops| - 1]) then Some(Apply(before.value, ops[|ops| - 1])) else None
  }

  // ---------------------------------------------------------------- the forest invariant

  /** Row i minted a new thread, or joined the thread of an earlier row of its account that it names. */
  predicate Placed(s: State, i: nat)
    requires i < |s.rows| == |s.origins|
  {
    match s.origins[i]
    case None => forall j :: 0 <= j < i ==> s.rows[j].threadId != s.rows[i].threadId
    case Some(p) =>
      && p < i
      && s.rows[p].m.account == s.rows[i].m.account
      && s.rows[p].threadId == s.rows[i].threadId
      && s.rows[p].m.headerId.Some? && LinksTo(s.rows[i].m, s.rows[p].m.headerId.value)
  }

  predicate Forest(s: State) {
    && |s.rows| == |s.origins|
    && forall i :: 0 <= i < |s.rows| ==> Placed(s, i)
  }

  /** What no insert may change about a row that is there. */
  predicate SameIdentity(a: Row, b: Row) {
    a.threadId == b.threadId && a.m.(body := "") == b.m.(body := "")
  }

  predicate Grows(s: State, s': State) {
    && |s.rows| == |s.origins| && |s'.rows| == |s'.origins|
    && |s.rows| <= |s'.rows|
    && forall i :: 0 <= i < |s.rows| ==> SameIdentity(s.rows[i], s'.rows[i]) && s.origins[i] == s'.origins[i]
  }

  /** The newest reference that is stored in the account wins; In-Reply-To counts only when none is; else nothing matches. */
  predicate NewestLinkWins(rows: seq<Row>, m: Insert, origin: Option<nat>) {
    match origin
    case None =>
      && (forall r <- m.references :: !HasMatch(rows, m.account, r))
      && (m.inReplyTo.Some? ==> !HasMatch(rows, m.account, m.inReplyTo.value))
    case Some(j) =>
      || (exists r :: 0 <= r < |m.references| && Matches(rows, m.account, m.references[r], j)
                      && forall later :: r < later < |m.references| ==> !HasMatch(rows, m.account, m.references[later]))
      || (m.inReplyTo.Some? && Matches(rows, m.account, m.inReplyTo.value, j)
          && forall r <- m.references :: !HasMatch(rows, m.account, r))
  }

  /** Candidate n - 1 - r is reference r, and the candidate behind them all is In-Reply-To. */
  lemma CandidateAt(m: Insert)
    ensures var n, cs := |m.references|, Candidates(m);
            && |cs| == n + (if m.inReplyTo.Some? then 1 else 0)
            && (forall r :: 0 <= r < n ==> m.references[r] == cs[n - 1 - r])
            && (forall c :: 0 <= c < n ==> cs[c] == m.references[n - 1 - c])
            && (m.inReplyTo.Some? ==> cs[n] == m.inReplyTo.value)
  {
  }

  lemma ReferencesUnmatched(rows: seq<Row>, m: Insert)
    ensures (forall c :: 0 <= c < |m.references| ==> !HasMatch(rows, m.account, Candidates(m)[c]))
            <==> (forall r <- m.references :: !HasMatch(rows, m.account, r))
  {
    CandidateAt(m);
    if forall c :: 0 <= c < |m.references| ==> !HasMatch(rows, m.account, Candidates(m)[c]) {
      forall r <- m.references ensures !HasMatch(rows, m.account, r) {
        var i :| 0 <= i < |m.references| && m.references[i] == r;
        assert Candidates(m)[|m.references| - 1 - i] == r;
      }
    }
  }

  lemma ResolvedNewestFirst(rows: seq<Row>, m: Insert, j: nat)
    requires Resolves(rows, m, Some(j))
    ensures NewestLinkWins(rows, m, Some(j))
  {
    var n, cs := |m.references|, Candidates(m);
    CandidateAt(m);
    ReferencesUnmatched(rows, m);
    var c :| 0 <= c < |cs| && Matches(rows, m.account, cs[c], j)
             && forall d :: 0 <= d < c ==> !HasMatch(rows, m.account, cs[d]);
    if c < n {
      assert Matches(rows, m.account, m.references[n - 1 - c], j);
    }
  }

  lemma NewestFirstResolves(rows: seq<Row>, m: Insert, j: nat)
    requires NewestLinkWins(rows, m, Some(j))
    ensures Resolves(rows, m, Some(j))
  {
    var n, cs := |m.references|, Candidates(m);
    CandidateAt(m);
    ReferencesUnmatched(rows, m);
    if r :| 0 <= r < n && Matches(rows, m.account, m.references[r], j)
            && forall later :: r < later < n ==> !HasMatch(rows, m.account, m.references[later]) {
      assert Matches(rows, m.account, cs[n - 1 - r], j);
    } else {
      assert Matches(rows, m.account, cs[n], j);
    }
  }

  /** A row of the account carries that header id. */
  predicate Stored(rows: seq<Row>, account: string, id: string) {
    exists j :: 0 <= j < |rows| && rows[j].m.account == account && rows[j].m.headerId == Some(id)
  }

  /** What the lookup may find, in the columns of the rows. */
  lemma ResolutionReads(rows: seq<Row>, m: Insert, origin: Option<nat>)
    requires Resolves(rows, m, origin)
    ensures origin.None? ==>
              && (forall r <- m.references :: !Stored(rows, m.account, r))
              && (m.inReplyTo.Some? ==> !Stored(rows, m.account, m.inReplyTo.value))
    ensures origin.Some? ==>
              var j := origin.value;
              && j < |rows| && rows[j].m.account == m.account && rows[j].m.headerId.Some?
              && ((exists r :: 0 <= r < |m.references| && rows[j].m.headerId == Some(m.references[r])
                               && forall later :: r < later < |m.references| ==> !Stored(rows, m.account, m.references[later]))
                  || (m.inReplyTo == rows[j].m.headerId && forall r <- m.references :: !Stored(rows, m.account, r)))
  {
    ResolutionOrder(rows, m, origin);
    assert forall id :: HasMatch(rows, m.account, id) <==> Stored(rows, m.account, id) by {
      forall id ensures HasMatch(rows, m.account, id) <==> Stored(rows, m.account, id) { StoredIsMatched(rows, m.account, id); }
    }
  }

  lemma StoredIsMatched(rows: seq<Row>, account: string, id: string)
    ensures HasMatch(rows, account, id) <==> Stored(rows, account, id)
  {
    if j: nat :| j < |rows| && Matches(rows, account, id, j) {
      assert rows[j].m.account == account && rows[j].m.headerId == Some(id);
    }
    if j :| 0 <= j < |rows| && rows[j].m.account == account && rows[j].m.headerId == Some(id) {
      assert Matches(rows, account, id, j);
    }
  }

  /** What the walk over the candidates may find, said without them. */
  lemma ResolutionOrder(rows: seq<Row>, m: Insert, origin: Option<nat>)
    ensures Resolves(rows, m, origin) <==> NewestLinkWins(rows, m, origin)
  {
    match origin {
      case None =>
        CandidateAt(m);
        ReferencesUnmatched(rows, m);
      case Some(j) =>
        if Resolves(rows, m, Some(j)) { ResolvedNewestFirst(rows, m, j); }
        if NewestLinkWins(rows, m, Some(j)) { NewestFirstResolves(rows, m, j); }
    }
  }

  /**
   What an insert does to the rows, column by column: a row of the same account, folder, UID and
   epoch gets the new body; else a taken message id refuses; else one row is added, in the thread
   found or in a new one.
   */
  lemma InsertReads(s: State, op: Op)
    requires Enabled(s, op) && |s.rows| == |s.origins|
    ensures var m, s' := op.m, Apply(s, op);
            var taken := exists i :: 0 <= i < |s.rows| && s.rows[i].m.account == m.account && s.rows[i].m.folder == m.folder
                                     && s.rows[i].m.uid == m.uid && s.rows[i].m.uidvalidity == m.uidvalidity;
            if taken then
              && |s'.rows| == |s.rows| && s'.origins == s.origins
              && forall i :: 0 <= i < |s.rows| ==>
                   && s'.rows[i].threadId == s.rows[i].threadId && s'.rows[i].m.(body := "") == s.rows[i].m.(body := "")
                   && s'.rows[i].m.body ==
                        if s.rows[i].m.account == m.account && s.rows[i].m.folder == m.folder
                           && s.rows[i].m.uid == m.uid && s.rows[i].m.uidvalidity == m.uidvalidity
                        then m.body else s.rows[i].m.body
            else if exists i :: 0 <= i < |s.rows| && s.rows[i].m.messageId == m.messageId then s' == s
            else
              && |s'.rows| == |s.rows| + 1 && s'.rows[..|s.rows|] == s.rows && s'.rows[|s.rows|].m == m
              && s'.rows[|s.rows|].threadId == (if op.origin.None? then op.minted else s.rows[op.origin.value].threadId)
  {
  }

  lemma StepGrows(s: State, op: Op)
    requires Forest(s) && Enabled(s, op)
    ensures Grows(s, Apply(s, op))
  {
  }

  lemma GrowthKeepsPlaced(s: State, s': State, i: nat)
    requires Forest(s) && Grows(s, s') && i < |s.rows|
    ensures Placed(s', i)
  {
    assert Placed(s, i);
    forall j | 0 <= j <= i ensures SameIdentity(s.rows[j], s'.rows[j]) {}
  }

  lemma StepKeepsForest(s: State, op: Op)
    requires Forest(s) && Enabled(s, op)
    ensures Forest(Apply(s, op))
  {
    var s' := Apply(s, op);
    StepGrows(s, op);
    forall i | 0 <= i < |s'.rows| ensures Placed(s', i) {
      if i < |s.rows| {
        GrowthKeepsPlaced(s, s', i);
      } else if op.origin.Some? {
        var c :| 0 <= c < |Candidates(op.m)| && Matches(s.rows, op.m.account, Candidates(op.m)[c], op.origin.value);
        assert LinksTo(op.m, Candidates(op.m)[c]);
      }
    }
  }

  lemma {:induction false} RunsAreForests(ops: seq<Op>)
    requires Run(ops).Some?
    ensures Forest(Run(ops).value)
  {
    if ops != [] {
      RunsAreForests(ops[..|ops| - 1]);
      StepKeepsForest(Run(ops[..|ops| - 1]).value, ops[|ops| - 1]);
    }
  }

  /** A row, once stored, keeps its thread, account, links and place for ever. */
  lemma {:induction false} RowsNeverRethreaded(ops: seq<Op>, n: nat)
    requires n <= |ops| && Run(ops).Some?
    ensures Run(ops[..n]).Some? && Grows(Run(ops[..n]).value, Run(ops).value)
    decreases |ops|
  {
    if n == |ops| {
      assert ops[..n] == ops;
      RunsAreForests(ops);
    } else {
      var before := ops[..|ops| - 1];
      assert before[..n] == ops[..n];
      RowsNeverRethreaded(before, n);
      RunsAreForests(before);
      StepGrows(Run(before).value, ops[|ops| - 1]);
    }
  }

  /** Both keys of the table stay unique. */
  lemma {:induction false} KeysUnique(ops: seq<Op>)
    requires Run(ops).Some?
    ensures forall i, j :: 0 <= i < j < |Run(ops).value.rows| ==>
              !SameKey(Run(ops).value.rows[i].m, Run(ops).value.rows[j].m)
              && Run(ops).value.rows[i].m.messageId != Run(ops).value.rows[j].m.messageId
  {
    if ops != [] { KeysUnique(ops[..|ops| - 1]); }
  }

  // ---------------------------------------------------------------- threads are the trees

  /** Follow the links to the minting row. */
  function Root(s: State, i: nat): (r: nat)
    requires Forest(s) && i < |s.rows|
    ensures r <= i && s.origins[r].None?
    ensures s.rows[r].threadId == s.rows[i].threadId && s.rows[r].m.account == s.rows[i].m.account
    decreases i
  {
    assert Placed(s, i);
    if s.origins[i].None? then i else Root(s, s.origins[i].value)
  }

  /** Two rows share a thread exactly when they hang from the same minting row. */
  lemma SameThreadIffSameRoot(s: State, i: nat, j: nat)
    requires Forest(s) && i < |s.rows| && j < |s.rows|
    ensures s.rows[i].threadId == s.rows[j].threadId <==> Root(s, i) == Root(s, j)
  {
    assert Placed(s, Root(s, i)) && Placed(s, Root(s, j));
  }

  /** Each thread has exactly one minting row, and it is the thread's first row. */
  lemma OneMintPerThread(ops: seq<Op>, i: nat)
    requires Run(ops).Some? && i < |Run(ops).value.rows|
    ensures var s := Run(ops).value;
            && Forest(s)
            && (forall r :: 0 <= r < |s.rows| && s.rows[r].threadId == s.rows[i].threadId ==>
                  (s.origins[r].None? <==> r == Root(s, i)) && Root(s, i) <= r)
  {
    RunsAreForests(ops);
    var s := Run(ops).value;
    forall r | 0 <= r < |s.rows| && s.rows[r].threadId == s.rows[i].threadId
      ensures (s.origins[r].None? <==> r == Root(s, i)) && Root(s, i) <= r
    {
      SameThreadIffSameRoot(s, i, r);
    }
  }

  /** No thread spans two accounts. */
  lemma ThreadsStayInAccount(ops: seq<Op>, i: nat, j: nat)
    requires Run(ops).Some? && i < |Run(ops).value.rows| && j < |Run(ops).value.rows|
    requires Run(ops).value.rows[i].threadId == Run(ops).value.rows[j].threadId
    ensures Run(ops).value.rows[i].m.account == Run(ops).value.rows[j].m.account
  {
    RunsAreForests(ops);
    SameThreadIffSameRoot(Run(ops).value, i, j);
  }

  /** Every row that did not mint names an earlier row of the same account and thread. */
  lemma RepliesLinkToEarlierRow(ops: seq<Op>, i: nat)
    requires Run(ops).Some? && i < |Run(ops).value.rows| && |Run(ops).value.origins| == |Run(ops).value.rows|
    requires Run(ops).value.origins[i].Some?
    ensures var s := Run(ops).value; var p := s.origins[i].value;
            && p < i && s.rows[p].threadId == s.rows[i].threadId && s.rows[p].m.account == s.rows[i].m.account
            && s.rows[p].m.headerId.Some?
            && (s.rows[p].m.headerId.value in s.rows[i].m.references || s.rows[i].m.inReplyTo == s.rows[p].m.headerId)
  {
    RunsAreForests(ops);
    assert Placed(Run(ops).value, i);
  }

  // ---------------------------------------------------------------- the table as an object

  class MessageTable {
    var rows: seq<Row>
    ghost var origins: seq<Option<nat>>

    constructor ()
      ensures rows == [] && origins == [] && Forest(State(rows, origins))
    {
      rows, origins := [], [];
    }

    /** Walk the candidates; the first one with a row in the account decides. */
    method ResolveThreadId(m: Insert, minted: string) returns (threadId: string, origin: Option<nat>)
      ensures Resolves(rows, m, origin)
      ensures threadId == if origin.None? then minted else rows[origin.value].threadId
    {
      var candidates := Candidates(m);
      for c := 0 to |candidates|
        invariant forall d :: 0 <= d < c ==> !HasMatch(rows, m.account, candidates[d])
      {
        if HasMatch(rows, m.account, candidates[c]) {
          var j: nat :| j < |rows| && Matches(rows, m.account, candidates[c], j);
          assert Matches(rows, m.account, Candidates(m)[c], j);
          return rows[j].threadId, Some(j);
        }
      }
      return minted, None;
    }

    /** `insert_message`: refresh, refuse, or add a row in its thread. */
    method InsertMessage(m: Insert, minted: string) returns (ok: bool)
      requires Forest(State(rows, origins))
      requires forall i :: 0 <= i < |rows| ==> rows[i].threadId != minted
      modifies this
      ensures Forest(State(rows, origins))
      ensures ok <==> KeyTaken(old(rows), m) || !IdTaken(old(rows), m)
      ensures exists origin :: Enabled(State(old(rows), old(origins)), Op(m, minted, origin))
                && State(rows, origins) == Apply(State(old(rows), old(origins)), Op(m, minted, origin))
    {
      var threadId, origin := ResolveThreadId(m, minted);
      ghost var s := State(rows, origins);
      ghost var op := Op(m, minted, origin);
      assert Enabled(s, op);
      StepKeepsForest(s, op);
      if KeyTaken(rows, m) {
        rows := Refreshed(rows, m);
        ok := true;
      } else if IdTaken(rows, m) {
        ok := false;
      } else {
        rows := rows + [Row(m, threadId)];
        origins := origins + [origin];
        ok := true;
      }
      assert State(rows, origins) == Apply(s, op);
    }
  }
}
