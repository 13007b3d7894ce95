/**
 The `search` tool: resolve the scope, over-fetch candidates, keep the live ones that pass the
 filters, stop at the limit.
 */
module SearchTool {
  import opened Wrappers
  import Ranking

  const LIMIT_DEFAULT := 20
  const LIMIT_MAX := 200
  const K_MULTIPLIER := 5
  const K_MIN := 200

  datatype Mode = FullText | Semantic | Hybrid

  const DAY := 86400

  /** A date argument after parsing; a valid date is the midnight that starts its day, counted from 1970-01-01. */
  datatype DateArg = Absent | Malformed | Day(n: int)

  datatype Args = Args(
    mode: Option<Mode>,            // None: a mode string that names no mode
    since: DateArg,
    until: DateArg,
    limit: Option<nat>,
    from: Option<string>,
    folder: Option<string>,
    accountIds: seq<string>)

  datatype MessageRow = MessageRow(account: string, folder: string, sender: string, date: int, tombstoned: bool)

  datatype SearchError = BadMode | BadSince | BadUntil | ScopeFails | SearcherFails | StorageFails

  /** An active account. */
  datatype Account = Account(id: string, username: string)

  datatype HitDto = HitDto(id: string, account: string, folder: string, sender: string, date: int, score: real)

  /** What storage answers: the rows, and the ids whose lookup fails. */
  datatype Storage = Storage(rows: map<string, MessageRow>, broken: set<string>)

  function Limit(args: Args): nat {
    Min(Max(if args.limit.Some? then args.limit.value else LIMIT_DEFAULT, 1), LIMIT_MAX)
  }

  function CandidateCount(limit: nat): nat { Max(limit * K_MULTIPLIER, K_MIN) }

  // ---------------------------------------------------------------- scope

  function AsciiLower(c: char): char { if 'A' <= c <= 'Z' then (c as int + 32) as char else c }

  predicate EqIgnoreAsciiCase(a: string, b: string) {
    |a| == |b| && forall i :: 0 <= i < |a| ==> AsciiLower(a[i]) == AsciiLower(b[i])
  }

  /** Character by character: equal, or the two cases of one of the 26 letters. */
  lemma EqMeans(a: string, b: string)
    ensures EqIgnoreAsciiCase(a, b) <==>
            && |a| == |b|
            && forall i :: 0 <= i < |a| ==>
                 var x, y := a[i] as int, b[i] as int;
                 x == y || (65 <= x <= 90 && y == x + 32) || (65 <= y <= 90 && x == y + 32)
  {
  }

  /** The ids of the active accounts whose user name is the scope's e-mail address. */
  function AllowedAccountIds(accounts: seq<Account>, email: string): seq<string> {
    if accounts == [] then []
    else
      (if EqIgnoreAsciiCase(accounts[0].username, email) then [accounts[0].id] else [])
      + AllowedAccountIds(accounts[1..], email)
  }

  predicate Owned(accounts: seq<Account>, email: string, id: string) {
    exists a <- accounts :: a.id == id && EqIgnoreAsciiCase(a.username, email)
  }

  lemma {:induction false} AllowedExact(accounts: seq<Account>, email: string)
    ensures forall id :: id in AllowedAccountIds(accounts, email) <==> Owned(accounts, email, id)
  {
    if accounts != [] {
      AllowedExact(accounts[1..], email);
      assert accounts == [accounts[0]] + accounts[1..];
      forall id ensures id in AllowedAccountIds(accounts, email) <==> Owned(accounts, email, id) {
        assert id in AllowedAccountIds(accounts[1..], email) <==> Owned(accounts[1..], email, id);
      }
    }
  }

  /** Intersect the caller's list with the owned accounts; an empty list asks for all of them. */
  function Narrow(allowed: seq<string>, caller: seq<string>): seq<string> {
    if caller == [] then allowed
    else if allowed == [] then []
    else (if allowed[0] in caller then [allowed[0]] else []) + Narrow(allowed[1..], caller)
  }

  /** Narrowing never widens, and keeps every owned account the caller named. */
  lemma {:induction false} NarrowExact(allowed: seq<string>, caller: seq<string>)
    ensures forall a :: a in Narrow(allowed, caller) <==> a in allowed && (caller == [] || a in caller)
  {
    if caller != [] && allowed != [] {
      NarrowExact(allowed[1..], caller);
      assert allowed == [allowed[0]] + allowed[1..];
    }
  }

  function RetainAllowed<T>(allowed: seq<string>, rows: seq<T>, key: T -> string): seq<T> {
    if rows == [] then []
    else
      var n := |rows| - 1;
      RetainAllowed(allowed, rows[..n], key) + if key(rows[n]) in allowed then [rows[n]] else []
  }

  /** `kept` are the rows at the increasing positions `at`, which are exactly those with an allowed key. */
  predicate KeptAt<T(==)>(allowed: seq<string>, rows: seq<T>, key: T -> string, kept: seq<T>, at: seq<nat>) {
    && |at| == |kept|
    && (forall i :: 0 <= i < |at| ==> at[i] < |rows| && kept[i] == rows[at[i]])
    && (forall i, j :: 0 <= i < j < |at| ==> at[i] < at[j])
    && (forall p :: 0 <= p < |rows| ==> (p in at <==> key(rows[p]) in allowed))
  }

  lemma KeepNext<T>(allowed: seq<string>, rows: seq<T>, key: T -> string, kept: seq<T>, at: seq<nat>, row: T)
    requires KeptAt(allowed, rows, key, kept, at)
    ensures key(row) in allowed ==> KeptAt(allowed, rows + [row], key, kept + [row], at + [|rows|])
    ensures key(row) !in allowed ==> KeptAt(allowed, rows + [row], key, kept, at)
  {
    assert |rows| !in at;
    assert forall p :: 0 <= p < |rows| ==> (rows + [row])[p] == rows[p];
    assert forall p :: p in at + [|rows|] <==> p in at || p == |rows|;
  }

  /** The kept rows are those with an allowed key, in their order, each once. */
  lemma {:induction false} RetainAllowedExact<T>(allowed: seq<string>, rows: seq<T>, key: T -> string) returns (at: seq<nat>)
    ensures KeptAt(allowed, rows, key, RetainAllowed(allowed, rows, key), at)
  {
    at := [];
    if rows != [] {
      var n := |rows| - 1;
      at := RetainAllowedExact(allowed, rows[..n], key);
      KeepNext(allowed, rows[..n], key, RetainAllowed(allowed, rows[..n], key), at, rows[n]);
      assert rows[..n] + [rows[n]] == rows;
      if key(rows[n]) in allowed { at := at + [n]; }
    }
  }

  // ---------------------------------------------------------------- filters

  predicate Contains(haystack: string, needle: string) {
    exists i :: 0 <= i <= |haystack| && needle <= haystack[i..]
  }

  /** The bounds of the date window; `until` includes its whole day. */
  function SinceTs(args: Args): Option<int> { if args.since.Day? then Some(args.since.n * DAY) else None }

  function UntilTs(args: Args): Option<int> { if args.until.Day? then Some(args.until.n * DAY + DAY - 1) else None }

  /** `filter_match`; `lower` is Unicode lowercasing. */
  predicate FilterMatch(row: MessageRow, args: Args, scoped: seq<string>, lower: string -> string) {
    && (args.from.Some? ==> Contains(lower(row.sender), lower(args.from.value)))
    && (args.folder.Some? ==> row.folder == args.folder.value)
    && (scoped != [] ==> row.account in scoped)
    && (SinceTs(args).Some? ==> row.date >= SinceTs(args).value)
    && (UntilTs(args).Some? ==> row.date <= UntilTs(args).value)
  }

  /** The UTC day a timestamp falls on, before 1970 too. */
  function DayOf(date: int): int { date / DAY }

  lemma WithinDays(date: int, day: int)
    ensures day * DAY <= date <==> day <= DayOf(date)
    ensures date <= day * DAY + DAY - 1 <==> DayOf(date) <= day
  {
    var rest := date % DAY;
    assert date == DayOf(date) * DAY + rest && 0 <= rest < DAY;
  }

  /** The two bounds select whole days, both ends included; they add nothing else to the filter. */
  lemma DateWindowIsWholeDays(row: MessageRow, args: Args, scoped: seq<string>, lower: string -> string)
    ensures FilterMatch(row, args, scoped, lower) <==>
            && FilterMatch(row, args.(since := Absent, until := Absent), scoped, lower)
            && (args.since.Day? ==> args.since.n <= row.date / 86400)
            && (args.until.Day? ==> row.date / 86400 <= args.until.n)
  {
    if args.since.Day? { WithinDays(row.date, args.since.n); }
    if args.until.Day? { WithinDays(row.date, args.until.n); }
  }

  /** A candidate is shown when it is stored, live, and passes. */
  predicate Shown(storage: Storage, args: Args, scoped: seq<string>, lower: string -> string, id: string) {
    && id in storage.rows && !storage.rows[id].tombstoned
    && FilterMatch(storage.rows[id], args, scoped, lower)
  }

  function Dto(storage: Storage, h: Ranking.Hit): HitDto
    requires h.id in storage.rows
  {
    var row := storage.rows[h.id];
    HitDto(h.id, row.account, row.folder, row.sender, row.date, h.score)
  }

  /** Brute force: every candidate that is shown, in rank order. */
  function AllShown(storage: Storage, args: Args, scoped: seq<string>, lower: string -> string,
                    hits: seq<Ranking.Hit>): seq<HitDto>
  {
    if hits == [] then []
    else
      var n := |hits| - 1;
      AllShown(storage, args, scoped, lower, hits[..n])
      + if Shown(storage, args, scoped, lower, hits[n].id) then [Dto(storage, hits[n])] else []
  }

  function Take(s: seq<HitDto>, n: nat): seq<HitDto> { s[..Min(n, |s|)] }

  // ---------------------------------------------------------------- the tool

  /** The candidates the tool looks at: the first k of the whole ranked index. */
  function Candidates(ranked: seq<Ranking.Hit>, args: Args): seq<Ranking.Hit> {
    ranked[..Min(CandidateCount(Limit(args)), |ranked|)]
  }

  predicate WellFormed(args: Args) { args.mode.Some? && !args.since.Malformed? && !args.until.Malformed? }

  /** A lookup fails before the shown candidates reach the limit. */
  predicate FailsEarly(storage: Storage, args: Args, scoped: seq<string>, lower: string -> string,
                       hits: seq<Ranking.Hit>, limit: nat)
  {
    exists i :: 0 <= i < |hits| && hits[i].id in storage.broken
                && |AllShown(storage, args, scoped, lower, hits[..i])| < limit
  }

  /**
   The whole call, against the whole ranked index.  `accounts` and `ranked` are None when the account
   lookup or the searcher fails; with no account in scope the searcher is not asked.
   */
  method Search(accounts: Option<seq<Account>>, email: string, args: Args, storage: Storage,
                ranked: Option<seq<Ranking.Hit>>, lower: string -> string)
    returns (r: Result<seq<HitDto>, SearchError>)
    ensures args.mode.None? ==> r == Err(BadMode)
    ensures args.mode.Some? && args.since.Malformed? ==> r == Err(BadSince)
    ensures args.mode.Some? && !args.since.Malformed? && args.until.Malformed? ==> r == Err(BadUntil)
    ensures WellFormed(args) && accounts.None? ==> r == Err(ScopeFails)
    ensures WellFormed(args) && accounts.Some? ==>
              var scoped := Narrow(AllowedAccountIds(accounts.value, email), args.accountIds);
              if scoped == [] then r == Ok([])
              else if ranked.None? then r == Err(SearcherFails)
              else
                var candidates := Candidates(ranked.value, args);
                if FailsEarly(storage, args, scoped, lower, candidates, Limit(args)) then r == Err(StorageFails)
                else r == Ok(Take(AllShown(storage, args, scoped, lower, candidates), Limit(args)))
  {
    if args.mode.None? { return Err(BadMode); }
    if args.since.Malformed? { return Err(BadSince); }
    if args.until.Malformed? { return Err(BadUntil); }
    var limit := Limit(args);
    var k := CandidateCount(limit);
    if accounts.None? { return Err(ScopeFails); }
    var scoped := Narrow(AllowedAccountIds(accounts.value, email), args.accountIds);
    if scoped == [] { return Ok([]); }
    if ranked.None? { return Err(SearcherFails); }
    r := ScanCandidates(storage, args, scoped, lower, ranked.value[..Min(k, |ranked.value|)], limit);
  }

  /** The candidate loop. */
  method ScanCandidates(storage: Storage, args: Args, scoped: seq<string>, lower: string -> string,
                        searcher: seq<Ranking.Hit>, limit: nat)
    returns (r: Result<seq<HitDto>, SearchError>)
    requires limit > 0
    ensures if FailsEarly(storage, args, scoped, lower, searcher, limit) then r == Err(StorageFails)
            else r == Ok(Take(AllShown(storage, args, scoped, lower, searcher), limit))
  {
    var hits: seq<HitDto> := [];
    var i := 0;
    assert searcher[..0] == [];
    while i < |searcher|
      invariant 0 <= i <= |searcher|
      invariant hits == AllShown(storage, args, scoped, lower, searcher[..i])
      invariant |hits| < limit
      invariant forall j :: 0 <= j < i ==> searcher[j].id !in storage.broken
    {
      var hit := searcher[i];
      if hit.id in storage.broken {
        return Err(StorageFails);
      }
      assert searcher[..i + 1][..i] == searcher[..i];
      i := i + 1;
      if Shown(storage, args, scoped, lower, hit.id) {
        hits := hits + [Dto(storage, hit)];
        if |hits| >= limit { break; }
      }
    }
    DoneMeansNoFailure(storage, args, scoped, lower, searcher, limit, i);
    r := Ok(hits);
  }

  lemma DoneMeansNoFailure(storage: Storage, args: Args, scoped: seq<string>, lower: string -> string,
                           hits: seq<Ranking.Hit>, limit: nat, i: nat)
    requires i <= |hits| && forall j :: 0 <= j < i ==> hits[j].id !in storage.broken
    requires |AllShown(storage, args, scoped, lower, hits[..i])| <= limit
    requires i == |hits| || |AllShown(storage, args, scoped, lower, hits[..i])| == limit
    ensures !FailsEarly(storage, args, scoped, lower, hits, limit)
    ensures Take(AllShown(storage, args, scoped, lower, hits), limit) == AllShown(storage, args, scoped, lower, hits[..i])
  {
    ShownPrefix(storage, args, scoped, lower, hits, i);
    if i == |hits| {
      assert hits[..i] == hits;
    } else {
      forall j | i <= j < |hits| ensures |AllShown(storage, args, scoped, lower, hits[..j])| >= limit {
        ShownPrefix(storage, args, scoped, lower, hits[..j], i);
        assert hits[..j][..i] == hits[..i];
      }
    }
  }

  lemma {:induction false} ShownPrefix(storage: Storage, args: Args, scoped: seq<string>, lower: string -> string,
                                       hits: seq<Ranking.Hit>, n: nat)
    requires n <= |hits|
    ensures AllShown(storage, args, scoped, lower, hits[..n]) <= AllShown(storage, args, scoped, lower, hits)
    decreases |hits|
  {
    if n < |hits| {
      ShownPrefix(storage, args, scoped, lower, hits[..|hits| - 1], n);
      assert hits[..|hits| - 1][..n] == hits[..n];
    } else {
      assert hits[..n] == hits;
    }
  }

  // ---------------------------------------------------------------- what a caller may conclude

  /** What the filters ask of a row, column by column. */
  lemma FilterAsks(row: MessageRow, args: Args, scoped: seq<string>, lower: string -> string)
    requires scoped != []
    ensures FilterMatch(row, args, scoped, lower) <==>
            && (args.folder.Some? ==> row.folder == args.folder.value)
            && (args.from.Some? ==>
                  exists i, j :: 0 <= i <= j <= |lower(row.sender)| && lower(row.sender)[i..j] == lower(args.from.value))
            && row.account in scoped
            && (args.since.Day? ==> args.since.n * 86400 <= row.date)
            && (args.until.Day? ==> row.date < args.until.n * 86400 + 86400)
  {
    if args.from.Some? { ContainsMeans(lower(row.sender), lower(args.from.value)); }
  }

  lemma ContainsMeans(haystack: string, needle: string)
    ensures Contains(haystack, needle) <==> exists i, j :: 0 <= i <= j <= |haystack| && haystack[i..j] == needle
  {
    if i :| 0 <= i <= |haystack| && needle <= haystack[i..] {
      assert haystack[i..i + |needle|] == needle;
    }
    if i, j :| 0 <= i <= j <= |haystack| && haystack[i..j] == needle {
      assert haystack[i..][..j - i] == needle;
    }
  }

  /** `all` lists the hits at the increasing positions `at`, which are exactly those shown. */
  ghost predicate ListedAt(storage: Storage, args: Args, scoped: seq<string>, lower: string -> string,
                           hits: seq<Ranking.Hit>, all: seq<HitDto>, at: seq<nat>)
  {
    && |at| == |all|
    && (forall i :: 0 <= i < |at| ==> at[i] < |hits| && hits[at[i]].id in storage.rows && all[i] == Dto(storage, hits[at[i]]))
    && (forall i, j :: 0 <= i < j < |at| ==> at[i] < at[j])
    && (forall p :: 0 <= p < |hits| ==> (p in at <==> Shown(storage, args, scoped, lower, hits[p].id)))
  }

  lemma ListNext(storage: Storage, args: Args, scoped: seq<string>, lower: string -> string,
                 hits: seq<Ranking.Hit>, all: seq<HitDto>, at: seq<nat>, h: Ranking.Hit)
    requires ListedAt(storage, args, scoped, lower, hits, all, at)
    ensures Shown(storage, args, scoped, lower, h.id) ==>
              ListedAt(storage, args, scoped, lower, hits + [h], all + [Dto(storage, h)], at + [|hits|])
    ensures !Shown(storage, args, scoped, lower, h.id) ==> ListedAt(storage, args, scoped, lower, hits + [h], all, at)
  {
    assert |hits| !in at;
    assert forall p :: 0 <= p < |hits| ==> (hits + [h])[p] == hits[p];
    assert forall p :: p in at + [|hits|] <==> p in at || p == |hits|;
  }

  lemma {:induction false} ShownPositions(storage: Storage, args: Args, scoped: seq<string>, lower: string -> string,
                                          hits: seq<Ranking.Hit>)
    returns (at: seq<nat>)
    ensures ListedAt(storage, args, scoped, lower, hits, AllShown(storage, args, scoped, lower, hits), at)
  {
    at := [];
    if hits != [] {
      var n := |hits| - 1;
      at := ShownPositions(storage, args, scoped, lower, hits[..n]);
      ListNext(storage, args, scoped, lower, hits[..n], AllShown(storage, args, scoped, lower, hits[..n]), at, hits[n]);
      assert hits[..n] + [hits[n]] == hits;
      if Shown(storage, args, scoped, lower, hits[n].id) { at := at + [n]; }
    }
  }

  /**
   The message a caller asked for: stored, live, in an active account of the user and in the caller's
   list if there is one, in the folder, from a sender whose lowercased address contains the lowercased
   text, from midnight of the first day to the end of the last.
   */
  predicate AskedFor(storage: Storage, accounts: seq<Account>, email: string, args: Args, lower: string -> string, id: string) {
    id in storage.rows
    && var row := storage.rows[id];
       && !row.tombstoned
       && (exists a <- accounts :: a.id == row.account && EqIgnoreAsciiCase(a.username, email))
       && (args.accountIds != [] ==> row.account in args.accountIds)
       && (args.folder.Some? ==> row.folder == args.folder.value)
       && (args.from.Some? ==>
             exists i, j :: 0 <= i <= j <= |lower(row.sender)| && lower(row.sender)[i..j] == lower(args.from.value))
       && (args.since.Day? ==> args.since.n * 86400 <= row.date)
       && (args.until.Day? ==> row.date < args.until.n * 86400 + 86400)
  }

  lemma ShownIsAskedFor(storage: Storage, accounts: seq<Account>, email: string, args: Args, lower: string -> string, id: string)
    requires Narrow(AllowedAccountIds(accounts, email), args.accountIds) != []
    ensures Shown(storage, args, Narrow(AllowedAccountIds(accounts, email), args.accountIds), lower, id) <==>
            AskedFor(storage, accounts, email, args, lower, id)
  {
    var allowed := AllowedAccountIds(accounts, email);
    AllowedExact(accounts, email);
    NarrowExact(allowed, args.accountIds);
    if id in storage.rows {
      var row := storage.rows[id];
      FilterAsks(row, args, Narrow(allowed, args.accountIds), lower);
      assert row.account in allowed <==> Owned(accounts, email, row.account);
    }
  }

  /**
   The page, said without the tool's own functions: `at` are the positions in the ranking it shows,
   among the first max(5 * limit, 200), where the limit is the caller's held between 1 and 200, 20
   when none is given.  Each is a message asked for, with its own columns and score; every earlier
   message asked for is there too, and every later one unless the page is full.
   */
  lemma PageIs(storage: Storage, accounts: seq<Account>, email: string, args: Args, lower: string -> string,
               ranked: seq<Ranking.Hit>)
    returns (at: seq<nat>)
    requires Narrow(AllowedAccountIds(accounts, email), args.accountIds) != []
    ensures var scoped := Narrow(AllowedAccountIds(accounts, email), args.accountIds);
            var page := Take(AllShown(storage, args, scoped, lower, Candidates(ranked, args)), Limit(args));
            var limit := if args.limit.None? then 20 else Min(Max(args.limit.value, 1), 200);
            && |at| == |page| <= limit
            && (forall i, j :: 0 <= i < j < |at| ==> at[i] < at[j])
            && (forall i :: 0 <= i < |at| ==>
                  && at[i] < |ranked| && at[i] < Max(5 * limit, 200)
                  && AskedFor(storage, accounts, email, args, lower, ranked[at[i]].id)
                  && var row := storage.rows[ranked[at[i]].id];
                     page[i] == HitDto(ranked[at[i]].id, row.account, row.folder, row.sender, row.date, ranked[at[i]].score))
            && (forall p :: 0 <= p < Min(|ranked|, Max(5 * limit, 200)) ==>
                  AskedFor(storage, accounts, email, args, lower, ranked[p].id) ==>
                    p in at || (|at| == limit && forall i :: 0 <= i < |at| ==> at[i] < p))
  {
    var scoped := Narrow(AllowedAccountIds(accounts, email), args.accountIds);
    var candidates := Candidates(ranked, args);
    var whole := ShownPositions(storage, args, scoped, lower, candidates);
    at := whole[..Min(Limit(args), |whole|)];
    forall p | 0 <= p < |candidates|
      ensures p in whole <==> AskedFor(storage, accounts, email, args, lower, ranked[p].id)
    {
      ShownIsAskedFor(storage, accounts, email, args, lower, ranked[p].id);
    }
    forall p | p in whole && p !in at ensures |at| == Limit(args) && forall i :: 0 <= i < |at| ==> at[i] < p {
      var q :| 0 <= q < |whole| && whole[q] == p;
      assert q >= |at|;
    }
  }

  /** Exactly the shown candidates, each with its own row and score. */
  lemma {:induction false} AllShownExact(storage: Storage, args: Args, scoped: seq<string>, lower: string -> string,
                                         hits: seq<Ranking.Hit>)
    ensures forall d <- AllShown(storage, args, scoped, lower, hits) ::
              Shown(storage, args, scoped, lower, d.id) && d.account == storage.rows[d.id].account
              && exists i :: 0 <= i < |hits| && hits[i].id == d.id && hits[i].score == d.score
    ensures forall i :: 0 <= i < |hits| && Shown(storage, args, scoped, lower, hits[i].id) ==>
              Dto(storage, hits[i]) in AllShown(storage, args, scoped, lower, hits)
  {
    if hits != [] {
      AllShownExact(storage, args, scoped, lower, hits[..|hits| - 1]);
    }
  }

  /** Whatever the arguments, nothing outside the user's own accounts is returned, nor outside the caller's list. */
  lemma HitsStayInScope(accounts: seq<Account>, email: string, args: Args, storage: Storage, lower: string -> string,
                        searcher: seq<Ranking.Hit>, limit: nat)
    ensures var scoped := Narrow(AllowedAccountIds(accounts, email), args.accountIds);
            scoped != [] ==>
              forall d <- Take(AllShown(storage, args, scoped, lower, searcher), limit) ::
                Owned(accounts, email, d.account) && (args.accountIds == [] || d.account in args.accountIds)
  {
    var allowed := AllowedAccountIds(accounts, email);
    var scoped := Narrow(allowed, args.accountIds);
    AllowedExact(accounts, email);
    NarrowExact(allowed, args.accountIds);
    AllShownExact(storage, args, scoped, lower, searcher);
    assert forall d <- Take(AllShown(storage, args, scoped, lower, searcher), limit) ::
        d in AllShown(storage, args, scoped, lower, searcher);
  }

  lemma {:induction false} ShownSplit(storage: Storage, args: Args, scoped: seq<string>, lower: string -> string,
                                      a: seq<Ranking.Hit>, b: seq<Ranking.Hit>)
    ensures AllShown(storage, args, scoped, lower, a + b)
            == AllShown(storage, args, scoped, lower, a) + AllShown(storage, args, scoped, lower, b)
  {
    if b == [] {
      assert a + b == a;
    } else {
      var n := |b| - 1;
      assert (a + b)[..|a + b| - 1] == a + b[..n];
      ShownSplit(storage, args, scoped, lower, a, b[..n]);
    }
  }

  /**
   Filtering only the first k candidates equals filtering the whole ranked index, exactly when
   those already fill the limit or nothing behind them passes.
   */
  lemma OverfetchExactIff(storage: Storage, args: Args, scoped: seq<string>, lower: string -> string,
                          ranked: seq<Ranking.Hit>, k: nat, limit: nat)
    requires limit > 0
    ensures var first := ranked[..Min(k, |ranked|)]; var behind := ranked[Min(k, |ranked|)..];
            Take(AllShown(storage, args, scoped, lower, first), limit) == Take(AllShown(storage, args, scoped, lower, ranked), limit)
            <==> (|AllShown(storage, args, scoped, lower, first)| >= limit || AllShown(storage, args, scoped, lower, behind) == [])
  {
    var first, behind := ranked[..Min(k, |ranked|)], ranked[Min(k, |ranked|)..];
    assert first + behind == ranked;
    ShownSplit(storage, args, scoped, lower, first, behind);
  }

  /** A shown candidate stands behind exactly the shown ones before it. */
  lemma ShownAt(storage: Storage, args: Args, scoped: seq<string>, lower: string -> string, hits: seq<Ranking.Hit>, i: nat)
    requires i < |hits| && Shown(storage, args, scoped, lower, hits[i].id)
    ensures var p := |AllShown(storage, args, scoped, lower, hits[..i])|;
            var all := AllShown(storage, args, scoped, lower, hits);
            p < |all| && all[p] == Dto(storage, hits[i]) && all[..p] == AllShown(storage, args, scoped, lower, hits[..i])
  {
    assert hits[..i + 1][..i] == hits[..i];
    ShownPrefix(storage, args, scoped, lower, hits, i + 1);
  }

  lemma BeforeIsBetter(storage: Storage, args: Args, scoped: seq<string>, lower: string -> string, hits: seq<Ranking.Hit>, i: nat)
    requires i < |hits| && Ranking.Descending(hits)
    ensures forall d <- AllShown(storage, args, scoped, lower, hits[..i]) :: d.score >= hits[i].score
  {
    AllShownExact(storage, args, scoped, lower, hits[..i]);
  }

  lemma FetchedMatchBeaten(storage: Storage, args: Args, scoped: seq<string>, lower: string -> string,
                           hits: seq<Ranking.Hit>, i: nat, limit: nat)
    requires i < |hits| && Ranking.Descending(hits) && Shown(storage, args, scoped, lower, hits[i].id)
    requires Dto(storage, hits[i]) !in Take(AllShown(storage, args, scoped, lower, hits), limit)
    ensures var result := Take(AllShown(storage, args, scoped, lower, hits), limit);
            |result| == limit && forall d <- result :: d.score >= hits[i].score
  {
    ShownAt(storage, args, scoped, lower, hits, i);
    BeforeIsBetter(storage, args, scoped, lower, hits, i);
    var all, p := AllShown(storage, args, scoped, lower, hits), |AllShown(storage, args, scoped, lower, hits[..i])|;
    forall q | 0 <= q < Min(limit, |all|) ensures all[q] in Take(all, limit) {
      assert Take(all, limit)[q] == all[q];
    }
    assert p >= limit;
    assert Take(all, limit) == all[..p][..limit];
  }

  /**
   A stored, live, passing message that a completed search does not return was beaten: either the
   limit is full of messages at least as good, or it ranks behind the candidates fetched, which
   cannot happen while the index holds no more messages than were asked for.
   */
  lemma NoMatchMissed(storage: Storage, args: Args, scoped: seq<string>, lower: string -> string,
                      searcher: seq<Ranking.Hit>, best: map<string, real>, k: nat, limit: nat, id: string)
    requires Ranking.IsRanking(searcher, best, k)
    requires id in best && Shown(storage, args, scoped, lower, id)
    requires forall d <- Take(AllShown(storage, args, scoped, lower, searcher), limit) :: d.id != id
    ensures var result := Take(AllShown(storage, args, scoped, lower, searcher), limit);
            || (|result| == limit && forall d <- result :: d.score >= best[id])
            || (|best| > k && |searcher| == k && forall i :: 0 <= i < k ==> searcher[i].score >= best[id])
  {
    if id in Ranking.HitIds(searcher) {
      var i :| 0 <= i < |searcher| && searcher[i].id == id;
      FetchedMatchBeaten(storage, args, scoped, lower, searcher, i, limit);
    } else {
      SmallIndexComplete(searcher, best, k);
    }
  }

  /** With the tool's own counts: on an index of at most max(5 * limit, 200) messages only a full page can hide a match. */
  lemma SmallIndexSearchedWhole(storage: Storage, args: Args, scoped: seq<string>, lower: string -> string,
                                ranked: seq<Ranking.Hit>, best: map<string, real>, id: string)
    requires Ranking.IsRanking(ranked, best, |best|) && |best| <= Max(5 * Limit(args), 200)
    requires id in best && Shown(storage, args, scoped, lower, id)
    requires forall d <- Take(AllShown(storage, args, scoped, lower, Candidates(ranked, args)), Limit(args)) :: d.id != id
    ensures var result := Take(AllShown(storage, args, scoped, lower, Candidates(ranked, args)), Limit(args));
            |result| == Limit(args) && forall d <- result :: d.score >= best[id]
  {
    assert Candidates(ranked, args) == ranked;
    NoMatchMissed(storage, args, scoped, lower, ranked, best, |best|, Limit(args), id);
  }

  /** A ranking of an index with at most k messages lists them all. */
  lemma SmallIndexComplete(hits: seq<Ranking.Hit>, best: map<string, real>, k: nat)
    requires Ranking.IsRanking(hits, best, k)
    ensures |best| <= k ==> Ranking.HitIds(hits) == best.Keys
  {
    if |best| <= k {
      Ranking.IdsCardinality(hits);
      assert |best| == |best.Keys|;
      if Ranking.HitIds(hits) != best.Keys {
        var id :| id in best.Keys && id !in Ranking.HitIds(hits);
        SubsetCardinality(Ranking.HitIds(hits), best.Keys - {id});
      }
    }
  }
}
