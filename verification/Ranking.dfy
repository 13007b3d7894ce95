/**
 What a ranked search owes its caller, the segmented search that over-fetches, dedups and
 truncates, and the plain in-memory index it must agree with.  Scores are reals.
 */
module Ranking {
  import opened Wrappers
  import Document

  const MAX_SEGMENTS := Document.MAX_SEGMENTS_PER_MESSAGE
  const USIZE_MAX := 0xFFFF_FFFF_FFFF_FFFF

  datatype Hit = Hit(id: string, score: real, snippet: Option<string>)

  // ---------------------------------------------------------------- the contract

  function HitIds(hits: seq<Hit>): set<string> { set i | 0 <= i < |hits| :: hits[i].id }

  predicate DistinctIds(hits: seq<Hit>) { forall i, j :: 0 <= i < j < |hits| ==> hits[i].id != hits[j].id }

  predicate Descending(hits: seq<Hit>) { forall i, j :: 0 <= i <= j < |hits| ==> hits[i].score >= hits[j].score }

  /** The k best messages, best first, each with its own best score. */
  ghost predicate IsRanking(hits: seq<Hit>, best: map<string, real>, k: nat) {
    && |hits| == Min(k, |best|)
    && DistinctIds(hits) && Descending(hits)
    && (forall i :: 0 <= i < |hits| ==> hits[i].id in best && hits[i].score == best[hits[i].id])
    && (forall i, id :: 0 <= i < |hits| && id in best && id !in HitIds(hits) ==> hits[i].score >= best[id])
  }

  lemma {:induction false} IdsCardinality(hits: seq<Hit>)
    ensures |HitIds(hits)| <= |hits|
    ensures DistinctIds(hits) ==> |HitIds(hits)| == |hits|
  {
    if hits != [] {
      var n := |hits| - 1;
      IdsCardinality(hits[..n]);
      assert HitIds(hits) == HitIds(hits[..n]) + {hits[n].id};
    }
  }

  lemma HitAppended(hits: seq<Hit>, h: Hit)
    ensures HitIds(hits + [h]) == HitIds(hits) + {h.id}
    ensures DistinctIds(hits) && h.id !in HitIds(hits) ==> DistinctIds(hits + [h])
  {
    forall i | 0 <= i < |hits| ensures hits[i].id in HitIds(hits + [h]) {
      assert (hits + [h])[i] == hits[i];
    }
    assert (hits + [h])[|hits|] == h;
  }

  lemma NoScoreAbove(a: seq<Hit>, b: seq<Hit>, best: map<string, real>, k: nat, i: nat)
    requires IsRanking(a, best, k) && IsRanking(b, best, k) && i < |a|
    ensures a[i].score <= b[i].score
  {
    if a[i].score > b[i].score {
      IdsCardinality(a[..i + 1]);
      IdsCardinality(b[..i]);
      forall id <- HitIds(a[..i + 1]) ensures id in HitIds(b[..i]) {
        var j :| 0 <= j < i + 1 && a[..i + 1][j].id == id;
        assert best[id] >= a[i].score;
        assert id in HitIds(b);
        var l :| 0 <= l < |b| && b[l].id == id;
        assert l < i;
        assert b[..i][l].id == id;
      }
      SubsetCardinality(HitIds(a[..i + 1]), HitIds(b[..i]));
      assert false;
    }
  }

  /** Two rankings of the same scores agree position by position; only ties may differ in id. */
  lemma RankingsAgree(a: seq<Hit>, b: seq<Hit>, best: map<string, real>, k: nat)
    requires IsRanking(a, best, k) && IsRanking(b, best, k)
    ensures |a| == |b| && forall i :: 0 <= i < |a| ==> a[i].score == b[i].score
  {
    forall i | 0 <= i < |a| ensures a[i].score == b[i].score {
      NoScoreAbove(a, b, best, k, i);
      NoScoreAbove(b, a, best, k, i);
    }
  }

  /** Truncating a ranking gives the ranking for the smaller k. */
  lemma TruncatedRanking(hits: seq<Hit>, best: map<string, real>, k: nat, l: nat)
    requires IsRanking(hits, best, k) && l <= k
    ensures IsRanking(hits[..Min(l, |hits|)], best, l)
  {
    var n := Min(l, |hits|);
    forall j | 0 <= j < n ensures hits[j].id in HitIds(hits[..n]) {
      assert hits[..n][j] == hits[j];
    }
    forall i, id | 0 <= i < n && id in best && id !in HitIds(hits[..n]) ensures hits[..n][i].score >= best[id] {
      if id in HitIds(hits) {
        var j :| 0 <= j < |hits| && hits[j].id == id;
        assert j >= n;
      }
    }
  }

  // ---------------------------------------------------------------- sorting

  function InsertDescending(h: Hit, sorted: seq<Hit>): seq<Hit> {
    if sorted == [] || h.score > sorted[0].score then [h] + sorted
    else [sorted[0]] + InsertDescending(h, sorted[1..])
  }

  function SortDescending(hits: seq<Hit>): seq<Hit> {
    if hits == [] then [] else InsertDescending(hits[0], SortDescending(hits[1..]))
  }

  lemma {:induction false} InsertKeeps(h: Hit, sorted: seq<Hit>)
    ensures multiset(InsertDescending(h, sorted)) == multiset(sorted) + multiset{h}
  {
    if sorted != [] && h.score <= sorted[0].score {
      InsertKeeps(h, sorted[1..]);
      assert sorted == [sorted[0]] + sorted[1..];
    }
  }

  lemma PrependDescends(first: Hit, rest: seq<Hit>)
    requires Descending(rest) && forall i :: 0 <= i < |rest| ==> rest[i].score <= first.score
    ensures Descending([first] + rest)
  {
  }

  lemma {:induction false} InsertSorts(h: Hit, sorted: seq<Hit>)
    requires Descending(sorted)
    ensures Descending(InsertDescending(h, sorted))
    ensures multiset(InsertDescending(h, sorted)) == multiset(sorted) + multiset{h}
  {
    InsertKeeps(h, sorted);
    if sorted == [] || h.score > sorted[0].score {
      PrependDescends(h, sorted);
    } else {
      var rest := InsertDescending(h, sorted[1..]);
      InsertSorts(h, sorted[1..]);
      forall i | 0 <= i < |rest| ensures rest[i].score <= sorted[0].score {
        assert rest[i] in multiset(rest);
        assert rest[i] == h || rest[i] in sorted[1..];
      }
      PrependDescends(sorted[0], rest);
    }
  }

  lemma {:induction false} SortSorts(hits: seq<Hit>)
    ensures Descending(SortDescending(hits)) && multiset(SortDescending(hits)) == multiset(hits)
  {
    if hits != [] {
      SortSorts(hits[1..]);
      InsertSorts(hits[0], SortDescending(hits[1..]));
      assert hits == [hits[0]] + hits[1..];
    }
  }

  /** Every message listed once with its best score: what both searches sort and truncate. */
  predicate ListsAll(hits: seq<Hit>, best: map<string, real>) {
    && DistinctIds(hits)
    && HitIds(hits) == best.Keys
    && forall i :: 0 <= i < |hits| ==> hits[i].id in best && hits[i].score == best[hits[i].id]
  }

  lemma PermutationIds(a: seq<Hit>, b: seq<Hit>)
    requires multiset(a) == multiset(b)
    ensures HitIds(a) <= HitIds(b)
  {
    forall id <- HitIds(a) ensures id in HitIds(b) {
      var i :| 0 <= i < |a| && a[i].id == id;
      assert a[i] in multiset(a);
      assert a[i] in b;
    }
  }

  lemma PermutationKeepsIds(a: seq<Hit>, b: seq<Hit>)
    requires multiset(a) == multiset(b) && DistinctIds(a)
    ensures HitIds(b) == HitIds(a) && DistinctIds(b)
  {
    PermutationIds(a, b);
    PermutationIds(b, a);
    IdsCardinality(a);
    assert HitIds(a) == HitIds(b);
    assert |a| == |multiset(a)| && |b| == |multiset(b)|;
    CountedDistinct(b);
  }

  /** As many ids as hits means no id occurs twice. */
  lemma {:induction false} CountedDistinct(hits: seq<Hit>)
    requires |HitIds(hits)| == |hits|
    ensures DistinctIds(hits)
  {
    if hits != [] {
      var n := |hits| - 1;
      IdsCardinality(hits[..n]);
      assert HitIds(hits) == HitIds(hits[..n]) + {hits[n].id};
      CountedDistinct(hits[..n]);
      forall i | 0 <= i < n ensures hits[i].id != hits[n].id {
        assert hits[..n][i].id in HitIds(hits[..n]);
      }
    }
  }

  /** Sorting a complete list and cutting it at k yields the ranking. */
  lemma SortTruncateRanks(hits: seq<Hit>, best: map<string, real>, k: nat)
    requires ListsAll(hits, best)
    ensures var sorted := SortDescending(hits); IsRanking(sorted[..Min(k, |sorted|)], best, k)
  {
    var sorted := SortDescending(hits);
    SortSorts(hits);
    PermutationKeepsIds(hits, sorted);
    IdsCardinality(hits);
    assert |hits| == |multiset(hits)| == |multiset(sorted)| == |sorted|;
    forall i | 0 <= i < |sorted| ensures sorted[i].id in best && sorted[i].score == best[sorted[i].id] {
      assert sorted[i] in multiset(sorted);
      assert sorted[i] in hits;
    }
    assert |best| == |best.Keys|;
    assert IsRanking(sorted, best, |sorted|);
    if k <= |sorted| { TruncatedRanking(sorted, best, |sorted|, k); } else { assert sorted[..|sorted|] == sorted; }
  }

  // ---------------------------------------------------------------- the segmented search

  /** One row of the embedding index: the id its metadata carries, its score, the text that matched. */
  datatype Row = Row(id: Option<string>, score: real, text: Option<string>)

  /** The over-fetch: eight rows per wanted message, saturating like the machine word. */
  function RawK(k: nat): nat { Max(Min(k * MAX_SEGMENTS, USIZE_MAX), k) }

  /** The positions of the rows the engine returns for `limit`: some best ones, in any order. */
  ghost predicate BestRows(rows: seq<Row>, limit: nat, sel: seq<nat>) {
    && |sel| == Min(limit, |rows|)
    && (forall i, j :: 0 <= i < j < |sel| ==> sel[i] != sel[j])
    && (forall i :: 0 <= i < |sel| ==> sel[i] < |rows|)
    && (forall i, r :: 0 <= i < |sel| && 0 <= r < |rows| && r !in sel ==> rows[r].score <= rows[sel[i]].score)
  }

  function RowsOf(rows: seq<Row>, id: string): set<nat> { set r: nat | r < |rows| && rows[r].id == Some(id) }

  /** The index `submit` builds: every row names its message, and no message has more than eight. */
  ghost predicate Segmented(rows: seq<Row>) {
    && (forall r :: 0 <= r < |rows| ==> rows[r].id.Some?)
    && (forall id :: |RowsOf(rows, id)| <= MAX_SEGMENTS)
  }

  /** `best` holds each message of the index with the maximum over all its rows. */
  ghost predicate BestScores(rows: seq<Row>, best: map<string, real>) {
    && (forall r :: 0 <= r < |rows| && rows[r].id.Some? ==>
          rows[r].id.value in best && rows[r].score <= best[rows[r].id.value])
    && (forall id <- best :: exists r :: 0 <= r < |rows| && rows[r].id == Some(id) && rows[r].score == best[id])
  }

  /** A hit's snippet is the text of a row of that message with that score. */
  predicate SnippetFrom(rows: seq<Row>, h: Hit, withSnippets: bool) {
    exists r :: 0 <= r < |rows| && rows[r].id == Some(h.id) && rows[r].score == h.score
                && h.snippet == (if withSnippets then rows[r].text else None)
  }

  /** The dedup map after the first n returned rows. */
  ghost predicate Deduped(rows: seq<Row>, sel: seq<nat>, n: nat, best: map<string, Hit>, withSnippets: bool)
    requires n <= |sel| && forall i :: 0 <= i < |sel| ==> sel[i] < |rows|
  {
    && (forall id <- best :: best[id].id == id && SnippetFrom(rows, best[id], withSnippets))
    && (forall id <- best :: exists i :: 0 <= i < n && rows[sel[i]].id == Some(id) && rows[sel[i]].score == best[id].score)
    && (forall i :: 0 <= i < n && rows[sel[i]].id.Some? ==>
          rows[sel[i]].id.value in best && rows[sel[i]].score <= best[rows[sel[i]].id.value].score)
  }

  method Dedup(rows: seq<Row>, sel: seq<nat>, withSnippets: bool) returns (best: map<string, Hit>)
    requires forall i :: 0 <= i < |sel| ==> sel[i] < |rows|
    ensures Deduped(rows, sel, |sel|, best, withSnippets)
  {
    best := map[];
    for n := 0 to |sel|
      invariant Deduped(rows, sel, n, best, withSnippets)
    {
      var row := rows[sel[n]];
      if row.id.Some? {
        var hit := Hit(row.id.value, row.score, if withSnippets then row.text else None);
        assert SnippetFrom(rows, hit, withSnippets);
        if row.id.value !in best || row.score > best[row.id.value].score {
          best := best[row.id.value := hit];
        }
      }
    }
  }

  /** `hits` lists the map but for `rest`. */
  predicate Listing(best: map<string, Hit>, hits: seq<Hit>, rest: set<string>) {
    && rest <= best.Keys && DistinctIds(hits) && HitIds(hits) == best.Keys - rest
    && forall i :: 0 <= i < |hits| ==> hits[i].id in best && hits[i] == best[hits[i].id]
  }

  lemma ListNext(best: map<string, Hit>, hits: seq<Hit>, rest: set<string>, id: string)
    requires Listing(best, hits, rest) && id in rest && best[id].id == id
    ensures Listing(best, hits + [best[id]], rest - {id})
  {
    HitAppended(hits, best[id]);
    assert best.Keys - (rest - {id}) == best.Keys - rest + {id};
  }

  /** List a map in some order: the order of a hash map is not ours to choose. */
  method Listed(best: map<string, Hit>) returns (hits: seq<Hit>)
    requires forall id <- best :: best[id].id == id
    ensures DistinctIds(hits) && HitIds(hits) == best.Keys
    ensures forall i :: 0 <= i < |hits| ==> hits[i].id in best && hits[i] == best[hits[i].id]
  {
    hits := [];
    var rest := best.Keys;
    while rest != {}
      invariant Listing(best, hits, rest)
      decreases |rest|
    {
      var id :| id in rest;
      ListNext(best, hits, rest, id);
      hits := hits + [best[id]];
      rest := rest - {id};
    }
  }

  // ---------------------------------------------------------------- why over-fetching by eight is enough

  ghost function SelectedIds(rows: seq<Row>, sel: set<nat>): set<string>
    requires forall r <- sel :: r < |rows| && rows[r].id.Some?
  {
    set r <- sel :: rows[r].id.value
  }

  /** Rows of at most eight per message come from at least an eighth as many messages. */
  lemma {:induction false} Pigeonhole(rows: seq<Row>, sel: set<nat>)
    requires Segmented(rows) && forall r <- sel :: r < |rows|
    ensures |sel| <= MAX_SEGMENTS * |SelectedIds(rows, sel)|
    decreases |sel|
  {
    if sel != {} {
      var x :| x in sel;
      var id := rows[x].id.value;
      var own := set r <- sel | rows[r].id == Some(id);
      SubsetCardinality(own, RowsOf(rows, id));
      assert x in own;
      Pigeonhole(rows, sel - own);
      assert SelectedIds(rows, sel) == SelectedIds(rows, sel - own) + {id};
      assert |SelectedIds(rows, sel)| == |SelectedIds(rows, sel - own)| + 1;
      assert |sel| == |sel - own| + |own|;
    }
  }

  function ToSet(sel: seq<nat>): set<nat> { set x | x in sel }

  function Positions(n: nat): (ps: set<nat>)
    ensures |ps| == n && forall i :: i in ps <==> 0 <= i < n
  {
    if n == 0 then {} else Positions(n - 1) + {n - 1}
  }

  lemma {:induction false} DistinctCardinality(sel: seq<nat>)
    requires forall i, j :: 0 <= i < j < |sel| ==> sel[i] != sel[j]
    ensures |ToSet(sel)| == |sel|
  {
    if sel != [] {
      var n := |sel| - 1;
      DistinctCardinality(sel[..n]);
      assert sel == sel[..n] + [sel[n]];
      assert ToSet(sel) == ToSet(sel[..n]) + {sel[n]};
      assert sel[n] !in sel[..n];
    }
  }

  /** A selection as long as the index selects every position. */
  lemma AllSelected(n: nat, sel: seq<nat>)
    requires |sel| == n && forall i :: 0 <= i < |sel| ==> sel[i] < n
    requires forall i, j :: 0 <= i < j < |sel| ==> sel[i] != sel[j]
    ensures ToSet(sel) == Positions(n)
  {
    DistinctCardinality(sel);
    assert ToSet(sel) <= Positions(n);
    if ToSet(sel) != Positions(n) {
      var r :| r in Positions(n) && r !in ToSet(sel);
      SubsetCardinality(ToSet(sel), Positions(n) - {r});
    }
  }

  /** Each returned message's best returned row is its best row in the whole index. */
  lemma SelectedBestIsTrueBest(rows: seq<Row>, sel: seq<nat>, limit: nat, best: map<string, real>, id: string, score: real)
    requires BestRows(rows, limit, sel) && BestScores(rows, best)
    requires exists i :: 0 <= i < |sel| && rows[sel[i]].id == Some(id) && rows[sel[i]].score == score
    requires forall i :: 0 <= i < |sel| && rows[sel[i]].id == Some(id) ==> rows[sel[i]].score <= score
    ensures id in best && best[id] == score
  {
    var i :| 0 <= i < |sel| && rows[sel[i]].id == Some(id) && rows[sel[i]].score == score;
    assert id in best && score <= best[id];
    var r :| 0 <= r < |rows| && rows[r].id == Some(id) && rows[r].score == best[id];
    if r in sel {
      var j :| 0 <= j < |sel| && sel[j] == r;
      assert rows[sel[j]].score <= score;
    }
  }

  /** The true best score of every message, row by row. */
  ghost function Best(rows: seq<Row>): (best: map<string, real>)
    ensures BestScores(rows, best)
  {
    if rows == [] then map[]
    else
      var n := |rows| - 1;
      var before := Best(rows[..n]);
      assert forall r :: 0 <= r < n ==> rows[..n][r] == rows[r];
      if rows[n].id.Some? && (rows[n].id.value !in before || rows[n].score > before[rows[n].id.value])
      then before[rows[n].id.value := rows[n].score]
      else before
  }

  /** The ranking of a part of the messages is the ranking of all, when the part is large enough and holds the best. */
  lemma LiftRanking(hits: seq<Hit>, part: map<string, real>, best: map<string, real>, k: nat)
    requires IsRanking(hits, part, k)
    requires part.Keys <= best.Keys && forall id <- part :: part[id] == best[id]
    requires |part| >= Min(k, |best|)
    requires forall id, other :: id in best && id !in part && other in part ==> best[id] <= part[other]
    ensures IsRanking(hits, best, k)
  {
    SubsetCardinality(part.Keys, best.Keys);
    assert |part| == |part.Keys| && |best| == |best.Keys|;
  }

  lemma EveryMessageSelected(rows: seq<Row>, sel: seq<nat>, ids: set<string>)
    requires ToSet(sel) == Positions(|rows|)
    requires forall r <- sel :: r < |rows| && (rows[r].id.Some? ==> rows[r].id.value in ids)
    ensures Best(rows).Keys <= ids
  {
    forall id <- Best(rows) ensures id in ids {
      var r :| 0 <= r < |rows| && rows[r].id == Some(id);
      assert r in ToSet(sel);
    }
  }

  /** A full over-fetch of 8k rows comes from at least k messages. */
  lemma FullFetchHasEnough(rows: seq<Row>, sel: seq<nat>, k: nat, ids: set<string>)
    requires Segmented(rows) && |sel| == MAX_SEGMENTS * k
    requires forall i, j :: 0 <= i < j < |sel| ==> sel[i] != sel[j]
    requires forall r <- sel :: r < |rows| && rows[r].id.value in ids
    ensures |ids| >= k
  {
    DistinctCardinality(sel);
    Pigeonhole(rows, ToSet(sel));
    SubsetCardinality(SelectedIds(rows, ToSet(sel)), ids);
  }

  lemma EnoughMessages(rows: seq<Row>, sel: seq<nat>, k: nat, ids: set<string>)
    requires Segmented(rows) && k <= USIZE_MAX && |rows| <= USIZE_MAX
    requires BestRows(rows, RawK(k), sel)
    requires forall r <- sel :: r < |rows| && rows[r].id.value in ids
    ensures |ids| >= Min(k, |Best(rows).Keys|)
  {
    if |sel| == |rows| {
      AllSelected(|rows|, sel);
      EveryMessageSelected(rows, sel, ids);
      SubsetCardinality(Best(rows).Keys, ids);
    } else {
      FullFetchHasEnough(rows, sel, k, ids);
    }
  }

  lemma DedupIsPartOfBest(rows: seq<Row>, sel: seq<nat>, limit: nat, best: map<string, Hit>, part: map<string, real>, withSnippets: bool)
    requires BestRows(rows, limit, sel) && Deduped(rows, sel, |sel|, best, withSnippets)
    requires part == map id <- best :: best[id].score
    ensures part.Keys <= Best(rows).Keys && forall id <- part :: part[id] == Best(rows)[id]
  {
    forall id <- part ensures id in Best(rows) && part[id] == Best(rows)[id] {
      SelectedBestIsTrueBest(rows, sel, limit, Best(rows), id, part[id]);
    }
  }

  /** A message none of whose rows was returned scores no better than any returned row. */
  lemma UnseenIsNoBetter(rows: seq<Row>, sel: seq<nat>, limit: nat, id: string, score: real, i: nat)
    requires BestRows(rows, limit, sel) && i < |sel|
    requires forall j :: 0 <= j < |sel| ==> rows[sel[j]].id != Some(id)
    requires exists r :: 0 <= r < |rows| && rows[r].id == Some(id) && rows[r].score == score
    ensures score <= rows[sel[i]].score
  {
    var r :| 0 <= r < |rows| && rows[r].id == Some(id) && rows[r].score == score;
    assert r !in sel;
  }

  /** Sorting and truncating the dedup map ranks the whole index. */
  lemma DedupRanksIndex(rows: seq<Row>, sel: seq<nat>, k: nat, best: map<string, Hit>, part: map<string, real>,
                        withSnippets: bool, hits: seq<Hit>)
    requires Segmented(rows) && k <= USIZE_MAX && |rows| <= USIZE_MAX
    requires BestRows(rows, RawK(k), sel) && Deduped(rows, sel, |sel|, best, withSnippets)
    requires part == map id <- best :: best[id].score
    requires IsRanking(hits, part, k)
    ensures IsRanking(hits, Best(rows), k)
  {
    DedupIsPartOfBest(rows, sel, RawK(k), best, part, withSnippets);
    forall r <- sel ensures r < |rows| && rows[r].id.value in part.Keys {
      var i :| 0 <= i < |sel| && sel[i] == r;
      assert rows[sel[i]].id.value in best;
    }
    EnoughMessages(rows, sel, k, part.Keys);
    assert |part| == |part.Keys| && |Best(rows)| == |Best(rows).Keys|;
    forall id, other | id in Best(rows) && id !in part && other in part ensures Best(rows)[id] <= part[other] {
      var i :| 0 <= i < |sel| && rows[sel[i]].id == Some(other) && rows[sel[i]].score == best[other].score;
      UnseenIsNoBetter(rows, sel, RawK(k), id, Best(rows)[id], i);
    }
    LiftRanking(hits, part, Best(rows), k);
  }

  lemma RawKIs(k: nat)
    requires k <= USIZE_MAX
    ensures RawK(k) == Min(8 * k, 0xFFFF_FFFF_FFFF_FFFF)
  {
  }

  /** A hit's text is that of a row of its message with the hit's own score; without snippets there is none. */
  lemma SnippetMeans(rows: seq<Row>, h: Hit, withSnippets: bool)
    requires SnippetFrom(rows, h, withSnippets)
    ensures withSnippets ==> exists r :: 0 <= r < |rows| && rows[r] == Row(Some(h.id), h.score, h.snippet)
    ensures !withSnippets ==> h.snippet.None? && exists r :: 0 <= r < |rows| && rows[r].id == Some(h.id) && rows[r].score == h.score
  {
  }

  /**
   The segmented search.  Whatever best rows the engine returns, in whatever order, and however
   ties fall, the result is the ranking of the whole index by true best scores.
   */
  method SegmentedSearch(rows: seq<Row>, sel: seq<nat>, k: nat, withSnippets: bool) returns (hits: seq<Hit>)
    requires k <= USIZE_MAX && |rows| <= USIZE_MAX
    // The engine is asked for eight rows per wanted message, as many as the machine word can say.
    requires BestRows(rows, Min(8 * k, 0xFFFF_FFFF_FFFF_FFFF), sel)
    ensures Segmented(rows) ==> IsRanking(hits, Best(rows), k)
    ensures |hits| <= k && DistinctIds(hits) && Descending(hits)
    ensures forall i :: 0 <= i < |hits| ==> SnippetFrom(rows, hits[i], withSnippets)
  {
    RawKIs(k);
    var best := Dedup(rows, sel, withSnippets);
    var listed := Listed(best);
    ghost var part := map id <- best :: best[id].score;
    hits := SortTruncate(listed, part, k);
    if Segmented(rows) {
      DedupRanksIndex(rows, sel, k, best, part, withSnippets, hits);
    }
  }

  /** The common tail of both searches. */
  method SortTruncate(listed: seq<Hit>, ghost best: map<string, real>, k: nat) returns (hits: seq<Hit>)
    requires ListsAll(listed, best)
    ensures IsRanking(hits, best, k)
    ensures forall i :: 0 <= i < |hits| ==> hits[i] in listed
  {
    var sorted := SortDescending(listed);
    hits := sorted[..Min(k, |sorted|)];
    SortTruncateRanks(listed, best, k);
    SortSorts(listed);
    forall i | 0 <= i < |hits| ensures hits[i] in listed {
      assert sorted[i] in multiset(sorted);
    }
  }

  // ---------------------------------------------------------------- the simple reference

  /** The in-memory index: one document per message. */
  class InMemoryIndexer {
    var docs: seq<(string, string)>

    constructor ()
      ensures docs == []
    {
      docs := [];
    }

    ghost predicate Valid()
      reads this
    {
      forall i, j :: 0 <= i < j < |docs| ==> docs[i].0 != docs[j].0
    }

    method Submit(id: string, document: string)
      requires Valid()
      modifies this
      ensures Valid()
      ensures forall d :: d in docs <==> d == (id, document) || (d in old(docs) && d.0 != id)
    {
      RetainOthers(docs, id);
      docs := Retained(docs, id) + [(id, document)];
    }

    method Remove(id: string)
      requires Valid()
      modifies this
      ensures Valid()
      ensures forall d :: d in docs <==> d in old(docs) && d.0 != id
    {
      RetainOthers(docs, id);
      docs := Retained(docs, id);
    }

    method Truncate()
      modifies this
      ensures Valid() && docs == []
    {
      docs := [];
    }

    /** Score every document, keep the matching ones, sort, truncate. */
    method Search(score: map<string, real>, anyMatches: bool, k: nat) returns (hits: seq<Hit>)
      requires Valid() && forall d <- docs :: d.1 in score
      ensures IsRanking(hits, Matching(docs, score, anyMatches), k)
    {
      var scored: seq<Hit> := [];
      for i := 0 to |docs|
        invariant ListsAll(scored, Matching(docs[..i], score, anyMatches))
      {
        var (id, text) := docs[i];
        assert docs[i] in docs;
        assert docs[..i + 1] == docs[..i] + [docs[i]];
        MatchingIds(docs[..i], score, anyMatches, id);
        if score[text] > 0.0 || anyMatches {
          HitAppended(scored, Hit(id, score[text], None));
          scored := scored + [Hit(id, score[text], None)];
        }
      }
      assert docs[..|docs|] == docs;
      hits := SortTruncate(scored, Matching(docs, score, anyMatches), k);
    }
  }

  /** The matching messages with their scores. */
  function Matching(docs: seq<(string, string)>, score: map<string, real>, anyMatches: bool): map<string, real>
    requires forall d <- docs :: d.1 in score
  {
    if docs == [] then map[]
    else
      var n := |docs| - 1;
      var before := Matching(docs[..n], score, anyMatches);
      assert docs[n] in docs;
      if score[docs[n].1] > 0.0 || anyMatches then before[docs[n].0 := score[docs[n].1]] else before
  }

  /** Some stored document of `id` scores exactly `s`, which is above zero unless everything matches. */
  predicate ScoresAs(docs: seq<(string, string)>, score: map<string, real>, anyMatches: bool, id: string, s: real)
    requires forall d <- docs :: d.1 in score
  {
    exists d <- docs :: d.0 == id && score[d.1] == s && (s > 0.0 || anyMatches)
  }

  /** Exactly the id and score pairs of the matching documents. */
  lemma {:induction false} MatchingExact(docs: seq<(string, string)>, score: map<string, real>, anyMatches: bool, id: string, s: real)
    requires forall d <- docs :: d.1 in score
    requires forall i, j :: 0 <= i < j < |docs| ==> docs[i].0 != docs[j].0
    ensures id in Matching(docs, score, anyMatches) && Matching(docs, score, anyMatches)[id] == s <==>
            ScoresAs(docs, score, anyMatches, id, s)
  {
    if docs != [] {
      var n := |docs| - 1;
      var last := docs[n];
      assert docs == docs[..n] + [last];
      MatchingExact(docs[..n], score, anyMatches, id, s);
      MatchingIds(docs[..n], score, anyMatches, last.0);
      if id == last.0 {
        assert forall d <- docs[..n] :: d.0 != id;
        assert ScoresAs(docs, score, anyMatches, id, s) <==> score[last.1] == s && (s > 0.0 || anyMatches);
      } else {
        assert ScoresAs(docs, score, anyMatches, id, s) <==> ScoresAs(docs[..n], score, anyMatches, id, s);
      }
    }
  }

  lemma {:induction false} MatchingIds(docs: seq<(string, string)>, score: map<string, real>, anyMatches: bool, id: string)
    requires forall d <- docs :: d.1 in score && d.0 != id
    ensures id !in Matching(docs, score, anyMatches)
  {
    if docs != [] {
      var n := |docs| - 1;
      assert docs[n] in docs;
      MatchingIds(docs[..n], score, anyMatches, id);
    }
  }

  function Retained(docs: seq<(string, string)>, id: string): seq<(string, string)> {
    if docs == [] then []
    else (if docs[0].0 == id then [] else [docs[0]]) + Retained(docs[1..], id)
  }

  lemma {:induction false} RetainOthers(docs: seq<(string, string)>, id: string)
    requires forall i, j :: 0 <= i < j < |docs| ==> docs[i].0 != docs[j].0
    ensures forall d :: d in Retained(docs, id) <==> d in docs && d.0 != id
    ensures forall i, j :: 0 <= i < j < |Retained(docs, id)| ==> Retained(docs, id)[i].0 != Retained(docs, id)[j].0
  {
    if docs != [] {
      RetainOthers(docs[1..], id);
      assert forall d <- docs[1..] :: d.0 != docs[0].0;
    }
  }

  /**
   Both searches side by side.  Where the one-document-per-message index gives each message its
   best row's score, the two results have the same length and the same score at every position,
   and an id that only one of them lists is a tie at the cut.
   */
  method SearchBoth(rows: seq<Row>, sel: seq<nat>, index: InMemoryIndexer, score: map<string, real>, anyMatches: bool,
                    k: nat, withSnippets: bool)
    returns (segmented: seq<Hit>, reference: seq<Hit>)
    requires Segmented(rows) && k <= USIZE_MAX && |rows| <= USIZE_MAX && BestRows(rows, Min(8 * k, 0xFFFF_FFFF_FFFF_FFFF), sel)
    requires index.Valid() && forall d <- index.docs :: d.1 in score
    requires Matching(index.docs, score, anyMatches) == Best(rows)
    ensures |segmented| == |reference| == Min(k, |Best(rows)|)
    ensures forall i :: 0 <= i < |segmented| ==> segmented[i].score == reference[i].score
    ensures forall i :: 0 <= i < |segmented| && segmented[i].id !in HitIds(reference) ==>
              segmented[i].score == reference[|reference| - 1].score
    ensures forall i :: 0 <= i < |reference| && reference[i].id !in HitIds(segmented) ==>
              reference[i].score == segmented[|segmented| - 1].score
  {
    segmented := SegmentedSearch(rows, sel, k, withSnippets);
    reference := index.Search(score, anyMatches, k);
    RankingsAgree(segmented, reference, Best(rows), k);
    RankingsAgree(reference, segmented, Best(rows), k);
  }
}
