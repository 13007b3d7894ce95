# scryd: models and proofs

scryd mirrors mailboxes over IMAP into local tables, drains a queue of stored messages into a
segmented search index, and serves ranked search over it. This project models the parts of that
path where something can silently go wrong and proves what they guarantee. Check it with
`dafny verify dfyconfig.toml` (Dafny 4.11).

| module | what it models |
|---|---|
| `SyncProtocol` | one account's sync sessions as a step system: server, storage row, supervisor, crashes |
| `Fetch` | the backfill and incremental loops, the connection object, the epoch reset, with every way they fail |
| `Refinement` | the loops of `Fetch` lead where the steps of `SyncProtocol` lead |
| `Pipeline` | sink calls, tables, drainer and index as a step system with crashes |
| `IndexQueue` | the `index_queue` table, one drainer tick, termination of draining |
| `Drainer` | the drainer's outer loop, its embedding calls and its clustering counter |
| `Document` | building the indexed text and cutting it into segments |
| `SegmentIndex` | the segmented store, its keys, and the embedding flag |
| `Ranking` | what a ranking is, the over-fetching segmented search, the in-memory reference |
| `SearchTool` | scope, filters and the candidate loop of the `search` tool |
| `Snippet`, `BodyCap`, `Utf8` | byte-level text: windows, highlighting, the size cap |
| `CrashJournal` | the pruned run journal and the crash-loop backoff |
| `Threading` | inserting messages and resolving threads |
| `EndToEnd` | sync and pipeline in one joint run, the pipeline's index and the segment store, store and search |

The step systems quantify over every finite run; crashes, refused calls, failed reads and writes
are steps like any other. The loops of the source are methods, proved against specification
functions or stated outright.

## Findings

- The stored watermark is safe only if the server reports UIDNEXT, keeps its UID epoch within a
  session, the stored epoch can be read, and the two UPDATE statements of an epoch reset above an
  old watermark are atomic. Each of the four is a `Fault` in `SyncProtocol`; without faults the
  watermark never over-claims, and for each fault there is a run with that fault alone in which it
  does. The state writes of a batch and of an incremental pass need not be atomic: they may be torn
  between their columns, by a crash or by an error, at any time (`TornWrite` is not a fault).
- `run_incremental` is documented to route an epoch change to the reset
  (`crates/scryd-imap/src/fetch.rs:166-169`). The code does not compare epochs there; the model
  follows the code (`MidSessionEpochOverclaims`).
- `split_for_index` is documented never to return an empty segment
  (`crates/scryd-search/src/document.rs:76`). For the empty document it returns one empty segment; the
  model follows the code.
- A re-submit of a shorter message leaves the old tail segments in the index; `SubmitReplacesIff`
  gives the exact condition under which it does not.
- A submit whose engine call fails behind the first document leaves documents waiting with the dirty
  flag down, unless the flag was up already; the contract of `SegmentedIndexer.Submit` gives the exact
  condition, and in `PartialSubmitStrands` a stored segment waits that embedding calls pass over until
  another submit or remove raises the flag.
- A failed `flush_index` is only logged, and the drainer's counter is reset all the same: the counter
  is the number of documents embedded since the last call, and equals those no successful call has
  seen exactly when none has failed since (`CounterTruthfulIff`). While the pass keeps failing that
  number grows without bound (`FailingPassesPileUp`).
- A re-insert of a stored message rewrites its body and keeps its headers
  (`crates/scryd-storage/src/messages.rs:92-95`).
- `reenqueue_all_messages` is documented to wipe the queue (`crates/scryd-storage/src/queue.rs:128`).
  It wipes nothing: it replaces the rows of live messages and leaves all others; the model follows the code.
- A first match is shown unhighlighted exactly when every term matching there is cut off by the
  window (`FirstMatchMarkedIff`).
- Two message ids share an index key exactly when one is the other followed by `#1` to `#7`
  (`KeysSharedIffClash`).
- A crash loop whose runs live longer than ten minutes is never throttled, however long it is
  (`LapsesIffGapExceedsWindow`).

## Assumptions

- UIDs and UIDVALIDITY behave as section 2.3.1.1 of RFC 3501 says: epochs only grow, new UIDs are
  at or above UIDNEXT, and a UID names one immutable message within its epoch. `Pipeline` needs the
  last point; `ChangedBodyIsLost` shows it is needed for every pair of different bodies.
- A ranged FETCH returns exactly the messages it selects, in any order; `n:*` always selects the
  newest message (section 6.4.8 of RFC 3501).
- `witchcraft::search` returns some best rows for the limit it is given, `add_doc` is a map update
  and embedding takes at most the given number of waiting documents, or some of them and an error.
  v5 UUIDs do not collide. What a successful `flush_index` does with the documents it is offered, in
  particular nothing below the engine's own capacity, is the engine's.
- `Refinement` speaks of a server whose mailbox stands still during the loop; deliveries and expunges
  in between are steps of `SyncProtocol`. In `EndToEnd` sessions, sink and drainer share one process.
- Minted thread ids are new. Scores are reals. Unicode lowercasing is a parameter.
- SQLite checks the upsert target before the primary key, so a 4-tuple conflict is an update even
  when the id is taken as well.
- In `CrashJournal` the row's start time and the clock reading used for the backoff are the same
  second.

## Model

| member | source | states |
|---|---|---|
| SyncProtocol.WatermarkNeverOverclaims | crates/scryd-imap/src/fetch.rs:106-160 | in every state reachable without a fault, every message of the stored epoch still in the mailbox at or below the stored watermark was accepted under that epoch |
| SyncProtocol.StepKeepsInv | crates/scryd-imap/src/fetch.rs:94-218 | every step of server, session, supervisor and process, torn state writes included, keeps the protocol invariant: mail neither accepted nor fetched is newer than all that was fetched, and the walk leaves nothing behind but mail that arrived after EXAMINE |
| SyncProtocol.TornWriteKeepsInv | crates/scryd-storage/src/sync_state.rs:121-136 | the state write of a batch or an incremental pass may end between its UPDATEs, by crash or error, without harm |
| SyncProtocol.RunKeepsInv | crates/scryd-imap/src/scheduler.rs:254-338 | the invariant holds after every run of sessions, failures, torn writes, restarts and epoch changes between sessions |
| SyncProtocol.SessionsStartAtZero | crates/scryd-imap/src/scheduler.rs:372-375 | every session enters IDLE with in-memory watermark 0, because a watermark outlives its session only when the supervisor has been told to stop |
| SyncProtocol.SessionEnds | crates/scryd-imap/src/scheduler.rs:254-338 | a session ends by the death of the process, which forgets everything, by an error, which is answered with another session unless told to stop, or by being told to stop, which alone hands its watermark on |
| SyncProtocol.IncrementalCoversMailbox | crates/scryd-imap/src/fetch.rs:187-218 | when an incremental pass returns Ok, every message in the mailbox at its FETCH has been accepted, whatever was delivered or expunged meanwhile |
| SyncProtocol.StarIsLargest | crates/scryd-imap/src/fetch.rs:187-190 | the range from:* selects what lies between from and the largest UID present, whichever comes first, and nothing of an empty mailbox |
| SyncProtocol.MidSessionEpochOverclaims | crates/scryd-imap/src/fetch.rs:179-217 | a run whose only fault is an epoch change inside a session ends with an over-claiming watermark |
| SyncProtocol.SkippedResetOverclaims | crates/scryd-imap/src/fetch.rs:106-113 | a run whose only fault is a failed read of the stored epoch ends with an over-claiming watermark |
| SyncProtocol.TornResetOverclaims | crates/scryd-storage/src/sync_state.rs:123-136 | a run whose only fault is an epoch reset torn between its two UPDATEs above an old watermark ends with an over-claiming watermark |
| SyncProtocol.MissingUidNextOverclaims | crates/scryd-imap/src/fetch.rs:115-160 | a run whose only fault is an EXAMINE without UIDNEXT ends with an over-claiming watermark |
| SyncProtocol.WatermarkMayFall | crates/scryd-imap/src/fetch.rs:119-154 | without any fault a later session may store a lower watermark for the same epoch |
| EndToEnd.WatermarkedMailIsKept | crates/scryd-imap/src/fetch.rs:136-154 | over every joint run of server, sessions, sink, drainer and crashes without a fault, every message in the mailbox at or below the stored watermark is unparseable, queued, or indexed with the document built from its row |
| EndToEnd.WatermarkedMailIsStored | crates/scryd-search/src/witchcraft_handle.rs:168-198 | and, when no ids clash, unparseable, queued, or present in the segment store with exactly the segments of its document |
| EndToEnd.IndexedMeansStored | crates/scryd-search/src/drainer.rs:217-237 | over every pipeline run, partial submits included, a message held for indexed has in the store exactly the segments of the document built from its row |
| EndToEnd.JointOks | crates/scryd-imap/src/fetch.rs:136-143 | over every joint run, every Ok a session saw is an Ok the sink gave for that account, folder, UID and epoch |
| EndToEnd.AnyMailCanBeWatermarked | crates/scryd-imap/src/fetch.rs:133-154 | for every account, folder, id and content there is a joint run in which that message lies under the watermark |
| EndToEnd.SearchStore | crates/scryd-search/src/witchcraft_handle.rs:258-331 | over every history of submits and removes, failures included, the segmented search returns the ranking of the whole index |
| Fetch.Connection.AdvanceBackfill | crates/scryd-imap/src/state.rs:52-58 | the backfill watermark becomes the larger of the two; any other state is left alone |
| Fetch.Sink.UpdateSyncState | crates/scryd-storage/src/sync_state.rs:107-170 | only the columns given are written, in order, and an error leaves exactly those before it written |
| Fetch.HandleChange | crates/scryd-imap/src/uidvalidity.rs:16-44 | the stored claim becomes epoch new, watermark 0, and the connection starts over; a failed write leaves the connection alone and the row with the columns reached |
| Fetch.SubmitBatch | crates/scryd-imap/src/fetch.rs:136-143 | a batch is accepted up to the first refusal, which is the error; the connection's last UID and the running maximum are the maximum over the batch |
| Fetch.MaxSeenIsLargest | crates/scryd-imap/src/fetch.rs:137-140 | the running maximum is the largest UID of the batch, or the starting value when none is larger |
| Fetch.BackfillBatch | crates/scryd-imap/src/fetch.rs:133-154 | one batch succeeds exactly when fetch, every submit and the write do; then all of it is accepted and the running maximum remembered and stored; on an error only what came before it is |
| Fetch.AfterBatchesClosed | crates/scryd-imap/src/fetch.rs:119-154 | after n batches everything received is accepted, and the row holds the largest UID received, or what it held when nothing was |
| Fetch.BackfillLeft | crates/scryd-imap/src/fetch.rs:106-154 | after n batches exactly what came in them has been added to the accepted set, and the row speaks of the session's epoch and the largest UID that came, or else of what it spoke of before, 0 after a change of epoch |
| Fetch.Walk | crates/scryd-imap/src/fetch.rs:119-160 | the requests are 500n+1..500n+500 saturating at 2^32-1; there are exactly min(ceil(target/500), loop heads before shutdown) of them, or the walk ends at the first error, with the state of the batches before it |
| Fetch.RangesPartitionTarget | crates/scryd-imap/src/fetch.rs:128-159 | every UID from 1 to the target lies in exactly one request |
| Fetch.RunInitialBackfill | crates/scryd-imap/src/fetch.rs:85-164 | with UIDNEXT n and undisturbed, exactly ceil((n-1)/500) requests of 500 UIDs from 1 on that ask for every UID below n, fewer only when shutdown comes first; on success everything received is accepted and nothing else, and the row holds the largest UID received; a missing UIDVALIDITY, a failed reset, a failed fetch, a refused message and a failed or torn write leave exactly what came before |
| Fetch.RunIncremental | crates/scryd-imap/src/fetch.rs:170-219 | accepts the batch up to the first refusal, returns the maximum of the old watermark and the batch, and moves the stored watermark exactly when something newer was seen; a failed or torn write is an error |
| Refinement.BackfillRefinesRun | crates/scryd-imap/src/fetch.rs:85-164 | a whole successful backfill, ended by its target or by shutdown, leaves row and accepted set exactly where a run of the step system does; the only fault on the way is a skipped reset |
| Refinement.FailedBackfillRefinesRun | crates/scryd-imap/src/fetch.rs:132-154 | so does one that a failed fetch, a refused message or a failed or torn write ends |
| Refinement.FailedResetRefinesRun | crates/scryd-imap/src/uidvalidity.rs:28-38 | so does one whose epoch reset fails; it is a fault exactly when torn above an old watermark |
| Refinement.BackfillOnServer | crates/scryd-imap/src/fetch.rs:94-164 | the backfill itself, run against a server: the row, record and phase it ends with are where a run of the step system leads from the EXAMINE on, target included, on success and on every error; with UIDNEXT, a readable epoch and no torn reset that run has no fault |
| Refinement.IncrementalOnServer | crates/scryd-imap/src/fetch.rs:179-218 | the incremental pass itself likewise: it asks for everything behind its watermark and ends, on success and on every error, where a run without faults leads |
| Refinement.BackfillNeverOverclaims | crates/scryd-imap/src/fetch.rs:144-154 | from every state reachable without a fault, the row the backfill loop leaves behind never over-claims, on success and on error |
| Pipeline.AcknowledgedMessagesKept | crates/scryd-runtime/src/sink.rs:37-148 | over every interleaving and crash, between queueing and return too, a message whose submit returned Ok was unparseable, or has its stored row and is queued or indexed with the document built from that row |
| Pipeline.AcknowledgedTextIndexed | crates/scryd-search/src/document.rs:42-60 | an acknowledged message no longer queued is indexed as its trimmed subject, its sender with the trimmed name, and its whole body, blank lines between |
| Pipeline.StepKeepsInv | crates/scryd-search/src/drainer.rs:187-269 | every step of sink and drainer keeps the pipeline invariant, in particular that no queue row lacks its message |
| Pipeline.OrphanRowsUnacknowledged | crates/scryd-runtime/src/sink.rs:132-147 | a stored row neither queued nor indexed as stored was never acknowledged |
| Pipeline.CrashLeavesOrphan | crates/scryd-runtime/src/sink.rs:132-144 | a crash between insert and enqueue does leave such a row |
| Pipeline.OneMessagePerId | crates/scryd-storage/src/messages.rs:85-116 | no two server messages are acknowledged under one message id |
| Pipeline.InsertOutcomes | crates/scryd-storage/src/messages.rs:85-95 | the row of the same server message takes the new body and nothing else; else a taken id refuses; else there is one row more |
| Pipeline.ReachableTables | crates/scryd-storage/src/queue.rs:42-126 | in every reachable state queue rows have messages, messages have raw files, attempts stay within 5 and the permanent flag means exactly 5 |
| Pipeline.ReinsertIsIdentity | crates/scryd-storage/src/messages.rs:68-95 | although a re-insert rewrites only the body, for an immutable message it leaves its row as given, and every other row as it was |
| Pipeline.ChangedBodyIsLost | crates/scryd-storage/src/queue.rs:42-54 | if a message's body could change, re-submitting it while it is being indexed would lose the change for good: acknowledged, stored, not queued, indexed with the old body, for every pair of different bodies |
| IndexQueue.Queue.Enqueue | crates/scryd-storage/src/queue.rs:42-54 | a queued row keeps its attempts and place; otherwise a row with no attempts is added; no other row changes |
| IndexQueue.Queue.PopBatch | crates/scryd-storage/src/queue.rs:58-76 | distinct drainable rows, as many as fit, oldest first, none younger than one left behind |
| IndexQueue.BatchIsOldest | crates/scryd-storage/src/queue.rs:58-76 | a batch leaves a drainable row behind only when it is full, and only one queued no earlier than any it holds |
| IndexQueue.Queue.MarkFailed | crates/scryd-storage/src/queue.rs:93-126 | attempts rise by one, the error is kept, the place in line too, and the row is given up exactly when attempts reach the ceiling, which is what is reported; other rows and an absent row stay |
| IndexQueue.Queue.ReenqueueAll | crates/scryd-storage/src/queue.rs:130-142 | every live message's row starts afresh, queued, given up or absent before; no other row is wiped |
| IndexQueue.TickSettles | crates/scryd-search/src/drainer.rs:187-194 | a tick settles each popped row once, by its own verdict, and leaves every other row alone |
| IndexQueue.TickFate | crates/scryd-search/src/drainer.rs:196-269 | in a tick a refused row gains one attempt and the reason, keeps its place, and is given up exactly at the fifth; any other popped row is gone; a row not popped is as it was |
| IndexQueue.AttemptsCountRefusals | crates/scryd-storage/src/queue.rs:105-122 | over any ticks a row's attempts rise by exactly the refusals it met, and it leaves the table exactly when a tick settles it otherwise |
| IndexQueue.TickSpends | crates/scryd-search/src/drainer.rs:196-269 | the sum of remaining attempts over drainable rows falls by at least the batch size |
| IndexQueue.Queue.Tick | crates/scryd-search/src/drainer.rs:187-194 | pops up to 32 rows and settles them, spending at least one attempt each |
| IndexQueue.TicksBounded | crates/scryd-search/src/drainer.rs:81-150 | whatever the indexer answers, a sequence of non-empty ticks, and the settlements in it, number at most five times the rows drainable at its start |
| IndexQueue.TicksKeepOthers | crates/scryd-search/src/drainer.rs:187-194 | over any ticks a permanently failed row is never touched and no row appears |
| IndexQueue.Queue.Drain | crates/scryd-search/src/drainer.rs:81-150 | returns the ticks it made, each a non-empty batch of the table before it answered by that tick's verdicts; the table is what exactly they leave, every row left in it was refused exactly 5 minus its old attempts times, and the bound above holds |
| Drainer.Run | crates/scryd-search/src/drainer.rs:74-160 | the trace has exactly the given ticks, each with exactly its embedding calls; the counter equals the documents embedded since the last flush_index call, is below 256 at every loop top and 0 after an idle tick; flush_index is called only on idle with work owed or at the threshold |
| Drainer.RoundsExact | crates/scryd-search/src/drainer.rs:118-140 | a tick's embedding calls are the engine's answers in order up to and including the first 0 or failure, at most eight |
| Drainer.TraceKeeps | crates/scryd-search/src/drainer.rs:81-160 | in every well-behaved trace each finished tick made exactly its calls, the current one a prefix of them |
| Drainer.EmbedRounds | crates/scryd-search/src/drainer.rs:118-140 | makes exactly the calls of its tick and counts what each reports |
| Drainer.DebtNeverExceeds287 | crates/scryd-search/src/drainer.rs:112-148 | at no moment of any run have more than 287 documents been embedded since the last flush_index call |
| Drainer.CounterTruthfulIff | crates/scryd-search/src/drainer.rs:165-183 | the counter equals the documents no successful flush_index has seen if and only if none has failed since the last success; f failures leave at most 287(f+1) |
| Drainer.CountersMean | crates/scryd-search/src/drainer.rs:81-150 | the counters are the documents reported since the last flush_index call, those since the last that returned Ok, and the failures since then |
| Drainer.CallsMean | crates/scryd-search/src/drainer.rs:118-140 | the embedding calls of a tick are those between it and the next |
| Drainer.PassCalledWhen | crates/scryd-search/src/drainer.rs:93-96 | flush_index is called with anything owed behind an idle tick and with at least 256 owed behind a busy one, never otherwise, and no tick begins while it is due |
| Drainer.FailingPassesPileUp | crates/scryd-search/src/drainer.rs:93-96 | for every k there is a run in which failing passes have left k documents behind a counter of 0 |
| Drainer.TickEmbeds | crates/scryd-search/src/drainer.rs:112-140 | on the production index, from a truthful flag, a non-empty tick reports min(waiting, 4 per call the engine answers), 32 in all when it does not fail; the flag stays truthful |
| Document.BuildKeepsBody | crates/scryd-search/src/document.rs:42-60 | under the same headers different bodies give different documents |
| Document.DocumentReads | crates/scryd-search/src/document.rs:42-60 | the document is the subject without its outer white space and a blank line, unless nothing is left of it, the address, behind the equally trimmed name if anything is left of that, a blank line, and the body |
| Document.InnerExists | crates/scryd-search/src/document.rs:49-52 | every string has such an inner part |
| Document.WhitespaceCodePoints | crates/scryd-search/src/document.rs:49-52 | white space is the 25 code points of the Unicode property |
| Document.SnapBoundary | crates/scryd-search/src/document.rs:123-174 | the nearest paragraph break in the window, else the nearest newline, else the last space before the target, else the target |
| Document.NearestParagraph | crates/scryd-search/src/document.rs:132-146 | finds the paragraph break nearest the target, the earlier of two equally near, or none |
| Document.NearestNewline | crates/scryd-search/src/document.rs:149-163 | finds the newline nearest the target, the earlier of two equally near, or none |
| Document.CutDistance | crates/scryd-search/src/document.rs:124-173 | a non-final cut lies 1793 to 2304 characters behind the previous one |
| Document.CutUnique | crates/scryd-search/src/document.rs:98-103 | the document determines each cut |
| Document.InnerCutFalls | crates/scryd-search/src/document.rs:123-174 | 2048 characters on, an inner cut falls at the nearest blank line within 256 characters, else the nearest newline, else behind the last white space of the 256 before, else exactly there |
| Document.SegmentIs | crates/scryd-search/src/document.rs:93-110 | each segment is the document between two such cuts, the last at the end or at 16384 characters |
| Document.EightSegmentsReach | crates/scryd-search/src/document.rs:93-110 | eight segments reach the end of 14599 characters and at least 14344 of more |
| Document.CutUp | crates/scryd-search/src/document.rs:93-110 | the segments are the pieces between successive best cuts, up to eight |
| Document.SplitForIndex | crates/scryd-search/src/document.rs:82-118 | computes the one split of the document: 1 to 8 segments of at most 2304 characters, joining to a prefix of the document that is all of it up to 14599 characters; none empty unless the document is |
| Document.SplitUnique | crates/scryd-search/src/document.rs:82-118 | a document has only one sequence of pieces between successive best cuts |
| Document.BestCutExists | crates/scryd-search/src/document.rs:123-174 | every window has a best cut |
| SegmentIndex.SegmentKeysDistinct | crates/scryd-search/src/witchcraft_handle.rs:76-83 | segments of one message have different keys |
| SegmentIndex.KeysSharedIffClash | crates/scryd-search/src/witchcraft_handle.rs:76-83 | two messages share a key exactly when one id is the other followed by #1 to #7 |
| SegmentIndex.ClashReads | crates/scryd-search/src/witchcraft_handle.rs:76-83 | ids clash exactly when one is the other followed by #1, #2, #3, #4, #5, #6 or #7 |
| SegmentIndex.DocumentsStayInRange | crates/scryd-search/src/witchcraft_handle.rs:168-221 | over every history, failures included, a message's documents lie only under its own keys 0 to 7 |
| SegmentIndex.RemoveLeavesNothing | crates/scryd-search/src/witchcraft_handle.rs:200-216 | a completed remove leaves no document of the message |
| SegmentIndex.OthersUntouched | crates/scryd-search/src/witchcraft_handle.rs:179-214 | documents of a message whose id does not clash are untouched |
| SegmentIndex.ClashDestroys | crates/scryd-search/src/witchcraft_handle.rs:179-191 | submitting a clashing id does destroy the other message's segment |
| SegmentIndex.SubmitReplacesIff | crates/scryd-search/src/witchcraft_handle.rs:176-192 | a submit leaves exactly the new segments if and only if no old document sat at or behind their number |
| SegmentIndex.SubmitReads | crates/scryd-search/src/witchcraft_handle.rs:179-191 | a submit puts segment i, its number and the segment count under the id followed by #i, under the bare id for i = 0, up to the first error, and touches no other key |
| SegmentIndex.RemoveReads | crates/scryd-search/src/witchcraft_handle.rs:208-214 | a remove deletes those keys up to the first error, and touches no other |
| SegmentIndex.HistoryIsSegmented | crates/scryd-search/src/witchcraft_handle.rs:263-266 | after any history the search sees at most eight rows per message |
| SegmentIndex.SegmentedIndexer.Submit | crates/scryd-search/src/witchcraft_handle.rs:168-198 | the segments of the document's split are written up to the first engine error; from a truthful flag it stays truthful if and only if it was up, the call succeeds, or the first write fails |
| SegmentIndex.PartialSubmitStrands | crates/scryd-search/src/witchcraft_handle.rs:179-192 | after a submit of any document of more than 2304 characters whose second write fails, a stored segment waits and embedding calls pass over it |
| SegmentIndex.SegmentedIndexer.Remove | crates/scryd-search/src/witchcraft_handle.rs:200-221 | the eight keys are deleted up to the first engine error |
| SegmentIndex.SegmentedIndexer.FlushEmbeddings | crates/scryd-search/src/witchcraft_handle.rs:143-153 | embeds min(4, waiting) when dirty, clears the flag exactly when fewer than four, keeps it on an engine error, and keeps "not dirty means nothing waits" |
| Ranking.SegmentedSearch | crates/scryd-search/src/witchcraft_handle.rs:258-331 | on an index of at most eight rows per message, min(k, messages) distinct messages, each with its true best score over the whole index, best first, none omitted that scores higher; snippets belong to the best row |
| Ranking.Dedup | crates/scryd-search/src/witchcraft_handle.rs:294-311 | the map holds each returned message with the maximum over its returned rows and that row's text |
| Ranking.SnippetMeans | crates/scryd-search/src/witchcraft_handle.rs:294-325 | a hit's text is that of a row of its message with the hit's own score; without snippets there is none |
| Ranking.SelectedBestIsTrueBest | crates/scryd-search/src/witchcraft_handle.rs:290-311 | the best returned row of a message has the message's best score in the whole index |
| Ranking.Pigeonhole | crates/scryd-search/src/witchcraft_handle.rs:263-266 | n rows come from at least n/8 messages |
| Ranking.EnoughMessages | crates/scryd-search/src/witchcraft_handle.rs:266-289 | the over-fetch, saturation included, contains k messages or all of them |
| Ranking.SortTruncateRanks | crates/scryd-search/src/witchcraft_handle.rs:312-325 | sorting a complete list of best scores and cutting it at k is the ranking |
| Ranking.RankingsAgree | crates/scryd-search/src/in_memory.rs:60-92 | two rankings of the same scores agree in score at every position |
| Ranking.SearchBoth | crates/scryd-search/src/in_memory.rs:60-92 | run side by side over the same best scores, the segmented search and the one-document-per-message index return equally many hits with equal scores at every position; ids differ only among ties at the cut |
| Ranking.MatchingExact | crates/scryd-search/src/in_memory.rs:65-84 | the reference ranks exactly the id and score pairs of documents scoring above zero, or of all when everything matches |
| Ranking.InMemoryIndexer.Submit | crates/scryd-search/src/in_memory.rs:40-46 | replaces the message's document |
| Ranking.InMemoryIndexer.Remove | crates/scryd-search/src/in_memory.rs:48-52 | drops the message's document and no other |
| Ranking.InMemoryIndexer.Search | crates/scryd-search/src/in_memory.rs:60-92 | the ranking of the matching documents |
| SearchTool.AllowedExact | crates/scryd-mcp/src/scope.rs:56-67 | the allowed ids are those of the active accounts whose user name is the address up to ASCII case |
| SearchTool.NarrowExact | crates/scryd-mcp/src/scope.rs:79-88 | an account is in scope exactly when allowed and, if the caller named any, named |
| SearchTool.RetainAllowedExact | crates/scryd-mcp/src/scope.rs:91-99 | the rows kept are those at exactly the positions of allowed accounts, in their order |
| SearchTool.Search | crates/scryd-mcp/src/tools/read.rs:42-132 | of the first max(5*limit, 200) ranked messages, the first `limit` in rank order that are live and pass; malformed arguments are reported in order, then a failed account lookup; an empty scope gives nothing without asking the searcher, whose error comes next, and a storage error exactly when a lookup fails before the limit is reached |
| SearchTool.PageIs | crates/scryd-mcp/src/tools/read.rs:66-124 | the page without the tool's own functions: the messages asked for, in rank order, among the first max(5*limit, 200), each with its own columns and score; every earlier one asked for is there, every later one unless the page is full; limit 20 by default, held between 1 and 200 |
| SearchTool.FilterAsks | crates/scryd-mcp/src/dto.rs:281-312 | the filters ask for the folder, a sender whose lowercased address contains the lowercased text, an account in scope, and a time from the first midnight to the end of the last day |
| SearchTool.ScanCandidates | crates/scryd-mcp/src/tools/read.rs:98-124 | the candidate loop: the first `limit` shown candidates, or the error of a lookup that fails before they are found |
| SearchTool.AllShownExact | crates/scryd-mcp/src/tools/read.rs:98-124 | exactly the candidates that are stored, live and pass, each with its own row and score |
| SearchTool.HitsStayInScope | crates/scryd-mcp/src/tools/read.rs:69-107 | every returned hit is in an active account of the user and in the caller's list if there is one |
| SearchTool.DateWindowIsWholeDays | crates/scryd-mcp/src/dto.rs:281-312 | the date bounds pass exactly the messages whose UTC day lies between the two days, both included, before 1970 too, and add nothing else to the filter |
| SearchTool.OverfetchExactIff | crates/scryd-mcp/src/tools/read.rs:66-124 | filtering k candidates equals filtering the whole ranked index if and only if they fill the limit or nothing behind them passes |
| SearchTool.NoMatchMissed | crates/scryd-mcp/src/tools/read.rs:66-124 | a live passing message not returned was beaten by a full page, or ranks behind the k fetched in an index of more than k messages |
| SearchTool.SmallIndexSearchedWhole | crates/scryd-mcp/src/tools/read.rs:66-67 | on an index of at most max(5*limit, 200) messages only a full page of better hits can hide a match |
| Snippet.FindFirstMatch | crates/scryd-search/src/snippet.rs:45-74 | the least byte position at which any term matches on character boundaries, or none |
| Snippet.MatchMeans | crates/scryd-search/src/snippet.rs:53-65 | a term matches where it stands on character boundaries byte for byte, the 26 letters in either case |
| Snippet.WindowAround | crates/scryd-search/src/snippet.rs:76-87 | a window on character boundaries that contains the position and spans at most max_chars+6 bytes |
| Snippet.LeadingWindow | crates/scryd-search/src/snippet.rs:89-95 | the shortest leading window on a boundary of at least max_chars bytes, at most three more |
| Snippet.PushHighlighted | crates/scryd-search/src/snippet.rs:97-125 | appends the greedy marking of the slice |
| Snippet.PiecesConcatenate | crates/scryd-search/src/snippet.rs:97-125 | the pieces concatenate to the slice |
| Snippet.MarkingAddsOnlyStars | crates/scryd-search/src/snippet.rs:114-123 | marking adds four bytes per marked piece and nothing else |
| Snippet.PieceStands | crates/scryd-search/src/snippet.rs:114-123 | in the output each marked piece stands between two pairs of stars and each plain piece as it is, at its own offset plus four bytes per piece marked before |
| Snippet.FirstMatchStarred | crates/scryd-search/src/snippet.rs:24-38 | a first match that fits is shown at its own place in the window between its stars, as the body spells it, with the length of the first fitting term of the query |
| Snippet.PiecesAreGreedy | crates/scryd-search/src/snippet.rs:99-124 | each marked piece is the query's first term that occurs there; where a plain piece starts no term occurs, and it is one character |
| Snippet.FirstMatchIsMarked | crates/scryd-search/src/snippet.rs:97-125 | the walk cannot step over the first place where a term matches |
| Snippet.FirstMatchMarkedIff | crates/scryd-search/src/snippet.rs:24-38 | the first match is marked at exactly its position if and only if a term matching there ends inside the window |
| Snippet.ShortFirstMatchMarked | crates/scryd-search/src/snippet.rs:76-83 | a first match of at most max_chars/2 bytes is always marked |
| Snippet.Render | crates/scryd-search/src/snippet.rs:15-43 | half the budget to either side of the first match, or the budget from the front, up to the next characters; marked, with an ellipsis at each cut edge, as well-formed UTF-8 |
| BodyCap.Utf8SafeTruncate | crates/scryd-mime/src/body.rs:55-64 | the largest character boundary within the budget, at most three bytes below it |
| BodyCap.EnforceSizeCap | crates/scryd-mime/src/body.rs:39-53 | well-formed UTF-8 of at most 1 MiB: the body itself, or its longest fitting prefix plus the sentinel, losing at most three bytes |
| Utf8.ValidDecodes | crates/scryd-mime/src/body.rs:55-64 | a byte string taken for well-formed encodes scalar values as RFC 3629 says |
| Utf8.EncodedIsValid | crates/scryd-mime/src/body.rs:55-64 | every encoding of scalar values is taken for well-formed |
| Utf8.BoundaryBetween | crates/scryd-mime/src/body.rs:55-64 | in it the character boundaries are exactly the places between two encoded characters |
| CrashJournal.ScanStreak | crates/scryd-storage/src/daemon.rs:46-64 | the trailing unclean streak and the start of the newest crash |
| CrashJournal.Journal.BeginRun | crates/scryd-storage/src/daemon.rs:36-87 | the journal is the newest 200 runs of the full history; the streak reported is min(true streak, 200), the last crash is exact, the run id counts all starts |
| CrashJournal.Journal.FinishRun | crates/scryd-storage/src/daemon.rs:91-101 | only that run's row is stopped, if it is still there; the journal stays the newest 200 runs of the full history with that run marked |
| CrashJournal.PrunedStreak | crates/scryd-storage/src/daemon.rs:73-78 | the streak of the newest n rows is the true streak cut off at n |
| CrashJournal.PruneKeepsNewest | crates/scryd-storage/src/daemon.rs:75-78 | deleting by id keeps exactly the newest 200 rows |
| CrashJournal.PrunedBackoffExact | crates/scryd-runtime/src/serve.rs:407-426 | the pruned journal gives the delay the full history would |
| CrashJournal.BackoffClosedForm | crates/scryd-runtime/src/serve.rs:418-425 | the delay is min(5*2^(n-3), 300) for every streak; the exponent's own ceiling never shows |
| CrashJournal.BackoffTable | crates/scryd-runtime/src/serve.rs:407-426 | 0 below three crashes or more than 600 s after the last; else 5, 10, 20, 40, 80, 160 and from nine crashes on 300 seconds |
| CrashJournal.TightLoopDelay | crates/scryd-runtime/src/serve.rs:383-426 | in a run of crashes each within 300 s of the end of its backoff, the start preceded by n crashes waits exactly min(5*2^(n-3), 300) seconds from n = 3, none before |
| CrashJournal.DelayNeverFalls | crates/scryd-runtime/src/serve.rs:383-426 | over such a run the delay never falls |
| CrashJournal.LapsesIffGapExceedsWindow | crates/scryd-runtime/src/serve.rs:411-417 | from three crashes on, a start waits 0 if and only if it comes more than 600 s after the previous start |
| CrashJournal.CleanFinishResets | crates/scryd-storage/src/daemon.rs:53-58 | after a clean finish the next start waits 0 |
| Threading.MessageTable.ResolveThreadId | crates/scryd-storage/src/threading.rs:12-42 | the thread of a same-account row named by the first candidate that has one, newest reference first, else the minted id |
| Threading.ResolutionOrder | crates/scryd-storage/src/threading.rs:18-41 | a row may be found if and only if it carries the newest stored reference, or In-Reply-To when no reference is stored; nothing is found if and only if neither is |
| Threading.ResolutionReads | crates/scryd-storage/src/threading.rs:26-36 | in columns: a row found is of the message's account and carries the newest reference any row of the account carries, or In-Reply-To when none carries a reference; nothing is found only when none carries either |
| Threading.MessageTable.InsertMessage | crates/scryd-storage/src/messages.rs:72-120 | refresh on the 4-tuple, refuse a taken message id unchanged, else add the row in its thread; the forest is kept |
| Threading.InsertReads | crates/scryd-storage/src/messages.rs:85-95 | in columns: a row of the same account, folder, UID and epoch takes the new body and nothing else; else a taken message id refuses; else one row is added, in the thread found or in the new one |
| Threading.StepKeepsForest | crates/scryd-storage/src/messages.rs:72-120 | every insert keeps the forest |
| Threading.OneMintPerThread | crates/scryd-storage/src/threading.rs:26-41 | over every sequence of inserts each thread has exactly one minting row, its first |
| Threading.SameThreadIffSameRoot | crates/scryd-storage/src/threading.rs:26-41 | two rows share a thread if and only if they hang from the same minting row |
| Threading.RepliesLinkToEarlierRow | crates/scryd-storage/src/threading.rs:18-39 | every other row names, by References or In-Reply-To, an earlier row of its thread and account |
| Threading.ThreadsStayInAccount | crates/scryd-storage/src/threading.rs:29-32 | no thread spans two accounts |
| Threading.RowsNeverRethreaded | crates/scryd-storage/src/messages.rs:92-95 | a stored row's thread, account, ids and links never change |
| Threading.KeysUnique | crates/scryd-storage/src/migrations/v1_initial.rs:28-48 | both keys of the table stay unique |

## Left out

- Sockets, TLS, LOGIN, IDLE keep-alive, MCP transport, signals, weight download and logging: I/O or foreign code.
- MIME parsing, HTML cleaning and Markdown conversion: `Pipeline` takes the parse of a message as given.
- Splitting a query at whitespace, date parsing and Unicode lowercasing: given as parsed terms, parsed dates and a parameter.
- Snippet text of search hits in `SearchTool`: `Render` is proved on its own; the tool's choice between it and the engine's text is one branch.
- Tombstone scans: the ids they build never equal stored ids, so nothing is claimed about them.
- `run_poll_loop`: not wired into the supervisor, and the same argument as the idle loop.
- `get_thread` and its date order: a query over the rows of one thread.
- Account health, `backoff_after`, reconcile and the other read tools: easy or one-branch.
- Config loading, permissions, migrations and reconciliation of accounts.
- That every submitted document is eventually embedded: the idle path of the drainer embeds nothing.
- Fetch.Walk: a walk without UIDNEXT that meets neither shutdown nor an error never returns in the source; the contract speaks of walks that end.
- Fetch.RunInitialBackfill: speaks of backfills that end, for the same reason.
- `last_full_sync_at` and the other columns of `sync_state`: no claim depends on them.
- IndexQueue.Queue.Drain: assumes working storage and no new rows; storage errors and concurrent enqueues are in `Pipeline`.
- Drainer.Run: takes each tick's outcome as given; what a tick does to the queue is in `IndexQueue`.
- The objects of `SyncProtocol` and `Pipeline` are values, because their subject is the interleaving of independent parties; the loops and tables in place are in `Fetch`, `IndexQueue` and `SegmentIndex`.
