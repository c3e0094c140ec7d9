# Verified models of the Zenith agent backend

Zenith is the backend of an LLM coding agent. Its input and output are plain plumbing; what can go wrong
sits in a handful of state machines and algorithms: the event-sourced session log, the mutation journal, the
compaction and running-summary protocols, the replay buffer, brace expansion, the bounded tool set, the
token-budgeted selections, stream assembly and the guards of the turn loop. This project models them in Dafny
and proves what they are for, over every input, every run and every interleaving.

Each module follows one source file. Where the source changes state, a class or a loop does the same and is
proved against a function of the old state; the properties are then proved about that function. Where the
source is a set of cooperating coroutines, the model is a step relation whose steps are the stretches between
two awaits.

| file | what it models |
|---|---|
| SessionFile, SessionStore, SessionLaws | the append-only session log, its later-wins fold, the repositories over it, and what a reload shows after each operation |
| Selection | what it means that a list is a part of another, in order |
| Utf8, HeadTail, CrashSafety | strict decoding; listing a session from the two ends of its file; reading after a torn append |
| Journal | recording file mutations and undoing them in reverse |
| CompactionProtocol, RunningSummary | interleaved compactions and background summaries of one session |
| EventBuffer | the bounded replay buffer, its replay marker and its sequence numbers |
| BraceExpand, BraceMeaning | capped brace expansion, its expansion tree, and an independent meaning of patterns |
| Resolver | the bounded, ordered set of offered tools |
| CompactionCut, ContextPacking, ToolPruning | the budgeted cut, history packing, in-place tool pruning |
| ReasoningDedup, StreamAssembly | peeling repeated reasoning; one guarded retry and tool-call assembly |
| AtomicFile | atomic document writes with a backup, as crashable steps of concurrent writers |
| ReadCache, TurnGuards | the per-session read cache; duplicate, rewrite and doom guards of one turn |

`dafny verify dfyconfig.toml` checks everything.

## Where the code falls short of its own words

The model follows the code. Each point below is a lemma with a concrete or general counterexample, next to
the exact condition under which the documented behaviour does hold.

- A stale session update overwrites `message_count` (`SessionStore.StaleUpdateLosesMessageCount`,
  `SessionStore.MessageCountExactlyWhen`); `user_message_count` is always right.
- It also takes back token and cost increments (`SessionStore.StaleUpdateLosesIncrement`,
  `SessionStore.UpdateKeepsIncrementsExactlyWhen`).
- session_file.py:16-17 says a crash during an append can only lose the partial line. When the cut falls inside a
  character, no record of the log can be read any more (`CrashSafety.CutCharacterHidesEverything`,
  `CrashSafety.CrashLosesOnlyThatRecordExactlyBetweenCharacters`), and later appends do not repair it
  (`CrashSafety.UnreadableLogStaysUnreadable`).
- A record persisted after a torn line is lost with it (`CrashSafety.AppendAfterTornLine`), although the same lines
  say persisted records never are.
- One log that cannot be read, with a header longer than the head of the listing, makes the list of all sessions
  fail, because only OS errors are caught (`CrashSafety.OneTornSessionHidesAll`, `HeadTail.ListingFailsExactlyWhen`,
  `HeadTail.CollectFieldRows`).
- A listing of a file of at most two chunks still lacks what a line that straddles both cuts writes
  (`HeadTail.StraddlingLineIsMissed`, `HeadTail.TwoChunksCoverExactlyUnlessOneLineStraddles`,
  `HeadTail.FieldAgreesExactlyWhen`).
- `read_json` promises to tolerate corruption, but damage that is not UTF-8, or on which the parser fails otherwise
  than by rejection, raises and the backup is never tried (`AtomicFile.BinaryDamageIsNotTolerated`,
  `AtomicFile.LongNumberIsToleratedExactlyWhenRejected`, `AtomicFile.DamagedReadFallsBack`).
- A write over a damaged document replaces its good backup by the damage (`AtomicFile.BackupIsGoodExactlyWhen`,
  `AtomicFile.DamageCanReachTheBackup`).
- The revert of an oversized created file does not delete it (journal.py:33-35), and an oversized delete is not
  undone by an empty file (journal.py:89-91): both are only reported
  (`Journal.MutationIsUndoneExactlyWhenRetained`).
- A compaction reports completion although the store refused to touch the log
  (`CompactionProtocol.CompletedWithoutStoring`, `CompactionProtocol.FreshLogCanBeRefused`,
  `CompactionProtocol.CompletedStoredExactlyUnlessRefused`).
- A manual compaction whose cut is 0 removes the recent tail that is promised to survive always
  (`CompactionProtocol.TailSurvivesExactlyUnlessManual`).
- The budgeted cut says that 0 means the entire history is summarized; otherwise than for such a manual call nothing
  is (`CompactionProtocol.CutZeroSummarizesAllExactlyWhen`).
- Metadata merged between the read and the persist of a compaction is lost (`CompactionProtocol.MergedKeyIsLost`,
  `CompactionProtocol.MergeSurvivesPersistExactlyWhen`).
- A superseded running summary can still be written when it had to wait for the storage lock
  (`RunningSummary.SupersededSummaryCanBeWritten`, `RunningSummary.WriteIsLatestExactlyUnlessSuperseded`); it never
  overwrites a newer one.
- A stored sequence number that arrives after an event was sent repeats numbers
  (`EventBuffer.DuplicateSequence`, `EventBuffer.LateInitBreaksNumbering`).
- `request_tool` answers True for a tool it evicts at once (`Resolver.SingleRequestCanBeStranded`,
  `Resolver.SingleRequestSurvives`).
- `_find_compaction_cut` can split a tool exchange despite its docstring (`CompactionCut.CountCutSplitsExchange`,
  `CompactionCut.CountCutIsBoundaryExactlyWhen`).
- A later tool result of one call can be kept without the call (`ContextPacking.OrphanedResult`,
  `ContextPacking.OrphanedInHistoryExactlyWhen`).
- Reasoning dedup also removes unique text between two copies (`ReasoningDedup.UniqueMiddleIsLost`,
  `ReasoningDedup.DedupRemovesOnlyCopiesExactlyWhenAdjacent`).
- `_split_brace_group` finds no group in some patterns that have a complete one, and patterns with unbalanced braces
  do not always pass through unchanged (`BraceExpand.LaterGroupIsLeftAlone`, `BraceExpand.UnbalancedPatternExpands`,
  `BraceExpand.GroupFoundExactlyWhenFirstBraceStartsOne`).
- A read covered by an earlier, different range is not served from the cache (`ReadCache.CoveredReadIsNotServed`,
  `ReadCache.ServedExactlyWhenSameRangeWasRead`), although simple_loop.py:969-971 says so.
- Nor does that come before the silent skip of duplicates (simple_loop.py:969): a cached read that was made before is
  skipped when the answer is substantive (`TurnGuards.CachedRereadIsSkipped`,
  `TurnGuards.CachedReadIsServedExactlyUnlessSkipped`).
- `head_tail_trim` with a limit of 0 returns the marker and the whole text (`ToolPruning.TrimKeepsEnds`).

## Model

| member | source | states |
|---|---|---|
| SessionFile.FoldRecords | server/storage/session_file.py:105-149 | the one-pass fold gives nothing exactly when no record writes a field; else each field has what its last writer wrote, the sync, usage and message rows are exactly the records of that kind in log order, a workspace path holds the body of its last record, and the checkpoint is the last one |
| SessionFile.FoldHolds | server/storage/session_file.py:105-149 | the same of the fold as a value, so of every loaded snapshot |
| SessionFile.FieldsOfAppend | server/storage/session_file.py:119-132 | folding a concatenation is folding the parts and letting the later part win |
| SessionStore.UserCountInvariant | server/storage/session_store.py:55-368 | over every run of repository operations from creation, the folded user message counter is the number of user message records and every counter stays present as a number |
| SessionStore.StepEffect | server/storage/session_store.py:181-334 | each single operation keeps that invariant; the other message counter drifts only through a session update, and a compaction that writes resets it |
| SessionStore.MessageCountExactlyWhen | server/storage/session_store.py:181-188 | after any run `message_count` is right if and only if its last setter was a compaction or an update with an exact snapshot, or there was none and it was right at the start |
| SessionStore.StaleUpdateLosesMessageCount | server/storage/session_store.py:181-188 | create, user message, update with the old snapshot: the counter is one short |
| SessionStore.IdentityNeverChanges | server/storage/session_file.py:40-42 | no run of operations changes a session's id or workspace, whatever the updates carry |
| SessionStore.TotalsAfterRun | server/storage/session_store.py:181-232 | after any run of operations a token or cost total is what the last session update carried, or the start value, plus exactly the increments since |
| SessionStore.IncrementsAreConserved | server/storage/session_store.py:213-232 | so over a run without session updates the totals grow by exactly the sum of the increments, across messages and compactions |
| SessionStore.UpdateKeepsIncrementsExactlyWhen | server/storage/session_store.py:181-188 | over any run all increments are kept if and only if the snapshot of the last update, if any, had all those made before it |
| SessionStore.StaleUpdateLosesIncrement | server/storage/session_store.py:181-232 | create, add tokens, update with the old snapshot: the total is back at the old value |
| SessionStore.CompactionCommutesWithFold | server/storage/session_store.py:310-334 | messages after compaction are the old ones filtered by id in order; syncs, usage, workspace and checkpoint are identical |
| SessionStore.CompactLookup | server/storage/session_store.py:326-333 | field by field: both message counters become the surviving user messages, metadata and the timestamp are new, every other field is unchanged |
| SessionStore.InlineAgrees | server/storage/session_store.py:296-308 | the fold written out inside the compaction agrees with the real fold on every key but the timestamp |
| SessionStore.SurvivorsKeepOrder | server/storage/session_store.py:319-325 | two messages that are not doomed both survive and stay in order |
| SessionStore.NextSequenceIsFresh | server/storage/session_store.py:426-428 | an automatic sequence number exceeds every recorded one |
| SessionStore.CreateIsConsistent | server/storage/session_store.py:55-64 | a new log has all counters, none of them counting a user message |
| SessionStore.SessionHome.Create | server/storage/session_store.py:55-64 | the log of the session is exactly header and seed stats, other sessions unchanged |
| SessionStore.SessionHome.LoadSnapshot | server/storage/session_file.py:94-102 | missing file or empty fold gives nothing, otherwise the fold (what that holds is SessionFile.FoldHolds) with the file name as default identity |
| SessionStore.SessionHome.SetModel | server/storage/session_store.py:70-78 | false for a missing session, else one metadata record is appended |
| SessionStore.SessionHome.MergeMetadata | server/storage/session_store.py:80-99 | the stored metadata becomes the old one with the updates on top and is what is returned; empty updates write nothing |
| SessionStore.SessionHome.Update | server/storage/session_store.py:181-188 | the dump without identity keys is appended as a patch |
| SessionStore.SessionHome.AddTokens | server/storage/session_store.py:213-232 | the returned session is what a reload shows, with exactly the added tokens |
| SessionStore.SessionHome.CreateMessage | server/storage/session_store.py:261-269 | the message given becomes the newest stored message and bumped counters are appended, or nothing happens when the session has no fields |
| SessionStore.SessionHome.CompactHistory | server/storage/session_store.py:289-334 | the loops rewrite the log as specified, refuse a log that lost its messages, and count what they removed |
| SessionStore.SessionHome.DeleteToolResults | server/storage/session_store.py:336-346 | exactly the tool messages go, and their number is returned |
| SessionStore.SessionHome.StripToolEvents | server/storage/session_store.py:348-368 | tool-result events leave every message, and the number of messages that carried one is returned |
| SessionStore.SessionHome.RecordSync | server/storage/session_store.py:430-453 | one sync record is appended, above all earlier numbers when none is given |
| SessionStore.SessionHome.DeleteSyncs | server/storage/session_store.py:468-478 | exactly the sync records go |
| SessionStore.SessionHome.AppendRecordTo | server/storage/session_file.py:157-161 | one record is appended, or the missing session is refused |
| SessionLaws.PartsAreLoaded | server/storage/session_file.py:141-149 | the parts of a log that the next rows speak of are those a reload returns |
| SessionLaws.CreatedMessageIsStored | server/storage/session_store.py:261-269 | after creating a message the messages are the old ones and then exactly it; syncs, usage, workspace and checkpoint are unchanged |
| SessionLaws.CreatedMessageIsCounted | server/storage/session_store.py:261-269 | a user message moves both message counters by one, any other message none; every other field but the time stays |
| SessionLaws.FieldOperationsKeepParts | server/storage/session_store.py:70-232 | choosing a model, merging metadata, updating and adding tokens leave messages, syncs, usage, workspace and checkpoint alone |
| SessionLaws.ModelIsSet | server/storage/session_store.py:70-78 | a model choice sets the model and the time, no other field |
| SessionLaws.MetadataIsMerged | server/storage/session_store.py:80-99 | the updates lie on top of the stored metadata; no other field but the time changes |
| SessionLaws.UpdateIsStored | server/storage/session_store.py:181-188 | every field of the dump is stored except identity and tags, which stay; the time is that of the update |
| SessionLaws.TokensAreAdded | server/storage/session_store.py:213-232 | the two totals move by the amounts given, the other counters are repeated, the rest stays |
| SessionLaws.CreatedSessionIsShown | server/storage/session_store.py:55-64 | a created session shows its whole dump with its own counters and the time of creation |
| SessionLaws.CreatedSessionIsEmpty | server/storage/session_store.py:55-64 | and no message, sync, usage, file or checkpoint |
| SessionLaws.CompactionRemovesExactly | server/storage/session_store.py:310-334 | the surviving messages are exactly those whose id was not given, in order; all other parts stay |
| SessionLaws.RefusedExactlyWhenMessagesAreLost | server/storage/session_store.py:310-318 | a compaction is refused if and only if the log has no message while a reload shows a positive message count |
| SessionLaws.ToolResultsAreDeleted | server/storage/session_store.py:336-346 | the surviving messages are exactly those of another role than tool, in order; fields and other parts stay |
| SessionLaws.ToolEventsAreStripped | server/storage/session_store.py:348-368 | each message loses exactly its tool-result events and nothing else changes |
| SessionLaws.CarriersAreCounted | server/storage/session_store.py:348-368 | the number that stripping returns is that of the messages with a tool-result event |
| SessionLaws.RecordedSyncIsStored | server/storage/session_store.py:430-453 | the newest sync has the body given and the number given or one above all others; nothing else changes |
| SessionLaws.SyncsAreDeleted | server/storage/session_store.py:468-478 | no sync is left and everything else is |
| SessionLaws.AppendedRecordIsStored | server/storage/session_file.py:133-139 | a checkpoint becomes the latest, a usage row the newest, a workspace file the current one of its path |
| HeadTail.CutSplits | server/storage/session_file.py:226-230 | cutting a file anywhere cuts exactly one line in two, for both the head read and the tail read |
| HeadTail.RecordsArePicked | server/storage/session_file.py:191-218 | the records of a piece are exactly those of its lines that read as one, in order |
| HeadTail.LineFieldsAreFieldsOf | server/storage/session_file.py:191-218 | the line fold of the listing is the record fold of what a full read yields |
| HeadTail.ListingReadsWindow | server/storage/session_file.py:221-241 | the listing is the fold of the complete head lines followed by the tail lines, nothing without a header, and an error when a piece it reads is nested too deep |
| HeadTail.OverflowsOnlyOnDeepLines | server/storage/session_file.py:199-203 | that error arises only on files with a line that is too deep itself |
| HeadTail.CoveringListingIsExact | server/storage/session_file.py:221-241 | when head and tail together reach every line the listing equals the full fold |
| HeadTail.SmallFileIsExact | server/storage/session_file.py:231-240 | a file of at most one chunk is folded twice, which equals once |
| HeadTail.TwoChunksCoverExactlyUnlessOneLineStraddles | server/storage/session_file.py:226-232 | up to two chunks the file is covered if and only if no line straddles both cuts |
| HeadTail.StraddlingLineIsMissed | server/storage/session_file.py:226-241 | a header line, a line that writes a field and straddles both cuts, an unreadable rest: the listing lacks the field, the full fold has it |
| HeadTail.FieldAgreesExactlyWhen | server/storage/session_file.py:221-241 | with a gap, a field of the windows agrees with the full fold if and only if the tail writes it, the gap does not, or the gap repeats the head's value |
| HeadTail.ListingIsExactOrFull | server/storage/session_file.py:179-188 | the public listing is exact when covered, even for a log that a full read fails on; with no header in the head it is the full fold, or its error if and only if that fails |
| HeadTail.ListingFailsExactlyWhen | server/storage/session_file.py:179-188 | listing a file raises if and only if a window is too deep, or the full read fails and the lines of the windows do not show a header and a field |
| HeadTail.LongHeaderFailsToList | server/storage/session_file.py:179-188 | a file that cannot be read as a whole fails to list when its first line is longer than the head |
| HeadTail.CollectFieldRows | server/storage/session_store.py:126-134 | the loop lists the files with fields in order, and raises if and only if one file does |
| HeadTail.RowsArePicked | server/storage/session_store.py:126-134 | the listed rows are exactly the non-empty fields of the files, in their order |
| Utf8.CutDecodesExactlyBetweenCharacters | server/storage/atomic.py:179-186 | a prefix of a text decodes if and only if the byte after it does not continue a character |
| Utf8.DecodesExactlyTexts | server/storage/atomic.py:222 | the decoder, a machine over bytes, accepts exactly the encodings of sequences of code points other than surrogates: no overlong form, nothing cut off |
| CrashSafety.DecodesLineByLine | server/storage/atomic.py:222-223 | a file decodes if and only if each of its lines does |
| CrashSafety.ReadFailsExactlyWhenALineDoes | server/storage/atomic.py:222-233 | a full read raises if and only if some line does not decode or fails to parse otherwise than by rejection |
| CrashSafety.ReadJsonl | server/storage/atomic.py:211-237 | every readable line in order, rejected ones skipped, and nothing but the error when some line fails otherwise |
| CrashSafety.ReadLines | server/storage/atomic.py:222-233 | the loop stops at the first line that fails and otherwise collects the records |
| CrashSafety.CrashLosesOnlyThatRecordExactlyBetweenCharacters | server/storage/atomic.py:179-237 | after a crash at any byte of an append the log can be read if and only if the cut is not inside a character; then all earlier records are read, and the new one if and only if all its bytes but the newline were written |
| CrashSafety.CutCharacterHidesEverything | server/storage/atomic.py:222-230 | a concrete record cut inside its accented letter hides every record of any log |
| CrashSafety.AppendAfterTornLine | server/storage/atomic.py:179-233 | a record appended after a torn line is read only if both together decode and read as one record; if that line fails, nothing is read |
| CrashSafety.UnreadableLogStaysUnreadable | server/storage/atomic.py:179-230 | whatever records are appended, a log that does not decode stays unreadable |
| CrashSafety.FailingLineHidesEverything | server/storage/atomic.py:222-233 | so does a log with a complete line that fails, whatever follows it |
| CrashSafety.OneTornSessionHidesAll | server/storage/session_file.py:179-188 | a long header line and a record cut inside a character fail to list |
| Journal.RevertRestores | server/toolkit/journal.py:124-158 | after any history and any undo failures, reverting gives every path whose first change the session journalled and that is not reported its exact old content, leaves other paths alone, and restored plus failed is the number undone |
| Journal.OldestEntryDecides | server/toolkit/journal.py:135-153 | the oldest entry of a path has the last word unless the path is reported |
| Journal.EachPathIsDecided | server/toolkit/journal.py:135-153 | what a revert leaves at any path, reported or not: what the oldest entry that leaves anything there left, else the content the path had |
| Journal.ReportIsExact | server/toolkit/journal.py:135-153 | a path is reported if and only if some undo step could not put it back |
| Journal.UndoAccounts | server/toolkit/journal.py:133-153 | every undone entry is restored or reported, untouched paths keep their content |
| Journal.CleanRevert | server/toolkit/journal.py:133-153 | without faults, omitted contents or trees the report is empty |
| Journal.MutationIsUndoneExactlyWhenRetained | server/toolkit/journal.py:133-153 | a mutation is undone without faults if and only if both images fit the limit; otherwise no file changes and the path is reported |
| Journal.TargetsAreNewestWritten | server/toolkit/journal.py:109-122 | what is undone is the newest part of what was written, all of it if and only if retention dropped none, and only older entries remain |
| Journal.LogIsNewest | server/toolkit/journal.py:109-113 | the retained log is the newest part of everything recorded |
| Journal.EntryMeaning | server/toolkit/journal.py:87-108 | an entry says what was recorded and holds both images exactly when neither is larger than 8 MiB |
| Journal.NewerArePicked | server/toolkit/journal.py:120-122 | what is undone are exactly the entries above the mark, in order |
| Journal.UpToArePicked | server/toolkit/journal.py:154-157 | what is kept are exactly the entries up to the mark, in order |
| Journal.MutationJournal.Record | server/toolkit/journal.py:76-113 | numbers the entry, keeps small contents, and retains the newest entries |
| Journal.MutationJournal.Since | server/toolkit/journal.py:120-122 | exactly the entries newer than the mark, in order |
| Journal.MutationJournal.Revert | server/toolkit/journal.py:124-158 | the backward loop over files and entries computes the specified undo and keeps exactly the entries up to the mark |
| Journal.MutationJournal.Clear | server/toolkit/journal.py:164-166 | forgets the session's entries only |
| CompactionProtocol.GateIsExclusiveAndCurrent | server/agents/compaction_service.py:335-346 | in every interleaving at most one call is past the gate, generations strictly increase, and the call past the gate is current at both guards |
| CompactionProtocol.GateAdmitsExactlyWhenFree | server/agents/compaction_service.py:335-346 | after any run, a call that comes to the gate is let in with the next generation if and only if no other call is behind it, else it is skipped at once |
| CompactionProtocol.TailSurvivesExactlyUnlessManual | server/agents/compaction_service.py:411-481 | a message at or after the cut stays out of the summarized prefix if and only if the call is not a manual one with cut 0 and nothing pruned |
| CompactionProtocol.CutZeroSummarizesAllExactlyWhen | server/agents/compaction_service.py:411-481 | a cut of 0 summarizes the entire history if and only if the call is manual with nothing pruned or the history is empty, else nothing |
| CompactionProtocol.OutcomeTellsTheTruth | server/agents/compaction_service.py:382-614 | over any run, skipped or failed calls left the caller's list alone and no step persisted them; completed calls applied the candidate, and exactly one step persisted them if they had a prefix and repositories, else none |
| CompactionProtocol.ResultTellsTheWork | server/agents/compaction_service.py:411-448 | over any legal run, an admitted call that returned and did not fail completed if and only if it had a prefix to summarize or pruned output, else it was skipped |
| CompactionProtocol.CallIsAsInvoked | server/agents/compaction_service.py:382-481 | over any run the prefix of a call is exactly the ids before its cut, or all of them for a manual call with cut 0 and nothing pruned, and what it would apply stays what it was invoked with |
| CompactionProtocol.FailureCameFrom | server/agents/compaction_service.py:596-612 | over any run, a call that failed met an exception in its work or could not announce that it skips |
| CompactionProtocol.RaiseCameFrom | server/agents/compaction_service.py:590-614 | over any run, a call that raised was cancelled or could not announce that it failed, so never because a completion was not delivered |
| CompactionProtocol.CompletedStoredExactlyUnlessRefused | server/agents/compaction_service.py:510-604 | at that one step the log becomes the rewritten one if and only if the store does not refuse the log it finds; refused, it stays as it was and the call completes all the same |
| CompactionProtocol.PersistStoresExactlyUnlessRefused | server/agents/compaction_service.py:510-524 | what a persist leaves: prefix gone, metadata with the call's summary stored, unless refused |
| CompactionProtocol.CompletedWithoutStoring | server/storage/session_store.py:311-318 | on any log the store refuses, a legal run persists, applies and completes while the log stays as it was |
| CompactionProtocol.FreshLogCanBeRefused | server/storage/session_store.py:311-318 | a session created from a dump that counts a message has such a log |
| CompactionProtocol.LogChangesOnlyByPersist | server/agents/compaction_service.py:510-524 | only a persist removes messages, and it removes exactly those of the summarized prefix from the log as it is then |
| CompactionProtocol.UnsummarizedMessagesSurvive | server/agents/compaction_service.py:484-524 | over any interleaving a message no call summarizes is never lost |
| CompactionProtocol.PersistStoresWhatWasRead | server/agents/compaction_service.py:511-523 | over any run, the metadata a persist leaves is what the call read earlier with its summary, whatever happened in between, unless refused |
| CompactionProtocol.ReturnedSummaryIsStored | server/agents/compaction_service.py:484-524 | the summary a persist stores is the one that the summarizer returned to that call |
| CompactionProtocol.MergeSurvivesPersistExactlyWhen | server/agents/compaction_service.py:511-523 | a key merged between the read and the persist keeps its value if and only if what was read, with the summary, already had it (or the persist was refused and the value still there) |
| CompactionProtocol.MergedKeyIsLost | server/agents/compaction_service.py:511-523 | a legal run of read, merge of a new key, persist: the key is gone |
| CompactionProtocol.EveryRunKeepsInvariant | server/agents/compaction_service.py:320-614 | the gate, numbering and per-stage facts hold after every legal run |
| RunningSummary.WritesAreIncreasing | server/agents/running_summary.py:93-116 | in every interleaving the written generations strictly increase in write order |
| RunningSummary.WriteIsLatestExactlyUnlessSuperseded | server/agents/running_summary.py:93-116 | over any run every write happens while no other call holds the storage lock, belongs to a task that passed its check at an earlier or the same step, and writes the generation of that moment; it is the latest when written if and only if no turn was scheduled in between |
| RunningSummary.WriteHasUsableSummary | server/agents/running_summary.py:93-116 | whatever is written comes from a task that was the latest when it started and then got a usable summary |
| RunningSummary.CheckedSummaryIsWritten | server/agents/running_summary.py:113-116 | over any run, a summary that passes its check as the latest is written, or still has its place in the line for the storage lock unless its task is cancelled there |
| RunningSummary.OtherCallsAreServed | server/agents/running_summary.py:116 | over any run, every other storage call has released the lock, holds it or waits in line |
| RunningSummary.OneSummarizerAtATime | server/agents/running_summary.py:93-116 | a task holds the one summarizer exactly while it is being summarized |
| RunningSummary.SupersededSummaryCanBeWritten | server/agents/running_summary.py:113-116 | a legal run of nine steps writes generation 1 while 2 is scheduled |
| EventBuffer.EveryRunIsLinked | server/api/websocket.py:67-185 | over every interleaving the buffer is the last payloads sent and a replay covers exactly the payloads sent after the departure that are still buffered |
| EventBuffer.SentBodies | server/api/websocket.py:102-116 | over any run, what is recorded as sent carries exactly the bodies sent, in order |
| EventBuffer.ConnectedExactlyWhenAttached | server/api/websocket.py:52-129 | over any run, a client is connected if and only if the last attach came after every departure and failed delivery |
| EventBuffer.ReplayCoversExactly | server/api/websocket.py:169-185 | the same for one state, however many front evictions shifted the marker |
| EventBuffer.FailedPayloadIsNotReplayed | server/api/websocket.py:119-125 | a payload whose delivery fails and everything sent between its send and the failure counts as sent before the departure and is not replayed |
| EventBuffer.ReplayAfterDepartureIsLater | server/api/websocket.py:102-185 | after any later sends a replay delivers only those |
| EventBuffer.SequencesAreContiguous | server/api/websocket.py:97-104 | without a late initialisation the numbers are contiguous |
| EventBuffer.LateInitBreaksNumbering | server/api/websocket.py:56-65 | a late stored value keeps the numbering if and only if it equals the counter, and keeps it increasing if and only if it is not below |
| EventBuffer.DuplicateSequence | server/api/websocket.py:52-65 | attach, send, late answer 0, send: number 1 twice |
| EventBuffer.ConnectionManager.BeginSend | server/api/websocket.py:102-116 | numbers, appends, evicts and shifts the marker; other sessions untouched |
| EventBuffer.ConnectionManager.FinishSend | server/api/websocket.py:118-129 | a failed delivery detaches the client, any other outcome changes nothing |
| EventBuffer.ConnectionManager.DisconnectClient | server/api/websocket.py:67-72 | detaches and marks the buffer length, if there is a buffer |
| EventBuffer.ConnectionManager.BeginRegister | server/api/websocket.py:52-58 | attaches and says whether the stored sequence must be read |
| EventBuffer.ConnectionManager.FinishInit | server/api/websocket.py:59-65 | overwrites the counter with the stored value |
| EventBuffer.ConnectionManager.DropBufferOf | server/api/websocket.py:74-78 | forgets buffer, marker and counter |
| EventBuffer.ConnectionManager.ReplayEvents | server/api/websocket.py:169-185 | returns the buffer from the marker and consumes the marker, which an empty buffer keeps |
| BraceExpand.SplitTopLevel | server/toolkit/brace_expand.py:6-20 | at least one part, and joining the parts with commas gives the body back |
| BraceExpand.SplitBraceGroup | server/toolkit/brace_expand.py:23-47 | the scanning loop finds the group that the leftmost opening brace starts, or none |
| BraceExpand.GroupFoundExactlyWhenFirstBraceStartsOne | server/toolkit/brace_expand.py:23-47 | a group is found if and only if the leftmost opening brace is closed, by depth, around a comma outside nested groups; later complete groups do not matter |
| BraceExpand.SplitsExactlyAtTopCommas | server/toolkit/brace_expand.py:6-20 | a body has a second part if and only if it has a comma at depth 0 |
| BraceExpand.LaterGroupIsLeftAlone | server/toolkit/brace_expand.py:26-28 | a pattern with a complete second group in which no group is found |
| BraceExpand.UnbalancedPatternExpands | server/toolkit/brace_expand.py:53-55 | a pattern with unbalanced braces that expands |
| BraceExpand.GroupReadsPattern | server/toolkit/brace_expand.py:23-47 | a found group is a reading of the pattern, and every child has strictly fewer opening braces |
| BraceExpand.ExpandBraces | server/toolkit/brace_expand.py:50-82 | the capped rounds yield the distinct leaves of the expansion tree in order when there are at most 64 counted with repeats, else the pattern itself |
| BraceExpand.DedupKeepsFirstOrder | server/toolkit/brace_expand.py:77-82 | the remaining words are ordered by first occurrence |
| BraceExpand.RoundLowersRank | server/toolkit/brace_expand.py:62-75 | a round that expands something lowers a rank, so the loop ends |
| BraceExpand.RoundKeepsLeaves | server/toolkit/brace_expand.py:62-75 | a round keeps the leaves of the tree and their order |
| BraceExpand.LeavesAtLeastOne | server/toolkit/brace_expand.py:73-74 | a round is never longer than the final expansion, so an early cap is never premature |
| BraceMeaning.ExpansionMeaning | server/toolkit/brace_expand.py:50-58 | for well-formed patterns the result is their distinct words: products of items in order, options in turn |
| BraceMeaning.LeavesAreWords | server/toolkit/brace_expand.py:50-75 | the expansion tree of a rendered pattern has exactly its words as leaves, nested groups included |
| BraceMeaning.GroupReadBack | server/toolkit/brace_expand.py:6-47 | the leftmost group of a rendered pattern is read back as it was written |
| Resolver.BatchKeepsItsMembers | server/toolkit/resolver.py:66-89 | every registered batch member and every active always-on tool survives, order is kept, and the bound holds or all that is left is protected |
| Resolver.OldestGoFirst | server/toolkit/resolver.py:91-99 | an unprotected survivor is newer than everything evicted |
| Resolver.RequestedBecomesNewest | server/toolkit/resolver.py:56-64 | a request of an active tool makes it the last element and all others keep their order |
| Resolver.NewToolIsNewest | server/toolkit/resolver.py:56-64 | a new tool stands behind all others, which keep their order, and is the last element if it stays |
| Resolver.BatchOrder | server/toolkit/resolver.py:66-89 | after a batch every requested tool stands after every other survivor, the requested ones in the order of their last mention, the others in the order they had |
| Resolver.BoundHoldsExactlyWhenProtectedFit | server/toolkit/resolver.py:91-99 | the documented bound holds after eviction if and only if the protected names fit it |
| Resolver.SingleRequestSurvives | server/toolkit/resolver.py:56-64 | a single request leaves the tool active if and only if it was active, is always on, or the always-on tools leave room |
| Resolver.SingleRequestCanBeStranded | server/toolkit/resolver.py:56-64 | a set filled by one always-on tool drops the requested one |
| Resolver.AlwaysOnIsNeverEvicted | server/toolkit/resolver.py:56-99 | over any run no active always-on tool is evicted, no name doubles, and nothing unasked becomes active |
| Resolver.SchemaResolver.constructor | server/toolkit/resolver.py:34-48 | exactly the registered seed tools are active |
| Resolver.SchemaResolver.RequestTool | server/toolkit/resolver.py:56-64 | unknown names change nothing, active ones move to the end, new ones may evict (positions: Resolver.RequestedBecomesNewest, Resolver.NewToolIsNewest) |
| Resolver.SchemaResolver.RequestTools | server/toolkit/resolver.py:66-89 | the registered names are returned in order and all are active, in the positions of Resolver.BatchOrder; without a registry nothing changes |
| Resolver.SchemaResolver.RegisteredPositions | server/toolkit/resolver.py:74-80 | the names taken from a batch are exactly the registered ones, in order, repeats included |
| Resolver.SchemaResolver.Evict | server/toolkit/resolver.py:91-99 | the loop drops exactly as many of the oldest unprotected names as the overflow asks for, or all of them |
| CompactionCut.FindCompactionCutBudgeted | server/agents/compaction.py:130-151 | the cut is an exchange boundary inside the history, the tail fits the budget or is the newest exchange, and no tail from an earlier boundary fits |
| CompactionCut.CutIsUnique | server/agents/compaction.py:130-151 | the three promises of the budgeted cut determine its answer |
| CompactionCut.GroupStart | server/agents/compaction.py:109-117 | the nearest earlier exchange boundary |
| CompactionCut.CountCutIsBoundaryExactlyWhen | server/agents/compaction.py:120-127 | the count-based cut keeps exchanges whole if and only if the messages on both sides of the position `keep_tail` from the end are not both tool results |
| CompactionCut.FindCompactionCut | server/agents/compaction.py:120-127 | the loop backs over exactly the assistant messages before that position |
| CompactionCut.CountCutSplitsExchange | server/agents/compaction.py:120-127 | a call with two results of which the last message is to be kept is split |
| ContextPacking.RetainHistory | server/agents/context.py:253-273 | the backward loop keeps a chronological selection, counts exactly its tokens, and stays in budget unless the fixed part alone exceeds it |
| ContextPacking.SelectionIsMarked | server/agents/context.py:271-273 | the selection is exactly the entries marked as kept, in order |
| ContextPacking.PairsStayTogether | server/agents/context.py:259-268 | a tool result directly after its owner is kept if and only if the owner is |
| ContextPacking.NothingLeftOutFits | server/agents/context.py:255-272 | no entry or pair that was left out would still fit in the end |
| ContextPacking.PackAccounts | server/agents/context.py:263-271 | used tokens are the fixed part plus the selection |
| ContextPacking.NewestFirst | server/agents/context.py:255-272 | an entry decided alone is kept if and only if it fits on top of the newer ones that are kept |
| ContextPacking.NewestPairFirst | server/agents/context.py:259-268 | a call and the result directly after it are kept if and only if both fit on top of the newer ones that are kept |
| ContextPacking.ResultsAreDecidedAlone | server/agents/context.py:247-268 | every result but the first is decided alone, newest first, and the call with its first result after all of them |
| ContextPacking.OrphanedInHistoryExactlyWhen | server/agents/context.py:247-268 | anywhere in a history, a later result is kept without its call if and only if it fits on top of the newer ones that fit while call and first result do not fit on top of all that did |
| ContextPacking.SecondResultCanBeOrphaned | server/agents/context.py:232-268 | from messages, with any counter: the second of two results is sent without the call if and only if it fits and the whole exchange does not |
| ContextPacking.OrphanedResult | server/agents/context.py:232-268 | a concrete history, counting characters, whose second result is sent without the call |
| ContextPacking.CollectEntries | server/agents/context.py:232-252 | each entry is a message with its role, content, tool-call flag and token count, in the order of the history; every message becomes one unless it is an assistant without content and tool calls or repeats role and content of the newest entry before it; no such entry remains |
| ContextPacking.EntriesAreCollected | server/agents/context.py:232-252 | the same of the entries as a value, with their positions |
| ToolPruning.PruneToolOutputs | server/agents/compaction_service.py:141-203 | the in-place loop prunes exactly the messages before the boundary and reports what it did |
| ToolPruning.PruningIsIdempotent | server/agents/compaction_service.py:141-203 | in both modes a second pass changes and reports nothing, although pruning may change which messages look like tool results |
| ToolPruning.NewestToolsUntouched | server/agents/compaction_service.py:167-171 | the two newest tool results and everything from the older one on stay as they are |
| ToolPruning.NewestToolsAreKept | server/agents/compaction_service.py:167-171 | nothing is pruned while there are at most two tool results, otherwise pruning stops just before the second newest of them |
| ToolPruning.PruneMeaning | server/agents/compaction_service.py:172-202 | exactly the unpruned tool results with text change: a digest replaces the text of a tool other than the two that keep theirs, otherwise a body over the limit is trimmed; nothing else in the message changes but the marks |
| ToolPruning.TurnsAreKept | server/agents/compaction_service.py:157-166 | by turns nothing is pruned up to the kept number of user messages, beyond it the boundary lies just after the user message that exactly this many follow |
| ToolPruning.StatsAreTrue | server/agents/compaction_service.py:172-203 | the count is the number of messages that changed, the characters are at least those the list lost, and exactly those when no message grew |
| ToolPruning.NameFromDisplayPrefix | server/agents/compaction.py:28-43 | an untagged tool message is attributed to the name in its display prefix |
| ToolPruning.PreservedToolsKeepTheirText | server/agents/compaction_service.py:180-202 | file reads and task state never become a digest: the new text starts with the old first line and the beginning of the rest and ends as the old text did |
| ToolPruning.TrimKeepsEnds | server/agents/compaction.py:67-74 | both ends survive, the length is known, it shrinks if and only if more is cut than the marker adds, and a limit of 0 cuts nothing |
| ToolPruning.FindBoundary | server/agents/compaction_service.py:157-171 | the boundary loops find the protected part in both modes |
| ReasoningDedup.Deduplicate | server/agents/llm_stream.py:25-49 | the loops compute repeated peeling and end |
| ReasoningDedup.DedupIsStablePrefix | server/agents/llm_stream.py:25-49 | the result is a prefix ending with the input's last `min_block` characters, no probed block repeats in it, and deduplicating again changes nothing |
| ReasoningDedup.DedupRemovesOnlyCopiesExactlyWhenAdjacent | server/agents/llm_stream.py:25-49 | the input is the result followed only by the blocks that were peeled if and only if in every peel on the way the earlier copy is adjacent |
| ReasoningDedup.BlockIsACopy | server/agents/llm_stream.py:41-47 | each peeled block is a copy of the end of what is kept |
| ReasoningDedup.PeelSizeIsLeast | server/agents/llm_stream.py:38-47 | a peel takes the smallest probed size whose final block occurs earlier |
| ReasoningDedup.DedupLength | server/agents/llm_stream.py:25-49 | peeling removes at least as much as the blocks it takes |
| ReasoningDedup.UniqueMiddleIsLost | server/agents/llm_stream.py:28-31 | any text between two copies of a block is removed with the copy |
| ReasoningDedup.RFindIsLast | server/agents/llm_stream.py:45 | the search finds the last occurrence that ends in the searched part |
| StreamAssembly.Stream | server/providers/llm_provider.py:888-1106 | the caller's pieces are one attempt's, whole and in order; the second attempt is made if and only if the first failed retryably before anything deliverable; calls come from that attempt alone and only when it completes |
| StreamAssembly.RetriedExactlyWhen | server/providers/llm_provider.py:888-1106 | the second attempt serves the caller if and only if the first ended retryably and none of its chunks had content, reasoning or a tool call; the text that arrives is all of one attempt's |
| StreamAssembly.PiecesCarryTheText | server/providers/llm_provider.py:1016-1022 | what the caller gets is the text that was sent, content as content and reasoning as reasoning, whole and in order |
| StreamAssembly.PiecesComeChunkByChunk | server/providers/llm_provider.py:1016-1022 | the pieces come chunk by chunk, in a chunk the content before the reasoning |
| StreamAssembly.AssembledFromOwnFragments | server/providers/llm_provider.py:1024-1040 | each assembled call depends on the fragments with its index only |
| StreamAssembly.FromFragmentsMeaning | server/providers/llm_provider.py:1033-1040 | a call has the last non-empty id and name and all arguments in order |
| StreamAssembly.InterleavingDoesNotMatter | server/providers/llm_provider.py:1024-1040 | any interleaving of the same fragments gives the same calls |
| StreamAssembly.PublishedMeaning | server/providers/llm_provider.py:1104-1106 | every call is published once, by ascending index |
| AtomicFile.ReadReturnsLastCommitted | server/storage/atomic.py:116-176 | over any run of concurrent, failing and crashing writers a read returns the last committed document |
| AtomicFile.CrashLeavesOldOrNew | server/storage/atomic.py:132-157 | a crash after any step leaves exactly the old or the new document |
| AtomicFile.DamagedReadFallsBack | server/storage/atomic.py:160-176 | after damage a read raises if and only if the damage does not decode or the parser fails on it otherwise than by rejection, or it is rejected and the backup fails so; rejected damage gives an earlier committed document if the backup is one, and the default if there is none or it is rejected too |
| AtomicFile.BinaryDamageIsNotTolerated | server/storage/atomic.py:169-175 | a legal run of two writes and one byte of damage that is no text: the read raises although the backup is good |
| AtomicFile.LongNumberIsToleratedExactlyWhenRejected | server/storage/atomic.py:169-175 | a legal run of two writes and damage by a long integer: the backup's document if the parser rejects it, else an error |
| AtomicFile.EveryRunKeepsInvariant | server/storage/atomic.py:86-157 | one lock holder, a primary that is the last commit, and a backup that is a committed version or recorded damage |
| AtomicFile.BackupIsRecent | server/storage/atomic.py:86-157 | over any run of concurrent and crashing writers without backup failures and damage, the backup is the newest or second newest commit, missing only before the second |
| AtomicFile.DamageCostsOneVersionExactlyWhenRejected | server/storage/atomic.py:116-176 | damage after such a run raises if and only if it fails otherwise than by rejection, and costs at most one version when it is rejected |
| AtomicFile.WriteShiftsOneVersion | server/storage/atomic.py:148-151 | an undisturbed write moves the current content into the backup, so later damage costs one version if it is rejected and raises if it fails otherwise |
| AtomicFile.WriteIsLegal | server/storage/atomic.py:132-157 | a new writer that finds the lock free can run to completion and leaves it free |
| AtomicFile.BackupIsGoodExactlyWhen | server/storage/atomic.py:86-113 | after such a write the backup parses if and only if the replaced content did |
| AtomicFile.DamageCanReachTheBackup | server/storage/atomic.py:86-113 | after any run, damage, a write over it and damage again leave only the default when both are rejected, and an error if and only if the new one fails otherwise, or is rejected and the old one fails |
| ReadCache.AnswersAreFresh | server/agents/session_workspace.py:166-234 | whatever a query returns was stored by the newest read of that range, with that fingerprint, after the last eviction; the cache stays bounded |
| ReadCache.StoredIsAnswered | server/agents/session_workspace.py:193-211 | the bound never evicts the entry just stored |
| ReadCache.StoreKeepsOthers | server/agents/session_workspace.py:166-211 | storing a read leaves the entries of all other files alone, except the oldest when the cache is full and the file is new to it |
| ReadCache.OthersAreKept | server/agents/session_workspace.py:134-251 | a query and the eviction of a file leave the entries of all other files alone |
| ReadCache.CoveringSlice | server/agents/session_workspace.py:316-320 | the first recorded range that covers the request, or none covers it |
| ReadCache.CoversExactlyEveryLine | server/agents/session_workspace.py:316-320 | a range covers a non-empty request if and only if it holds every line of it |
| ReadCache.ServedExactlyWhenSameRangeWasRead | server/agents/simple_loop.py:990-1002 | after any run, a read is served from the cache if and only if the file is unchanged and exactly that range was read before, whatever other ranges cover it |
| ReadCache.CoveredReadIsNotServed | server/agents/simple_loop.py:990-1002 | a read inside an earlier, larger range is not served |
| ReadCache.SessionReadCache.CacheFileRead | server/agents/session_workspace.py:166-211 | stores the slice, restarting the entry on a changed fingerprint; other sessions untouched |
| ReadCache.SessionReadCache.GetCachedRead | server/agents/session_workspace.py:214-251 | answers only under the current fingerprint and evicts a stale entry |
| ReadCache.SessionReadCache.EvictReadCachePath | server/agents/session_workspace.py:134-146 | the path is gone from every session at once |
| ReadCache.SessionReadCache.ResetSession | server/agents/session_workspace.py:329-339 | forgets the session's entries only |
| ReadCache.SessionReadCache.BoundEntries | server/agents/session_workspace.py:67-78 | the oldest entries beyond the cap go |
| TurnGuards.TurnGuarantees | server/agents/simple_loop.py:932-1179 | over a whole turn a call other than a read repeats only after a successful mutation and only for exploring tools, at most one write succeeds per resolved path, and the turn is stopped if and only if the last threshold calls are equal |
| TurnGuards.DuplicateExactlyWhen | server/agents/simple_loop.py:932-968 | after any calls of a turn, a call other than a read that gets past the doom count is turned away as a duplicate if and only if it ran before and, for the tools that look around, nothing was changed since; silently if and only if the answer is substantive |
| TurnGuards.RewriteExactlyWhen | server/agents/simple_loop.py:1073-1097 | a write that passed the other guards is a rewrite if and only if a write to its path, as given or resolved, succeeded in this turn or in a replayed one |
| TurnGuards.CarriedOutExactlyWhen | server/agents/simple_loop.py:932-1176 | after any calls of a turn, a call other than a read is carried out if and only if it did not run before (for exploring tools: since the last successful mutation), does not make the trailing run of equal calls reach the threshold, is not rejected or denied, and for a write no write to its path succeeded before |
| TurnGuards.CachedReadIsServedExactlyUnlessSkipped | server/agents/simple_loop.py:939-1002 | a cached read is skipped if and only if the call was made before and the answer is substantive, and else served unless the doom count stops the turn |
| TurnGuards.CachedRereadIsSkipped | server/agents/simple_loop.py:939-951 | the same cached read twice: the second is skipped and leaves the turn as it was |
| TurnGuards.TrailingRunMeaning | server/agents/simple_loop.py:953-958 | the doom counter reaches n if and only if the last n considered calls are equal |
| TurnGuards.Turn.Handle | server/agents/simple_loop.py:932-1176 | the loop body gives the specified verdict and bookkeeping |
| TurnGuards.Turn.HandleAll | server/agents/simple_loop.py:932-1179 | the dispatch loop keeps both guarantees for all calls of a turn |

## Left out

- SessionStore.SessionHome.Create: project directories, the path cache and file locks are not modelled; a session id names its log directly.
- SessionFile.FoldRecords: a counter that is not a number reads as 0, where the source would raise; counters are integers and cost is in micro-units, so float rounding is not captured.
- SessionStore.UserCountInvariant: a crash between the two appends of a message creation is not part of a run.
- HeadTail.ListingReadsWindow: whitespace stripping is not modelled; that a proper prefix of a line never reads as a record is an assumption of the lemma, and what a line parses to is a parameter.
- CrashSafety.ReadJsonl: a missing file, and carriage returns, which text mode also takes as line ends but the log writer always escapes.
- SessionStore.SessionHome.LoadSnapshot: the repositories work on the records of a log whose full read succeeds; on any other, each of their reads raises.
- Journal.RevertRestores: parent directories and file modes are not modelled; a recursive delete is a set of removed files that only the report covers.
- CompactionProtocol.GateIsExclusiveAndCurrent: dropping a session's registries, or deleting its log, while a compaction runs is not a step.
- CompactionProtocol.OutcomeTellsTheTruth: a call cancelled after its persist has stored its summary without applying its candidate; the model lets that happen and says nothing about it.
- RunningSummary.WritesAreIncreasing: one session at a time; the summarizer lock shared with other sessions only delays steps.
- EventBuffer.ConnectionManager.ReplayEvents: which of the chosen payloads reach the socket before it breaks is not modelled, nor is storing sync events.
- StreamAssembly.Stream: usage, finish reasons, backoff and the timeouts themselves are left out; a timeout is an ending that is never retried.
- AtomicFile.ReadReturnsLastCommitted: that a written document parses back as itself is part of the model; fsync, permissions and writers in other processes, which the in-process lock does not exclude, and reads that fail with an OS error are not modelled.
- ReadCache.AnswersAreFresh: slice metadata, serve counts and the per-session write records are left out.
- TurnGuards.TurnGuarantees: parameter normalization, the model-facing messages and the tools themselves are inputs of the model.
- ContextPacking.RetainHistory: the system prompt, plan and summary blocks enter only as the fixed tokens.
- Stall counting, continuation merging, stripping of unoffered tool calls, the phase order of stream events, live-tail compression, and the reserve and keep-budget arithmetic are not modelled: each is one short computation.
- Transport, JSON-RPC dispatch, provider configuration, tokenizers, path resolution and prompts are not modelled; token counts, resolved paths and line parsing are parameters.
