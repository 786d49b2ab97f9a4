# Verified model of the code-indexing engine

A Dafny model of the parts of the engine where a mistake would be silent: the step protocols around
indexing, the memoised file filter, the bounded stores, the crash-ordered writes, and the interval,
budget and retry loops. `dafny verify dfyconfig.toml` checks the whole project.

| file | what it models |
|---|---|
| `Recompute.dfy` | the debounced single-flight cache recompute, over every interleaving of completions, time and task steps |
| `ResidentCap.dfy`, `VectorIndex.dfy`, `WarmFence.dfy`, `RepoRemoval.dfy` | the vector index's byte cap and mutation fence, warming a shard beside index runs, ignore requests and crashes, and removing an index |
| `IgnoreRules.dfy`, `ChangeFilter.dfy`, `Walker.dfy`, `FilterParity.dfy` | the ignore rules on a directory tree, the memoised per-path filter, the pruning walk, and their agreement |
| `RescanGate.dfy` | the watcher's coalesced rescans |
| `Recency.dfy`, `SessionStore.dfy`, `SharedSessions.dfy`, `ConversationStore.dfy`, `EmbeddingCache.dfy` | the LRU stores (one with a disk mirror, alone and shared by several processes) and the byte-encoded embedding cache |
| `BatchIgnore.dfy`, `Generations.dfy`, `HandlerOverlap.dfy` | the marker-first batch ignore, and the generation bump of DELETE and PUT, one after the other and interleaved |
| `BlockMerge.dfy`, `Utf8.dfy`, `OutputBudget.dfy`, `ReadPaging.dfy`, `GrepRegions.dfy`, `KeyRing.dfy` | block merging, budgeted assembly with its hint, `read` paging, `grep` regions, API key rotation |
| `Options.dfy`, `Sequences.dfy`, `Maps.dfy`, `Numbers.dfy` | small shared definitions |

Code that changes state is written as classes and methods with loops, each proved against a
specification on values; protocols are step machines whose steps are the source's lock sections,
durable writes and file operations, and their theorems quantify over every run. A vector index entry,
an ignore file, a regular expression, a digest, an API reply and every I/O outcome are parameters.

## Where the code and its promises part

Each item names the member that shows an input or run on which the promise fails, the one that states
for all inputs when it holds, or both.

- Removing an index starts its tables and index epoch over, but keeps the mutation epoch and the shard
  files. A warm under way can then install the removed rows, and an old shard file can validate again.
  A removal is harmless in every continuation exactly when no warm can still install, none has passed
  its check, and CURRENT names no file (`RepoRemoval.UnquietRemovalBringsRowsBack`,
  `RepoRemoval.QuietRemovalIsHarmless`).
- Removing an index also takes the rows below that repository's root out of every other live shard, and
  keeps the shard even when it is emptied. A nested or enclosing repository stays in step with its table
  exactly when its shard held no such row (`WarmFence.RemoveOtherStripsExactly`).
- An ignore page whose deletion fails behind the chunk rows leaves the shard alone. The shard is still in
  step exactly when it held no row of the page's files (`WarmFence.FailedPageIsMissedExactly`).
- The rescan gate's comment says nothing is ever dropped silently. A need that arrives after its
  predecessor's rescan was received and before `pending` is cleared is followed by no rescan
  (`RescanGate.WindowLosesANeed`); every other need is followed by one
  (`RescanGate.NeedIsServedExactlyOutsideTheWindow`).
- The per-path filter and the walk agree in a repository whose root holds `.git`. Without any `.git`
  the walk ignores `.gitignore` files and the filter obeys them
  (`FilterParity.WithoutGitTheFilterDropsWalkedFiles`); `FilterParity.WalkedButTurnedAway` says which
  walked files the filter turns away, `FilterParity.EarlyDropLosesAWalkedFileExactly` which events the
  watcher drops at or above a walked file.
- Settings writes reassert file permissions after the rename, so a write can land and still fail. The
  durable generation can then go back, through a config write (`Generations.LateFailureLosesTheBump`) or
  through an orderly DELETE of another repository (`Generations.AnotherDeleteLosesTheBump`). It does in
  exactly the steps `Generations.DurableGoesBackExactly` names, and over a run it never does exactly when
  no write takes effect from a memory that is behind the disk (`Generations.DurableNeverDecreasesExactly`).
- In the same way a repository can leave the durable list without anybody asking: one that a config write
  added in a write that landed and still failed goes with the next DELETE, of whichever repository
  (`Generations.LateFailureUnlistsARepo`); `Generations.LeavesTheListExactly` names the steps.
- The database cache is keyed by repository, not by generation. A task that read the settings before a
  DELETE and opens after it closed the handle pins the old index
  (`Generations.StaleOpenPinsTheOldIndex`); opens after a DELETE's swap are safe exactly when nobody
  held a handle or a snapshot of the repository at the swap (`Generations.OpensAreSafeExactlyWhenUnheld`).
- A PUT and a DELETE that overlap can lose the bump (`Generations.OverlapLosesTheBump`). It survives on
  disk exactly when the PUT wrote before the DELETE's write or read the counters after its swap, and in
  memory exactly when the PUT swapped before the DELETE or read after it
  (`HandlerOverlap.BumpSurvivesExactly`). A generation at the `u32` ceiling makes DELETE remove the live
  directory (`Generations.DeleteOutlivesItsDirectoryExactlyBelowTheCeiling`).
- The batch ignore promises that the ignore list covers everything deleted, and that the rest is
  untouched. A row whose path is not below the repository root is deleted without a marker
  (`BatchIgnore.ARowOutsideTheRootGoesUnmarked`, `BatchIgnore.IgnoredCoversDeletedExactlyBelowTheRoot`).
  An edge between two files goes with either, so a file that does not match loses the edges it shares
  with one that does (`BatchIgnore.AnUnmatchedFileLosesAnEdge`), and is untouched exactly when it shares
  none (`BatchIgnore.UntouchedExactlyWhenUnlinked`).
- A session deleted in one process is still answered by another that holds it in memory
  (`SharedSessions.DeletedElsewhereStillAnswers`); a load answers the last word on the session exactly
  when the process's own copy, if any, is that word (`SharedSessions.LoadAnswersMemoryThenDirectory`).
- The embedding cache's directory name separates the output dimensions of one model
  (`EmbeddingCache.DimensionsKeepApart`) but not all models
  (`EmbeddingCache.ModelsMayShareADirectory`): two share a directory exactly when their keys agree
  position by position once sanitised (`EmbeddingCache.ModelsShareADirectoryExactly`).
- Successive requests start on successive keys, except where the cursor wraps and the number of keys
  does not divide its range (`KeyRotation.RequestsStartOnSuccessiveKeys`).

## Model

| member | source | states |
|---|---|---|
| Recompute.RecomputeSlots.NoteIndexCompletion | src/indexing/mod.rs:1367-1394 | every completion stamps the slot with its own time, a deferred or re-arming one as well; a running pass is re-armed, a free slot claimed and a task asked for; other repositories untouched |
| Recompute.RecomputeSlots.PollDebounce | src/indexing/mod.rs:1410-1427 | no wait exactly when nothing completed or the last completion is a debounce ago; otherwise the wait ends one debounce after it, and a completion in the future waits a whole debounce; changes nothing |
| Recompute.RecomputeSlots.MarkRecomputing | src/indexing/mod.rs:1429-1440 | the task enters the phase in which completions re-arm it |
| Recompute.RecomputeSlots.RearmOrRetire | src/indexing/mod.rs:1459-1473 | one more pass exactly when a completion arrived during this one; otherwise the slot is free |
| Recompute.TaskStepKeepsInv | src/indexing/mod.rs:1401-1475 | every step a task takes keeps single flight, the per-repository record and the no-loss condition |
| Recompute.NoLostRecompute | src/indexing/mod.rs:1367-1475 | over every run: one task per repository exactly while `scheduled`, an idle repository's last pass began after its last completion, passes never outnumber completions |
| Recompute.EveryRunFromBoot | src/indexing/mod.rs:222-243 | the same three facts for every run from an empty scheduler |
| Recompute.PassesDueConserved | src/indexing/mod.rs:1401-1475 | without completions, passes begun plus the pass still owed never change |
| Recompute.BurstCoalesces | src/indexing/mod.rs:1367-1475 | a settled burst got exactly one pass after its last completion |
| Recompute.CanAlwaysSettle | src/indexing/mod.rs:1401-1475 | from every reachable state all tasks can retire with no further completion, leaving nothing unseen |
| Recompute.PollWaitsOutTheLastCompletion | src/indexing/mod.rs:1375-1427 | after any run, a poll goes on exactly when the last completion of its repository, read off the steps, is a whole debounce ago, and otherwise sleeps until exactly a debounce after it |
| Recompute.PassFollowsAQuietPoll | src/indexing/mod.rs:1410-1440 | after any run, a pass begins only behind a poll that found the window over, or at which a later completion arrived |
| VectorIndex.ShardedVectorIndex.BeginFullUpdate | src/vector/sharded.rs:225-233 | the live shard becomes stale, the epoch advances, nothing is searchable; other repositories untouched |
| VectorIndex.ShardedVectorIndex.BeginIncrementalUpdate | src/vector/sharded.rs:269-277 | the live shard becomes pending, the epoch advances, nothing is searchable; other repositories untouched |
| VectorIndex.ShardedVectorIndex.AbortUpdateFailClosed | src/vector/sharded.rs:347-355 | an abort leaves nothing searchable and advances the epoch |
| VectorIndex.ShardedVectorIndex.PublishFullUpdate | src/vector/sharded.rs:300-314 | the new rows are live (none for an empty table) and the fence opens; of the other repositories only live shards go, and what stays is what the byte cap leaves |
| VectorIndex.ShardedVectorIndex.PublishIncrementalUpdate | src/vector/sharded.rs:318-341 | row by row: the pending shard without the removed files and with every added row is live, or what was live when none was pending; other live shards go only to the byte cap |
| VectorIndex.ShardedVectorIndex.ApplyIncremental | src/vector/sharded.rs:491-516 | row by row: the rows of the removed files go, every added one comes with its vector, an emptied shard is dropped, a cold repository stays cold; other live shards go only to the byte cap |
| VectorIndex.ShardedVectorIndex.InstallShardIfNotMutating | src/vector/sharded.rs:283-297 | installs exactly when no run is mutating and the epoch is the one captured before the scan; other live shards go only to the byte cap |
| VectorIndex.ShardedVectorIndex.EvictToCap | src/vector/sharded.rs:452-475 | what stays live is what evicting one by one leaves, and it stays as it was |
| VectorIndex.ShardedVectorIndex.RemoveRepo | src/vector/sharded.rs:739-753 | everything of the repository goes but its fence and its epoch; every other live shard loses the rows inside it and stays, even when emptied |
| VectorIndex.UpdatesKeepTheLastAnswer | src/vector/sharded.rs:225-277 | beginning or aborting raises the fence and hides the live shard but keeps the last answer, an incremental begin exactly when it meets no leftover base |
| VectorIndex.PublishesOpenTheFence | src/vector/sharded.rs:300-341 | either publish takes the fence down, leaves nothing hidden and moves the epoch on |
| VectorIndex.OnlyASeparatorLeadsInside | src/lib.rs:23-48 | inside a repository are its root and what follows a separator behind it; a name that only continues the root is outside |
| ResidentCap.SurvivorsAreTheCut | src/vector/sharded.rs:452-475 | evicting one by one keeps every protected shard, lets no shard go before one touched earlier, ends within the cap or with nothing left that may go, and the last eviction was needed |
| ResidentCap.CutIsUnique | src/vector/sharded.rs:452-475 | these facts determine what stays |
| WarmFence.InstalledShardIsCurrent | src/indexing/mod.rs:395-470 | a shard a warm manages to install, scanned or reopened from its file, equals the chunk table at that moment, but for rows an ignore request is taking out; no index run is under way |
| WarmFence.StepKeepsInv | src/indexing/mod.rs:336-471 | every step of runs, ignore requests, warms, removals that meet nothing, file operations and crashes keeps the fence invariant |
| WarmFence.IgnoreStepKeepsInv | src/server.rs:976-995 | a page takes its rows out of the table, then advances the epoch (or fails to), then takes them out of the shard; what warms read meanwhile either still holds or is outdated by the end |
| WarmFence.AdoptKeepsInv | src/indexing/pipeline.rs:812-828 | a run may restore a missing identity marker without disturbing a warm |
| WarmFence.LiveShardIsTheDatabase | src/indexing/mod.rs:336-471 | over every orderly run, crashes included: a searchable shard equals the chunk table and is of the stored identity, while an ignore request runs up to the rows it takes out; a CURRENT file whose stamp matches holds the table |
| WarmFence.EveryRunFromBoot | src/indexing/mod.rs:336-471 | the same of the shard, from boot |
| WarmFence.FlagAloneWouldInstallStaleRows | src/indexing/mod.rs:345-351 | a run in which an update begins and publishes during a scan: the flag is clear and the scanned rows are wrong, so only the epoch can tell |
| WarmFence.RemoveOtherStripsExactly | src/vector/sharded.rs:746-751 | after another repository is removed the shard equals the table exactly when it held no row inside that repository |
| WarmFence.FailedPageIsMissedExactly | src/server.rs:976-983 | after a page that failed behind the chunk rows the shard equals the table exactly when it held no row of the page |
| RepoRemoval.UnquietRemovalBringsRowsBack | src/engine_ops.rs:71-80 | after a removal with a warm that can still install or write its file, or with a CURRENT file, some orderly run makes rows searchable that are not in the table |
| RepoRemoval.QuietRemovalIsHarmless | src/engine_ops.rs:71-80 | after any other removal no orderly run does |
| IgnoreRules.SkipNameIsNotIndexable | src/indexing/walker.rs:145-190 | no skipped directory name is an indexable file name, which the early drop relies on |
| IgnoreRules.IgnoredIsExcluded | src/indexing/walker.rs:319-343 | the recursive decision is this rule of precedence, read off the matchers |
| IgnoreRules.TheDeepestOfTheFirstKindDecides | src/indexing/walker.rs:310-343 | a custom match with none deeper decides alone; without one the deepest `.ignore` match, whatever `.gitignore` says; then `.gitignore` |
| IgnoreRules.ExtensionFollowsTheLastDot | src/indexing/walker.rs:145-160 | what follows the last dot, in lower case, decides; a name with no dot, or only a leading one, is looked up whole |
| ChangeFilter.Filter.IgnoresOf | src/indexing/walker.rs:299-308 | the memoised ignore files of a directory are the ones on disk |
| ChangeFilter.Filter.IsIgnoredByFiles | src/indexing/walker.rs:319-343 | the loop over ancestors answers as the deepest custom file that matches, else the deepest matching `.ignore`, else the deepest `.gitignore` at or below the nearest `.git` |
| ChangeFilter.Filter.IsGitignoredQuery | src/indexing/walker.rs:349-378 | the memoised answer is "some ancestor directory or the path itself is ignored", whatever was asked before |
| ChangeFilter.Filter.AllowsAs | src/indexing/walker.rs:390-411 | the memoised filter equals the memo-free one for any query sequence |
| ChangeFilter.Filter.CouldContainIndexedQuery | src/indexing/walker.rs:418-435 | likewise for the directory question |
| ChangeFilter.Filter.MayAffectIndexQuery | src/indexing/watcher.rs:76-101 | likewise for the watcher's question |
| ChangeFilter.AllowsIs | src/indexing/walker.rs:390-411 | the filter admits a file exactly when its name is indexable, the directories on its way are neither hidden nor skipped, no setting names it, and no ignore rule, by the precedence above, names it or one of them |
| ChangeFilter.CouldContainIs | src/indexing/walker.rs:418-435 | likewise for a directory |
| Walker.WalkFrom | src/indexing/walker.rs:476-560 | the walk from a directory returns exactly the files below it that no setting, hidden or skipped name and no ignore rule, by the precedence above, excludes |
| Walker.WalkRepo | src/indexing/walker.rs:476-560 | the same from the repository root |
| Walker.WalkVisits | src/indexing/walker.rs:487-540 | the depth-first iteration yields a path exactly when every component on the way passes |
| Walker.WalkedIsIndexed | src/indexing/walker.rs:476-560 | being in the walk is having only passing components and an indexable name, said without the walk |
| FilterParity.DecisionsPartExactly | src/indexing/walker.rs:319-343 | the filter and the walk decide one candidate differently exactly when no `.git` governs it and only a `.gitignore` ignores it |
| FilterParity.FilterAdmitsOnlyWalked | src/indexing/walker.rs:390-411 | on any tree, a file the filter admits is walked |
| FilterParity.FilterEqualsWalk | src/indexing/walker.rs:383-411 | with a root `.git`, a file is admitted exactly when it is walked |
| FilterParity.WalkedButTurnedAway | src/indexing/walker.rs:319-411 | on any tree, a walked file is turned away exactly when an ungoverned `.gitignore` names one of its components |
| FilterParity.WithoutGitTheFilterDropsWalkedFiles | src/indexing/walker.rs:476-510 | a tree without `.git` on which the filter and the early drop lose a walked file |
| FilterParity.EarlyDropLosesAWalkedFileExactly | src/indexing/watcher.rs:76-101 | on any tree, the watcher drops an event at or above a walked file exactly when an ungoverned `.gitignore` names a directory at or above the event |
| FilterParity.NothingBelowABlockedDirectory | src/indexing/walker.rs:476-560 | nothing below an ignored or pruned directory is walked, whatever deeper ignore files say |
| FilterParity.NothingBelowAnExcludedDirectory | src/indexing/walker.rs:418-435 | where the filter says no indexed file can live, the walk returns none |
| FilterParity.EarlyDropIsSound | src/indexing/watcher.rs:76-101 | a path the watcher drops is not in the walk, nor is anything below it |
| FilterParity.SubtreeIsRestriction | src/indexing/walker.rs:448-468 | the inner walk with the filter is the full walk restricted to the directory |
| FilterParity.WalkSubtree | src/indexing/walker.rs:448-468 | the subtree walk returns exactly the full walk's files below the directory |
| RescanGate.Gate.Request | src/indexing/watcher.rs:42-60 | a second request while one is pending sends nothing |
| RescanGate.Gate.Dispatch | src/indexing/watcher.rs:106-136 | an error or a full channel becomes a request and leaves the channel alone; otherwise the batch sent holds exactly the changes that may affect the index, in their order, and an empty one is not sent |
| RescanGate.AtMostOneSend | src/indexing/watcher.rs:42-60 | over every run, other repositories' entries in the shared channel included, at most one rescan send exists, exactly while `pending` is set |
| RescanGate.OutstandingSendIsHonoured | src/indexing/watcher.rs:42-60 | from an outstanding send on, one is outstanding or a rescan has entered the channel |
| RescanGate.NeedIsServedExactlyOutsideTheWindow | src/indexing/watcher.rs:103-136 | in every continuation of a need a full scan has started since or is on its way, exactly when no rescan was received whose sender has yet to clear `pending` |
| RescanGate.WindowLosesANeed | src/indexing/watcher.rs:42-60 | a run that ends idle with the need never rescanned |
| RescanGate.NoBatchIsLost | src/indexing/watcher.rs:125-136 | in every continuation the batch of a callback has been received or is queued, unless the channel was full, and then a rescan is asked for |
| SessionStore.Store.EvictToCap | src/mcp_session_store.rs:120-135 | evicts the oldest entries, in order, until one more fits, and nothing else |
| SessionStore.Store.Load | src/mcp_session_store.rs:354-385 | a hit touches its entry, a durable miss is restored and may evict, any other miss changes nothing |
| SessionStore.Store.StoreSession | src/mcp_session_store.rs:387-411 | the new state is in memory and (safe ids) on disk, victims are gone from both, re-storing evicts nobody |
| SessionStore.Store.Delete | src/mcp_session_store.rs:413-419 | the id is gone from memory and disk |
| SessionStore.SafeIdsExactly | src/mcp_session_store.rs:161-169 | the ids that name a file are the non-empty ones of ASCII letters, digits, `-` and `_` |
| SessionStore.StoreDropsOnlyTheOldest | src/mcp_session_store.rs:387-411 | a store changes no other session, but for the oldest one when the id is new and memory full, whose file goes too |
| SessionStore.LoadDropsOnlyTheOldest | src/mcp_session_store.rs:354-385 | a load that restores a file makes room in the same way; any other load keeps every session |
| SessionStore.HistoryIsExplained | src/mcp_session_store.rs:354-419 | after every operation of every history, memory order is touch order, the disk mirrors memory, and every load answers the id's last event |
| SessionStore.LoadAnswersTheLastStore | src/mcp_session_store.rs:354-385 | after any history with restarts, a load returns the last state stored, exactly for ids not deleted, evicted or (unless durable) rebooted since; at most MAX_SESSIONS entries |
| SessionStore.VictimsAreTheLeastRecentlyTouched | src/mcp_session_store.rs:115-135 | a victim was touched before everyone who stays, only when memory is full, one at a time, and never for an id in memory |
| SharedSessions.LoadAnswersMemoryThenDirectory | src/mcp_session_store.rs:80-84 | after any history of any number of processes over one directory, a load answers the process's own last word, else the directory's; it is the last word of all exactly when the own one, if any, is |
| SharedSessions.OneHandlerIsEnough | src/mcp_session_store.rs:45-51 | a session that one process handles is answered as if the others were not there |
| SharedSessions.DeletedElsewhereStillAnswers | src/mcp_session_store.rs:413-419 | a run after which one process answers a session that another deleted |
| Conversations.ConversationStore.Snapshot | src/chat.rs:129-143 | the transcript of the bound conversation, each turn its question and then its answer, refreshed; anything else is empty and changes nothing |
| Conversations.ConversationStore.RecentToolContext | src/chat.rs:149-176 | the last three non-empty summaries in order, joined and cut to the cap |
| Conversations.RecentSummaries | src/chat.rs:159-173 | walking back and reversing gives the last three non-empty summaries |
| Conversations.SummariesAreExact | src/chat.rs:159-173 | the summaries are those of the turns whose summary is not empty, in order |
| Conversations.JoinedInOrder | src/chat.rs:174 | the summaries are joined oldest first, a blank line between two |
| Conversations.ConversationStore.AppendTurn | src/chat.rs:181-224 | the turn is added with its summary capped, other repositories' turns are dropped, the oldest turns trimmed, at most the oldest conversation evicted |
| Conversations.AppendedTurnComesLast | src/chat.rs:195-212 | the new turn is last with its summary cut, before it come the latest turns of the same repository, forty in all |
| Conversations.AppendEvictsOnlyTheOldest | src/chat.rs:214-223 | an append evicts exactly when its id is new and the store full, and then the least recently used; every other conversation is as it was |
| Conversations.ConversationStore.DropConversation | src/chat.rs:227-229 | the conversation is gone |
| Conversations.ToolContextFits | src/chat.rs:149-176 | the replayed text is within its cap plus the marker |
| Conversations.EverySummaryFits | src/chat.rs:200-206 | every stored summary is within its cap plus the marker |
| Conversations.AppendIsExplained | src/chat.rs:181-224 | an append keeps the history relation and the cap, and never evicts the conversation it wrote |
| Conversations.EvictionIsExplained | src/chat.rs:214-223 | the evicted conversation was used before every other one |
| Conversations.StoredTurnsAreTheMostRecent | src/chat.rs:181-224 | after any history: at most 64 conversations, each holding the last 40 turns said since creation, repo change, eviction or close |
| EmbeddingCache.DecodeUndoesEncode | src/embedding/cache.rs:81-101 | every non-empty vector survives its file bit for bit; an empty one does not decode |
| EmbeddingCache.EncodeUndoesDecode | src/embedding/cache.rs:81-101 | a file decodes exactly when it is a non-empty multiple of four bytes, and re-encodes to itself |
| EmbeddingCache.EncodeEmbedding | src/embedding/cache.rs:81-87 | the loop writes the little-endian encoding |
| EmbeddingCache.EncodedBytes | src/embedding/cache.rs:81-87 | number `k` takes the four bytes from `4 * k` on, the least significant first |
| EmbeddingCache.DecodedWords | src/embedding/cache.rs:89-101 | number `k` is read from these bytes, the first weighing least |
| EmbeddingCache.MissesAreExact | src/embedding/cache.rs:113-153 | an index is reported as a miss once, exactly when it has no answer |
| EmbeddingCache.HitsAreExact | src/embedding/cache.rs:113-153 | an index is reported as a hit once, with its decoded file, exactly when it has that answer |
| EmbeddingCache.InOrderOfTexts | src/embedding/cache.rs:113-153 | hits and misses are in the order of the texts |
| EmbeddingCache.Cache.GetMany | src/embedding/cache.rs:113-153 | hits and misses as above; corrupt files are deleted, and no answer changes by it |
| EmbeddingCache.Cache.PutMany | src/embedding/cache.rs:160-201 | each file holds the last non-empty vector successfully written to it, and files never written are unchanged |
| EmbeddingCache.LastWriteIsOfTheText | src/embedding/cache.rs:160-201 | with an injective digest, the last write of a file is the last write of its text |
| EmbeddingCache.WriteThenRead | src/embedding/cache.rs:113-201 | after a write, every text written hits with its last embedding |
| EmbeddingCache.DimensionsKeepApart | src/embedding/cache.rs:31-60 | one model at two output dimensions never shares a directory |
| EmbeddingCache.DirectoryName | src/embedding/cache.rs:44-60 | the directory is the model, character by character with the others replaced, then `@`, itself kept or replaced, and the dimension |
| EmbeddingCache.ModelsShareADirectoryExactly | src/embedding/cache.rs:44-60 | any two models at any dimensions share a directory exactly when their keys have one length and agree at every position once sanitised |
| EmbeddingCache.ModelsMayShareADirectory | src/embedding/cache.rs:44-60 | two different models can |
| BatchIgnore.QueryPage | src/store/ops.rs:999-1025 | the page is the first matching rows behind the cursor in path order, and a short page is all there is |
| BatchIgnore.LessIsLexicographic | src/store/ops.rs:1010-1016 | the order of paths: the smaller character at the first difference, a prefix before what it begins |
| BatchIgnore.MarkPage | src/server.rs:946-974 | the page's relative paths are appended once each and persisted when the list grew |
| BatchIgnore.DeletePage | src/store/ops.rs:294-359 | table by table, `file_meta` last: a row owned by one of the page's files goes, an edge goes with either end among them, nothing else does; a failure leaves every table between its old and new rows |
| BatchIgnore.DeletingKeepsMarks | src/server.rs:959-983 | deleting marked files keeps "whatever row is gone, the file it went with is matched and marked": its own file, or one end of the edge |
| BatchIgnore.IgnorePage | src/server.rs:946-983 | one page commits whole, or at most rows that go with its files are half way, and every durable state is marked first |
| BatchIgnore.CursorMovesOver | src/server.rs:941-944 | advancing the cursor to the page's last path skips exactly the page |
| BatchIgnore.IgnoreFiles | src/server.rs:872-1016 | at every durable state each lost row went with a matching, marked file; at a normal exit the handled files are those with a row, a name and a match, of every table a file's own row stays exactly when the file is not handled, an edge when neither end is, and the list grew by exactly their relative forms; an error keeps these bounds with at most one page half way; `count` is the number of handled files; with no failure it exits normally |
| BatchIgnore.IgnoredCoversDeletedExactlyBelowTheRoot | src/server.rs:856-871 | the list covers every deleted file exactly when each has a relative form |
| BatchIgnore.ARowOutsideTheRootGoesUnmarked | src/server.rs:946-957 | a request with no failure that deletes a file and marks nothing |
| BatchIgnore.OtherFilesLoseExactlySharedEdges | src/store/ops.rs:299-330 | a file that was not handled loses a row exactly when it is an edge to a handled file |
| BatchIgnore.UntouchedExactlyWhenUnlinked | src/store/ops.rs:299-330 | it keeps every row exactly when it has no such edge |
| BatchIgnore.AnUnmatchedFileLosesAnEdge | src/store/ops.rs:299-330 | a request with no failure that takes an edge from a file it does not match |
| Generations.Server.RemoveIndex | src/engine_ops.rs:59-150 | the handler is a run of the step machine; on a failed write memory and directories are untouched; on success the repository's counter is one up and it stays listed exactly when it was and no drop was asked for, every other repository keeps its place and counter, in memory and on disk, and exactly its directory is removed if that works |
| Generations.Server.PutConfig | src/server.rs:321-421 | the client's counters are ignored; disk first, memory only on success |
| Generations.StepKeepsInv | src/engine_ops.rs:59-150 | every step, crashes, sweeps, opens and failed writes included, keeps memory behind disk and removed directories behind both |
| Generations.RunKeepsInv | src/engine_ops.rs:59-150 | over every orderly run the invariant holds and the generation opens resolve never goes back |
| Generations.RemovedIsOlder | src/store/mod.rs:1552-1585 | every directory ever removed is older than the durable and the live counter, so a snapshot never names one |
| Generations.SnapshotsAfterTheSwapAreNewer | src/engine_ops.rs:121-146 | after a DELETE swapped memory, no later snapshot names the directory it removes |
| Generations.BumpCarriesItsDrop | src/engine_ops.rs:95-119 | the durable counter rises only in the write that also drops the repo when asked to |
| Generations.ListedUntilDropped | src/engine_ops.rs:95-132 | over every run, overlapping handlers, crashes and late failures included, a repository listed on disk and in memory stays so until a config write omits it or its own DELETE drops it |
| Generations.LeavesTheListExactly | src/engine_ops.rs:95-119 | a step takes a repository off the durable list exactly when it writes a config that omits it, or the write of its own DELETE with the drop, or any DELETE while memory does not list it |
| Generations.CleanlyOnlyItsOwnDeleteDrops | src/engine_ops.rs:95-119 | after failures that left no effect the last case cannot occur |
| Generations.LateFailureUnlistsARepo | src/config.rs:880-896 | a config write that lands and still fails, then a DELETE of another repository that drops nothing: the added repository is gone |
| Generations.DurableNeverDecreases | src/engine_ops.rs:95-132 | over every orderly run whose failed writes leave no effect, the durable counter never decreases |
| Generations.PutKeepsCountersExactlyInSync | src/server.rs:343-351 | a config write keeps every durable counter exactly when memory and disk agree |
| Generations.DurableGoesBackExactly | src/engine_ops.rs:95-132 | a step takes the durable counter back exactly when it is a settings write that takes effect from a memory behind the disk, unless it is the DELETE of that repository itself |
| Generations.DurableNeverDecreasesExactly | src/engine_ops.rs:95-132 | over every orderly run, late failures included, the counter never decreases exactly when there is no such step |
| Generations.LateFailureLosesTheBump | src/config.rs:880-896 | a write that lands and still fails, then a config write: the counter goes back |
| Generations.AnotherDeleteLosesTheBump | src/engine_ops.rs:95-132 | the same write, then an orderly DELETE of another repository: the counter goes back |
| Generations.FreshOpensAreSafe | src/store/mod.rs:1587-1631 | while cached handles are current, no open is handed a removed directory |
| Generations.HandlesStayFreshExactlyWhen | src/indexing/mod.rs:837-860 | every step keeps handles current, except a DELETE's swap, which does exactly when nobody holds a handle or snapshot of the repo |
| Generations.OpensAreSafeExactlyWhenUnheld | src/indexing/mod.rs:837-860 | after a DELETE's swap no open is handed a removed directory, until the next DELETE, exactly when nobody held a handle or snapshot of the repo at the swap |
| Generations.StaleOpenPinsTheOldIndex | src/store/mod.rs:1587-1631 | an orderly run after which an open of the new generation is handed the removed one |
| Generations.OverlapLosesTheBump | src/server.rs:343-351 | an overlap of a PUT and a DELETE after which the next open gets the removed directory |
| HandlerOverlap.BumpSurvivesExactly | src/server.rs:343-394 | over every interleaving of one DELETE and one PUT with working writes: where the counters end, on disk and in memory, by the order of the reads, writes and swaps |
| Generations.DeleteOutlivesItsDirectoryExactlyBelowTheCeiling | src/engine_ops.rs:95-143 | the directory removed is older than the current one exactly below the `u32` ceiling |
| BlockMerge.Absorb | src/mcp.rs:464-489 | growing a run keeps its exact span, earliest index and whole statistics, and puts the new symbols behind the old |
| BlockMerge.MergeGroup | src/mcp.rs:454-498 | the pass absorbs the group in order, each run is gapless and well labelled, and no two neighbours join |
| BlockMerge.GroupByFile | src/mcp.rs:441-449 | each file's blocks in their original order |
| BlockMerge.CoverageIsExact | src/mcp.rs:430-529 | a line is covered for a file and a copies list in the output exactly when it was in the input |
| BlockMerge.MergeOverlappingBlocks | src/mcp.rs:430-529 | every input block is absorbed once; runs are ordered by earliest absorbed index, and the runs of a plain file (well-formed blocks with one copies list, none ending at the largest line number) are neither overlapping nor adjacent, whatever the map order |
| BlockMerge.SpansAreDetermined | src/mcp.rs:430-529 | in a file of well-formed blocks with one copies list, none ending at the largest line number, every merge has the same spans at the same positions |
| BlockMerge.StatsTravelTogether | src/mcp.rs:469-485 | a count comes with its own files and names from one absorbed block, and no absorbed block has a larger count |
| BlockMerge.SymbolsAreConserved | src/mcp.rs:486-488 | merging loses and invents no symbol |
| Utf8.TruncateBytes | src/chat.rs:235-244 | the text itself if it fits, else its longest prefix of whole characters within the bytes, with the marker |
| Utf8.LongestIsLongest | src/chat.rs:239-242 | no longer prefix of whole characters fits |
| Utf8.DecimalReadsBack | src/fs_tools.rs:448 | a number in text is digits that read as the number, without a leading zero |
| OutputBudget.PlaceBlock | src/mcp.rs:354-404 | one block goes within the budget in full, or as header, first line cut at 120 bytes and the elided line range, or not at all |
| OutputBudget.Assemble | src/mcp.rs:339-419 | the answer is the shown blocks by the budget rule plus, if any was not shown in full, the footer saying how many of how many, within the limit less the hint; `shown` stops at the first dropped block |
| OutputBudget.FullIsPrefix | src/mcp.rs:357-366 | the blocks shown in full are a prefix |
| OutputBudget.RuleIsDeterministic | src/mcp.rs:339-419 | the budget rule leaves no choice |
| OutputBudget.FooterFits | src/mcp.rs:408-416 | the footer fits its reserve for any counts |
| OutputBudget.FirstLineIsWhatComesFirst | src/mcp.rs:368-370 | the first line is all there is before the first line ending |
| OutputBudget.DefinedBeforeCalled | src/mcp.rs:276-283 | the candidates are what the first five blocks define, best block first, and only then what each of them calls, up to three usable names of each |
| OutputBudget.FirstGreppableIsExact | src/mcp.rs:278-283 | these three are the first usable ones, in order |
| OutputBudget.GreppableIsAnIdentifier | src/mcp.rs:89-99 | usable are names of 4 to 40 ASCII letters, digits and underscores that do not begin with a digit |
| OutputBudget.PickNames | src/mcp.rs:274-299 | the loop with its early exit picks the names the rule picks |
| OutputBudget.PickIsSound | src/mcp.rs:273-306 | at most five distinct identifiers from the candidates, at most 100 bytes of pattern |
| OutputBudget.PickIsGreedy | src/mcp.rs:284-298 | a usable candidate is left out only for want of room |
| OutputBudget.PickKeepsOrder | src/mcp.rs:284-298 | later candidates never displace earlier ones |
| OutputBudget.NoHintIffNothingUsable | src/mcp.rs:272-302 | there is no hint exactly when no candidate is usable |
| OutputBudget.PatternIsQuotable | src/mcp.rs:89-99 | the pattern holds only identifier characters and bars |
| OutputBudget.HintFits | src/mcp.rs:84-87 | the rendered hint fits its reserve |
| OutputBudget.AssembleWithGrepHint | src/mcp.rs:317-327 | blocks, footer and hint together stay within the output limit, the hint drawn from the blocks that appear |
| ReadPaging.RunRead | src/fs_tools.rs:420-470 | empty file, start past the end, or the page from the start line with the next start line suggested exactly when it stopped short |
| ReadPaging.PageShowsItsLines | src/fs_tools.rs:444-454 | read line by line, the body is the lines from the first to the last, each behind its number in the file |
| ReadPaging.PageMeetsBothCaps | src/fs_tools.rs:439-454 | a page is the one that meets the line cap and (unless it is one line) the byte cap and could not be one line longer |
| ReadPaging.EachPageIsARead | src/fs_tools.rs:439-465 | every page of the paging is the read from the line the page before suggested |
| ReadPaging.EveryLineOnce | src/fs_tools.rs:439-465 | each line from the first to the wanted one is on exactly one page |
| ReadPaging.PagesMakeTheFile | src/fs_tools.rs:439-465 | the pages put together are the range, nothing lost or repeated |
| GrepRegions.PushRegion | src/fs_tools.rs:342-356 | afterwards a line of the file is covered exactly when it was, or the band adds it; other files' lines are as they were; the list grows unless the band touches the last region of its file |
| GrepRegions.PushKeepsCover | src/fs_tools.rs:342-356 | adding a later match's band keeps regions increasing, separated and exactly covering |
| GrepRegions.BandIsAroundTheMatch | src/fs_tools.rs:282-287 | the band of a match is the lines of the file at most `context` away |
| GrepRegions.RecordedAreTheFirstMatches | src/fs_tools.rs:257-302 | a line is recorded exactly when it matches and fewer matches than the caps allow come before it |
| GrepRegions.ScanFile | src/fs_tools.rs:257-302 | a file appends regions covering exactly the clamped bands of its recorded matches, the first ones both caps allow |
| GrepRegions.RunGrep | src/fs_tools.rs:198-303 | every scanned file has exactly its own regions, matches total what the caps allow, and truncation is flagged exactly at a cap |
| GrepRegions.CoverageDecides | src/fs_tools.rs:342-356 | two separated region lists with the same coverage are the same list |
| KeyRotation.FirstPass | src/llm/keys.rs:137-150 | the pass tries the rotation in order, stops on a success or stop, and records which keys were limited |
| KeyRotation.RetryPass | src/llm/keys.rs:152-161 | the retry pass follows the rest of the plan |
| KeyRotation.KeyRing.Send | src/llm/keys.rs:122-174 | attempts are a prefix of the plan, all but the last retryable failures; the result is the last attempt's, wrapped exactly when a key was limited, with the exact count; no keys is an error; the cursor advances by one |
| KeyRotation.SecondAttemptsAreEarned | src/llm/keys.rs:140-161 | at most two attempts a key; a second one only after every key failed retryably, and only on a key whose first failure was no rate limit |
| KeyRotation.PassVisitsEachKeyOnce | src/llm/keys.rs:136-140 | a pass tries each key once |
| KeyRotation.RetriesAreTheUnlimited | src/llm/keys.rs:152-155 | the retry pass has exactly the keys that met no limit, each once |
| KeyRotation.RetriesAndLimits | src/llm/keys.rs:152-165 | the retries number the keys less the limited ones, so there are none exactly when all were limited |
| KeyRotation.PlanByPlace | src/llm/keys.rs:136-161 | the key at each place of the plan: the rotation first, then in the same order those that met no limit |
| KeyRotation.RateLimitIsCodeAndPhrase | src/llm/keys.rs:59-66 | a rate limit is an error whose text has the status code and one of the four phrases in it |
| KeyRotation.RequestsStartOnSuccessiveKeys | src/llm/keys.rs:135 | the next request starts on the next key, except where the cursor wraps unevenly |

## Left out

- HTTP, SSE, MCP, model and embedding transports, tracing, permissions and embedded assets: calls into code that is not part of this model.
- SurrealDB, RocksDB, tree-sitter, the `ignore`, `globset` and `regex` matchers and the digest: parameters or contracts. The content stamp of a shard file is taken to be injective.
- The pipeline's own work: a run is taken to publish exactly the rows it wrote.
- The single-file ignore handler deletes before it marks, so the marker-first result is about the batch handler only; to the warm fence the two are alike.
- BatchIgnore.IgnoreFiles: the initial read of the ignore list is taken to succeed. What each page does to the shard, the index epoch and the shard file is in `WarmFence`, where a failed deletion is a statement and not a step.
- Stale search, its snapshots and the incremental identity of the vector index. A shard's byte size is a function of its contents: mapped and in-memory shards are not told apart.
- WarmFence.LiveShardIsTheDatabase: an index run that begins between a removal's closing of the database and its clearing of the shards; a warm opens its database as it starts.
- FilterParity.FilterEqualsWalk: ignore files above the repository root, the global and exclude rules, symbolic links, names that are not valid Unicode and separator normalisation. Lower-casing of extensions is ASCII.
- RescanGate.Gate.Dispatch: the conversion of raw file events to changes.
- Recompute.RecomputeSlots.NoteIndexCompletion: a re-armed pass uses the database handle captured when its task was spawned, which may be older than the completion's.
- SessionStore.Store.Load: failed file operations and the wrap of the 64-bit clock. No bound on the number of session files is claimed, since a restart empties only memory.
- SessionStore.LoadAnswersTheLastStore: one process over its own directory; several over one are in `SharedSessions`, each call one step.
- Conversations.ConversationStore.AppendTurn: two calls never read the same clock value.
- Generations.RunKeepsInv: settings reloads, automatic registration and the router's own settings writes, and the reset of a corrupt index in place. Two DELETEs do not overlap each other.
- BlockMerge.MergeOverlappingBlocks: a build with overflow checks, which stops on a last line of the largest `u32` where the model wraps as a release build does; the re-read of merged content, the rebuilt header and the unification of path separators on Windows. Blocks of one file that carry different copies lists may stay apart although they overlap, because only the last run is compared.
- OutputBudget.BuildGrepHint: the choice of a block's own symbols, and line-ending normalisation of the template.
- ReadPaging.RunRead: path resolution, the binary and UTF-8 checks, and the wording around the body.
- GrepRegions.RunGrep: path scopes, globs and the rendered text. A skipped file still counts as scanned.
- KeyRotation.KeyRing.Send: the pause between the passes and the registry of shared cursors.
- Generic settings migration, the file tracker, retry backoff, the rebuild guard and import resolution: they would add only easy members, or depend on orders the code leaves open.
