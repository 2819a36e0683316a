# Code retrieval: a verified model

The repository indexes GitLab code into Elasticsearch and answers questions from it. This project
models the logic around the search engine and proves what that logic promises. The engine itself
appears as maps from ids to documents, with a version number where the code compares one.

How the parts fit together:

* **Communities.** `LabelPropagation`, `SynchronousPropagation` and `Communities` follow the detector
  from code edges to clusters of symbols: the adjacency relation, the sweeps that overwrite labels in
  place, the potential that makes them converge, and what the clusters have in common.
* **Jobs.** `JobStore` has the job documents and the methods on them; `JobProtocol` runs any number of
  workers and submitters over them, one store call at a time.
* **Indexing.** `SearchIndex` has documents, writes and interleavings of writes; `FileIndex` what one
  file contributes; `IncrementalIndexing` what one job does; `TreeProjection` when the index ends up as
  the new tree demands; `SharedSymbols` the one kind of document for which that can fail, with the exact
  condition; `ReferentialIntegrity` the links between documents; `IndexingService` the methods that
  change the index in place.
* **Both together.** `AtLeastOnce` lets the workers of the protocol issue the index writes one by one,
  crash, fail and be replaced, and shows that a job that succeeded left what one run leaves.
* **Retrieval, chunking and the rest.** `QueryCache`, `Fusion`, `TextWindows`, `SecretSpans`,
  `MarkdownChunks`, `RateLimiter`, `TreeWalks`, `PythonChunks`, `Ndcg`.

What the model takes as given: a SHA-256 digest determines its text; the ids that the code hashes
from several parts determine those parts; parsing, regular expressions, classification and embedding
are functions of their input; a search sees all earlier writes. Times are parameters.

Where code and documentation differ, the model follows the code:

* The class comment of the detector says the propagation is synchronous. The code overwrites labels
  during a sweep, and it has to: `SynchronousPropagation` shows that a synchronous update would never
  settle on two linked symbols.
* The module comment of the Python chunker says one chunk per class, function or method. Definitions
  nested in a function get none (`PythonChunks.ChunksAreTheDefinitions`).

Properties that one might expect and that fail, each with its exact condition:

* The symbol of an FQN that two files define can be lost: `SharedSymbols.SymbolKeptIff`.
* A worker can lose its job to another, or two can be at one job. `JobProtocol.LockedIffNoneUsurps` is exact for
  every worker being alone and holding its lock. A lost lock does not yet put two workers at one job, since a
  submitter can overwrite the record of a running job that nobody then claims; for that `ExclusionIffNoneJoins`
  is exact.
* A smaller cache can hit where a larger one misses: `QueryCache.LargerMissesIff`.
* A match can be redacted in part only: `SecretSpans.AlwaysCoveredIff` says for which findings, `FullyCoveredIff` where.
* nDCG can exceed 1: `Ndcg.AtMostOneIff`.
* Markdown text before the first heading is in no chunk: `MarkdownChunks.SectionsKeepAllButThePreamble`.

`dafny verify dfyconfig.toml` checks everything.

## Model

| member | source | states |
|---|---|---|
| `LabelPropagation.MostFrequent` | src/code_rag/apps/communities/community_detector.py:102-105 | picks the neighbour label that beats every other under (most votes, then smallest label) |
| `LabelPropagation.BestIsUnique` | src/code_rag/apps/communities/community_detector.py:103-105 | the choice does not depend on the order in which neighbours are counted |
| `LabelPropagation.ChangeImproves` | src/code_rag/apps/communities/community_detector.py:106-108 | a label change makes more edges agree, or leaves as many and gives the node a smaller label |
| `LabelPropagation.EnergyBound` | src/code_rag/apps/communities/community_detector.py:92-111 | the potential of a labelling of n symbols is at most n^4 + 2 n^2 |
| `LabelPropagation.ChangesBound` | src/code_rag/apps/communities/community_detector.py:106-108 | so in any number of sweeps over n symbols at most that many labels change |
| `LabelPropagation.SweepLowersEnergy` | src/code_rag/apps/communities/community_detector.py:98-108 | a sweep changes nothing or lowers the potential, so sweeps never cycle |
| `LabelPropagation.FixedIffSettled` | src/code_rag/apps/communities/community_detector.py:109-110 | a sweep changes nothing if and only if every node with neighbours already carries its best neighbour label |
| `LabelPropagation.ConvergesWithoutCap` | src/code_rag/apps/communities/community_detector.py:92-111 | without the cap of 20 the sweeps reach such a labelling and stay there |
| `LabelPropagation.SweepInPlace` | src/code_rag/apps/communities/community_detector.py:97-108 | the inner loop is one in-place sweep, and `changed` says exactly whether any label differs |
| `LabelPropagation.BreakIsFinal` | src/code_rag/apps/communities/community_detector.py:109-110 | breaking early gives what all remaining sweeps would give |
| `LabelPropagation.Propagate` | src/code_rag/apps/communities/community_detector.py:92-111 | the labels after 20 in-place sweeps; settled whenever one of them was idle |
| `SynchronousPropagation.SynchronousNeverSettles` | src/code_rag/apps/communities/community_detector.py:10-16 | the synchronous update the class comment names would swap the labels of two linked symbols for ever |
| `SynchronousPropagation.InPlaceSettlesAtOnce` | src/code_rag/apps/communities/community_detector.py:98-110 | the update in place joins the same two symbols in its first sweep |
| `Communities.LastSegmentIsSuffix` | src/code_rag/apps/communities/community_detector.py:64 | the trailing name is the longest suffix without a dot |
| `Communities.Resolve` | src/code_rag/apps/communities/community_detector.py:79-90 | a target resolves to the symbol of that FQN, else to the only symbol with its last segment, else to none |
| `Communities.BuildAdjacency` | src/code_rag/apps/communities/community_detector.py:57-77 | two symbols are adjacent exactly if some edge between them resolves |
| `Communities.AdjacencyUndirected` | src/code_rag/apps/communities/community_detector.py:65-77 | the relation is symmetric, loop-free and closed over the known symbols |
| `Communities.AdjacencyIgnoresOrder` | src/code_rag/apps/communities/community_detector.py:66-77 | permuting or repeating edges changes nothing |
| `Communities.LabelsInComponent` | src/code_rag/apps/communities/community_detector.py:94-111 | after any number of sweeps a label names a node of the same connected component |
| `Communities.SameLabelConnected` | src/code_rag/apps/communities/community_detector.py:38-40 | two symbols of one community are connected |
| `Communities.IsolatedStaysSingleton` | src/code_rag/apps/communities/community_detector.py:99-101 | a symbol without neighbours keeps its own label and shares it with nobody |
| `Communities.GroupByLabel` | src/code_rag/apps/communities/community_detector.py:38-40 | the groups are exactly the label classes |
| `Communities.ReportedAreTheBest` | src/code_rag/apps/communities/community_detector.py:123-126 | the reported members, as many as the settings allow, come in strictly falling rank (more neighbours, then smaller name) and each outranks all that are left out |
| `Communities.Handshake` | src/code_rag/apps/communities/community_detector.py:157 | degree sum of a member set = twice its internal edges plus its boundary edges |
| `Communities.EdgeCount` | src/code_rag/apps/communities/community_detector.py:157 | the edge count is the internal edges plus half the boundary edges, rounded down; exact for a closed set |
| `Communities.ComponentClosed` | src/code_rag/apps/communities/community_detector.py:157 | a whole component is closed, so its edge count is exact |
| `Communities.BuildCommunities` | src/code_rag/apps/communities/community_detector.py:41-55 | one community for every label class of the minimum size, and no other |
| `Communities.CommunitiesDisjoint` | src/code_rag/apps/communities/community_detector.py:38-55 | communities of different labels share no symbol |
| `Communities.Detect` | src/code_rag/apps/communities/community_detector.py:22-55 | the communities returned are exactly the large enough label classes: disjoint, connected, with their sizes, edge counts and best connected members in order, the representative outranking all others |
| `Common.SortedIsStable` | src/code_rag/apps/secrets/secret_scanner.py:86-93 | elements none of which has to precede another keep their order, as in the sort of the source |
| `JobStore.JobIndex.EnqueueJob` | src/code_rag/adapters/elasticsearch/_jobs.py:38-65 | a live or succeeded job is adopted, a failed one overwritten, a missing one created |
| `JobStore.JobIndex.ClaimFromHits` | src/code_rag/adapters/elasticsearch/_jobs.py:91-113 | the first hit whose version is still current is claimed; stale hits before it are skipped, and nothing else changes |
| `JobStore.JobIndex.ClaimNextJob` | src/code_rag/adapters/elasticsearch/_jobs.py:67-113 | alone at work, it claims an oldest job that is queued or running past its lock, and none exactly if there is none; every field of the new record is given |
| `JobStore.OldestFirst` | src/code_rag/adapters/elasticsearch/_jobs.py:87-90 | the first of up to ten sorted hits is an oldest claimable job |
| `JobStore.JobIndex.FinishJob` | src/code_rag/adapters/elasticsearch/_jobs.py:115-130 | the result is filed; a missing job is then refused; of any other the record says field by field succeeded or failed by the result, its error, no lock, all else as before, and no other job changes |
| `JobStore.JobIndex.FailJob` | src/code_rag/adapters/elasticsearch/_jobs.py:136-148 | a missing job is refused; any other is failed with the error and its old result, without a lock, all else as before, and no other job changes |
| `JobProtocol.UninterruptedTriesClaim` | src/code_rag/adapters/elasticsearch/_jobs.py:91-113 | the single steps of a claim loop, when nobody interrupts them, do what the claim method does |
| `JobProtocol.UninterruptedEnqueue` | src/code_rag/adapters/elasticsearch/_jobs.py:38-65 | so do the read and the write of an enqueue |
| `JobProtocol.EveryRunIsSafe` | src/code_rag/adapters/elasticsearch/_jobs.py:38-113 | in any interleaving, with any clocks: only queued or expired running records are claimed, no version twice, and `attempts` counts the claims since the last enqueue write |
| `JobProtocol.UnfinishedJobsAreClaimable` | src/code_rag/adapters/elasticsearch/_jobs.py:69-98 | a job that neither succeeded nor failed can be claimed at once or when its recorded lock time has passed, wherever workers crash |
| `JobProtocol.EndingEnds` | src/code_rag/adapters/elasticsearch/_jobs.py:115-148 | a worker that finishes or fails a job leaves it succeeded or failed, succeeded exactly with a successful result |
| `JobProtocol.EndedIsNotClaimable` | src/code_rag/adapters/elasticsearch/_jobs.py:69-148 | over whole runs with any clocks: a job that has ended stays ended and nobody can claim it at any time, until it is submitted anew |
| `JobProtocol.NoClaimWhileExecuting` | src/code_rag/adapters/elasticsearch/_jobs.py:100-112 | with one clock and workers within their locks, a current hit is never a job being executed |
| `JobProtocol.ClaimKeepsExclusionIff` | src/code_rag/adapters/elasticsearch/_jobs.py:91-113 | a claim breaks exclusion if and only if it takes a job whose holder is past its lock at the search time |
| `JobProtocol.WriteKeepsLocksIff` | src/code_rag/adapters/elasticsearch/_jobs.py:43-50 | a submitter leaves every lock in place if and only if the record it overwrites is not being executed |
| `JobProtocol.LockedIffNoneUsurps` | src/code_rag/apps/jobs/index_job_queue.py:76-114 | over whole runs, with any clocks and submitters: every worker was alone and held its lock if and only if no step took a job away in one of these two ways |
| `JobProtocol.ExclusionIffNoneJoins` | src/code_rag/adapters/elasticsearch/_jobs.py:67-113 | over whole runs, with any clocks and submitters: no two workers are at one job if and only if no claim takes a job another is at, which is then queued again or past its stored lock |
| `JobProtocol.DisciplineForbidsUsurping` | src/code_rag/adapters/elasticsearch/_jobs.py:67-113 | a shared clock, workers within their locks and submitters apart are enough for that |
| `JobProtocol.EveryDisciplinedRunIsGuarded` | src/code_rag/adapters/elasticsearch/_jobs.py:38-152 | each executing worker holds the stored lock of its job, throughout a disciplined run |
| `JobProtocol.AtMostOneWorkerPerJob` | src/code_rag/apps/jobs/index_job_queue.py:76-114 | mutual exclusion under that discipline: at most one worker is between claim and finish or fail of a job |
| `JobProtocol.SucceededIsFinal` | src/code_rag/adapters/elasticsearch/_jobs.py:38-41 | in a disciplined run the record of a succeeded job never changes again |
| `JobProtocol.SlowWorkerBreaksExclusion` | src/code_rag/adapters/elasticsearch/_jobs.py:79 | a concrete run: a worker that outlives its lock shares its job with another |
| `JobProtocol.RacingSubmittersBreakExclusion` | src/code_rag/adapters/elasticsearch/_jobs.py:39-50 | a concrete run: two overwrites of one failed record lose exclusion although every lock is in time |
| `SearchIndex.LastWriteDecides` | src/code_rag/adapters/elasticsearch/_indexing.py:89-133 | deletes of other files cannot touch a document, so its last relevant write decides it |
| `SearchIndex.WithoutPuts` | src/code_rag/adapters/elasticsearch/_indexing.py:89-133 | a document nothing writes survives exactly if no delete query matches it |
| `SearchIndex.LastRelevantOfInterleaving` | src/code_rag/apps/indexing/indexing_service.py:215-223 | the last relevant write of interleaved workers is the last one of some worker |
| `FileIndex.WritesExact` | src/code_rag/apps/chunking/chunk_builder.py:101-120 | which chunk, symbol and edge documents a file yields, with withheld chunks taking their symbols and edges along |
| `FileIndex.FqnText` | src/code_rag/apps/chunking/chunk_builder.py:161-172 | the FQN is the repository, the module and the enclosing names, each with a dot unless it is empty, and then the name |
| `FileIndex.SameFqnIff` | src/code_rag/apps/chunking/chunk_builder.py:161-172 | two definitions of one name in a file have the same FQN if and only if they have the same parent |
| `FileIndex.ChunksWritten` | src/code_rag/apps/indexing/indexing_service.py:256-262 | a chunk document is written exactly for the raw chunks whose id is not withheld for a high-confidence secret, with the redacted text, its hash and its vector |
| `FileIndex.SymbolsWritten` | src/code_rag/apps/chunking/chunk_builder.py:249-274 | a symbol document is written exactly for the named raw chunks not withheld, under the FQN, defined in its own chunk |
| `FileIndex.EdgesWritten` | src/code_rag/apps/chunking/chunk_builder.py:276-326 | an edge document is written exactly for the targets found in raw chunks not withheld, from its chunk to that target |
| `FileIndex.FileDocWritten` | src/code_rag/adapters/elasticsearch/_indexing.py:37-55 | the file document comes first, is the only one, and lists the chunk ids and FQNs of the writes that follow, in their order |
| `FileIndex.FileWritesAreOwn` | src/code_rag/apps/chunking/chunk_builder.py:249-326 | every document written for a file belongs to that file alone |
| `FileIndex.IndexFileLastRelevant` | src/code_rag/apps/indexing/indexing_service.py:239-267 | indexing a file settles each of its documents, whatever was stored before |
| `FileIndex.FileTarget` | src/code_rag/adapters/elasticsearch/_indexing.py:37-55 | the stored file document records the digest of the content |
| `IncrementalIndexing.PlanExact` | src/code_rag/apps/indexing/indexing_service.py:101-137 | which paths a change list deletes and which it indexes |
| `IncrementalIndexing.ExecutionOps` | src/code_rag/apps/indexing/indexing_service.py:97-138 | an execution issues writes of its job only, and every delete of a touched file |
| `IncrementalIndexing.ExecutionLastRelevant` | src/code_rag/apps/indexing/indexing_service.py:101-138 | whatever the pool interleaves, the last relevant write of a document is that of its file |
| `IncrementalIndexing.JobTraceOutcome` | src/code_rag/apps/indexing/indexing_service.py:97-138 | crashed attempts and any interleaving of complete ones leave one determined document at each id |
| `IncrementalIndexing.ReExecutionIsHarmless` | src/code_rag/apps/indexing/indexing_service.py:97-138 | so re-executing a job leaves what a single run leaves |
| `IncrementalIndexing.FilesAfter` | src/code_rag/apps/indexing/indexing_service.py:97-138 | after an execution the index lists a file to be indexed with its digest, no other touched file, and every other as before |
| `IncrementalIndexing.ChangeMeans` | src/code_rag/apps/indexing/indexing_service.py:101-130 | of one change: the new file is listed exactly if it is in the tree and to be indexed; a deleted or renamed file is gone unless some change puts it back |
| `IncrementalIndexing.OtherFilesStay` | src/code_rag/apps/indexing/indexing_service.py:101-138 | a file that no change mentions stays as it is |
| `TreeProjection.OnlySymbolsContested` | src/code_rag/apps/chunking/chunk_builder.py:176-186 | file, chunk and edge documents are written by one file only |
| `TreeProjection.CompleteDiffIsAdequate` | src/code_rag/apps/indexing/indexing_service.py:101-130 | a change list that covers every differing path is adequate, rename swaps and re-adds included |
| `TreeProjection.OutcomeIsExpected` | src/code_rag/apps/indexing/indexing_service.py:101-138 | the outcome of an adequate job on the old projection is the new projection |
| `TreeProjection.IncrementalReachesNewTree` | src/code_rag/apps/indexing/indexing_service.py:83-138 | an index that reflects the old tree reflects the new one after the job, however executed and repeated |
| `TreeProjection.AdequateIffFilesReflected` | src/code_rag/apps/indexing/indexing_service.py:101-138 | the new file documents result if and only if the change list deals with every path |
| `TreeProjection.OtherScopesUntouched` | src/code_rag/adapters/elasticsearch/_indexing.py:89-133 | nothing outside the project and branch changes |
| `TreeProjection.PushesReachLastTree` | src/code_rag/apps/indexing/indexing_service.py:83-138 | after any sequence of pushes the index reflects the last tree |
| `SharedSymbols.PresenceOfSharedDocument` | src/code_rag/apps/chunking/chunk_builder.py:249-254 | with any number of files writing one symbol id, whether a document remains is still determined |
| `SharedSymbols.SharedDocumentIsSomeTarget` | src/code_rag/apps/indexing/indexing_service.py:215-223 | what remains is the definition that one of the indexed files gives, never a stale one |
| `SharedSymbols.SymbolKeptIff` | src/code_rag/apps/chunking/chunk_builder.py:161-172 | the index goes on holding a definition of the new tree if and only if that has none, or the job indexes a defining file, or it leaves the stored one alone |
| `SharedSymbols.PushesKeepSymbolIff` | src/code_rag/apps/indexing/indexing_service.py:83-138 | over any sequence of pushes it holds a definition of each tree in turn if and only if every push keeps one |
| `SharedSymbols.SharedFqnLosesSymbol` | src/code_rag/apps/indexing/indexing_service.py:102-110 | deleting `tool.ts` loses the symbol `tool.py` still defines: a concrete index and run |
| `ReferentialIntegrity.DeleteFileRemoves` | src/code_rag/adapters/elasticsearch/_indexing.py:89-133 | the four delete requests remove what lies in the scope and has the file as its path or as the target path of an edge, and nothing else |
| `ReferentialIntegrity.ReplaceKeepsIntegrity` | src/code_rag/apps/indexing/indexing_service.py:256-266 | replacing a file keeps every definition and source chunk live, also when secret chunks are withheld |
| `ReferentialIntegrity.CallsKeepIntegrity` | src/code_rag/adapters/elasticsearch/_indexing.py:24-133 | so does any sequence of completed replaces and deletes |
| `ReferentialIntegrity.PruneRemovesDangling` | src/code_rag/adapters/elasticsearch/_indexing.py:203-244 | pruning removes exactly the dangling edges among the aggregated source ids |
| `ReferentialIntegrity.PruneRestoresEdges` | src/code_rag/adapters/elasticsearch/_indexing.py:203-244 | up to 50,000 source ids no dangling edge is left |
| `ReferentialIntegrity.PruneIsIdle` | src/code_rag/adapters/elasticsearch/_indexing.py:228-230 | with all links live pruning changes nothing |
| `IndexingService.CodeIndex.DeleteFile` | src/code_rag/adapters/elasticsearch/_indexing.py:89-133 | the new index, and the count of removed documents without the edges |
| `IndexingService.CodeIndex.PruneOrphanedEdges` | src/code_rag/adapters/elasticsearch/_indexing.py:203-244 | the new index and the number of edges removed |
| `IndexingService.CodeIndex.SelectReusable` | src/code_rag/apps/indexing/indexing_service.py:272-284 | a stored vector is reused exactly where the hash of the input agrees; the rest is requested in order |
| `IndexingService.RequestsAtTheExtremes` | src/code_rag/apps/indexing/indexing_service.py:272-289 | nothing is requested if reuse is on and every hash is stored; everything is, in order, if reuse is off or no hash is |
| `IndexingService.CodeIndex.AttachEmbeddings` | src/code_rag/apps/indexing/indexing_service.py:269-299 | reuse is invisible: every chunk gets the embedding of its own text, and each requested one is used once |
| `IndexingService.IndexFileKeepsSound` | src/code_rag/apps/indexing/indexing_service.py:265-299 | storing the chunks keeps every stored vector the embedding of its hashed text |
| `IndexingService.CodeIndex.IndexFile` | src/code_rag/apps/indexing/indexing_service.py:239-267 | the new index is as if every chunk had been embedded afresh; the three results reported |
| `IndexingService.SequentialIsExecution` | src/code_rag/apps/indexing/indexing_service.py:210-213 | one worker indexing file after file is one of the executions |
| `IndexingService.ReadChanges` | src/code_rag/apps/indexing/indexing_service.py:101-130 | the loop over the changes deletes at once and collects the other paths |
| `IndexingService.IncrementalIndexProject` | src/code_rag/apps/indexing/indexing_service.py:83-138 | what the method does to the index is an execution of the job |
| `AtLeastOnce.EveryRunKeepsInv` | src/code_rag/apps/jobs/index_job_queue.py:76-114 | claims, crashes, failures and single index writes of many workers keep the index of the branch equal to what the writes of the job made of it |
| `AtLeastOnce.SucceededMeansSingleRun` | src/code_rag/apps/jobs/index_job_queue.py:88-114 | once a job has succeeded, in any run in which none was usurped, its branch is as one undisturbed run would have left it |
| `AtLeastOnce.SucceededReflectsTree` | src/code_rag/apps/indexing/indexing_service.py:83-138 | from the queue to the tree: at a succeeded job an index that reflected the old tree reflects the new one |
| `AtLeastOnce.SucceededKeepsSymbolIff` | src/code_rag/apps/indexing/indexing_service.py:83-138 | and of a symbol of several files it holds a definition of the new tree if and only if the job keeps one |
| `AtLeastOnce.EmbeddingsStaySound` | src/code_rag/apps/indexing/indexing_service.py:269-299 | in every state of every run the stored vectors of the branch belong to their hashes, so what is reused in the middle of a run is what would be computed |
| `AtLeastOnce.DisciplinedUsurpsNothing` | src/code_rag/apps/jobs/index_job_queue.py:76-114 | with a shared clock, workers within their locks and submitters apart nothing is usurped |
| `TextWindows.FixedSizeChunks` | src/code_rag/apps/chunking/strategies/text_chunker.py:18-41 | the nested loops end for every setting and emit for each window one chunk: its lines counted from 1, their text, no name |
| `TextWindows.GreedyIsMonotone` | src/code_rag/apps/chunking/strategies/text_chunker.py:27-30 | a later start never ends earlier |
| `TextWindows.WindowsAreChained` | src/code_rag/apps/chunking/strategies/text_chunker.py:23-41 | starts strictly increase, ends never decrease, no line is skipped |
| `TextWindows.WindowsShare` | src/code_rag/apps/chunking/strategies/text_chunker.py:39-40 | a window shares with the next exactly min(overlap, its lines - 1) lines |
| `TextWindows.EveryLineIsCovered` | src/code_rag/apps/chunking/strategies/text_chunker.py:18-41 | every line is in a window |
| `TextWindows.DroppingOverlapsRebuilds` | src/code_rag/apps/chunking/strategies/text_chunker.py:39-40 | dropping the overlaps gives back the lines |
| `TextWindows.ChunkSize` | src/code_rag/apps/chunking/strategies/text_chunker.py:27-30 | a chunk without its last line is below the limit; only the last may fall short of it |
| `TextWindows.WindowsAfterTheEnd` | src/code_rag/apps/chunking/strategies/text_chunker.py:23-40 | after the first window that reaches the end, exactly min(overlap, lines left - 1) windows follow, all of them suffixes |
| `TextWindows.NoLimitNoText` | src/code_rag/apps/chunking/strategies/text_chunker.py:27 | with a limit of zero or less there is one chunk without text for every line |
| `MarkdownChunks.Sections` | src/code_rag/apps/chunking/strategies/text_chunker.py:54-59 | one section for each heading, up to the next |
| `MarkdownChunks.SectionsKeepAllButThePreamble` | src/code_rag/apps/chunking/strategies/text_chunker.py:54-71 | the sections hold the whole text if and only if it starts with a heading |
| `MarkdownChunks.SplitJoined` | src/code_rag/apps/chunking/strategies/text_chunker.py:49 | joining lines and splitting the text again loses one blank last line and nothing else |
| `MarkdownChunks.SplitLargeChunks` | src/code_rag/apps/chunking/strategies/text_chunker.py:43-50 | what splitting stands for; without a chunk over the limit the result is the list itself |
| `MarkdownChunks.EachInItsPlace` | src/code_rag/apps/chunking/strategies/text_chunker.py:43-50 | each chunk is treated in its place: within the limit it stays, over it the windows of its lines stand there |
| `MarkdownChunks.TitleIsTrimmed` | src/code_rag/apps/chunking/strategies/text_chunker.py:60 | the title is what is left between the hashes with the white space around, and none if nothing is |
| `MarkdownChunks.LongSectionIsRebuilt` | src/code_rag/apps/chunking/strategies/text_chunker.py:43-50 | a long section is cut into windows of its own lines, which rebuild all but a blank last one |
| `MarkdownChunks.Markdown` | src/code_rag/apps/chunking/strategies/text_chunker.py:52-71 | what the strategy stands for; each section within the limit is a chunk with its lines counted from 1, their text and the title |
| `MarkdownChunks.ShortSectionsAreTheChunks` | src/code_rag/apps/chunking/strategies/text_chunker.py:52-71 | with every section within the limit the chunks are the sections, one for each heading, in order |
| `SecretSpans.SortedIsInOrder` | src/code_rag/apps/secrets/secret_scanner.py:86-93 | the findings are in the order of (start, confidence, longer first) |
| `SecretSpans.TestingTheLastIsEnough` | src/code_rag/apps/secrets/secret_scanner.py:94-97 | testing against all kept findings decides what testing against the last one decides |
| `SecretSpans.Dedupe` | src/code_rag/apps/secrets/secret_scanner.py:83-99 | the kept findings, start-sorted and disjoint, from among those found |
| `SecretSpans.DedupeKeepsTheBest` | src/code_rag/apps/secrets/secret_scanner.py:86-99 | a dropped finding starts inside a kept one; of those starting together one of the highest confidence, and of those the longest, is kept |
| `SecretSpans.Scan` | src/code_rag/apps/secrets/secret_scanner.py:53-67 | the findings kept of those of all patterns, apart and each at its line |
| `SecretSpans.EveryMatchIsFound` | src/code_rag/apps/secrets/secret_scanner.py:53-67 | every match is found, from the start to the end of group 2, or of the match without one, on the line one more than the newlines before it |
| `SecretSpans.EveryFindingIsOfAMatch` | src/code_rag/apps/secrets/secret_scanner.py:53-67 | nothing else is found |
| `SecretSpans.EveryMatchStartIsKept` | src/code_rag/apps/secrets/secret_scanner.py:53-67 | group 2 of every match, or the match without one, starts inside a kept finding |
| `SecretSpans.FullyCoveredIff` | src/code_rag/apps/secrets/secret_scanner.py:86-98 | some of a finding is not redacted if and only if a kept finding ends inside it and nothing found starts there |
| `SecretSpans.MatchRedactedIff` | src/code_rag/apps/secrets/secret_scanner.py:53-67 | the same for every match of every pattern |
| `SecretSpans.NothingCutShort` | src/code_rag/apps/secrets/secret_scanner.py:86-98 | if of two overlapping findings the earlier in the sort always reaches as far, all of every finding is redacted |
| `SecretSpans.AlwaysCoveredIff` | src/code_rag/apps/secrets/secret_scanner.py:83-99 | of any findings drawn from a list all are redacted in full if and only if the list meets that condition |
| `SecretSpans.EveryMatchRedacted` | src/code_rag/apps/secrets/secret_scanner.py:53-76 | so if the findings meet it every position of group 2 of every match is redacted, and every position of a match without one |
| `SecretSpans.LongerFindingMayShow` | src/code_rag/apps/secrets/secret_scanner.py:86-93 | an input that fails it: of two findings with one start the more confident is kept, and what the longer has beyond it is not redacted |
| `SecretSpans.KeptLinesAscend` | src/code_rag/apps/secrets/secret_scanner.py:61 | kept findings come in the order of their lines |
| `SecretSpans.SpliceOneMore` | src/code_rag/apps/secrets/secret_scanner.py:74-75 | one splice from the right takes the rebuilt text one finding further |
| `SecretSpans.RebuiltAround` | src/code_rag/apps/secrets/secret_scanner.py:10-75 | one finding: its text gives way to [REDACTED_SECRET] and what is around it stays |
| `SecretSpans.Redact` | src/code_rag/apps/secrets/secret_scanner.py:69-76 | splicing from the right equals one pass from the left, with the exact length |
| `SecretSpans.ScanAndRedact` | src/code_rag/apps/secrets/secret_scanner.py:69-76 | the text rebuilt around the kept findings of all matches; without any all of it |
| `RateLimiter.SlidingWindowRateLimiter.Allow` | src/code_rag/apps/ratelimit/rate_limiter.py:24-40 | the answer and the new buckets; a limiter without a positive maximum allows and records nothing |
| `RateLimiter.KeysAreIndependent` | src/code_rag/apps/ratelimit/rate_limiter.py:34-40 | a key sees what it would see alone |
| `RateLimiter.LiveBucketIsWindow` | src/code_rag/apps/ratelimit/rate_limiter.py:35-36 | the live bucket is exactly the requests allowed in (now - W, now] |
| `RateLimiter.DeniedIffWindowFull` | src/code_rag/apps/ratelimit/rate_limiter.py:37-40 | a request is denied if and only if that window holds the maximum, and then leaves no trace |
| `RateLimiter.NeverMoreThanMax` | src/code_rag/apps/ratelimit/rate_limiter.py:27-40 | no interval of the length of the window holds more than the maximum |
| `RateLimiter.EveryKeyStaysWithinTheLimit` | src/code_rag/apps/ratelimit/rate_limiter.py:27-40 | so over any run of requests of any keys |
| `QueryCache.EmbeddingCache.CachedQueryEmbedding` | src/code_rag/apps/retrieval/retrieval_service.py:197-227 | the embedding of the query and the new cache; switched off, the cache is not touched |
| `QueryCache.AnswerIsTouchThenTrim` | src/code_rag/apps/retrieval/retrieval_service.py:203-219 | hit, expired or miss, the key order moves in one way |
| `QueryCache.CacheIsLastDistinct` | src/code_rag/apps/retrieval/retrieval_service.py:197-219 | the keys are the last C distinct queries by recency, whatever the times and the ttl |
| `QueryCache.CachedIff` | src/code_rag/apps/retrieval/retrieval_service.py:197-219 | a query is cached if and only if fewer than C others were asked since it was |
| `QueryCache.LargerCacheContainsSmaller` | src/code_rag/apps/retrieval/retrieval_service.py:197-219 | a larger cache holds the keys of a smaller one, in order |
| `QueryCache.HitIff` | src/code_rag/apps/retrieval/retrieval_service.py:203-213 | a query is answered from the cache if and only if it is held and its entry, dated by the calls, has not run out |
| `QueryCache.LargerMissesIff` | src/code_rag/apps/retrieval/retrieval_service.py:203-213 | exactly when a smaller cache hits and a larger misses: the smaller holds the query and only the entry of the larger has run out |
| `QueryCache.HitsNestUnlessEvicted` | src/code_rag/apps/retrieval/retrieval_service.py:203-219 | unless a query was asked while only the larger held it, what the smaller answers the larger answers |
| `QueryCache.LargerCacheCanMiss` | src/code_rag/apps/retrieval/retrieval_service.py:206-212 | a concrete run in which the smaller hits and the larger misses |
| `QueryCache.InterleavingIsSafe` | src/code_rag/apps/retrieval/retrieval_service.py:202-219 | in any interleaving of the two locked regions size and values stay right |
| `Fusion.RankingShape` | src/code_rag/apps/retrieval/retrieval_service.py:262-265 | each id once, nothing else, by descending score |
| `Fusion.ScoreIgnoresListOrder` | src/code_rag/apps/retrieval/retrieval_service.py:258-261 | scores do not depend on the order of the lists |
| `Fusion.OneMoreHit` | src/code_rag/apps/retrieval/retrieval_service.py:255-261 | a hit adds 1 / (60 + its rank) to the score of its id and nothing to that of others |
| `Fusion.AddedListNeverLowers` | src/code_rag/apps/retrieval/retrieval_service.py:160-168 | one more list lowers no score and raises exactly those of its ids |
| `Fusion.DominantRanksAbove` | src/code_rag/apps/retrieval/retrieval_service.py:255-265 | an id before another in every list that has the other is ranked above it |
| `Fusion.Gather` | src/code_rag/apps/retrieval/retrieval_service.py:256-261 | the exact sums of 1 / (60 + rank) and the first hit of each id |
| `Fusion.Fuse` | src/code_rag/apps/retrieval/retrieval_service.py:255-265 | the hits in the specified ranking with the exact scores; no other hit is modified |
| `TreeWalks.PopAndPush` | src/code_rag/apps/chunking/tree_sitter_chunker.py:204-211 | popping a node and pushing its children leaves what follows it in right-to-left preorder |
| `TreeWalks.CollectImports` | src/code_rag/apps/chunking/tree_sitter_chunker.py:200-212 | the first N distinct imports of that preorder |
| `TreeWalks.StoppedEarly` | src/code_rag/apps/chunking/tree_sitter_chunker.py:237 | stopping with enough values gives what cutting off afterwards gives |
| `TreeWalks.CollectReferences` | src/code_rag/apps/chunking/tree_sitter_chunker.py:233-245 | the first N distinct identifiers of that preorder |
| `TreeWalks.CollectCallsInto` | src/code_rag/apps/chunking/tree_sitter_chunker.py:220-231 | the shared list grows by the calls of the node, left to right, without those of nested definitions |
| `TreeWalks.CollectCalls` | src/code_rag/apps/chunking/tree_sitter_chunker.py:214-218 | the first N distinct of those |
| `TreeWalks.CalledIff` | src/code_rag/apps/chunking/tree_sitter_chunker.py:220-231 | a name is called exactly if some node calls it that can be reached without entering a nested definition |
| `TreeWalks.CallsInOrder` | src/code_rag/apps/chunking/tree_sitter_chunker.py:224-231 | the own call of the node comes first, then those of earlier children before those of later ones |
| `PythonChunks.Visitor.Visit` | src/code_rag/apps/chunking/strategies/python_chunker.py:28-76 | pushing and popping parents emits what passing them down would, and restores the list |
| `PythonChunks.ChunksAreTheDefinitions` | src/code_rag/apps/chunking/strategies/python_chunker.py:28-78 | one chunk for each definition not inside a function, once, in source order, with its kind, lines, name, signature and enclosing classes |
| `PythonChunks.DottedConcat` | src/code_rag/apps/chunking/strategies/python_chunker.py:40 | enclosing names are joined with a dot between each and the next |
| `PythonChunks.NoDefinitionTwice` | src/code_rag/apps/chunking/strategies/python_chunker.py:28-78 | so no definition gets two chunks |
| `Ndcg.TopIsBest` | src/code_rag/apps/eval/retrieval_evaluator.py:78-80 | no order gains more than relevant hits at the top, and only that order gains as much |
| `Ndcg.ScoreWithinOne` | src/code_rag/apps/eval/retrieval_evaluator.py:75-81 | with no more relevant flags than labels the score is at most 1, and 1 exactly if relevant hits lead |
| `Ndcg.AtMostOneIff` | src/code_rag/apps/eval/retrieval_evaluator.py:75-81 | every order scores at most 1 if and only if there are no more relevant hits than labels |
| `Ndcg.RelevantIff` | src/code_rag/apps/eval/retrieval_evaluator.py:72-73 | a hit is relevant exactly if its chunk id, file path or FQN is, a missing FQN counting as the empty text |
| `Ndcg.MovingUpRaisesScore` | src/code_rag/apps/eval/retrieval_evaluator.py:75-81 | moving a relevant hit above an irrelevant one strictly raises the score |
| `Ndcg.MatchedOnceScoresWithinOne` | src/code_rag/apps/eval/retrieval_evaluator.py:54-73 | if no label is matched by two hits, a case scores at most 1 |
| `Ndcg.TwoChunksOfOneFile` | src/code_rag/apps/eval/retrieval_evaluator.py:72-73 | two chunks of the one relevant file score more than 1 |

## Left out

- Elasticsearch itself: query syntax, scoring, mappings, refresh delays, conflicts inside delete-by-query, and the primary term, which the model folds into the version number.
- Regular expressions, `ast.parse`, tree-sitter grammars, `splitlines` on text: spans, trees and lines are inputs.
- Floating point: fusion and nDCG are over exact reals, so ties that rounding creates are not seen.
- Store calls that raise after they wrote: a crashed worker stops before its next call, so the path on which `finish_job` writes, then raises, and `fail_job` overwrites it is not in `JobProtocol`.
- Communities.Detect: labels, summaries, languages, file lists and ids of communities; the id is made from the representative, which is modelled.
- `rebuild_communities`, reading the graph back and embedding summaries.
- FileIndex.WritesExact: commit, timestamps, URLs, parent-chunk links, confidences and descriptive metadata are not fields of the documents; an edge never names a target file, as in the builder.
- TreeProjection.IncrementalReachesNewTree: for a symbol that two files of a tree define it claims nothing; `SharedSymbols` says that what remains is the definition of one of them and exactly when something does, not of which.
- IndexingService.IncrementalIndexProject: one file worker; more workers are covered as interleavings by `IncrementalIndexing.IsExecution`. Totals over files, the worktree checkout and the failed result that an exception is turned into are not modelled; in `AtLeastOnce` an execution may fail at any point.
- AtLeastOnce.SucceededMeansSingleRun: one job followed at a time; writes of other jobs go to other projects or branches.
- Full indexing: it visits only files that exist, so no claim is made that documents of vanished files go away.
- MarkdownChunks.SplitLargeChunks: pieces are numbered from 1 within the piece, as in the source, so file-absolute ranges and unique chunk ids do not hold there and are not claimed. Texts are split at newlines only.
- RateLimiter.NeverMoreThanMax: for times that do not run backwards; threads are serialised by the lock.
- `TreeSitterChunker._walk` and the collection of decorators and signatures; Python imports, calls and references.
- MRR, precision, hit rate and averages of the evaluator.
- Retry loops, HTTP and GitLab adapters, routers, settings, logging, metrics, permissions, graph expansion and reranking: wiring or easier claims.
