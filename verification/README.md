# Verified model of go-ethstorage

EthStorage keeps large values ("blobs", addressed by a kv index) that the L1 contract knows only by their hashes. A node
holds some shards of the index space in data files, fills them from its peers and from L1 events, encodes them for its
provider address, and proves with random samples that it has them. This project models the node's logic in Dafny and proves
what it promises.

The parts, from the outside in:

* **Sync client** (`SyncModel`, `SyncInvariant`, `SyncRuns`, `SyncClient`, `SyncProgress`, `SyncCompletion`): the scheduler
  that splits a shard into sub-tasks, asks peers for ranges, heals gaps, fills empty indices, saves checkpoints and restarts.
  `SyncRuns` is a step system whose steps are the critical sections of the goroutines; `SyncClient` has the loops and the
  updates in place, each proved to be one of those steps.
* **Storage manager** (`Disk`, `StorageView`, `StorageRuns`, `StorageData`, `StorageManager`, `Downloads`, `Interleaving`): the
  cached view of the contract, commits of peers' blobs, empty fills, downloads of L1 events and their parallel writes, and
  the bytes that all of them leave in the files.
* **Client and manager together** (`NodeRuns`, `NodeData`, `NodeCompletion`): what "shard done" means for the contract and for
  the stored bytes, and that every shard can get there from every state.
* **Files** (`FileLayout`, `DataFiles`, `DataShards`, `ShardManagers`, `Masking`, `KvCoding`, `Sampling`, `PowersOfTwo`): files
  as byte strings, shards of several files, encoding, samples. `ShardManagers.ShardManager.TryWriteEncoded` shows that the files
  behave like the map of records (`Disk.Put`) on which the storage manager is modelled.
* **Blob codec** (`BlobCodec`, `BlobEncoder`, `BlobDecoder`, `CodecLaws`) and **Merkle proofs** (`MerkleTree`, `MerkleProver`).
* **Download cache** (`BlobCache`, `BlobDiskCache`) and **scanner** (`Scanner`).

`Arith`, `Sums`, `Bytes` and `Options` hold what the others share.

The code is followed where it disagrees with its comments or with itself. These properties are false of the code as it is, and
each has a lemma with a concrete input and the exact condition for all inputs:

* A range reply that repeats an index makes the gap merge overlook missing indices (`SyncProgress.RepeatedIndexLosesBlobs`;
  exactly when: `SyncInvariant.ApplyRangeCovers`). Runs are therefore required to have replies that miss nothing (`Honest`).
* A worker that meets an oversized blob drops the rest of its stripe, and the download is still reported as finished
  (`Downloads.OversizedDropsLater`; exactly which entries: `Downloads.EntryAfterBatch`). It takes a direct call of
  `DownloadFinished`: the downloader itself hands over encoded blobs only, none oversized (`Downloads.EncodedBatchIsWritten`).
* A failed download leaves files ahead of the view (`StorageRuns.FailedDownloadIsAhead`; exactly when:
  `StorageRuns.FailedDownload`), and so does a restart at a block saved before the view moved (`StorageRuns.RestartMayLag`,
  `StorageRuns.RestartExact`). What then holds, and that a later download makes up for it, is part of the invariant of all runs.
* An index that is not local may be answered with a stale hash (`StorageRuns.NonLocalMayBeStale`; exactly when:
  `StorageRuns.AnswerAfterDownload`), and the trimming of metas may leave some behind (`StorageRuns.TrimLeavesGap`,
  `StorageRuns.TrimExact`).
* A crash may lower the progress count (`SyncProgress.CrashLowersEffort`; exactly when: `SyncProgress.CrashExact`), though never
  below what it was at the last checkpoint (`SyncProgress.EffortSurvivesRestart`).
* GetProof hashes an empty chunk where GetRoot has a zero leaf (`MerkleTree.FullChunkBreaksProof`; exactly:
  `MerkleTree.ProofFoldsExactly`).
* ToData does not look at the top two bits of byte 0 (`CodecLaws.FirstElementUnchecked`; exactly: `BlobCodec.CodecExact`).
* EncodeBlob uses the value index where the write path uses the chunk index (`KvCoding.EncodeBlobNeedsOneChunk`; exactly:
  `KvCoding.EncodeBlobExact`).
* Setting a cached block again, or a refused put, can leave the cache tables unsound (`BlobCache.SetAgainDangles`,
  `BlobCache.RefusedPutLeaks`; exactly: `BlobCache.SetBlockInv`, `BlobCache.SetBlockFailsInv`).

Hashes, masks, the encoder, the contract's history, peers' replies, the order of map iteration, the ids chosen by the blob store
and the schedule of goroutines are parameters, so every statement holds for all of them. Integers are unbounded.

`dafny verify dfyconfig.toml` checks the whole project.

## Model

| member | source | states |
|---|---|---|
| `SyncRuns.NoIndexIsLost` | ethstorage/p2p/protocol/syncclient.go:457-497 | In every run of the client, whatever replies, list replies, cleanings, saves and crashes occur, each index of a shard's data range is stored, waits in the heal list, or lies in [next, last) of a listed sub-task |
| `SyncRuns.DoneMeansStored` | ethstorage/p2p/protocol/syncclient.go:482-493 | In every run, a shard is announced as done only when its whole data range is stored and its whole empty range is settled |
| `SyncRuns.CrashLosesNothing` | ethstorage/p2p/protocol/syncclient.go:246-324 | A crash in any reachable state, followed by a reload of the last checkpoint, leaves every unstored index in [next, last) of a sub-task that can be assigned, and both counters still add up |
| `SyncRuns.EmptyFillConserved` | ethstorage/p2p/protocol/syncclient.go:903-949 | In every run the filled count plus the widths of the empty sub-tasks stays the initial number of empty indices, each passed index is settled, and running fills equal the thread count, within the maximum |
| `SyncRuns.StepInv` | ethstorage/p2p/protocol/syncclient.go:661-703 | Every step that the client can take keeps the invariant over all shards, their flights, list replies, checkpoint and announcements |
| `SyncRuns.RunInv` | ethstorage/p2p/protocol/syncclient.go:661-703 | The invariant holds after every run, for any interleaving of the goroutines' critical sections |
| `SyncRuns.InitInv` | ethstorage/p2p/protocol/syncclient.go:246-324 | A client started without a checkpoint satisfies the invariant |
| `SyncRuns.ReloadStepInv` | ethstorage/p2p/protocol/syncclient.go:246-324 | Starting again from the last checkpoint, or without one, gives a state that satisfies the invariant |
| `SyncRuns.CleanStepInv` | ethstorage/p2p/protocol/syncclient.go:457-497 | Cleaning all shards keeps the invariant, and whatever it announces is complete |
| `SyncInvariant.CreateTaskInv` | ethstorage/p2p/protocol/syncclient.go:326-400 | A new task covers its data range and its empty range, with ordered sub-tasks inside the range |
| `SyncInvariant.GoalExact` | ethstorage/p2p/protocol/syncclient.go:351-358 | For every index: it is in the data range of a shard if and only if it is in the shard and below the entry count, and in the empty range if and only if it is in the shard and not below |
| `SyncInvariant.NewTaskExact` | ethstorage/p2p/protocol/syncclient.go:326-400 | For every index: it is ahead of a sub-task of a new task if and only if it is an entry in the shard, and ahead of an empty sub-task if and only if it is another index of the shard |
| `SyncInvariant.PiecesTile` | ethstorage/p2p/protocol/syncclient.go:360-377 | The sub-tasks of a new task tile their range: they are adjacent, start at its start and end at its end |
| `SyncInvariant.PiecesEven` | ethstorage/p2p/protocol/syncclient.go:360-377 | All sub-tasks but the last have one size, the least from 16 on with which there are not more sub-tasks than workers |
| `SyncInvariant.AtMostPieces` | ethstorage/p2p/protocol/syncclient.go:360-377 | A range that fits into n pieces of a size is split into at most n sub-tasks of that size |
| `SyncInvariant.AssignSubInv` | ethstorage/p2p/protocol/syncclient.go:744-768 | A request from next on, cut at the end of the sub-task, keeps the invariant of its shard (its origin stays next while it runs) and the number of blobs to sync |
| `SyncInvariant.RequestExact` | ethstorage/p2p/protocol/syncclient.go:748-758 | A request starts at next, and has the most indices that a peer takes or all that are left of the sub-task, whichever is less |
| `SyncInvariant.ApplyRangeCovers` | ethstorage/p2p/protocol/syncclient.go:1037-1055 | After a range reply every index is still covered if and only if the indices that the gap merge misses (those behind a repeated index) are stored anyway |
| `SyncInvariant.DistinctLosesNothing` | ethstorage/p2p/protocol/syncclient.go:1037-1046 | A reply without repeated indices makes the gap merge miss nothing |
| `SyncInvariant.ApplyRangeMeasure` | ethstorage/p2p/protocol/syncclient.go:1047-1054 | A range reply lowers the number of blobs to sync by exactly the number of distinct blobs inserted plus the missed ones |
| `SyncInvariant.ApplyRangeInv` | ethstorage/p2p/protocol/syncclient.go:1037-1055 | A range reply that misses nothing keeps the invariant of its shard and never lowers synced plus to-sync |
| `SyncInvariant.ApplyListInv` | ethstorage/p2p/protocol/syncclient.go:1109-1119 | A list reply keeps the invariant of its shard and lowers the number of blobs to sync by exactly the healed ones |
| `SyncInvariant.CleanTaskInv` | ethstorage/p2p/protocol/syncclient.go:457-497 | Cleaning keeps the invariant of its shard, the number of blobs to sync, the number to fill and the running threads |
| `SyncInvariant.CleanCheckpointExact` | ethstorage/p2p/protocol/syncclient.go:463-475 | After cleaning, a listed sub-task is one of those before with nothing but first moved up, and first is the least index of its old range still to heal, or else next, which is below last |
| `SyncInvariant.LowestHealIsLowest` | ethstorage/p2p/protocol/task.go:96-107 | hasIndexInRange: the least index to heal in the range, or the end of the range if there is none |
| `SyncInvariant.FinishedMeansComplete` | ethstorage/p2p/protocol/syncclient.go:482-489 | A task without listed sub-tasks has everything stored and settled and an empty heal list |
| `SyncInvariant.SaveReload` | ethstorage/p2p/protocol/task.go:41-63 | Saving first and last only and loading them again loses no uncommitted index; synced plus to-sync does not drop, filled plus to-fill stays the same |
| `SyncInvariant.AssignEmptyInv` | ethstorage/p2p/protocol/syncclient.go:903-935 | Starting an empty fill keeps the invariant of its shard |
| `SyncInvariant.FillExtent` | ethstorage/p2p/protocol/syncclient.go:917-921 | A fill starts at first and has 16 indices or all that are left of the range, whichever is less |
| `SyncInvariant.StoreEmptyInv` | ethstorage/p2p/protocol/syncclient.go:1124-1144 | Recording what an empty fill has settled keeps the invariant of its shard |
| `SyncInvariant.ApplyEmptyInv` | ethstorage/p2p/protocol/syncclient.go:936-945 | Finishing an empty fill keeps the invariant of its shard, in particular the count of filled plus to-fill |
| `SyncProgress.EffortNeverDrops` | ethstorage/p2p/protocol/syncclient.go:1251-1262 | Every step other than a restart adds to synced plus to-sync of a shard exactly what its reply stored without having been counted as to do (`Gain`), which is never negative |
| `SyncProgress.EffortSurvivesRestart` | ethstorage/p2p/protocol/syncclient.go:403-437 | A checkpoint is a floor: in every run after it, with any later checkpoints and crashes, synced plus to-sync of a shard is never below what it was when the checkpoint was taken |
| `SyncProgress.RestartCount` | ethstorage/p2p/protocol/syncclient.go:246-324 | After a restart synced plus to-sync of a shard is the synced count of the checkpoint plus the ranges listed there; without a checkpoint it is the number of data indices of the shard |
| `SyncProgress.CrashExact` | ethstorage/p2p/protocol/syncclient.go:246-324 | After any run without a further checkpoint, a crash lowers synced plus to-sync of a shard if and only if the gains of the run exceed what the checkpoint counts again: at the time of the checkpoint, the indices between first and next of the sub-tasks, less the heal list |
| `SyncProgress.CrashBeforeCheckpoint` | ethstorage/p2p/protocol/syncclient.go:246-324 | Before the first checkpoint a crash lowers synced plus to-sync of a shard if and only if the run had gains |
| `SyncProgress.CrashLowersEffort` | ethstorage/p2p/protocol/syncclient.go:1060-1119 | A run in which a reply to a list request carries an index that nobody asked for, so that a crash then lowers synced plus to-sync |
| `SyncProgress.RepeatedIndexLosesBlobs` | ethstorage/p2p/protocol/syncclient.go:1040-1046 | A run of four steps in which a reply with a repeated index makes a shard of 16 blobs announced as done with two blobs stored |
| `SyncCompletion.CanAlwaysFinish` | ethstorage/p2p/protocol/syncclient.go:661-703 | From every reachable state some continuation, with single blobs that are asked for as replies and fills that get to their end, ends the sync with every shard done: no state is a dead end |
| `SyncCompletion.DoneAnnouncedRun` | ethstorage/p2p/protocol/syncclient.go:482-493 | In every run a shard that is marked as done has been announced |
| `SyncClient.MissingIndices` | ethstorage/p2p/protocol/syncclient.go:1037-1046 | The merge loop returns, in ascending order, exactly the indices between next and the last reply index that are not in the reply and have no repeated index below them |
| `SyncClient.GapsInReply` | ethstorage/p2p/protocol/syncclient.go:1037-1046 | The same for a reply in any order, with the last index being the largest of the reply |
| `SyncClient.HealTask.Remove` | ethstorage/p2p/protocol/task.go:71-77 | Removes exactly the given indices from the heal list |
| `SyncClient.HealTask.Insert` | ethstorage/p2p/protocol/task.go:83-87 | Adds exactly the given indices to the heal list |
| `SyncClient.HealTask.Refresh` | ethstorage/p2p/protocol/task.go:89-94 | Marks exactly the given indices as requested now |
| `SyncClient.HealTask.HasIndexInRange` | ethstorage/p2p/protocol/task.go:96-107 | The loop over the heal map finds the least index of the range and whether there is one |
| `SyncClient.HealTask.GetBlobIndexesForRequest` | ethstorage/p2p/protocol/task.go:109-123 | Returns heal indices that are due, without repetition and within the batch size (one for a batch size of 0), and all of them if they are fewer than the batch size |
| `SyncClient.SyncTask.constructor` | ethstorage/p2p/protocol/syncclient.go:326-400 | The loops that split the ranges build the task of the goal: every entry of the shard is ahead of a sub-task, every other index of the shard ahead of an empty sub-task, and no index outside |
| `SyncClient.SyncTask.OnBlobsByRange` | ethstorage/p2p/protocol/syncclient.go:1037-1055 | The bookkeeping in place of a range reply is the step ApplyRange on the shard's task value |
| `SyncClient.SyncTask.OnBlobsByList` | ethstorage/p2p/protocol/syncclient.go:1109-1119 | The bookkeeping in place of a list reply is the step ApplyList |
| `SyncClient.SyncTask.Clean` | ethstorage/p2p/protocol/syncclient.go:457-497 | Cleaning in place is the step CleanTask; it reports whether the shard got done just now |
| `SyncClient.SyncTask.CleanSubTasks` | ethstorage/p2p/protocol/syncclient.go:463-480 | The loop that moves first forward and removes finished sub-tasks while iterating keeps exactly the sub-tasks of the specification |
| `SyncClient.SyncTask.AssignBlobRanges` | ethstorage/p2p/protocol/syncclient.go:720-811 | Going round from the cursor, each sub-task has one turn until the peers are used up: in its turn it gets a request if it is idle and unfinished, the others stay as they are, the cursor ends behind the last turn, and the peers used are exactly the requests |
| `SyncClient.SyncTask.AssignFillEmpty` | ethstorage/p2p/protocol/syncclient.go:903-935 | In the order of the list, parked unfinished ranges get a fill until the threads are used up; the others stay as they are, and the thread count grows by exactly the fills started |
| `SyncClient.SyncTask.OnEmptyFilled` | ethstorage/p2p/protocol/syncclient.go:936-945 | The bookkeeping in place after a fill is the step ApplyEmpty |
| `SyncClient.SyncTask.BlobsToSync` | ethstorage/p2p/protocol/syncclient.go:1251-1257 | The reported number is the widths of the sub-tasks plus the size of the heal list |
| `SyncClient.Client.CleanTasks` | ethstorage/p2p/protocol/syncclient.go:457-497 | Cleans every shard in place, announces exactly the shards that got done, and ends the sync exactly when all are finished |
| `SyncClient.Client.AssignFillEmptyBlobTasks` | ethstorage/p2p/protocol/syncclient.go:903-949 | Over all shards the thread count grows by exactly the number of fills started, and stays below the maximum only if no range of any shard waits |
| `NodeRuns.StepInv` | ethstorage/p2p/protocol/syncclient.go:976-1120 | Every step of client and storage manager together, restarts of the whole process included, keeps both invariants and the link between them: what the client counts as stored is filled on disk, and a settled index is filled or has been an entry of the contract |
| `NodeRuns.RunInv` | ethstorage/p2p/protocol/syncclient.go:661-703 | The joint invariant holds after every run |
| `NodeRuns.DoneMeansContract` | ethstorage/p2p/protocol/syncclient.go:482-493 | When a shard is announced as done, in any run with downloads, failed downloads, meta fetches and crashes interleaved and with entries added or removed, every blob of its data range is filled on disk, every index beyond is filled or has been an entry, and filled blobs carry the hash that the contract has at the L1 view, or at a later block if files are ahead of the view; a removal counts as downloaded if the batch has the index with the empty hash |
| `NodeRuns.DoneMeansFilled` | ethstorage/p2p/protocol/syncclient.go:246-324 | If entries are neither removed nor empty, and the client sets up its shards for at least the entries at the block that the node starts from, then every local index of an announced shard is filled, those that have become entries since included, and carries the hash of the contract at the view unless files are ahead |
| `NodeRuns.DownloadBringsNew` | ethstorage/storage_manager.go:145-158 | If entries are neither removed nor empty, a download fills every local index that it makes an entry |
| `NodeData.DoneMeansBlob` | ethstorage/p2p/protocol/syncclient.go:482-493 | For every rule on index, hash and bytes that all blobs handed over in a run meet, be it by peers, downloads, failed ones included, or as empty blobs: every blob of the data range of an announced shard is on disk with bytes that meet it for its hash, which is the hash of the contract at the view unless files are ahead |
| `NodeData.RunFollows` | ethstorage/p2p/protocol/syncclient.go:950-1121 | Such a rule holds of every filled record after every run of client and manager |
| `NodeCompletion.NodeCanFinish` | ethstorage/p2p/protocol/syncclient.go:661-703 | From every state that a node can reach, after crashes, failed downloads and lost replies, some continuation without restart and without new blocks ends the sync and announces every shard, whole: metas are fetched, peers send one blob at a time, and the manager fills the rest |
| `NodeCompletion.NodeCanFill` | ethstorage/p2p/protocol/syncclient.go:661-703 | If entries are neither removed nor empty and shards are set up for the entries there are, some continuation of every reachable state leaves every index of every shard filled |
| `NodeCompletion.ReachedReady` | ethstorage/p2p/protocol/syncclient.go:246-324 | In every run each task and each saved task is for its shard of the configuration, with the bounds of the shard, and no step changes which indices are local |
| `NodeRuns.DoneWithoutRemoval` | ethstorage/p2p/protocol/syncclient.go:1124-1144 | If the contract never removes entries, every index of an announced shard is filled or is an entry of the contract |
| `NodeRuns.RestartInv` | ethstorage/downloader/downloader.go:136-178 | A crash of the node, with the client going back to its checkpoint and the manager to the saved block, keeps the joint invariant |
| `Disk.PrepareCommit` | ethstorage/storage_manager.go:185-194 | The stored commit keeps the 24 hash bytes and has the fill bit set |
| `Disk.PreparedBytes` | ethstorage/storage_manager.go:185-194 | The stored commit is the 24 hash bytes, the byte 0x80 and seven zeros |
| `Disk.PrepareSameHash` | ethstorage/storage_manager.go:185-194 | Preparing depends on the hash bytes only, so preparing twice changes nothing |
| `StorageView.GetKvMetasAt` | ethstorage/storage_manager.go:529-544 | Metas are returned for all asked indices or not at all, each the cached one or, beyond the entry count, an empty one |
| `StorageRuns.MetaIsContracts` | ethstorage/storage_manager.go:529-544 | For a local index the answered meta has that index and the contract's hash at the current L1 view |
| `StorageRuns.ViewFollowsContract` | ethstorage/storage_manager.go:512-544 | In every run of fetches, downloads, failed downloads, restarts, commits and fills, answers for local indices are the contract's at the current L1 view, and the hashes of filled blobs are the contract's at a block from the view up to the newest one written; both are the same block unless a download failed or a restart went back |
| `StorageRuns.EndFetchInv` | ethstorage/storage_manager.go:455-508 | A fetch that returns after the L1 view has moved installs nothing; one that installs keeps the view correct |
| `StorageRuns.FetchExact` | ethstorage/storage_manager.go:414-508 | A fetch that ends before the view moves makes known exactly the metas from its start up to the batch size, the end asked for and the entry count, as the contract has them at the view |
| `StorageRuns.CommitEncodedInv` | ethstorage/storage_manager.go:327-359 | Committing a local blob succeeds if and only if it has the contract's hash and fits or is there already; unless it was there, its padded bytes are then stored with that hash, and no other record changes |
| `StorageRuns.CommitStores` | ethstorage/storage_manager.go:327-359 | The files after a commit: one record with the padded bytes and the prepared commit if the blob is acceptable and not there yet, and otherwise the same files |
| `StorageRuns.CommitBlobsInv` | ethstorage/storage_manager.go:214-254 | Committing a batch of peers' blobs keeps the view; it reports nothing exactly if a meta is missing, and else exactly the indices of local blobs that have the contract's hash and fit or are there already, all of them filled then |
| `StorageRuns.FillEmptyInv` | ethstorage/storage_manager.go:258-301 | Filling empty blobs keeps the view, and every index it passes is below the entry count, is filled, or has a non-empty hash in the contract |
| `StorageData.CommitEmptyExact` | ethstorage/storage_manager.go:258-301 | Exactly what a fill does: nothing if a meta of its local indices is missing; otherwise it goes on to the first index that is beyond the limit, not local, or empty with an encoded blob that does not fit, counts the indices that the contract has empty, and stores the padded encoded empty blob for each of them that had none |
| `StorageData.FillEmptyExact` | ethstorage/p2p/protocol/syncclient.go:1124-1144 | The same with the entry count that was read: below it indices are passed over, and the fill goes on from there |
| `StorageData.RunFollows` | ethstorage/storage_manager.go:109-359 | For every rule on index, hash and bytes that all blobs handed over meet: it holds of every filled record after every run of the manager, with failed downloads and restarts |
| `StorageRuns.DownloadFinishedInv` | ethstorage/storage_manager.go:109-183 | Finishing a download moves the view to the new block with every local hash agreeing with the contract, if the batch has the last write of each changed local index |
| `StorageRuns.FailedDownload` | ethstorage/storage_manager.go:164-176 | When a download fails after writes, files and old view agree if and only if every local blob written has the hash that the old view has |
| `StorageRuns.FailedDownloadIsAhead` | ethstorage/storage_manager.go:164-176 | A failed download that leaves a filled blob with another hash than the view has |
| `StorageRuns.WrittenDisk` | ethstorage/storage_manager.go:129-171 | A batch written in part or in whole without the view moving leaves every filled blob with a hash of the contract from the view's block up to the batch's |
| `StorageRuns.RestartInv` | ethstorage/storage_manager.go:197-209 | A restart at a block no newer than the view keeps what is known of the files |
| `StorageRuns.RestartExact` | ethstorage/storage_manager.go:197-209 | After a restart at any block, filled blobs agree with the view if and only if the hash of every filled index is the same at that block and at the view before |
| `StorageRuns.RestartMayLag` | ethstorage/downloader/downloader.go:316-330 | A restart at a block saved before a blob changed leaves that blob ahead of the view |
| `StorageRuns.OrderlyStaysCurrent` | ethstorage/downloader/downloader.go:316-334 | As long as no download fails and each restart finds the block of the view saved, no file gets ahead of the view |
| `StorageRuns.StepInv` | ethstorage/storage_manager.go:109-359 | Every step of the manager keeps the view invariant, and a finished download up to the newest block written makes files and view agree again |
| `StorageRuns.DedupCovers` | ethstorage/downloader/downloader.go:292-313 | The deduplicated events of a block range are such a batch |
| `StorageRuns.RunInv` | ethstorage/storage_manager.go:109-359 | The view invariant holds after every run |
| `StorageRuns.NonLocalMayBeStale` | ethstorage/storage_manager.go:428-429 | A run after which an index of a shard that is not local is answered with a stale hash |
| `StorageRuns.AnswerAfterDownload` | ethstorage/storage_manager.go:512-544 | For every index, local or not: an answer after a download has the contract's hash if and only if it is neither cached nor in the batch, or is trimmed, or the batch has it with that hash, or the batch does not have it and its hash is the same at both blocks |
| `StorageRuns.TrimExact` | ethstorage/storage_manager.go:521-525 | The trimming loop leaves no meta beyond the entry count if and only if none of them is an index as large as the number of metas |
| `StorageRuns.TrimLeavesGap` | ethstorage/storage_manager.go:521-525 | A meta beyond the entry count that the trimming loop leaves behind |
| `StorageManager.SequentialWorkers` | ethstorage/storage_manager.go:129-162 | Running the workers one after the other writes what the batch specification says |
| `StorageManager.StorageManager.GetKvMetas` | ethstorage/storage_manager.go:529-544 | The loop over the indices returns the metas of the specification |
| `StorageManager.StorageManager.CommitEncodedBlob` | ethstorage/storage_manager.go:327-359 | The checks and the write in place are the step CommitEncoded, with its three outcomes; what it stores is `StorageRuns.CommitStores` |
| `StorageManager.StorageManager.CommitBlobs` | ethstorage/storage_manager.go:214-254 | The loop over the blobs is the step CommitBlobs, with the inserted indices in order |
| `StorageManager.StorageManager.CommitEmptyBlobs` | ethstorage/storage_manager.go:258-301 | The loop over local indices is the step CommitEmptyBlobs, whose result `StorageData.CommitEmptyExact` gives exactly |
| `StorageManager.StorageManager.FillFileWithEmptyBlob` | ethstorage/p2p/protocol/syncclient.go:1124-1144 | Skips the indices below the entry count and fills the rest as specified |
| `StorageManager.StorageManager.InstallMetas` | ethstorage/storage_manager.go:482-490 | Installs exactly the fetched metas, and only while the L1 view is the one they were fetched for |
| `StorageManager.StorageManager.UpdateLocalMetas` | ethstorage/storage_manager.go:512-519 | Replaces exactly the metas of the given indices |
| `StorageManager.StorageManager.TrimLocalMetas` | ethstorage/storage_manager.go:521-526 | The loop that deletes keys from the entry count up to the number of metas removes the metas of the specification |
| `StorageManager.StorageManager.DownloadFinished` | ethstorage/storage_manager.go:109-183 | The whole operation in place is the step DownloadFinished |
| `Downloads.Dedup` | ethstorage/downloader/downloader.go:292-313 | The loop keeps each index once, at its first position, with the data and hash of its last event |
| `Downloads.StripeExact` | ethstorage/storage_manager.go:129-162 | Worker w of n writes exactly the positions w, w + n, ... up to its first failing write |
| `Interleaving.AnyInterleaving` | ethstorage/storage_manager.go:129-162 | Programs that write to disjoint places give the same result in every interleaving |
| `Downloads.ParallelWrites` | ethstorage/storage_manager.go:129-162 | In every interleaving of the workers' chunk and meta writes, the files end up as if the batch had been written in order |
| `Downloads.BatchIsReplay` | ethstorage/downloader/downloader.go:292-316 | Writing the deduplicated batch gives the files of replaying all events one by one |
| `Downloads.DownloadIsReplay` | ethstorage/downloader/downloader.go:292-316 | Deduplication and parallel writing together, in every interleaving, give the files of replaying all events in order |
| `Downloads.EntryAfterBatch` | ethstorage/storage_manager.go:145-158 | An entry of a batch reaches its file if and only if it fits and its worker met no oversized blob before it; otherwise the old record stays |
| `Downloads.OversizedDropsLater` | ethstorage/storage_manager.go:145-158 | A batch, handed over by a direct call, in which an oversized blob makes a later blob that fits be dropped |
| `Downloads.FittingBatchIsWritten` | ethstorage/storage_manager.go:145-158 | If no blob of a batch is oversized, every local entry reaches its file |
| `Downloads.EncodedBatchIsWritten` | ethstorage/downloader/downloader.go:397-410 | A batch of encoded blobs, as the downloader makes them, is written as it is: every local entry reaches its file |
| `BlobEncoder.FromData` | cmd/es-utils/utils/optimism_blob_encoder.go:39-138 | Too much data is an error; any other data, empty included, becomes the encoding of its zero-padded stream, although the loop stops early |
| `BlobEncoder.Encoder.Round` | cmd/es-utils/utils/optimism_blob_encoder.go:94-132 | One round consumes 127 bytes of the stream and writes their 128-byte encoding |
| `BlobEncoder.Encoder.Read31` | cmd/es-utils/utils/optimism_blob_encoder.go:62-70 | Puts the next 31 bytes of the stream into the buffer, padded with zeros behind the data |
| `BlobEncoder.Encoder.Write1` | cmd/es-utils/utils/optimism_blob_encoder.go:74-83 | Appends a byte to what has been written; offset and value always pass the two checks |
| `BlobDecoder.ToData` | cmd/es-utils/utils/optimism_blob_encoder.go:143-199 | Returns the data of the blob at the start of the bytes, or the first of the five errors in the order of the checks |
| `BlobDecoder.DecodeFieldElement` | cmd/es-utils/utils/optimism_blob_encoder.go:204-211 | Copies the 31 lower bytes of an element and refuses exactly the elements with a high bit set |
| `BlobDecoder.ReassembleBytes` | cmd/es-utils/utils/optimism_blob_encoder.go:215-225 | Whatever three bytes the encoder has split over the four tops are back in the three gaps of the round, and nothing else changes |
| `BlobCodec.RoundTripRound` | cmd/es-utils/utils/optimism_blob_encoder.go:111-131 | Decoding a round inverts encoding it, and encoding leaves the top two bits of each element clear |
| `BlobCodec.CodecExact` | cmd/es-utils/utils/optimism_blob_encoder.go:143-225 | For every full-size blob and every data, the decoder returns the data if and only if the data fits and its encoding is the blob with the top two bits of byte 0 cleared |
| `CodecLaws.RoundTrip` | cmd/es-utils/utils/optimism_blob_encoder.go:39-199 | Every byte string up to the maximal size, the empty one included, is decoded from its encoding |
| `CodecLaws.AcceptedIsCanonical` | cmd/es-utils/utils/optimism_blob_encoder.go:143-225 | A blob that is accepted is the encoding of its data if and only if byte 0 is below 64 |
| `CodecLaws.FirstElementUnchecked` | cmd/es-utils/utils/optimism_blob_encoder.go:166 | A blob with byte 0 equal to 64 that is accepted although no data is encoded as it |
| `CodecLaws.ElementBelowModulus` | cmd/es-utils/utils/optimism_blob_encoder.go:78-82 | Every field element of every encoding is a number below BLS_MODULUS (section "Parameters" of EIP-4844) |
| `CodecLaws.TopsFormat` | cmd/es-utils/utils/optimism_blob_encoder.go:110-133 | In every round of every encoding, which bits of stream bytes 31, 63 and 95 are in which of the four top bytes |
| `CodecLaws.RestFormat` | cmd/es-utils/utils/optimism_blob_encoder.go:73-133 | Every other byte of a blob is the byte of the stream before it: version 0, the length in three big-endian bytes, the data, zeros |
| `CodecLaws.DecodeErrors` | cmd/es-utils/utils/optimism_blob_encoder.go:143-199 | For every blob, which error the decoder returns and exactly when, and that it returns data otherwise |
| `MerkleProver.GetProof` | ethstorage/prover/merkleprover.go:16-45 | The level-by-level reduction in place collects the siblings on the way from the chunk to the root; empty data has the empty proof, a bad index is an error |
| `MerkleProver.GetRootWithProof` | ethstorage/prover/merkleprover.go:47-65 | The loop folds the proof; no proof gives the hash back, an index too large is an error |
| `MerkleProver.GetRoot` | ethstorage/prover/merkleprover.go:67-92 | The reduction in place computes the root of the tree; empty data gives the zero hash |
| `MerkleProver.ReduceLevel` | ethstorage/prover/merkleprover.go:37-39 | Overwriting the nodes from the left computes the level above from the old nodes |
| `MerkleTree.FoldIsRoot` | ethstorage/prover/merkleprover.go:16-92 | In every full tree, folding the siblings of a leaf over the leaf gives the root |
| `MerkleTree.RootOfHalves` | ethstorage/prover/merkleprover.go:67-92 | The root of a tree is the hash of the root of its left half and the root of its right half, in this order |
| `MerkleTree.RootBindsValue` | ethstorage/prover/merkleprover.go:67-92 | The root binds every byte: different values of any lengths that fit and have the same root have two pairs of nodes with the same hash on some level, or different chunks with the same leaf; an empty value has the zero hash |
| `MerkleTree.FoldBinds` | ethstorage/prover/merkleprover.go:47-65 | A proof that folds to the root over a hash that is not the leaf contains a pair with the hash of another pair of the tree |
| `MerkleTree.RootCollision` | ethstorage/prover/merkleprover.go:67-92 | Two different trees with the same root have, on some level, two different pairs of nodes with the same hash |
| `MerkleTree.OneLeafDiffers` | ethstorage/prover/merkleprover.go:67-92 | Two trees that differ at one leaf have the same root if and only if there is a collision of pairs on the way up from that leaf |
| `MerkleTree.ProofFolds` | ethstorage/prover/merkleprover.go:16-92 | For every value, tree and chunk, the folded proof is the root unless the value ends exactly at the start of another leaf of the tree |
| `MerkleTree.ProofFoldsExactly` | ethstorage/prover/merkleprover.go:27-75 | For every hash, the folded proof is the root if and only if the value does not end at the start of another leaf, or the hash of nothing is the zero hash, or pairs collide on the way up from the leaf where the value ends |
| `MerkleTree.FullChunkBreaksProof` | ethstorage/prover/merkleprover.go:27-75 | One full chunk in a tree of two leaves, whose proof does not fold to the root |
| `MerkleProver.FindNChunk` | ethstorage/prover/minmerkletreeprover.go:16-28 | The smallest power of two that holds all chunks, and its exponent; zero for no data |
| `MerkleProver.GetMinProof` | ethstorage/prover/minmerkletreeprover.go:34-47 | The proof in the smallest tree; empty for a chunk outside it |
| `MerkleProver.GetMinRoot` | ethstorage/prover/minmerkletreeprover.go:49-56 | The root of the smallest tree |
| `MerkleProver.MinProofFolds` | ethstorage/prover/minmerkletreeprover.go:34-56 | In the smallest tree a folded proof is the root unless the value fills its chunks but not the tree |
| `MerkleProver.MinProofFoldsExactly` | ethstorage/prover/minmerkletreeprover.go:34-56 | For every hash, those are the only exceptions, but for a zero hash of nothing and collisions of pairs on the way up from the leaf where the value ends |
| `PowersOfTwo.IsPow2nExact` | ethstorage/shard_manager.go:35-40 | The bit test accepts exactly the powers of two |
| `PowersOfTwo.Log2OfPow2` | ethstorage/shard_manager.go:28-33 | The number of bits of a power of two is its exponent |
| `DataFiles.CreatedIsAligned` | ethstorage/data_file.go:79-91 | A file that passes the checks of Create holds whole values: range and length are multiples of the chunks per value |
| `DataFiles.AlignedIsCreated` | ethstorage/data_file.go:79-91 | Every range of whole values with sizes that are powers of two passes the checks of Create |
| `DataFiles.DataFile.constructor` | ethstorage/data_file.go:79-114 | A created file has the allocated size, its header, and zeros |
| `DataFiles.DataFile.KvRange` | ethstorage/data_file.go:143-149 | The value range of a file, computed in bytes, is its chunk range in whole values |
| `DataFiles.DataFile.ChunkRange` | ethstorage/data_file.go:127-133 | A file contains a chunk of a value if and only if it contains the value |
| `DataFiles.DataFile.Read` | ethstorage/data_file.go:156-172 | Reads the start of a chunk inside the file, or fails for a foreign chunk or a length above the chunk size |
| `DataFiles.DataFile.Write` | ethstorage/data_file.go:192-203 | Overwrites exactly the bytes of the chunk, always inside the allocated size, or changes nothing and fails |
| `DataFiles.DataFile.ReadMeta` | ethstorage/data_file.go:206-214 | Reads the meta of a value of the file |
| `DataFiles.DataFile.WriteMeta` | ethstorage/data_file.go:217-228 | Overwrites exactly the bytes of the meta, always inside the allocated size, or changes nothing and fails |
| `DataFiles.DataFile.ReadSample` | ethstorage/data_file.go:135-189 | A sample is in the file if and only if its value is, and is the matching 32-byte slice of the value |
| `FileLayout.Bounds` | ethstorage/data_file.go:98-228 | Header, values and metas do not overlap and lie inside the allocated size |
| `FileLayout.FileInOrder` | ethstorage/data_file.go:98-228 | A file is 4096 bytes of header, then its values in order without gaps, then their metas of 32 bytes in order |
| `FileLayout.WriteValueIsUpdate` | ethstorage/data_file.go:192-228 | A written value and meta are read back; every other value and meta of the file and the header are as before |
| `DataShards.SameFile` | ethstorage/data_shard.go:392-426 | All chunks of a value and its meta are looked up in the same file |
| `DataShards.WriteIsUpdate` | ethstorage/data_shard.go:360-381 | Writing a value into the file where it is looked up is an update of the map of values, even when files overlap or are listed twice |
| `DataShards.DataShard.AddDataFile` | ethstorage/data_shard.go:39-55 | Accepts exactly the files that match the first one, and no value that was there is hidden or changed |
| `DataShards.DataShard.IsComplete` | ethstorage/data_shard.go:58-74 | True if and only if every chunk of the shard's range is in some file |
| `DataShards.DataShard.CompleteHoldsAll` | ethstorage/data_shard.go:58-74 | A complete shard holds every value of its range |
| `DataShards.DataShard.WriteWith` | ethstorage/data_shard.go:360-381 | Writes the whole encoded value and its meta, or fails and leaves all values as they were; other values and all headers never change |
| `DataShards.DataShard.ReadWith` | ethstorage/data_shard.go:190-216 | Reads and decodes the start of a value, the last chunk cut short, or fails for a missing value or a length above the value size |
| `DataShards.DataShard.ReadMeta` | ethstorage/data_shard.go:419-426 | Reads the meta that the map of values has |
| `DataShards.DataShard.ReadSample` | ethstorage/data_shard.go:218-226 | For every layout of files a sample is the matching 32-byte slice of its value as stored |
| `Masking.DecodeInvertsEncode` | ethstorage/data_shard.go:252-330 | For every encode type, any prefix of an encoded chunk decodes to the same prefix of the padded chunk |
| `Masking.KeyIgnoresMark` | ethstorage/data_shard.go:234-245 | Raw and prepared commit give the same key |
| `Masking.KeyIsHashOf` | ethstorage/data_shard.go:234-245 | The key is the hash of 96 bytes: 24 of the commit, zeros, the address of the provider, the chunk index as a big-endian word |
| `Masking.KeysDiffer` | ethstorage/data_shard.go:234-245 | Two keys are the same under every hash if and only if the 24 hash bytes, the provider and the chunk index are |
| `Masking.EncodedBytes` | ethstorage/data_shard.go:252-283 | Every byte of an encoded chunk, for each encode type: the padded data combined with nothing, the key over and over, or the mask |
| `Masking.MaskDataInPlace` | ethstorage/data_file.go:58-66 | Masks the padded data in place |
| `Masking.UnmaskDataInPlace` | ethstorage/data_file.go:69-77 | Unmasks in place and cuts to the length of the data |
| `Masking.EncodeChunkBytes` | ethstorage/data_shard.go:252-283 | Each branch computes the padded chunk combined with the mask of its encode type |
| `Masking.DecodeChunkBytes` | ethstorage/data_shard.go:303-330 | Each branch computes the bytes combined with the mask of its encode type |
| `KvCoding.KvRoundTrip` | ethstorage/shard_manager.go:236-262 | Any prefix of a value encoded chunk by chunk decodes to the same prefix of the value |
| `KvCoding.StoredReadsBack` | ethstorage/data_shard.go:384-390 | What a raw write stores decodes to the padded value |
| `KvCoding.StoredByHash` | ethstorage/data_shard.go:384-390 | The same bytes are stored whether the commit is raw or prepared |
| `KvCoding.ReadBackByHash` | ethstorage/data_shard.go:190-216 | What is stored under one form of a commit decodes to the padded value under every other form with the same hash |
| `KvCoding.EncodeBlobIsStored` | ethstorage/storage_manager.go:89-105 | With one chunk per value, encoding a blob for the cache gives the bytes of the write path, from raw and prepared commit |
| `KvCoding.EncodeBlobExact` | ethstorage/storage_manager.go:89-105 | For every value and number of chunks, encoding a blob for the cache gives the bytes of the write path if and only if, chunk by chunk, the mask under the value index is that under the chunk indices |
| `KvCoding.PlainBlobIsStored` | ethstorage/storage_manager.go:89-105 | Without encoding the two always agree |
| `KvCoding.KeccakBlobExact` | ethstorage/storage_manager.go:89-105 | For Keccak256 and chunks of whole keys the two agree if and only if the keys of all chunks are the key of the value index |
| `KvCoding.KeccakNeedsOneChunk` | ethstorage/storage_manager.go:103 | If the hash tells the chunks of the value apart, that is so if and only if a value has one chunk |
| `KvCoding.EncodeBlobNeedsOneChunk` | ethstorage/storage_manager.go:103 | A value of two chunks for which the two differ |
| `ShardManagers.ShardManager.TryWriteEncoded` | ethstorage/shard_manager.go:161-171 | A write of encoded data is an update of the map of values of its shard, and changes no other shard |
| `ShardManagers.ShardManager.TryWrite` | ethstorage/shard_manager.go:149-156 | A raw write stores the value encoded for the shard's provider |
| `ShardManagers.ShardManager.TryEncodeKV` | ethstorage/shard_manager.go:188-197 | Encoding apart from writing gives the bytes that a raw write stores; data above the value size is cut |
| `ShardManagers.ShardManager.DecodeOrEncodeKV` | ethstorage/shard_manager.go:236-262 | The loop codes the value chunk by chunk; bytes beyond the value size are not looked at |
| `ShardManagers.ShardManager.TryRead` | ethstorage/shard_manager.go:176-184 | Hands out the start of the decoded value, which has the full value size, if it matches the commit |
| `ShardManagers.ShardManager.WrittenIsReadBack` | ethstorage/shard_manager.go:149-184 | What a raw write has stored is decoded by a read to the value padded with zeros, for raw and prepared commits on either side |
| `ShardManagers.ShardManager.WriteThenRead` | ethstorage/shard_manager.go:149-184 | A raw write of a value that fits, followed by a read, gives the start of the zero-padded value, or a mismatch if that fails the commit check |
| `ShardManagers.ShardManager.AddDataFile` | ethstorage/shard_manager.go:123-132 | A file is added to the shard it starts in if that exists and the file matches its first one, and to no other shard; the answer says which, and no value of any shard is lost or changed |
| `ShardManagers.ShardManager.AddDataShard` | ethstorage/shard_manager.go:113-121 | Adds an empty shard if the index is free and leaves the others as they are |
| `ShardManagers.ShardManager.constructor` | ethstorage/shard_manager.go:42-66 | A manager of sizes that are powers of two starts with no shards and the number of chunks per value |
| `Sampling.Hashimoto` | ethstorage/miner/algorithm.go:18-33 | Follows the chain of hash and samples, and every sample index lies in the shard it is drawn for |
| `Sampling.ChainExact` | ethstorage/miner/algorithm.go:18-33 | The hashes of a run, index by index: each one modulo the size of the shard draws the sample, and the next is the hash of it and of the bytes read; the run ends after as many as asked for, or exactly at a sample that cannot be read |
| `Sampling.EverySampleIsDrawn` | ethstorage/miner/algorithm.go:22-25 | Every sample of a shard is drawn by some hash |
| `Sampling.SampleInShard` | ethstorage/miner/algorithm.go:20-24 | Every index drawn for a shard belongs to a value of that shard |
| `Sampling.SampleByBytes` | ethstorage/blobs/blob_reader.go:55-58 | Value and position of a sample by shift and remainder are those by byte offset |
| `Sampling.SampleHeld` | ethstorage/miner/algorithm.go:20-24 | Every sample of a complete shard is in a value that the shard holds |
| `Sampling.ReadDrawn` | ethstorage/blobs/blob_reader.go:55-69 | Reading a sample of a complete shard never fails and gives its 32 bytes of the stored value, for every layout of files |
| `Sampling.CompleteShardMines` | ethstorage/miner/algorithm.go:18-33 | On a complete shard the chain of samples never breaks off |
| `BlobCache.SetBlockInv` | ethstorage/downloader/blob_disk_cache.go:58-95 | Setting a block keeps all ids live, unshared and referenced; the lookup table stays sound if and only if each lookup into the replaced block is redirected, which is always so for a new block |
| `BlobCache.SetBlockFailsInv` | ethstorage/downloader/blob_disk_cache.go:75-79 | A refused put leaves the tables sound if and only if the blobs put before it have taken over ids and lookups of the block's old entries; for a new block, if and only if none was put |
| `BlobCache.RefusedPutLeaks` | ethstorage/downloader/blob_disk_cache.go:75-79 | A refused put after which the data of an earlier blob belongs to no block |
| `BlobCache.RefusedRun` | ethstorage/downloader/blob_disk_cache.go:58-95 | In every run with refused puts of new blocks no block loses or shares its data and lookups lead to data; exactly the ids put before a refusal leak, for good |
| `BlobCache.CleanupInv` | ethstorage/downloader/blob_disk_cache.go:159-180 | Cleaning up leaves no dangling, leaked or shared id and no lookup to deleted data, even when blocks share indices |
| `BlobCache.SetBlockMeaning` | ethstorage/downloader/blob_disk_cache.go:58-95 | Setting a new block adds exactly its blobs with data to the map of blocks and moves the sample lookup of each index to its last blob |
| `BlobCache.CleanupMeaning` | ethstorage/downloader/blob_disk_cache.go:159-180 | Cleaning up removes the final blocks and no other, and drops the sample lookup of exactly the indices that a removed block mentions |
| `BlobCache.SetIsReadBack` | ethstorage/downloader/blob_disk_cache.go:58-112 | A new block is read back: all its blobs in order if all have data, exactly those with data otherwise, and every other block as before |
| `BlobCache.LastIsReadBack` | ethstorage/downloader/blob_disk_cache.go:58-157 | After a new block is set, the data of an index is that of the last blob with data for it in the block, or what it was if there is none |
| `BlobCache.CleanIsReadBack` | ethstorage/downloader/blob_disk_cache.go:159-180 | After a cleanup exactly the blocks above the final one are left, with the blobs they had |
| `BlobCache.RunRefines` | ethstorage/downloader/downloader.go:374-419 | In every run of setting absent blocks and cleaning up, with ids used again in any way, the cache is the map of blocks that the run describes |
| `BlobCache.SetAgainDangles` | ethstorage/downloader/blob_disk_cache.go:62-68 | A block set again without one of its blobs leaves a lookup to deleted data |
| `BlobDiskCache.DiskCache.SetBlockBlobs` | ethstorage/downloader/blob_disk_cache.go:58-95 | The loop in place is the step SetBlock, or stops at the first refused blob |
| `BlobDiskCache.DiskCache.Blobs` | ethstorage/downloader/blob_disk_cache.go:97-120 | Returns the blobs of a block as they were set |
| `BlobDiskCache.DiskCache.GetKeyValueByIndex` | ethstorage/downloader/blob_disk_cache.go:122-140 | Finds a cached blob with the index and hash if and only if there is one, in any order of the map |
| `BlobDiskCache.DiskCache.GetSampleData` | ethstorage/downloader/blob_disk_cache.go:142-157 | Returns 32 bytes of the blob set last for the index |
| `BlobDiskCache.DiskCache.Cleanup` | ethstorage/downloader/blob_disk_cache.go:159-180 | Removing blocks one at a time, in any order of the map, is the step Cleanup |
| `Scanner.SummaryLocalKvs` | ethstorage/scanner/worker.go:301-325 | The loop counts the local indices up to the last one, stopping at the first shard behind it |
| `Scanner.TotalIsExact` | ethstorage/scanner/worker.go:301-325 | The scan positions below the count are exactly those of local indices up to the last one |
| `Scanner.GetKvsInBatch` | ethstorage/scanner/worker.go:252-289 | A batch lists the indices at its positions in order, across shards that are not consecutive, and starts again behind the last position |
| `Scanner.ScanGoesRound` | ethstorage/scanner/worker.go:72-105 | With a fixed entry count: over any sequence of batches, failed ones tried again, the i-th scanned index is the one at position start + i modulo the count |
| `Scanner.EveryRoundScansAll` | ethstorage/scanner/worker.go:72-105 | With a fixed entry count: in the output of every run of batches, each stretch as long as the count has each local index up to the last one exactly once |
| `Scanner.ScanIsLocal` | ethstorage/scanner/worker.go:72-105 | With a fixed entry count: the output of every run of batches has only local indices up to the last one, ascending until the scan starts again |
| `Scanner.RecountedRound` | ethstorage/scanner/worker.go:203-211 | With the entries counted anew for every batch and never falling: a round has the indices that were local and entries when it began, in ascending order, before the scan can start again |
| `Scanner.RecountedOnce` | ethstorage/scanner/worker.go:252-289 | With the entries counted anew for every batch: each index that was local and an entry when the round began comes exactly once in it |
| `Scanner.RecountIsLocal` | ethstorage/scanner/worker.go:203-211 | With the entries counted anew for every batch: only local indices below the newest count are scanned |
| `Scanner.CountGrows` | ethstorage/scanner/worker.go:291-325 | More entries on the chain never lower the local count |
| `Scanner.SomeCounted` | ethstorage/scanner/worker.go:301-325 | If an index is local, the count is positive and no more than the shards have |
| `Scanner.ScannedIsLocal` | ethstorage/scanner/worker.go:203-211 | Positions below the count are those of local indices up to the last one, in ascending order |

## Left out

- Peers: selection by capacity, rate tracking, scoring, request timeouts and the wire format; a step may be taken with any reply
- Verification of a received blob against its commit (KZG): a reply is taken as the list of indices that were inserted
- Wall-clock retry of heal requests: which heal indices are due is a parameter of `SyncClient.HealTask.GetBlobIndexesForRequest`
- The two database writes of a checkpoint are one step; a crash between them is not modelled
- SyncClient.Client.AssignFillEmptyBlobTasks: says how many fills are started, not which goroutine runs them
- Outstanding list requests: a list reply may arrive at any time, with any indices; the code takes one only for a request it sent and keeps the indices of the shard, but does not look whether they were asked for
- Removal of entries by the contract: a run may have it, but a download covers it only if the batch has the index with the empty hash, while the downloader reads PutBlob events only; without removals nothing is left open (`NodeRuns.DoneMeansFilled`)
- Sub-tasks that a request still points to after they were removed from the list: requests are recorded in the sub-task
- Overflow of 64-bit integers in products of indices and sizes, and shifts by 64 or more
- File header contents, fallocate, operating system errors and short reads; a file is a byte string of the allocated size
- DataFiles.DataFile.constructor: takes the header bytes as an argument and a value size of at least 1
- DataShards.DataShard.AddDataFile: requires the shard's chunk size (and, for the first file, its value size), which the code does not check
- BlobDecoder.ToData: bytes shorter than a blob, on which the code reads past the end, are not modelled
- ShardManagers.ShardManager.AddDataFile: requires the manager's chunk size and value size, which the code does not check
- A start block given by a flag, and a first start that ends before any block is saved (the finalized block is taken then); for any block, `StorageRuns.RestartExact` says when files and view agree
- A crash in the middle of writing one blob: a blob and its meta are written together or not at all
- TryWriteWithMetaCheck and the scanner's repair of mismatched blobs: they follow the finalized block instead of the local view
- Splitting of a meta download into parallel ranges; a fetch is one range with one arrival
- StorageManager.StorageManager.DownloadFinished: runs its workers one after the other; that every interleaving gives the same files is `Downloads.ParallelWrites`
- Retry of L1 and beacon requests, event parsing and the block range that the downloader asks for
- checkCommit is a parameter of `ShardManagers.ShardManager.TryRead`
- Mining beyond the choice of samples: difficulty, nonces, proofs and transactions
- RPC servers, metrics, logging, command line tools and configuration
