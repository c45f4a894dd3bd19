# Verified model of OpenFS

A Dafny model of the core of OpenFS: the single-disk storage engine with its allocation bitmap and write-ahead log, the
disk pool and data node above it, the namespace tree, the client's file pipeline over all of them, and four
self-contained algorithms (CRC-32, the LRU caches, the id generator, the segment log). Objects the program updates in
place are classes whose methods are proved against functions or predicates on values; what the program promises is
proved of those.

`dafny verify dfyconfig.toml` checks everything.

## How it is built

- **Disk** (`BlockBitmap`, `BlockRecord`, `DiskLayout`, `Wal`, `DiskMachine`, `DiskMachineLimits`, `DiskManager`).
  `DiskMachine` is a step machine with durable state (device bytes, log file) and volatile state (bitmap in memory, next
  sequence number, the point reached inside an operation). A crash may fall between any two steps, and device writes and
  bitmap saves may be torn byte by byte. The class `DiskManager` holds the device as an array and the bitmap as packed
  bytes; every public operation returns, as ghost results, the machine steps it took, so what holds of all runs holds of it.
  `DiskMachineLimits` shows where the promises end.
- **Pool and node** (`DiskPool`, `DataNode`). The pool mirrors its disks' machine states; the node keeps its index and a
  ghost `shelf`, the map from places to stored blocks, which is all that the layers above see.
- **Namespace** (`Namespace`, `NamespaceOps`, `NamespaceEffects`, `NamespaceRename`, `NamespaceManager`). Entry lists and
  inode table must agree on one tree; a ghost depth for each inode stands in for "parent id < child id", which rename breaks.
- **File pipeline** (`BlockSplitter`, `BlockMap`, `FileStore`, `FileMoves`, `Client`). `FileStore` defines what every path
  reads; the client's `WriteFile` and `ReadFile` are proved against it, with remote calls made directly; `FileMoves` follows
  a file's contents through whole runs of client operations and restarts of the data node. `Checksum` gives the CRC a name
  under which its definition stays out of sight.
- **Algorithms** (`Crc32` over the generic shift-register theory of `ShiftRegister`; `LruList`, `LruCache` and the law
  of recency in `LruRecency`;
  `IdGenerator`; `SegmentLog`).

## Where the code and its evident intent differ

The model follows the code; each difference is a theorem.

- **WAL slots.** `AppendEntry` and `CommitEntry` use byte `seq * 4096` (src/data/wal_manager.cpp:77, :110), `Open` and
  `Replay` scan from byte 0 (:38, :142), and tests/test_wal_manager.cpp:61-91 expects a replay that works. The placement is a
  parameter of the model: `AsWritten` is the code, `Intended` puts entry `seq` into slot `seq - 1`. As written, replay is
  always empty (`Wal.ReplayAsWritten`) and crash safety needs no assumption at all. As intended, replay returns the log
  (`Wal.ReplayReturnsTheLog`), and crash safety needs one discipline, which a caller can check: a write must not begin while
  the extent it is about to be given is named by an entry that recovery would roll back. After a recovery, and until the next
  crash or failed data write, every write meets it (`UndisturbedIsDisciplined`), so a disk that is recovered after every
  opening and whose data writes do not fail needs none (`RecoversFirstIsRun`); without it a crash can cost an acknowledged block
  (`DiskMachineLimits.WriteIsLostExactly`, `FailedWriteLosesBlock`). The pool and everything above use `AsWritten`.
- **Leaks.** `CommitEntry` comes before `SaveBitmap` (src/data/disk_manager.cpp:306-313), so a crash inside the save of a
  write leaves blocks marked that no entry will roll back; a crash inside the save of a delete leaves blocks marked too.
  `DiskMachine.BitsExactExactly` says that nothing else leaks, `LeakedForever` that what leaked stays marked, and
  `DiskMachineLimits.LeakingRun` gives the run, for both placements. A write cut off before its save leaks nothing: its bits
  never reached the device. For the same reason recovery changes no bit while writes are disciplined
  (`RecoverFreesNothing`); that it frees what it must and can be repeated (`RollbackBit`, `RecoveryIdempotent`) matters only
  after writes that were not.
- **SaveBitmap's status** is ignored by its callers: an acknowledged write whose save the device rejected is lost by the next
  crash unless its bits got there (`DiskMachineLimits.UnsavedWriteSurvivesExactly`).
- **A restarted data node** holds every block it held but has lost its index, which is kept in memory only
  (src/data/data_node.h:69): files read as before, but the blocks it held can no longer be deleted (`DataNode.DataNode.Restart`).
- **Segments.** The cursor of a segment moves by a 32-bit sum (src/data/segment_writer.cpp:89), which wraps for blocks of
  2^32 - 64 bytes and more: from then on the segment reports places where its blocks are not (`SegmentLog.NextLandsInside`,
  `TwoBlocksOnePlace`). Segments below 2^32 + 8192 bytes, the default among them, never accept such a block. A new engine
  truncates the segment files of an earlier one as it numbers its own from 1 (`SegmentLog.Restart`, `ReusedIsLost`).
- **BlockBitmap::Free** wraps around 64 bits (`Bitmap.FreesRangeExactly`); no caller passes such a range.
- **A write that fails after CreateFile** leaves its file behind, empty and unreadable, and a retry is refused.
- **Format** has no fixpoint, and an unsound layout, exactly when total_blocks - 1 - wal_blocks is 1 modulo 32769.
- **Rename** removes the source before it checks the destination and never checks that the destination lies outside the
  moved directory; **CreateFile** accepts "/". `NamespaceManager.OperationKeepsTreeExactly` says when the tree survives.
- **NextId** takes two sequence numbers per call in one millisecond, so its overflow test never fires and the 4097th id
  repeats the first; nor does it notice a clock that goes back (`IdGenerator.SameIdExactly`).
- **DiskPool::WriteBlock** asks only the disk with the most free blocks, so a write finds no space when that disk is fragmented,
  whatever run of blocks another has (`DiskPool.PoolStatusExactly`).
- **BlockCount** is truncated to 32 bits; **a rewritten block id** leaves its former copy allocated but out of the index.
- src/data/disk_manager.h:61 says that ReadBlock verifies the CRC; the code does not, and neither does the model. The client does.

## Model

| member | source | states |
|---|---|---|
| DiskMachine.CrashSafety | src/data/disk_manager.cpp:253-408 | Over every run of the disk machine, with crashes between any two steps, torn data writes and byte-wise partial bitmap saves, a block acknowledged and not deleted since still reads back its id, checksum and bytes. |
| DiskMachine.NeverReallocated | src/data/disk_manager.cpp:253-319 | In such a run no later write is given a physical block of an acknowledged, undeleted block. |
| DiskMachine.BitsAreLiveExtents | src/data/disk_manager.cpp:253-442 | In every idle state of every run, crashes included, the set bits are exactly the extents of the live blocks and, apart from them, the leaked blocks. |
| DiskMachine.BitsExactExactly | src/data/disk_manager.cpp:253-442 | The bitmap says exactly which blocks live data occupies if and only if every crash so far was clean: outside the bitmap save of a write or delete, or with no bit of its extent on the device. |
| DiskMachine.CrashLeaksExactly | src/data/disk_manager.cpp:306-318 | A crash leaks a block that was not leaked before exactly when it falls into the save of a write or delete while a bit of its extent is set on the device. |
| DiskMachine.LeakedForever | src/data/disk_manager.cpp:379-408 | A leaked block stays marked for good: no later delete, recovery or reopening clears its bit. |
| DiskMachine.StepKeepsInv | src/data/disk_manager.cpp:191-442 | Each of the fourteen steps, the crash included, keeps the invariant of device, log, memory and live blocks. |
| DiskMachine.BeginWriteKeeps | src/data/disk_manager.cpp:262-276 | First-fit allocation gives a new block an extent apart from all live ones and all leaked blocks; if the extent is clear of the log, no entry recovery would roll back names a block in use. |
| DiskMachine.TearDataKeeps | src/data/disk_manager.cpp:297-304 | A data write cut short at any subset of its bytes leaves the live blocks and the saved bitmap alone. |
| DiskMachine.IntentIsReplayed | src/data/disk_manager.cpp:278-283 | With a log that replays and has room, a write logs its block id, its place, its size and its checksum, not committed. |
| DiskMachine.CommitIsReplayed | src/data/disk_manager.cpp:306-310 | Committing marks that entry in the replay, and no other. |
| DiskMachine.FailDataKeeps | src/data/disk_manager.cpp:299-304 | Rolling back a failed write frees its extent and keeps every live block, with either placement of the log; its entry then names only free blocks. |
| DiskMachine.TearSaveKeeps | src/data/disk_manager.cpp:437-442 | A partial bitmap save leaves every live extent marked on the device. |
| DiskMachine.FinishSaveKeeps | src/data/disk_manager.cpp:306-318 | The completed save makes the new block live and keeps all older ones. |
| DiskMachine.BeginDeleteKeeps | src/data/disk_manager.cpp:361-377 | Freeing one block keeps all others stored, marked and apart. |
| DiskMachine.BeginRecoverKeeps | src/data/disk_manager.cpp:379-408 | Recovery begins without freeing anything in use, while writes were disciplined. |
| DiskMachine.ReopenKeeps | src/data/disk_manager.cpp:191-237 | Loading the saved bitmap after a crash finds every live extent marked. |
| DiskMachine.RecoveryIdempotent | src/data/disk_manager.cpp:379-408 | From any state just reopened, also after undisciplined writes: crashing between any two steps of Recover and recovering again ends with the bitmap an uninterrupted recovery gives. |
| DiskMachine.RollbackBit | src/data/disk_manager.cpp:388-399 | A bit differs after the rollback exactly when it was set and lies in the extent of an uncommitted entry. |
| DiskMachine.RecoverFreesNothing | src/data/disk_manager.cpp:379-408 | While writes were disciplined, recovery changes no bit, with either placement: what it rolls back was never marked on the device, or is free already. |
| DiskMachine.UndisturbedIsDisciplined | src/data/data_node.cpp:53-66 | From an empty log, as formatting or a recovery leaves it, every write is disciplined until the next crash or failed data write. |
| DiskMachine.RecoversFirstIsRun | src/data/data_node.cpp:53-66 | Every step sequence from a formatted disk in which each opening is followed by a recovery and no data write fails is a disciplined run, for both placements: there crash safety asks nothing else. |
| DiskMachine.SurvivesKeeps | src/data/disk_manager.cpp:191-442 | Any disciplined steps without a delete, crashes anywhere included, keep the invariant, every live block and every leaked one. |
| DiskMachine.LiveReadsBack | src/data/disk_manager.cpp:321-359 | In every state that keeps the invariant ReadBlock at a live offset returns that block, and the offset leads back to its extent. |
| DiskMachineLimits.WriteIsLostExactly | src/data/disk_manager.cpp:253-408 | The discipline is exact: from any state in order, an acknowledged write and a crash right after it can be followed by a recovery that frees a live block if and only if the extent given to that write was not clear of the log. |
| DiskMachineLimits.FailedWriteLosesBlock | src/data/disk_manager.cpp:299-408 | On every disk whose log replays, freshly formatted, opened and recovered: one failed data write, one acknowledged write, one crash and a third write, and the acknowledged block reads back as the third. |
| DiskMachineLimits.UnsavedWriteSurvivesExactly | src/data/disk_manager.cpp:311-318 | A write acknowledged although the device rejected its bitmap save part-way outlives a crash right after it exactly if every bit of its extent reached the device; otherwise it lies on free blocks, with either placement. |
| DiskMachineLimits.InterruptedSaveLeaks | src/data/disk_manager.cpp:306-318 | From any state with room, a crash when the bitmap save of a write is complete but not acknowledged leaks exactly its extent. |
| DiskMachineLimits.LeakingRun | src/data/disk_manager.cpp:306-408 | On every disk and for both placements there is a run from a formatted disk with one crash after which, recovered and idle, a block is allocated that belongs to nothing. |
| DiskMachineLimits.AcknowledgedRun | src/data/disk_manager.cpp:253-408 | On every disk and for both placements there is a disciplined run from a formatted disk with an acknowledged write, a crash, a reopening and a recovery, after which the block reads back. |
| DiskManager.DiskManager.WriteBlock | src/data/disk_manager.cpp:253-319 | Is a run of machine steps; its status is exactly: Internal if not open, NoSpace if no free run is long enough, IOError if the device takes too little, else Ok with the block live at the first fitting extent and nothing else changed. Asks that the write is disciplined, which as written says nothing. |
| DiskManager.DiskManager.ReadBlock | src/data/disk_manager.cpp:321-359 | Reads what ReadFrom says of the device bytes (ReadsBlockExactly); Internal exactly if a whole header does not start with the magic number, else a failure is IOError. |
| DiskManager.DiskManager.DeleteBlock | src/data/disk_manager.cpp:361-377 | Given the offset and size of a live block, exactly its extent becomes free. |
| DiskManager.DiskManager.Recover | src/data/disk_manager.cpp:379-408 | The extents of uncommitted log entries are free, in memory and on the device, and the log is empty; no bit changed. Without an open log it does nothing. |
| DiskManager.DiskManager.Open | src/data/disk_manager.cpp:191-237 | Memory becomes what the device holds; the log's next sequence number is found by the scan. |
| DiskManager.DiskManager.LoadBitmap | src/data/disk_manager.cpp:420-435 | The bitmap in memory becomes the one on the device. |
| DiskManager.DiskManager.Reopen | src/data/disk_manager.cpp:158-237 | After a crash between operations the formatted disk opens with the same bits and the same live blocks. |
| DiskManager.DiskManager.WriteCutOff | src/data/disk_manager.cpp:253-319 | A write cut off by the end of the process at any stage is a run of machine steps that keeps every live block; it leaks nothing unless it was in the bitmap save. |
| DiskManager.DiskManager.Close | src/data/disk_manager.cpp:239-251 | The bitmap on the device becomes the one in memory. |
| DiskManager.DiskManager.SaveBitmap | src/data/disk_manager.cpp:437-442 | Puts the whole bitmap, and nothing else, on the device (its size passes through uint32_t). |
| DiskManager.DiskManager.constructor | src/data/disk_manager.cpp:77-121 | A formatted disk is an initial state of the machine: every bit free, the log empty. |
| DiskLayout.Format | src/data/disk_manager.cpp:24-58 | The loop computes the closed form of the bitmap size for every accepted size. |
| DiskLayout.FixpointExactly | src/data/disk_manager.cpp:38-51 | A bitmap size is a fixpoint of the loop exactly when it is ceil(T/32769) and T is not 32769k+1. |
| DiskLayout.ReachesFixpoint | src/data/disk_manager.cpp:38-51 | For every 64-bit size outside T = 32769k+1 five rounds reach the fixpoint (ten are made). |
| DiskLayout.Alternates | src/data/disk_manager.cpp:38-51 | For T = 32769k+1 the rounds end up alternating between k and k+1 for ever. |
| DiskLayout.SoundExactly | src/data/disk_manager.cpp:53-58 | Superblock, bitmap and data area are disjoint, fit the disk and give every data block a bit exactly when T is not 32769k+1. |
| DiskLayout.ReloadedBit | src/data/disk_manager.cpp:420-442 | With both sizes passed through uint32_t, a bitmap of B bytes saved and loaded again keeps the bits of its first B mod 2^32 bytes; every block beyond reads as free. |
| DiskLayout.KeepsBitmapExactly | src/data/disk_manager.cpp:420-442 | So with a bitmap of the size Format gives it, every allocation survives a save and a load exactly when the bitmap is below 4 GiB. |
| DiskLayout.RoundIsExact | src/data/disk_manager.cpp:40-50 | The 64-bit arithmetic of one round is exact. |
| BlockRecord.ReadsBackImage | src/data/disk_manager.cpp:282-295 | A device that holds the image of a block at an offset reads back that block there. |
| BlockRecord.ReadsBlockExactly | src/data/disk_manager.cpp:321-359 | A read gives a block exactly if the device holds, at their offsets, the magic number, its id, size and checksum, and its bytes behind them. |
| BlockRecord.BadMagicExactly | src/data/disk_manager.cpp:337-342 | It fails for the magic number exactly if there is a whole header whose first four bytes are others. |
| BlockRecord.ImageHolds | src/data/disk_manager.cpp:282-295 | The image of a block has magic number, id, level, size and checksum at their offsets, its bytes behind the header, and zeros behind them. |
| BlockRecord.DecodeEncodeHeader | src/common/types.h:129-200 | The header fields survive encoding and decoding. |
| BlockRecord.WriteBufferHoldsBlockExactly | src/data/disk_manager.cpp:444-448 | The write buffer sized by 32-bit arithmetic holds header and payload exactly for payloads up to 2^32 - 4128 bytes. |
| Bytes.DecodeEncodeLE | src/data/disk_manager.cpp:282-292 | Integer fields of k bytes read back every value below 256^k. |
| Bytes.DecodeAppend | src/data/disk_manager.cpp:282-292 | A further byte has the weight 256^k: fields are little-endian. |
| Bitmap.BlockBitmap.Allocate | src/data/block_bitmap.cpp:14-27 | Returns the lowest start of count free blocks and sets exactly those bits, lowering the free count by count; fails only if count is 0 or there is no such run. |
| Bitmap.BlockBitmap.FindConsecutiveFree | src/data/block_bitmap.cpp:84-106 | First-fit, complete: None exactly when no run of count free blocks exists. |
| Bitmap.BlockBitmap.Free | src/data/block_bitmap.cpp:29-36 | Clears exactly the bits start + i, i below count, of a 64-bit sum, ignoring those past the end. |
| Bitmap.FreesRangeExactly | src/data/block_bitmap.cpp:29-36 | That is exactly the range from start on, clipped, if and only if no block the sum wraps around to is allocated; Free(kInvalidBlockIndex, 2) clears bit 0. |
| Bitmap.BlockBitmap.FreeBlocks | src/data/block_bitmap.cpp:57-66 | Counts the clear bits. |
| Bitmap.BlockBitmap.Load | src/data/block_bitmap.cpp:68-76 | Adopts the bytes, growing them with zeros to cover all blocks. |
| Bitmap.BlockBitmap.GetBit | src/data/block_bitmap.cpp:118-121 | Shift and mask read bit i of the boolean sequence. |
| Bitmap.BlockBitmap.SetBit | src/data/block_bitmap.cpp:108-111 | The byte-wise OR sets bit i and no other. |
| Bitmap.BlockBitmap.ClearBit | src/data/block_bitmap.cpp:113-116 | The byte-wise AND clears bit i and no other. |
| Bitmap.CountFreeRange | src/data/block_bitmap.cpp:14-36 | Allocating n free blocks lowers the free count by exactly n, and freeing them gives them back. |
| Wal.WalManager.Open | src/data/wal_manager.cpp:9-60 | The scan finds the sequence number after the last counted entry. |
| Wal.WalManager.AppendEntry | src/data/wal_manager.cpp:69-102 | Fills the slot of the next sequence number, or reports a full log and changes nothing. |
| Wal.WalManager.CommitEntry | src/data/wal_manager.cpp:104-132 | Marks exactly the entry of that sequence number committed. |
| Wal.WalManager.Replay | src/data/wal_manager.cpp:134-171 | Returns the entries found by scanning from byte 0. |
| Wal.WalManager.Reset | src/data/wal_manager.cpp:173-193 | Empties the log and starts again at sequence number 1. |
| Wal.ReplayReturnsTheLog | src/data/wal_manager.cpp:69-171 | With slot = seq - 1, after any appends, commits, reopens and resets, Replay returns exactly the appended entries of nonzero blocks in order, each committed iff it was committed, and the next number is restored. |
| Wal.ReplayAfterAppend | src/data/wal_manager.cpp:69-171 | An append adds to the replay exactly its block, place, size and checksum under the next number, not committed, if the block is not 0 and the log has room. |
| Wal.ReplayAfterCommit | src/data/wal_manager.cpp:104-171 | A commit marks the entry of its number in the replay, and no other. |
| Wal.ReplayAfterReopenOrReset | src/data/wal_manager.cpp:9-193 | Reopening changes nothing about the replay, a reset empties it. |
| Wal.ReplayAsWritten | src/data/wal_manager.cpp:77-157 | With the slots of the code, slot 0 stays empty and Replay returns nothing: it returns the log exactly when the log holds nothing to return. |
| Wal.TakesExactly | src/data/wal_manager.cpp:77-84 | The log has room for as many entries as it has blocks, or one less as written. |
| Wal.AsWrittenIsShifted | src/data/wal_manager.cpp:69-132 | Until it is opened again, the log as written in walBlocks + 1 blocks is the intended one in walBlocks, one block further on. |
| Wal.ReopenAsWritten | src/data/wal_manager.cpp:36-57 | As written, a log that is opened again starts over at number 1. |
| Wal.ReplayAfterReopenAsWritten | src/data/wal_manager.cpp:36-57 | A concrete run in which, as written, an appended entry is missing from the replay after a reopen. |
| Wal.LogIsRepresented | src/data/wal_manager.cpp:69-193 | The slots of the file refine the list of appended entries over every run. |
| DiskPool.DiskPool.SelectDisk | src/data/disk_pool.cpp:129-146 | Picks the first normal disk with the most free blocks, and none exactly when no normal disk has a free block. |
| DiskPool.DiskPool.WriteBlock | src/data/disk_pool.cpp:41-63 | Only the selected disk changes, and its answer decides the status. |
| DiskPool.PoolStatusExactly | src/data/disk_pool.cpp:41-63 | That disk being the first with the most free blocks, the write finds NoSpace exactly if it has no run of free blocks as long as header and payload need, IOError exactly if it has one but takes too few bytes, else Ok; without a free block on a normal disk NoSpace. |
| DiskPool.DiskPool.ReadBlock | src/data/disk_pool.cpp:65-75 | NotFound past the last disk, else what that disk reads. |
| DiskPool.DiskPool.DeleteBlock | src/data/disk_pool.cpp:77-85 | NotFound past the last disk, else exactly that extent of that disk is freed. |
| DiskPool.DiskPool.AddDisk | src/data/disk_pool.cpp:7-18 | A fresh disk with no live block and no used block joins; the others are untouched. |
| DiskPool.DiskPool.ReopenAll | src/data/data_node.cpp:19-66 | After the process ended between operations every disk is open again with the same bits and blocks. |
| DiskPool.DiskPool.RecoverAll | src/data/disk_pool.cpp:87-101 | Every disk is recovered, and none of its bits changes. |
| DiskPool.DiskPool.WriteCutOff | src/data/disk_pool.cpp:41-63 | The process ends inside a write, at any stage, and every disk is opened again and recovered: all live blocks stay, none is added, and only a crash inside the bitmap save leaks. |
| DiskPool.UsedIsLiveAndLeaked | src/data/block_bitmap.cpp:57-66 | On an idle disk the allocated blocks number those of the live blocks plus the leaked ones. |
| DiskPool.RunUses | src/data/disk_manager.cpp:191-442 | Between two idle states without a delete in between the allocated blocks grow by exactly the new live blocks and the new leaks. |
| DiskPool.WriteUses | src/data/disk_manager.cpp:262-318 | An acknowledged write uses up exactly the physical blocks of header and payload. |
| DiskPool.DeleteFrees | src/data/disk_manager.cpp:361-377 | A delete gives back exactly those blocks. |
| DiskPool.FailureKeepsStatus | src/data/disk_manager.cpp:299-304 | After a write that was not taken the same writes are taken as before. |
| DataNode.DataNode.WriteBlock | src/data/data_node.cpp:155-175 | On success the block sits at a place nothing occupied, the index leads to it, and the blocks lost from sight grow by those of a former copy; on failure nothing changes and the node would give the same answer again. |
| DataNode.DataNode.ReadBlock | src/data/data_node.cpp:177-182 | Every stored block reads back at its place. |
| DataNode.DataNode.DeleteBlock | src/data/data_node.cpp:184-200 | NotFound exactly for ids not in the index; else the block and its entry go and all others stay. |
| DataNode.WriteKeepsBalance | src/data/data_node.cpp:155-175 | The allocated blocks of all disks stay equal to those of the index plus those of superseded copies. |
| DataNode.DeleteKeepsBalance | src/data/data_node.cpp:184-200 | A delete lowers both sides of that balance by the same amount. |
| DataNode.FailureKeepsBalance | src/data/data_node.cpp:155-175 | A write that fails, also by a failed device write, keeps the balance. |
| DataNode.WriteConservesExactly | src/data/data_node.cpp:155-175 | From allocated = indexed, a write keeps the equality exactly when its block id was not in the index. |
| DataNode.WriteKeepsShelf | src/data/disk_manager.cpp:253-319 | An acknowledged block takes a place that was free and leaves all stored blocks where they are. |
| DataNode.ShelvedReadsBack | src/data/disk_manager.cpp:321-359 | Every stored block reads back from the device bytes of its disk. |
| DataNode.DataNode.Restart | src/data/data_node.cpp:54-66 | A node that went down and starts again keeps every stored block at its place, but its index is empty: exactly the blocks it indexed are now lost from its sight. |
| DataNode.RestartKeepsAll | src/data/data_node.cpp:54-66 | A restart keeps every stored block and the balance of allocated, indexed and lost blocks. |
| DataNode.DataNode.WriteCutOff | src/data/data_node.cpp:54-66 | A node that goes down inside a write, at any stage, and starts again keeps every stored block; the blocks lost from its sight grow by exactly those it indexed and those the write left behind, which are none unless it was in the bitmap save. |
| DataNode.SurvivalKeepsAll | src/data/disk_manager.cpp:191-442 | Any disciplined steps of the disks without a delete, writes cut off by a crash and the restart after it included, keep the shelf and the balance of allocated, indexed and lost blocks, leaks counted. |
| NamespaceManager.NamespaceManager.ResolvePath | src/meta/namespace_manager.cpp:16-73 | The walk over entry lists yields the parent and name of the path, or the failing status, as Resolve does; ComponentsJoin and ComponentsOfName fix what the names of a path are, PathStatus in RenameStatus and the other status lemmas which status it is. |
| NamespaceManager.NamespaceManager.Lookup | src/meta/namespace_manager.cpp:75-102 | Finds what Lookup on the tree value finds, which LookupIsReach fixes for every path string. |
| NamespaceManager.NamespaceManager.MkDir | src/meta/namespace_manager.cpp:104-154 | Updates entry lists and inode table in place to the tree, and answers the status, that MkDir specifies; MkDirStatus, MkDirEffect and MkDirStores say which those are. |
| NamespaceManager.NamespaceManager.CreateFile | src/meta/namespace_manager.cpp:239-283 | The same for CreateFile (CreateFileStatus, CreateFileEffect, CreateFileStores). |
| NamespaceManager.NamespaceManager.RmDir | src/meta/namespace_manager.cpp:203-237 | The same for RmDir (RmDirStatus, RmDirEffect, RemovalTakesInode). |
| NamespaceManager.NamespaceManager.ReadDir | src/meta/namespace_manager.cpp:156-201 | Lists the entries ReadDir on the tree value lists, or gives its status (ReadDirExactly). |
| NamespaceManager.NamespaceManager.DeleteFile | src/meta/namespace_manager.cpp:285-310 | The same for DeleteFile (DeleteFileStatus, DeleteFileEffect, RemovalTakesInode). |
| NamespaceManager.NamespaceManager.Rename | src/meta/namespace_manager.cpp:312-369 | The same for Rename, which removes the source entry before it looks at the destination (RenameStatus, RenameMovesSubtree, RenameLosesSubtree). |
| NamespaceManager.InodeTable.Create | src/meta/inode_table.cpp:22-31 | Adds the inode unless its id is taken. |
| NamespaceManager.InodeTable.Get | src/meta/inode_table.cpp:33-43 | Returns the inode of an id, or NotFound. |
| NamespaceManager.InodeTable.Update | src/meta/inode_table.cpp:45-55 | Replaces an inode that exists, and no other. |
| NamespaceManager.InodeTable.Delete | src/meta/inode_table.cpp:57-67 | Removes exactly that inode. |
| NamespaceManager.InodeTable.AllocateInodeId | src/meta/inode_table.cpp:75-79 | Hands out the next id and moves on. |
| NamespaceManager.OperationKeepsTreeExactly | src/meta/namespace_manager.cpp:104-369 | An operation keeps the tree invariant exactly when it is not a file called "/" or a rename onto the root, onto an existing path or below its own source. |
| NamespaceManager.ReachableIsTree | src/meta/namespace_manager.cpp:8-369 | Every state reached by operations that are not such is a tree: both structures agree, names are unique, every inode hangs in one directory below the root, ids are below the next. |
| NamespaceOps.LookupIsReach | src/meta/namespace_manager.cpp:31-102 | Lookup finds exactly the inode the path's non-empty components lead to from the root. |
| NamespaceOps.LookupOfPathTo | src/meta/namespace_manager.cpp:75-102 | The path built by following parent ids up to the root looks up the inode it was built from. |
| NamespaceOps.LookupInjective | src/meta/namespace_manager.cpp:75-102 | Two paths find the same inode only if their component lists are equal. |
| Namespace.PathReaches | src/meta/namespace_manager.cpp:31-72 | Following parent ids ends at the root after as many steps as the inode is deep. |
| Namespace.ReachInjective | src/meta/namespace_manager.cpp:31-72 | Component lists that lead to the same inode are equal. |
| Namespace.ComponentsOfPathString | src/meta/namespace_manager.cpp:31-46 | Every list of non-empty names is the component list of a path. |
| Namespace.ComponentsJoin | src/meta/namespace_manager.cpp:31-46 | For all strings a and b, the names of a + "/" + b are those of a followed by those of b. |
| Namespace.ComponentsOfName | src/meta/namespace_manager.cpp:31-46 | A string without a slash is one name, or none if it is empty. |
| NamespaceOps.WellformedExactly | src/meta/namespace_manager.cpp:19-49 | A path is well-formed exactly if it starts with a slash and is "/" or has a character other than slashes. |
| NamespaceOps.LookupOfTrailingSlash | src/meta/namespace_manager.cpp:31-102 | A slash at the end of a well-formed path other than "/" makes no difference to Lookup. |
| NamespaceEffects.MkDirEffect | src/meta/namespace_manager.cpp:104-154 | MkDir succeeds exactly on absent paths below a directory, adds that one path and changes no other. |
| NamespaceEffects.CreateFileEffect | src/meta/namespace_manager.cpp:239-283 | The same for CreateFile on any path but the root. |
| NamespaceEffects.CreateFileKeepsTreeExactly | src/meta/namespace_manager.cpp:239-283 | CreateFile keeps the tree exactly on paths other than "/". |
| NamespaceEffects.RmDirEffect | src/meta/namespace_manager.cpp:203-237 | RmDir succeeds exactly on empty directories other than the root and removes that one path. |
| NamespaceEffects.DeleteFileEffect | src/meta/namespace_manager.cpp:285-310 | DeleteFile succeeds exactly on regular files and removes that one path. |
| NamespaceEffects.CreatedFileTakesName | src/meta/namespace_manager.cpp:239-310 | After CreateFile a second one on the path is refused with AlreadyExists and changes nothing; DeleteFile succeeds and leaves every path as before the first. |
| NamespaceEffects.MkDirStatus | src/meta/namespace_manager.cpp:104-154 | The status by the path and what it leads to alone: InvalidArgument exactly for ill-formed paths, AlreadyExists exactly if it leads somewhere ("/" included), NotFound exactly if its directory part leads to no directory, else Ok. |
| NamespaceEffects.CreateFileStatus | src/meta/namespace_manager.cpp:239-283 | The same for CreateFile, which on "/" answers Ok. |
| NamespaceEffects.RmDirStatus | src/meta/namespace_manager.cpp:203-237 | InvalidArgument for "/" and ill-formed paths, NotFound if the path leads nowhere or to a regular file, NotEmpty if to a directory with entries, else Ok. |
| NamespaceEffects.DeleteFileStatus | src/meta/namespace_manager.cpp:285-310 | InvalidArgument for ill-formed paths, Ok if the path leads to a regular file, else NotFound. |
| NamespaceEffects.MkDirStores | src/meta/namespace_manager.cpp:127-153 | Afterwards the path looks up an inode with the next id and the given mode, owner, group and time, and no other inode has changed. |
| NamespaceEffects.CreateFileStores | src/meta/namespace_manager.cpp:259-282 | The same for CreateFile, with the size and its block level. |
| NamespaceEffects.RemovalTakesInode | src/meta/namespace_manager.cpp:203-310 | RmDir and DeleteFile take exactly the inode of the path out of the table. |
| NamespaceEffects.ReadDirExactly | src/meta/namespace_manager.cpp:156-201 | ReadDir lists exactly the names that lead on from the path, each once, with inode and type; else InvalidArgument for ill-formed paths, NotFound for paths that lead nowhere, NotDirectory for regular files. |
| NamespaceEffects.ListingOrder | src/meta/namespace_manager.cpp:148-150 | A new entry is listed behind the old ones. |
| NamespaceRename.RenameMovesSubtree | src/meta/namespace_manager.cpp:312-369 | A harmless rename moves the whole subtree: paths below the destination resolve to what lay below the source, the source is gone, all other paths resolve as before, and the tree stays a tree. |
| NamespaceRename.RenameLosesSource | src/meta/namespace_manager.cpp:337-353 | Onto an existing destination the call fails and the source's entry is lost: the tree is broken. |
| NamespaceRename.RenameMakesCycle | src/meta/namespace_manager.cpp:349-366 | Into its own subtree the call succeeds and cuts the source off: no depth fits the cycle. |
| NamespaceRename.RenameOntoRoot | src/meta/namespace_manager.cpp:24-28 | Onto "/" it leaves an entry with an empty name. |
| NamespaceRename.RenameKeepsTreeExactly | src/meta/namespace_manager.cpp:312-369 | Rename keeps the tree exactly when it does not start or its destination is none of these. |
| NamespaceRename.RenameStatus | src/meta/namespace_manager.cpp:312-369 | The status in the order of the tests: that of the source path, that of the destination path, NotFound if the source is "/" or leads nowhere, AlreadyExists if the destination is another path that leads somewhere, else Ok (also onto "/"). |
| NamespaceRename.RenameLosesSubtree | src/meta/namespace_manager.cpp:337-353 | What is lost onto an existing destination: exactly the paths at and below the source, while no inode changes. |
| NamespaceRename.RenameChangesOneInode | src/meta/namespace_manager.cpp:349-368 | A harmless rename sets name, parent and change time of the moved inode and changes nothing else in the inode table. |
| Crc32.TableRefinesPolynomial | src/common/crc32.cpp:6-61 | One table step equals eight steps of the reflected polynomial 0xEDB88320, for every register and byte. |
| Crc32.TableIsShift | src/common/crc32.cpp:6-49 | All 256 table entries are the polynomial's, as in section 8 of RFC 1952. |
| Crc32.Crc32Impl | src/common/crc32.cpp:51-61 | The table-driven loop computes the bit-by-bit register of the whole message. |
| Crc32.ComputeCRC32 | src/common/crc32.cpp:63-66 | Equals the bit-by-bit definition, whose start value ZeroIsEmpty and LeadingZeroIsSeen fix. |
| Crc32.UpdateCRC32 | src/common/crc32.cpp:68-71 | Continues a checksum. |
| Crc32.ZeroIsEmpty | src/common/crc32.cpp:63-71 | No bytes have the checksum 0, and continuing from 0 gives the checksum of the data. |
| Crc32.LeadingZeroIsSeen | src/common/crc32.cpp:63-66 | A zero byte in front of any message changes its checksum; the checksum of one zero byte is 0xD202EF8D. |
| Crc32.UpdateOfSplit | src/common/crc32.cpp:63-71 | Continuing the checksum of a prefix over the rest gives the checksum of the whole. |
| Crc32.UpdateOfAnySplit | src/common/crc32.cpp:63-71 | The same for any number of parts, starting from 0. |
| Crc32.DetectsFourByteErrors | src/common/crc32.cpp:51-66 | Two messages that differ only within at most four consecutive bytes have different checksums. |
| Crc32.ResidueIsConstant | src/common/crc32.cpp:51-66 | A message followed by its own checksum always has checksum 0x2144DF1C. |
| Client.OpenFSClient.WriteFile | src/client/openfs_client.cpp:25-124 | A write that fails, at any stage, changes what no path reads; one that succeeds makes exactly its own path read the bytes its slices cover. The status is exactly that of the first stage that refuses; a refused slice is one the data node still refuses. A failure after CreateFile leaves the tree with the created file, so a retry is refused; a success leaves it with that file at the size its slices cover. |
| Client.OpenFSClient.ReadFile | src/client/openfs_client.cpp:126-214 | Returns what ReadFile specifies of namespace, block map and stored blocks, into a vector with any former content. |
| Client.OpenFSClient.StoreSlices | src/client/openfs_client.cpp:66-111 | The i-th slice is stored under the i-th allocated id and described by the i-th committed block; earlier blocks stay where they are. |
| Client.OpenFSClient.Transfer | src/client/openfs_client.cpp:43-111 | Split, allocate and store: all slices are stored, or the next one is refused. |
| Client.OpenFSClient.ReadBlocks | src/client/openfs_client.cpp:162-209 | Reads, checks and copies block after block at a moving offset. |
| Client.MetaService.CommitBlocks | src/meta/meta_service_impl.cpp:260-306 | Appends the ids to the file's list, records the blocks and sets the inode's size to their total. |
| Client.DataService.WriteBlock | src/data/data_service_impl.cpp:11-42 | CRCMismatch for data that do not match the checksum; else the node's answer for the block with the level of its size. |
| Client.DataService.ReadBlock | src/data/data_service_impl.cpp:44-67 | Every stored block reads back its bytes and checksum; any other place gives what the device bytes there decode to, or NotFound past the last disk. |
| FileStore.CommittedOutcome | src/client/openfs_client.cpp:25-214 | After commit exactly the new path reads the concatenated slices; every other path reads as before, and the invariants hold. |
| FileStore.AbandonedOutcome | src/client/openfs_client.cpp:31-111 | A file created and then abandoned reads as if it were absent, for every path. |
| FileStore.GrownShelf | src/data/data_node.cpp:155-175 | More stored blocks alone, as a write cut off by a crash may leave, change what no path reads. |
| FileStore.AssembleFills | src/client/openfs_client.cpp:162-209 | Blocks that hold the pieces of a file, in order, fill the buffer with the file. |
| FileStore.AssembleLays | src/client/openfs_client.cpp:162-209 | Blocks that agree with their checksums are laid one behind the other over the buffer, and what has no room is cut off. |
| FileStore.AssembleStops | src/client/openfs_client.cpp:162-209 | The first block that does not ends the read with CRCMismatch, one that is missing with IOError. |
| FileStore.ReadSucceedsExactly | src/client/openfs_client.cpp:162-209 | So a read of a file with blocks succeeds exactly if all of them are stored and agree with their checksums. |
| FileStore.CreateFileCreates | src/meta/namespace_manager.cpp:239-283 | CreateFile gives the new path, and no other, a new inode of the given size. |
| FileMoves.RenameMovesContents | src/meta/namespace_manager.cpp:312-369 | A harmless rename carries the contents of every file below the source to the same place below the destination. |
| Client.OpenFSClient.DeleteFile | src/client/openfs_client.cpp:216-221 | Keeps the invariants; on success only the namespace changes, as DeleteFile specifies, else nothing does. |
| Client.OpenFSClient.Rename | src/client/openfs_client.cpp:230-235 | The tree becomes what Rename specifies and nothing else changes; the invariants survive exactly when the rename is harmless. |
| Client.OpenFSClient.MkDir | src/client/openfs_client.cpp:237-242 | The same for MkDir. |
| Client.OpenFSClient.RmDir | src/client/openfs_client.cpp:251-256 | The same for RmDir. |
| Client.RestartDataNode | src/data/data_node.cpp:54-66 | After a crash and restart of the data node every file reads as before. |
| Client.CutOffDataNode | src/data/data_node.cpp:54-66 | The same after one inside a write of a block. |
| FileMoves.EventKeepsStore | src/client/openfs_client.cpp:25-256 | Every client operation, and a restart of the data node, keeps the tree and the agreement of block map and stored blocks. |
| FileMoves.MkDirReads | src/meta/namespace_manager.cpp:104-154 | A new directory reads as an empty file and every other path reads as before. |
| FileMoves.RmDirReads | src/meta/namespace_manager.cpp:203-237 | After the removal of a directory its path reads as absent and every other path reads as before. |
| FileMoves.DeleteReads | src/meta/namespace_manager.cpp:285-310 | After a delete its path reads as absent and every other path reads as before. |
| FileMoves.FileFollows | src/client/openfs_client.cpp:25-256 | A written file reads its bytes after any run of client operations that do not aim at its own path: writes, failed writes, removals, new and removed directories, restarts of the data node, and renames of it or of any directory above it, at the path the renames lead to. |
| BlockSplitter.SplitWithLevel | src/client/block_splitter.cpp:26-60 | The slices are the pieces of the data in order, with their checksums. |
| BlockSplitter.SliceIsChunk | src/client/block_splitter.cpp:43-56 | A slice's offset, size and checksum are those of one piece of the data. |
| BlockSplitter.ChunksTile | src/client/block_splitter.cpp:40-57 | The pieces put together again are the data. |
| BlockSplitter.CoversExactly | src/client/block_splitter.cpp:12-18 | The slices cover the whole file exactly when it needs at most 2^32 - 1 of them (64-bit sum and uint32_t cast included). |
| BlockSplitter.BlockCountIs | src/client/block_splitter.cpp:12-18 | The number of slices is the rounded-up quotient modulo 2^32, and 0 for sizes within one block of 2^64. |
| BlockSplitter.SelectedLevelIsLeast | src/common/types.h:90-101 | Up to 4 MiB a file gets the least level whose block holds it, beyond that L3; up to 32 MiB it is one block. |
| BlockMap.BlockMap.AddBlocks | src/meta/block_map.cpp:6-16 | Appends the ids to the list of the inode and records every block. |
| BlockMap.BlockMap.GetBlocks | src/meta/block_map.cpp:18-37 | The recorded blocks of the list in order; NotFound for an inode without one. |
| BlockMap.AddedComeBack | src/meta/block_map.cpp:6-37 | Blocks with distinct ids come back in the order in which they were added. |
| BlockMap.OtherFileKept | src/meta/block_map.cpp:6-37 | Adding blocks under new ids changes no other file's blocks. |
| BlockMap.MetasJoin | src/meta/block_map.cpp:18-37 | The list is gone through id by id, in order: the blocks of two lists joined are those of the one and then those of the other. |
| BlockMap.MetasOfOne | src/meta/block_map.cpp:18-37 | An id gives its block, or nothing if it is not recorded. |
| BlockMap.BlockAllocator.Allocate | src/meta/block_allocator.cpp:8-31 | Consecutive ids never given out before, each with the level and its size; NoSpace, and no id, exactly if no data node is online. |
| LruCache.LruCache.Get | src/client/metadata_cache.cpp:113-130 | List and index stay in agreement; the answer and the new order are those of the list specification, for which LruRecency.AnswersExactly and ListExactly say on every trace what they are; an expired entry goes. |
| LruCache.LruCache.Put | src/client/metadata_cache.cpp:132-160 | The same for insertion or update, with eviction from the back down to the capacity. |
| LruCache.LruCache.Invalidate | src/client/metadata_cache.cpp:162-171 | The same for removal. |
| LruCache.IndexSize | src/client/metadata_cache.cpp:150-159 | A list and an index that agree have the same size, which is what the eviction loop tests. |
| LruList.RunIncluded | src/client/metadata_cache.cpp:113-233 | On every trace of operations with the same clock, a smaller cache's list is a subsequence of a larger one's, and no list exceeds its capacity. |
| LruList.StepIncluded | src/client/metadata_cache.cpp:113-233 | Each operation keeps that inclusion. |
| LruList.HitInSmallIsHitInLarge | src/client/metadata_cache.cpp:113-130 | Whatever a smaller cache answers, a larger one answers the same. |
| LruList.AnswersAreCurrent | src/client/metadata_cache.cpp:113-233 | A cache of any capacity answers only with the value last put, not invalidated since, and not expired. |
| LruRecency.AnswersExactly | src/client/metadata_cache.cpp:113-233 | Over every trace, said of the trace alone: a Get is answered exactly if the key was put, not invalidated and not found expired since, is not expired now, and since its last use (Put or answered Get) there were never as many more recently used keys as the capacity; the answer is the value last put. |
| LruRecency.ListExactly | src/client/metadata_cache.cpp:113-233 | The keys held are exactly those, with their current entries, and the list is in order of last use. |
| LruRecency.RecentlyUsedStays | src/client/metadata_cache.cpp:113-233 | A key just put, or just answered, stays while fewer than capacity other keys are put or asked for. |
| LruRecency.PutIsAnswered | src/client/metadata_cache.cpp:113-160 | So a value put is answered until its time to live is over, and not after, whatever else is done with fewer than capacity other keys. |
| LruRecency.HitIsRepeated | src/client/metadata_cache.cpp:113-130 | And so is a value answered once. |
| IdGenerator.IdGenerator.NextId | src/common/id_generator.cpp:19-46 | Id and new state are those of the specification, the wait for another clock reading included. |
| IdGenerator.IncreasingExactly | src/common/id_generator.cpp:19-46 | For positive, nondecreasing clock readings below 2^41 ms, the ids of one generator are strictly increasing exactly while no millisecond sees more than 4096 calls. |
| IdGenerator.RepeatsAfter4096 | src/common/id_generator.cpp:25-45 | The 4097th id of a millisecond repeats its first. |
| IdGenerator.IdIs | src/common/id_generator.cpp:25-45 | The n-th id of a millisecond carries sequence number 2(n - 1) modulo 2^13: every call but the first takes two numbers. |
| IdGenerator.SameIdExactly | src/common/id_generator.cpp:19-46 | For positive readings of a clock that may go back: two ids are equal exactly if their readings agree modulo 2^41 and their numbers within an unbroken row of equal readings agree modulo 4096. |
| IdGenerator.RepeatsAfterClockGoesBack | src/common/id_generator.cpp:19-46 | Readings t, t - 1, t give the first id again. |
| IdGenerator.NeverWaits | src/common/id_generator.cpp:26-35 | The overflow branch is never taken: the counter it tests is odd. |
| IdGenerator.IdAfterWait | src/common/id_generator.cpp:26-45 | A call that does find the counter at 0 in the last millisecond makes its id from the reading after the first that differs, with number 1. |
| IdGenerator.FieldsDecode | src/common/id_generator.cpp:43-45 | The three bit fields of an id read back. |
| SegmentLog.SegmentEngine.WriteBlock | src/data/segment_engine.cpp:26-66 | Fails exactly if 4096 + 64 + size + 4096 exceeds the segment size. Else the block is reported at the aligned cursor of the open segment if cursor + 64 + 4096 and aligned cursor + 64 + size + 4096 do not exceed the segment size, and at byte 4096 of the next segment if one does. While the open segment is in order, or a new one is begun, that place is free and the block lies there; afterwards the segment is in order exactly if the block is smaller than 2^32 - 64 bytes, always so in segments below 2^32 + 8192 bytes. Blocks of earlier files whose numbers are used again are gone, all others stay. |
| SegmentLog.StaysInSegmentExactly | src/data/segment_engine.cpp:26-66 | A run of blocks stays in the open segment exactly if their aligned frames, one behind the other, fit it with its footer; then each lies right behind the one before, aligned. |
| SegmentLog.OpensLikeEmpty | src/data/segment_engine.cpp:15-40 | A log without an open segment goes on like one whose next segment is open and empty. |
| SegmentLog.SegmentEngine.ReadBlock | src/data/segment_reader.cpp:21-67 | Every block ever written in order, in sealed segments too, reads back its bytes and checksum; other reads return what the file bytes say. |
| SegmentLog.SegmentEngine.constructor | src/data/segment_engine.cpp:9-13 | Over the files of an earlier engine: nothing is lost yet, but segment numbers start at 1 again. |
| SegmentLog.Restart | src/data/segment_engine.cpp:9-24 | A new engine still reads every block of the one before; its first write takes segment 1. |
| SegmentLog.ReusedIsLost | src/data/segment_writer.cpp:9-24 | Every block of a segment file that is opened anew fails to read. |
| SegmentLog.StoredReused | src/data/segment_engine.cpp:15-24 | Opening a segment file anew loses its own blocks and no others. |
| SegmentLog.SegmentWriter.WriteBlock | src/data/segment_writer.cpp:45-97 | Appends padding to the alignment and the frame at the end of the file and moves the cursor by the 32-bit sum, or changes nothing; in order before, it is in order after exactly if the block is smaller than 2^32 - 64 bytes. |
| SegmentLog.SegmentWriter.Seal | src/data/segment_writer.cpp:99-125 | Puts the footer at its place and keeps everything below it. |
| SegmentLog.CursorFollowsExactly | src/data/segment_writer.cpp:88-89 | A cursor at the end of the file is there again after a block if and only if the block is smaller than 2^32 - 64 bytes. |
| SegmentLog.ReportedWhereWrittenExactly | src/data/segment_writer.cpp:51-89 | A block lies where it is reported if and only if the cursor is the end of the file; otherwise a read at the reported place takes size and checksum from older bytes. |
| SegmentLog.NextLandsInside | src/data/segment_writer.cpp:51-89 | After a block of 2^32 - 64 bytes or more the next one is reported inside it: at its start, or 4096 bytes further. |
| SegmentLog.TwoBlocksOnePlace | src/data/segment_writer.cpp:45-97 | A failing input: in a segment of 2^33 bytes a first block of 2^32 - 64 bytes and a small second one are answered the same place, and reading there gives the first. |
| SegmentLog.StoredAdd | src/data/segment_writer.cpp:52-91 | A block framed behind all others of its segment keeps all blocks aligned, behind the header and disjoint. |
| SegmentLog.FramedReadsBack | src/data/segment_reader.cpp:41-63 | A framed block reads back its bytes and checksum. |
| SegmentLog.ReadsFrameExactly | src/data/segment_reader.cpp:21-67 | A read succeeds exactly if the file has such a size, checksum and payload there; NotFound exactly if there is no such file. |
| SegmentLog.FieldsOfFrame | src/data/segment_writer.cpp:58-91 | Id, level, size, checksum and payload of a frame decode to those of the block. |
| SegmentLog.HeaderAndFooterRead | src/data/segment_writer.cpp:99-125 | Header and footer of a segment tell its number, the footer also where its blocks end. |

## Left out

- Locks and threads: every public method is atomic; the interleavings modelled are crashes.
- O_DIRECT, alignment and `BlockIOEngine`: the device is a byte array with ReadAt and WriteAt that may fail part-way; the file stream's sticky error state is not modelled.
- Struct padding: `sizeof` of the superblock, block header and log header exceeds the nominal sizes; headers are field records at their nominal offsets.
- Superblock contents other than the layout (magic, uuid, times, checksum) and `ValidateSuperBlock`.
- Torn log headers: writing one log header is one step.
- Bitmap saves the device rejects: `SaveBitmap`'s status is ignored by every caller. In the machine a save may be torn by a crash, but is not lost silently; what one lost silently costs is `DiskMachineLimits.UnsavedWriteSurvivesExactly`.
- A WAL file that cannot be opened.
- Wal.WalManager.CommitEntry: a slot past the end of the file (IOError in the code) and a slot that was never written (NotFound) both give NotFound; no caller looks at this status.
- DiskManager.DiskManager.DeleteBlock: stated for the location of a live block; the code frees whatever range it is given, and DataNode only passes such locations.
- DiskManager.DiskManager.SaveBitmap: stated for bitmaps below 4 GiB; `DiskLayout.ReloadedBit` says what is lost above.
- DiskManager.DiskManager.WriteBlock: stated for payloads up to 2^32 - 4128 bytes, beyond which the 32-bit sizes wrap (`BlockRecord.WriteBufferHoldsBlockExactly`), and block ids below 2^64.
- DiskLayout.Format: says nothing when wal_blocks + 3 exceeds 64 bits, where the size test wraps around.
- DiskPool.DiskPool.AddDisk: stated for a new disk; disks that exist already come back by `DiskPool.DiskPool.ReopenAll`, which reuses the objects and keeps the order. CloseAll and the space totals of the pool are not modelled.
- DataNode.DataNode.Restart: the process ends between operations, in `DataNode.DataNode.WriteCutOff` inside a write; for one that ends inside a delete or a recovery the machine's runs say what the disk keeps. Registration with the metadata node and the heartbeat are not modelled.
- DiskManager.DiskManager.LoadBitmap: a failing read is not modelled; below 4 GiB the size fits its cast.
- Client.OpenFSClient.WriteFile: not stated for the path "/", for which CreateFile breaks the tree, nor for block ids that pass 2^64.
- NamespaceManager.NamespaceManager.Rename: asks that every inode is filed under its own id, which the tree invariant gives.
- SegmentLog.SegmentEngine.WriteBlock: stream errors are not modelled; segments hold at least header and footer and are smaller than 2^64 - 2^32 - 64 bytes, beyond which the 64-bit sums of the fit tests may wrap.
- IdGenerator.IncreasingExactly: one generator; asks for a clock that does not go back and stays below 2^41 ms (else `IdGenerator.SameIdExactly`), and for positive readings, as a first reading 0 would find the initial state.
- Write order of the replicas, block access counts, create times, node ids beyond "some data node is online", and the client's address cache.
- The inode and by-path part of `MetadataCache`: it locks its own mutex twice and evicts by name instead of path.
- `L2Cache`: it reads through a reference to an erased node.
- `RepairManager`, `RebalanceManager`, `HeatTracker`: stubs and floating-point decay.
- Symbolic links, packed small files, `UpdateBlock`, `RemoveBlocks`, `NextSequentialId`: each is a direct read or update of one map entry or field, with no invariant beyond those proved of the operations modelled.
- gRPC services and message conversion, command line, FUSE, S3, configuration, logging and deployment.
