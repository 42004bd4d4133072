# GoNFS: a model and its proofs

GoNFS is a journaled NFSv3 server (RFC 1813). This project models its hard core in Dafny
and proves what the code promises about it: the block tree of an inode that grows on
demand and shrinks over many transactions, the two-level block allocator, transactions
and crashes, directories with their name cache and cookies, the locks, handles, inode
cache and disk layout around them, and SimpleNFS.

## How it is built

Code that changes things step by step is a class or a method (`Inode`, `AllocTxn`,
`Directory`, `Cache`, `FsTxn`, `Nfs`); each method is proved against a predicate or a
function, and theorems about those follow as lemmas.

- *Block tree.* A slot of an inode is a list of indices: an entry of `blks`, then an index
  at each level. `At(v, blks, s)` is the block in slot `s` as view `v` of the disk has it,
  `First(s)` the first logical block below `s`. `InodeOk` says that all pointers, to
  leaves and index blocks alike, are pairwise distinct and in a given set. `InodeGrown`
  is what one `bmap` does, `Ext` what a run of them does, `ShrunkTo(n)` says that exactly
  the slots with `First(s) >= n` are gone and exactly their blocks freed, each once.
  Modules `Tree`, `Growth`, `Slots`, `Cutting`, `Pruning`, `Shrinking`.
- *Bytes.* `FileByte` makes of a file a total byte map with zeros for holes; `Wrote`
  and `SameBytes` compare two of them. Module `Files`; the inode object is in `Inodes`,
  `Shrinks` and `Shrinker`.
  `Histories` follows an inode through any sequence of operations, `Resizing` says when
  `Resize` may be called.
- *Transactions.* `AllocTxn` is a private overlay on the committed disk. `Numbers` is the
  allocator protocol as a state machine. `Machine` is the whole file system as a state
  machine: any number of transactions that lock inodes, work on them, commit, abort, and
  crashes; `MachineInv` proves its invariant, `Consistency` what follows for every run.
  `Refinement` shows that in every state that satisfies the invariant the methods of the
  inode object may be called, and that what they do is a step of the machine; `Leaks`
  gives the inodes of the machine their sizes and shows that no block is lost as long as
  no allocation is refused; `Caching` says what happens to inodes that stay in memory.
- *Directories.* `DirEnts` (slots, scan, cache), `Paging` (cookies and budgets),
  `DirFiles` (slots as bytes of a file), `Dirs` (the operations on the inode object).
- *The rest.* `Basics`, `LockOrder` and `Locks`, `Handles` and `FsTxns`, `Lru` and `Caches`,
  `Bitmaps` and `Mkfs`, `Records`, `SimpleSpec` and `Simple`.

The geometry is symbolic: a block has any positive number of 128-byte slots; log size and
the number of inode bitmap blocks are unconstrained constants. The journal package is seen
through contracts only: an operation is an overlay that is installed atomically, `NDirty`
is the number of dirty objects, an allocator is a set. Time, and whether an allocation is
refused, whether a commit succeeds (SimpleNFS) and when the system crashes, are inputs or
non-deterministic choices. Arithmetic is over unbounded integers, with preconditions where
the source could wrap; generations wrap at 2^64.

## What turned out to be false

- `lockInodes` sorts by the wrong array (nfs/lorder.go:21), so its comment does not hold
  beyond two inodes. `LockOrder.OrderedIff` gives the exact condition, and
  `Locks.ThreeCanDeadlock` a deadlock.
- An index block left without leaves by a refused allocation is lost when the block above it
  is freed: `Shrinking.CallExactIff` and `Shrinking.StrayIndexLost`.
- `Resize` of an inode that is still shrinking, as `doDecLink` may call it, can strand
  blocks: `Resizing.ResizeResumableIff` gives the condition on the inode's fields.
- A READ refused below a new index block, and committed, leaves that block marked and in no
  inode on disk: `Leaks.RefusedReadLeaks`. Without a refusal nothing is lost:
  `Leaks.MarkedIsReachable`.
- Truncation does not clear the rest of the last block: `Resizing.TruncateZeroIff` and
  `Resizing.CutInside`.
- An abort after a change in memory leaves an inode in the cache that no longer belongs to
  the disk: `Caching.AbortIff`, and `Caching.RefusedWriteHarms` with a refused WRITE.
- A client whose budget is spent by the entry "." asks for the first page for ever:
  `Paging.ListingIff`.
- The name cache misses live names if the scan that fills it spends its budget before the
  last of them: `Paging.CacheIffFits` gives the condition, `Paging.LookupDiffers` the lookup
  that goes wrong; up to 411523 live entries always fit.
- `pow` squares, and is right up to level 2 only: `Inodes.Pow`.
- A handle comes back to life after a multiple of 2^64 changes: `Handles.ResolvesIff`.
- `markAlloc` marks up to the end of one bitmap block only, which is enough exactly because
  `MkFsSuper` puts the disk size in the last one: `Mkfs.WholeIff`.
- The comment at inode/shrink.go:65 counts an inode block, two bitmap blocks and two index
  blocks for a step; the step also zeroes the leaf. The bound still leaves the two bitmap
  blocks, see `Shrinks.Shrink`.
- The double-indirect branch of `bmap` compares with the indirect entry
  (inode/inode.go:252). That is harmless: `Inodes.Inode.Bmap` reports every change.

## Model

| member | source | states |
|---|---|---|
| `Bytes.PtrPutGet` | inode/inode.go:208-219 | a pointer put in an index block is read back, and every other slot of the block keeps its pointer |
| `Bytes.PtrGetZeros` | inode/inode.go:194-212 | a zero block is an index block without pointers |
| `Tree.FirstOfPath` | inode/inode.go:206-214 | the path found by dividing an offset level by level leads to the leaf of that offset |
| `Tree.PathOfFirst` | inode/inode.go:206-214 | and no other path leads there |
| `Tree.WalkFrame` | inode/inode.go:211-214 | a walk depends only on the index blocks it passes |
| `Growth.FreshRoot` | inode/inode.go:196-204 | growing from a fresh zero block is growing from nothing, with that block as one of the new ones |
| `Growth.LinkUp` | inode/inode.go:214-220 | linking a grown child into its index block grows the tree by the same blocks, keeps all pointers distinct, and changes no other path |
| `Slots.SlotOfBlock` | inode/inode.go:225-257 | every logical block in range has one leaf slot, from which it is found again |
| `Slots.BlockOfLeaf` | inode/inode.go:225-257 | every leaf slot belongs to one logical block in range |
| `Slots.GrowEntry` | inode/inode.go:239-256 | growing the tree below one entry of the inode keeps the whole inode well formed and every other slot |
| `Slots.GrownKeepsContents` | inode/inode.go:225-259 | mapping a block changes the contents of no logical block: a hole gets a zero leaf |
| `Slots.MappedOnce` | inode/inode.go:225-259 | mapping a block that is mapped allocates nothing and changes no slot, so a second call returns the same block |
| `Slots.BlocksDiffer` | inode/inode.go:225-259 | distinct logical blocks never share a block |
| `Slots.OtherInodeKept` | inode/inode.go:225-259 | mapping a block of one inode changes no slot and no block of another inode |
| `Files.InRange` | inode/inode.go:142-145 | every offset below MaxFileSize is in the range of bmap |
| `Files.MaxFileSizeIff` | inode/inode.go:142-145 | an offset is below MaxFileSize if and only if its block is below 8 plus the square of the pointers in a block |
| `Files.RoundUpIff` | inode/inode.go:171-173 | n bytes round up to at least x blocks if and only if they reach into the x-th |
| `Files.RoundUpInRange` | inode/inode.go:171-173 | so is every block count of a size up to MaxFileSize |
| `Files.LeafWrite` | inode/inode.go:326-335 | writing a leaf changes the contents of that logical block only, and no slot |
| `Files.WriteBytes` | inode/inode.go:326-335 | placing bytes in a block changes exactly the bytes at those file offsets |
| `AllocTxns.Alloc.AllocNum` | alloctxn/alloctxn.go:120-129 | returns 0 and changes nothing, or a number that was not marked, which it marks |
| `AllocTxns.Alloc.FreeNum` | alloctxn/alloctxn.go:89-98 | unmarks one number |
| `AllocTxns.AllocTxn.AllocBlock` | alloctxn/alloctxn.go:112-129 | a block it returns is a data block (the assertion cannot fail), was unmarked, is zero, and is recorded as taken; a refusal changes nothing |
| `AllocTxns.AllocTxn.ReadBlock` | alloctxn/alloctxn.go:141-146 | the block as the transaction sees it |
| `AllocTxns.AllocTxn.ZeroBlockAt` | alloctxn/alloctxn.go:148-155 | the block becomes zero and dirty, and nothing else changes |
| `AllocTxns.AllocTxn.FreeBlock` | alloctxn/alloctxn.go:131-139 | zeroes the block and records it as freed, so free blocks stay zero; block 0 is ignored |
| `Inodes.Pow` | inode/inode.go:131-140 | is the number of leaves below an index block if and only if the level is at most 2 |
| `Inodes.Inode.IndBmap` | inode/inode.go:194-221 | also when an allocation is refused part-way, the tree stays a tree of distinct owned blocks, grown by exactly the blocks taken, along the path to the offset; returns the leaf there, 0 if and only if an allocation was refused |
| `Inodes.Inode.Descend` | inode/inode.go:206-220 | the same for an index block that exists |
| `Inodes.Inode.BmapDirect` | inode/inode.go:228-235 | maps a direct block |
| `Inodes.Inode.BmapIndexed` | inode/inode.go:236-257 | maps a block below an indirect entry; a change of the inode is reported although both branches compare with the indirect entry |
| `Inodes.Inode.Bmap` | inode/inode.go:223-259 | keeps all pointers of the inode distinct and owned, also on failure; the result is the block in the slot of bn; slots only go from empty to a new block on the way to bn; any change of the inode is reported, and it is stated exactly when one is; 0 if and only if an allocation was refused |
| `Inodes.Inode.WriteInode` | inode/inode.go:147-154 | the record of the inode becomes the inode in memory, field by field |
| `Inodes.Inode.PutBytes` | inode/inode.go:321-335 | both ways of storing bytes, whole block or part, place them at their position and keep the rest of the block |
| `Inodes.Inode.MapRound` | inode/inode.go:276-285 | the bmap call of a round changes no byte of the file and can fail only at a hole |
| `Inodes.Inode.WriteRound` | inode/inode.go:312-340 | one round stores the bytes of one block, or nothing |
| `Inodes.Inode.WriteLoop` | inode/inode.go:312-340 | the rounds store a prefix of the data, which ends at a hole, on a block boundary, if it is not all of it |
| `Inodes.Inode.Write` | inode/inode.go:298-350 | changes exactly the bytes from offset on, to the first cnt of the data; size becomes the maximum of the old size and offset + cnt if cnt > 0; all is written if and only if no allocation is refused, for all data that ends below block 8 plus the square of the pointers in a block, and nothing for other data; the record is updated |
| `Inodes.Inode.GetBytes` | inode/inode.go:286-290 | the bytes copied are those of the file |
| `Inodes.Inode.ReadLoop` | inode/inode.go:275-293 | the rounds return a prefix of the range |
| `Inodes.Inode.Read` | inode/inode.go:261-296 | returns a prefix of the bytes from offset to the size or the count, all of them if and only if no allocation is refused, and changes no byte although it fills holes |
| `Records.HeadFields` | inode/inode.go:99-112 | the order and width of the fields before the times |
| `Records.EncodeFields` | inode/inode.go:99-112 | then the times and the pointers |
| `Records.DecodeEncode` | inode/inode.go:99-129 | a record is read as it was written, and fills 128 bytes |
| `Records.EncodeDecode` | inode/inode.go:99-129 | every 128 bytes are the record of exactly one inode |
| `Cutting.TrimStep` | inode/shrink.go:43-61 | one level of indshrink, given the one below: the slots cut and the blocks freed are those that start at the block number |
| `Pruning.PruneStep` | inode/shrink.go:70-87 | a step of the cursor to c clears the slots of c and those below index blocks that start at c, and frees each block that starts at c once |
| `Shrinking.PrunedTo` | inode/shrink.go:69-88 | for an inode without pointers at or above c + 1, that is shrinking to exactly c |
| `Pruning.SlotCutIff` | inode/shrink.go:34-62 | a step clears a slot if and only if it or an index block above it starts at the cursor |
| `Shrinking.ClearedJoin` | inode/shrink.go:69-88 | a call that moves the cursor from hi to lo clears, in any tree, exactly the slots that start between or hang below one that does, and frees exactly the blocks that start between |
| `Shrinking.CallExactIff` | inode/shrink.go:34-88 | such a call loses no block if and only if no pointer that starts at or above hi hangs below an index block that starts between |
| `Shrinking.StrayIndexLost` | inode/shrink.go:50-61 | with a stray index block the step loses it |
| `Shrinking.ShrunkJoin` | inode/shrink.go:69-88 | shrinking to n and then to m is shrinking to m |
| `Shrinking.AtMostThree` | inode/shrink.go:64-88 | a step dirties at most three blocks |
| `Shrinks.IndShrink` | inode/shrink.go:34-62 | clears exactly the nodes at the leaf and the index blocks that start there, frees exactly those below the root, dirties only blocks on the way; returns the root if and only if it is to be freed |
| `Shrinks.FreeIndex` | inode/shrink.go:29-32 | frees the block of an entry, if any, and clears the entry |
| `Shrinks.ShrinkAt` | inode/shrink.go:71-87 | the step at cursor c, for direct, indirect and double-indirect blocks |
| `Shrinks.ShrinkOnce` | inode/shrink.go:69-88 | moves the cursor down by one and frees what starts there |
| `Shrinks.Shrink` | inode/shrink.go:64-91 | frees, each once, what starts at or above the new cursor and nothing else, keeps contents below, updates the record; also with stray pointers what is cleared and freed is stated exactly; the dirty objects end at most one above LogBlocks - 3, or above where they started; stops with more to do only if five more would not fit, and then says so; makes progress otherwise |
| `Shrinks.Resize` | inode/inode.go:163-189 | sets the size and the cursor; asks for a shrinker if and only if the file gets shorter by so many blocks that they do not fit in the transaction with the record, and then frees nothing; else shrinks at once, and is left shrinking only if five more dirty objects do not fit; growing changes no block |
| `Shrinks.ResizedAndShrunk` | inode/inode.go:167-189 | Resize and Shrink to the end free exactly the leaves and index blocks that start at or above the new size, each once, and keep mapping and contents below |
| `Resizing.ResizeResumableIff` | inode/inode.go:170-178 | whatever the tree, Resize keeps all leaves below cursor or size if and only if the cursor is not beyond the old and the new size |
| `Resizing.Sample` | inode/inode.go:225-259 | for every logical block in range, direct or not, there is a well-formed inode that maps it alone |
| `Resizing.RemovalStrands` | nfs/nfs_ops.go:380-388 | so the removal of a file that is still shrinking may leave a block behind |
| `Resizing.TruncateZeroIff` | inode/inode.go:167-189 | a file shrunk to sz to the end reads as zeros from sz on if and only if the rest of block RoundUp(sz) - 1 did so before |
| `Resizing.CutInside` | inode/inode.go:172-183 | a file cut inside a block keeps the bytes behind the cut |
| `Histories.Perform` | inode/inode.go:163-350 | every operation on an inode, Resize of a shrinking one included, is a move: slots filled below the new size, the cursor moved down, or size and cursor set; with the blocks taken and freed and the record written |
| `Histories.MoveKeeps` | inode/inode.go:163-350 | every move keeps all leaves below cursor or size, and all pointers if no allocation is refused, unless Resize finds the cursor beyond both sizes |
| `Histories.HistoryKeeps` | inode/inode.go:163-350 | so in every history of an inode that was empty once |
| `Histories.ShrinkFindsAll` | shrinker/shrinker.go:38-61 | after any history, shrinking to the end leaves no leaf at or above the size, and is exact if no allocation was ever refused |
| `Histories.ResizeFreesExactly` | inode/inode.go:167-189 | after any history without a refusal, Resize and shrinking to the end free exactly what starts at or above the new size, each block once, and keep the file below |
| `Histories.RemovedIsEmpty` | nfs/nfs_ops.go:380-388 | after any history without a refusal, a file resized to 0 and shrunk to the end has no block left, and exactly what it had is freed |
| `Shrinks.ShrinkRun` | shrinker/shrinker.go:41-61 | a run of any number of shrink transactions does what one long one would |
| `Shrinker.FsState.Commit` | fstxn/commit.go:8-18 | installs the overlay, then unmarks exactly what was freed; free blocks stay zero |
| `Shrinker.ShrinkTxn` | shrinker/shrinker.go:45-52 | a transaction of the shrinker lowers the cursor if more is left, and leaves disk, record, inode and allocator in agreement |
| `Shrinker.DoShrink` | shrinker/shrinker.go:38-61 | restarted from any committed state, it keeps at every transaction boundary that no leaf is at or above both cursor and size, frees each block once and unmarks exactly those; ends with nothing left to free, or after the transaction after which it is told to stop |
| `Numbers.InvStep` | alloctxn/alloctxn.go:49-110 | every step keeps: marked in memory is marked on disk, or taken by a live transaction, or freed by a committed one and not released; no number belongs to two |
| `Numbers.RunInv` | fstxn/commit.go:8-50 | so does every interleaving of transactions, with crashes |
| `Numbers.FreshIsFree` | alloctxn/alloctxn.go:120-129 | a number handed out is not on disk, not taken, not given back by anyone |
| `Numbers.FreedStaysMarked` | alloctxn/alloctxn.go:89-98 | a number given back is not handed out again before its transaction commits |
| `Numbers.AbortReturnsAll` | alloctxn/alloctxn.go:100-110 | an abort, in any order, leaves exactly the marks of the disk and of the other transactions |
| `Bitmaps.SetBits` | nfs/nfs.go:104-108 | the loop marks exactly the bits of a range |
| `Bitmaps.BitOp.WriteBits` | alloctxn/alloctxn.go:63-72 | sets, or clears, exactly the bits of the numbers, whatever else their bytes hold |
| `Bitmaps.BitOp.PreCommit` | alloctxn/alloctxn.go:74-87 | the bitmap becomes what was marked and taken, less what was freed |
| `Bitmaps.FreeAll` | alloctxn/alloctxn.go:89-110 | the numbers, and no others, are unmarked in memory |
| `MachineInv.WorkAllowed` | alloctxn/alloctxn.go:131-139 | an operation on a locked inode gives back only numbers that nobody else holds or gives back |
| `MachineInv.MineUnique` | fstxn/fstxn.go:81-103 | no block belongs to two transactions |
| `MachineInv.InvWork` | inode/inode.go:225-259 | an operation in one transaction keeps the invariant of all |
| `MachineInv.InvCommit` | fstxn/commit.go:8-18 | so does a commit, even if some inodes were changed in memory and not written back |
| `MachineInv.InvAbort` | fstxn/commit.go:44-50 | so does an abort |
| `MachineInv.InvCrash` | fstxn/fsstate.go:32-47 | so does a crash with a rebuild from the bitmap |
| `MachineInv.InvStep` | fstxn/commit.go:1-50 | every step keeps the invariant: inodes on disk and in every transaction are trees of distinct marked data blocks, apart from each other, and unmarked blocks are zero |
| `Consistency.InitialInv` | nfs/nfs.go:81-93 | a new file system satisfies it |
| `Consistency.ExtIsStep` | inode/inode.go:262-350 | what Read and Write guarantee is a step of the machine that loses no block |
| `Consistency.ShedIsStep` | inode/shrink.go:66-91 | what Shrink guarantees is a step of the machine |
| `Consistency.ShrunkNoLoss` | inode/shrink.go:66-91 | it loses no block when there are no stray pointers |
| `Files.ExtBehind` | inode/inode.go:283-285 | the record on disk stays a part of the inode in memory |
| `Consistency.RunInv` | fstxn/commit.go:1-50 | every reachable state satisfies the invariant |
| `Consistency.FreeBlocksZero` | alloctxn/alloctxn.go:120-155 | in every reachable state a block that is not marked in memory is zero on disk and for every transaction |
| `Consistency.ReachableNeverReissued` | fstxn/fsstate.go:23-47 | what an inode on disk holds is marked after a crash at any point, and never handed out |
| `Consistency.TransactionsApart` | fstxn/fstxn.go:75-103 | no block is in two inodes or two transactions, nor in an inode on disk that the transaction has not locked |
| `Refinement.TxnReady` | alloctxn/alloctxn.go:112-155 | under the invariant every transaction and inode satisfies what the inode methods require |
| `Refinement.ReachableReady` | alloctxn/alloctxn.go:112-118 | so in every reachable state; no block of an inode fails AssertValidBlock |
| `Refinement.CallKeepsInv` | inode/inode.go:225-350 | a call that keeps its contract is a step of the machine and keeps the invariant of all |
| `Refinement.Execute` | inode/inode.go:163-350 | every Read, Write, Resize and Shrink of the inode object, in any state under the invariant, is a step of the machine after which objects and machine agree; it loses no block of an inode without stray pointers, unless Resize finds the cursor beyond both sizes; without a refusal the record stays up to date |
| `Caching.LockedIff` | fstxn/fstxn.go:90-103 | an inode found in memory satisfies the invariant for the next transaction if and only if it is the one on disk |
| `Caching.AbortIff` | fstxn/commit.go:44-50 | locking the inodes of an aborted transaction again keeps the invariant if and only if it had changed none of them |
| `Caching.CommitLags` | fstxn/commit.go:8-18 | pointers that a committed record lacks are to blocks that are marked, hold what the inode in memory has in them, and are nobody else's |
| `Caching.OrphanRun` | fstxn/fstxn.go:90-103 | they stay so in every run: nobody takes, frees or writes them |
| `Caching.RefusedWriteHarms` | inode/inode.go:194-220 | a WRITE refused after its index block was taken aborts; the block is free again, and still in the inode that stays in memory |
| `Consistency.NoLeakStep` | inode/inode.go:147-154 | a step that loses nothing, and a commit of inodes written back, keep every marked block reachable |
| `Consistency.UsedIsReachable` | fstxn/fsstate.go:23-47 | in runs of such steps the blocks marked after any crash are exactly those reachable from the inodes on disk |
| `Leaks.ExecuteSized` | inode/inode.go:163-350 | every operation of the inode object is a step of the machine with sizes, one without a refusal if the allocator refuses nothing and Resize does not find the cursor beyond both sizes |
| `Leaks.RecordUpToDate` | inode/inode.go:147-154 | then a record that was up to date in size and cursor stays so |
| `Leaks.TidyStep` | fstxn/commit.go:1-50 | every step without a refusal keeps all inodes, on disk and in every transaction, written back and without stray pointers |
| `Leaks.TidyCareful` | inode/inode.go:163-350 | and loses no block |
| `Leaks.MarkedIsReachable` | fstxn/fsstate.go:23-47 | in every run from a new file system in which no allocation is refused, with crashes, the blocks marked after a crash at any point are exactly those that inodes on disk hold |
| `Leaks.RefusedReadRuns` | inode/inode.go:276-285 | a READ that takes its index block, is refused the leaf and commits is a run of the machine |
| `Leaks.RefusedReadLeaks` | inode/inode.go:194-220 | it leaves the index block marked, after a crash too, and in no inode on disk |
| `DirEnts.EncodedFields` | dir/dir.go:216-222 | inode number, length and name, in this order |
| `DirEnts.DecodeEncode` | dir/dir.go:216-233 | a directory entry is read as it was written |
| `DirEnts.CacheIsScan` | dir/dcache.go:19-34 | the cache of a directory answers every lookup as the scan does |
| `DirEnts.AddKeepsCache` | dir/dcache.go:36-49 | putting an absent name in an empty slot keeps names unique and takes one change of the cache |
| `DirEnts.AddThenFound` | dir/dir.go:50-70 | afterwards that name is found in its slot, every other name as before |
| `DirEnts.RemKeepsCache` | dir/dcache.go:51-68 | emptying a slot keeps names unique and takes one change of the cache |
| `DirEnts.RemThenFound` | dir/dir.go:72-82 | afterwards that name is gone, every other name found as before |
| `DirEnts.RunKeepsCache` | dir/dcache.go:19-68 | after any sequence of additions and removals the cache, updated only, answers every lookup like a scan |
| `Paging.LiveInExact` | dir/dir.go:144-151 | the entries listed are the live ones, each once, in order of offset |
| `Paging.ListingIff` | dir/dir.go:132-213 | following the last cookie lists every live entry once, in order, and ends, if and only if "." does not spend the budget |
| `Paging.ListingBudget` | dir/dir.go:142-213 | that is a count above 97, or a dircount above 9 and a maxcount above 197 |
| `Paging.PageBudget` | dir/dir.go:142-213 | for both kinds of reply: 64 bytes and the entries of a page before its last, each with its name and 32 or 132 bytes, stay below the counts, and with the last one they do if and only if the page says that the end is reached |
| `Paging.CacheEndIff` | dir/dcache.go:11-17 | the scan that fills the cache reports every live entry if and only if what is counted before the last of them is below 10^8 |
| `Paging.CacheIffFits` | dir/dcache.go:11-34 | so the cache it builds answers every lookup as ScanName does if and only if that holds |
| `Paging.LookupDiffers` | dir/dcache.go:11-34 | a live entry that the scan does not reach is found by ScanName and not by LookupName |
| `Paging.BuiltSound` | dir/dcache.go:11-17 | the cache never has a wrong entry |
| `Paging.ManyFit` | dir/dcache.go:11-17 | up to 411523 live entries it is complete |
| `Paging.TooMany` | dir/dcache.go:11-17 | with 411524 names of the greatest length it is not |
| `Paging.AddAllIsCache` | dir/dcache.go:13-16 | adding the reports one by one gives the cache of the directory |
| `DirFiles.NoPartialSlot` | dir/dir.go:68-69 | a slot lies in one block, so that it is written whole or not at all |
| `DirFiles.EntsFilled` | dir/dir.go:33-37 | reading changes no entry, although it may fill holes |
| `DirFiles.EntsStored` | dir/dir.go:65-69 | writing a slot changes that entry and no other |
| `Dirs.Dcache.Add` | dcache/dcache.go:24-26 | sets the entry of a name |
| `Dirs.Dcache.Lookup` | dcache/dcache.go:28-31 | finds it if and only if it is there |
| `Dirs.Dcache.Del` | dcache/dcache.go:33-39 | removes it, and tells whether it was there |
| `Dirs.ScanName` | dir/dir.go:26-48 | finds the first live entry of the name and its offset; the directory does not change |
| `Dirs.IsDirEmpty` | dir/dir.go:84-100 | true if and only if no entry after the first two is live |
| `Dirs.FindSlot` | dir/dir.go:54-61 | the first empty slot from lastoff on |
| `Dirs.Place` | dir/dir.go:53-64 | the first empty slot from the hint on, if there is one other than slot 0, else a new one at the end |
| `Dirs.AddNameDir` | dir/dir.go:50-70 | the entry goes into an empty slot or a new one at the end; fails if and only if a new one is needed and there is no room |
| `Dirs.Apply` | dir/dir.go:132-213 | reports the live entries in order until the budget is spent, for any start |
| `Dirs.ReadPage` | dir/dir.go:137-213 | a reply is the page of the cookie |
| `Dirs.Directory.MkDcache` | dir/dcache.go:11-17 | builds, for any directory, the cache of the entries within the budget; it is complete if and only if the directory fits |
| `Dirs.Directory.LookupName` | dir/dcache.go:19-34 | answers from the cache, as the scan does if the cache is complete; nothing on an inode that is no directory |
| `Dirs.Directory.AddName` | dir/dcache.go:36-49 | puts the entry in the place that the hint gives and makes it the hint; overwrites no live entry, keeps names unique, slots whole, the cache free of wrong entries, and complete if it was; states exactly when it fails, and that nothing changes then |
| `Dirs.Directory.RemName` | dir/dcache.go:51-68 | succeeds if and only if the cache has the name, so if the name is there and the cache complete; empties its slot only, which becomes the hint; the cache follows, and its Del cannot fail |
| `Dirs.InitDir` | dir/dir.go:102-107 | a new directory has the entries "." and "..", if there is room |
| `LockOrder.SortByOriginal` | nfs/lorder.go:19-21 | the sort turns round every falling run of the inode numbers |
| `LockOrder.FlippedSame` | nfs/lorder.go:19-21 | it drops and repeats none |
| `LockOrder.OrderedIff` | nfs/lorder.go:15-23 | the order is ascending if and only if every two numbers out of order are in one falling run |
| `LockOrder.TwoOrdered` | nfs/lorder.go:43-55 | two are always in order |
| `LockOrder.ThreeUnordered` | nfs/lorder.go:21-23 | three need not be |
| `Locks.InvStep` | nfs/nfs_ops.go:157-203 | lookups with their retries, and lists in such an order, keep locks exclusive and each transaction's locks ascending |
| `Locks.NoDeadlock` | nfs/nfs_ops.go:157-203 | in every reachable state no inode is in two transactions, each acquires in ascending order, and no chain of waiting transactions closes |
| `Locks.LookupGetsBoth` | nfs/nfs_ops.go:157-203 | a lookup that finds a child comes to hold directory and child, in whichever order, unless it gives up |
| `Locks.SomeoneRuns` | nfs/nfs_ops.go:157-203 | whoever waits does so, through others, for a transaction that can go on |
| `Locks.ThreeCanDeadlock` | nfs/lorder.go:17-28 | with three inodes in the order of the sort two transactions can wait for each other |
| `Handles.DecodeEncode` | fh/nfs_fh.go:16-29 | a handle is the inode number and then the generation, and is read as it was made |
| `Handles.EncodeDecode` | fh/nfs_fh.go:16-29 | every 16 bytes are one handle |
| `Handles.ResolvesIff` | inode/inode.go:58-66 | a handle resolves later if and only if its inode was created and removed, together, a multiple of 2^64 times since |
| `Handles.StaleStaysStale` | inode/inode.go:156-161 | within 2^64 changes a handle resolves exactly as long as the incarnation it was issued for is there |
| `Handles.RootHandle` | fh/nfs_fh.go:31-36 | the fixed root handle resolves to the first incarnation of inode 1 |
| `FsTxns.FsTxn.GetInodeLocked` | fstxn/fstxn.go:81-103 | the inode is locked and the transaction's |
| `FsTxns.FsTxn.GetInodeInum` | fstxn/fstxn.go:110-123 | a free inode is not returned and not left locked |
| `FsTxns.FsTxn.GetInodeFh` | fstxn/fstxn.go:125-136 | an inode is returned, and locked, if and only if it is in use with the generation of the handle |
| `FsTxns.FsTxn.ReleaseInode` | fstxn/fstxn.go:75-79 | lock and inode are let go together, whichever it is |
| `FsTxns.FsTxn.Abort` | fstxn/commit.go:44-50 | all locks of the transaction are released, and no others |
| `FsTxns.FsTxn.LockInodes` | nfs/lorder.go:15-41 | locks all inodes in the order of the sort and returns them in the caller's; fails, holding nothing, if and only if one is free |
| `FsTxns.FsTxn.LookupOrdered` | nfs/lorder.go:50-70 | succeeds if and only if the parent's handle resolves, the child is in use and the name still means it; locks both in ascending order, else none |
| `Lru.RecentStep` | cache/cache.go:58-85 | a hit moves to the end, a miss drops the first if there is no room |
| `Lru.RecentIff` | cache/cache.go:45-85 | an identifier is among the recent ones if and only if fewer than sz others were used since |
| `Lru.RecentOrdered` | cache/cache.go:65-68 | they are ordered by last use |
| `Lru.RecentCount` | cache/cache.go:72-82 | they are distinct, and as many as there is room for |
| `Caches.Cache.Evict` | cache/cache.go:45-56 | drops the front of the list, and that entry of the map |
| `Caches.Cache.Touch` | cache/cache.go:65-68 | moves one entry to the back of the list |
| `Caches.Cache.LookupSlot` | cache/cache.go:58-85 | a hit returns the slot that was there and changes no entry; a miss returns a new one; every other entry that stays keeps its slot; list and map agree with the history |
| `Caches.Cache.Holds` | cache/cache.go:45-85 | the cache holds an identifier if and only if fewer than sz others were looked up since, and cnt, map and list have the size min(sz, distinct identifiers) |
| `Caches.Cache.InOrder` | cache/cache.go:65-68 | the list is ordered by last use |
| `Mkfs.InodesAsBits` | super/super.go:58-60 | there are as many inodes as bits in the inode bitmap, so no inode number handed out is refused by WriteInode |
| `Mkfs.RegionsApart` | super/super.go:34-52 | log, block bitmap, inode bitmap, inodes and data follow each other with the lengths of their fields, disjoint, and fill the disk; AssertValidBlock accepts the data blocks |
| `Mkfs.LogApart` | super/super.go:20-32 | the blocks of the log are in no other region |
| `Mkfs.InodeInRegion` | super/super.go:62-65 | every inode is in the inode blocks and in no other region |
| `Mkfs.InodeAt` | super/super.go:62-65 | record i starts i records after the start of the region |
| `Mkfs.InodesApart` | super/super.go:62-65 | every inode is inside the inode region, and no two overlap |
| `Mkfs.MarkAlloc` | nfs/nfs.go:95-128 | states exactly when the configuration is refused; else marks the two ranges, also in one block, and inodes 0 and 1; other blocks do not change |
| `Mkfs.MarkedExactly` | nfs/nfs.go:95-121 | on a blank disk exactly [0, n) and from m to the end of its bitmap block are marked |
| `Mkfs.WholeIff` | nfs/nfs.go:111-121 | all from m to the end of the bitmap is marked if and only if m is in its last block |
| `Mkfs.MakeFs` | nfs/nfs.go:81-93 | with the layout of MkFsSuper the numbers not marked are exactly the data blocks |
| `Mkfs.ReadBitmap` | fstxn/fsstate.go:23-30 | the bitmap is the blocks one after the other |
| `Mkfs.ConcatMarked` | fstxn/fsstate.go:23-30 | each number has its bit in it |
| `Mkfs.MkBalloc` | fstxn/fsstate.go:32-36 | the allocator marks what the disk marks; it hands out data blocks only if and only if all other numbers are marked |
| `SimpleSpec.FailsIff` | simple/ops.go:41-52 | states exactly which requests fail |
| `SimpleSpec.ReadAnswers` | simple/ops.go:191-209 | READ answers the bytes of the file from the offset on, as many as asked for or as there are, and whether they reach the end |
| `SimpleSpec.WriteLeaves` | simple/ops.go:229-255 | a write leaves its data at the offset and every other byte as it was |
| `SimpleSpec.AttrAnswers` | simple/ops.go:54-68 | GETATTR answers the size that writes and resizings made |
| `SimpleSpec.ServeFrame` | simple/ops.go:94-132 | a failed request changes nothing, and no request changes a file it does not name |
| `SimpleSpec.RunFrame` | simple/ops.go:229-255 | neither does any run |
| `SimpleSpec.ReadBack` | simple/ops.go:191-255 | what was written is read back after any run that does not change the file, crashes included |
| `SimpleSpec.GrowZeros` | simple/ops.go:98-112 | a file that is cut and grown reads as zeros where it was cut |
| `Simple.AddrsApart` | simple/0super.go:8-18 | no two records or data blocks overlap |
| `Simple.DecodeEncode` | simple/inode.go:20-34 | a record is read as it was written |
| `Simple.AbsChanged` | simple/inode.go:61-105 | a change of record and data of one inode is a change of one file |
| `Simple.WroteFile` | simple/inode.go:87-98 | what Write stores is the file with the data spliced in |
| `Simple.Inode.Read` | simple/inode.go:36-59 | returns the slice of the file, and whether it reaches the end |
| `Simple.Inode.Write` | simple/inode.go:67-99 | splices the data into the file, or changes nothing, and states exactly when |
| `Simple.InodeInit` | simple/inode.go:129-135 | gives every inode its own data block; all files are empty |
| `Simple.Nfs.GetAttr` | simple/ops.go:54-92 | answers as the map from inode numbers to byte sequences would |
| `Simple.Nfs.SetAttr` | simple/ops.go:94-152 | changes and answers as the map would |
| `Simple.Nfs.Read` | simple/ops.go:191-227 | answers as the map would |
| `Simple.Nfs.Write` | simple/ops.go:229-255 | changes and answers as the map would |
| `Simple.Nfs.Run` | simple/ops.go:54-255 | any sequence of requests with crashes between them, and commits that fail, refines the map |

## Left out

- RENAME: three or four inodes are covered only as lists locked by `lockInodes` in a harmless order; its handle checks are not modelled.
- Child locking inside `Apply`, which the source itself marks as out of order (dir/dir.go:131); the lock machine assumes name caches that are already built.
- Locks.NoDeadlock: lists of more than two inodes take part only if `LockOrder.OrderedIff` holds of them; two transactions may retry for ever, only deadlock is excluded.
- Caching.LockedIff: an inode in memory whose committed record lags is not one the machine locks; that its extra blocks are safe is `Caching.CommitLags` and `Caching.OrphanRun`, what transactions do with it next is not modelled.
- MachineInv.InvAbort: the machine loads inodes from disk when they are locked; what the source's cache adds is in `Caching`, for pointers, not for sizes and name caches.
- Inodes.Inode.WriteInode: does not model the panic for an inode number beyond NInode; `Mkfs.InodesAsBits` shows that no number handed out is.
- Commits that fail in GoNFS: `commitWait` runs `postCommit` all the same (fstxn/commit.go:13-18); in the machine commits succeed.
- The inode allocator has no class of its own: its protocol is that of `Numbers`, its bits those of `Bitmaps`; `AllocInode` and `getAlloc` are not modelled.
- Consistency.UsedIsReachable: assumes that steps lose no block and commits find inodes written back; `Leaks.MarkedIsReachable` derives both where no allocation is refused and no Resize finds the cursor beyond both sizes.
- Inodes.Inode.Read: requires offset + count below 2^64 and a size of at most MaxFileSize; the source does not check.
- Inodes.Inode.Write: requires offset + count below 2^64, and as many bytes as count; the source does not check.
- Shrinks.Resize: requires sizes of at most MaxFileSize; the source does not check.
- Shrinks.Shrink: requires a cursor of at most MaxBlocks, which sizes of at most MaxFileSize give.
- Shrinker.FsState.Commit: the bits that PreCommit writes are modelled in `Bitmaps` and `Numbers`, not here; the commit succeeds.
- Shrinker.ShrinkTxn: the commit succeeds.
- Shrinker.DoShrink: that leaves are below cursor or size at the start is `Histories.HistoryKeeps`; the inode stays the same object between transactions, and nobody else resizes it meanwhile; after which transaction it is told to stop is an input.
- Dirs.ScanName: the directory has no holes, as every directory made by `InitDir` and `AddName`, so the break on a short read is never taken; slots hold entries that fit.
- Dirs.AddNameDir: requires that the name is absent, which callers check with a lookup; the source would add it a second time.
- Dirs.Directory.AddName: requires that the name is absent, as `Dirs.AddNameDir` does.
- Dirs.Apply: without locking the children for the callback.
- Dirs.ReadPage: cookies are multiples of 128, as the server issues them.
- FsTxns.FsTxn.GetInodeFh: the handle has at least 16 bytes, and its inode number is in the table; the source panics, or reads outside the inode region, otherwise.
- FsTxns.FsTxn.GetInodeInum: does not model the panic for an inode in use without links.
- FsTxns.FsTxn.LookupOrdered: the inode number that the second lookup of the name finds is an input.
- FsTxns.FsTxn.LockInodes: the locks are free when asked for; waiting is a matter of `Locks`.
- LockOrder.SortByOriginal: sort.Slice as insertion sort, which it is for short slices.
- Inodes.Pow: without wrap-around at 64 bits, which starts beyond level 3.
- Mkfs.MakeFs: does not write the root inode; the disk is blank.
- Simple.Nfs.Run: requests are served one at a time; the locks of SimpleNFS are not modelled.
- Times, attributes other than size, link counts (no counting invariant holds of them), and the directory structure above single directories.
- Generated XDR code, the mount protocol, constant replies, statistics, servers, benchmarks and kvs hold no file-system state of their own.
- The journal and marshal packages themselves, known by contract only.
