# Verification of dbfs

dbfs is a FUSE file system that keeps its inodes, directory entries and file data in one SQLite
database. Writes are buffered in memory, one 64 KiB chunk at a time, and reach the database when a
file is closed or synced, when the write buffer is full, or when the mount ends. This project models
that machinery in Dafny and proves that a client cannot tell the buffered file system from a plain
map of byte arrays, that the directory tree stays a tree with right link counts, that a crash leaves
an earlier state of every file, and that a mount which ends in success has stored every file.

Check it with `dafny verify dfyconfig.toml`.

## How the model is built

* **Values.** `Files` gives a file as a size and a sparse map of chunk rows, and `Contents` the byte
  array they stand for. `Namespace` gives inodes and entries with their invariants. `CacheModel`
  gives the cache in front of the store as a state (`Fs`: stored inodes, live slots, the shutdown
  flag) and seventeen atomic events, one per database transaction or change of the open-inode table.
  A run is a sequence of enabled events; a write of several chunks is several events, with flushes
  and evictions in between, so a theorem about all runs is also one about the middle of an operation.
* **Code.** `Chunking.CopyOut`, `Arena.ChunkArena`, `Arena.DirtyIdx`, `OpenTable.OpenInodes`,
  `OpenTable.Handles`, `Database.Db` and `Fuse.Shared` follow the source statement by statement:
  sequences and maps that are updated in place, loops, early returns. Each method states the new
  state outright, in terms of the values above. Any database call may fail, unless the store is
  `healthy`; then the tables are unchanged. No operation reports a failing store over a healthy one,
  so every other refusal has one of the reasons its contract lists.
* **The tie.** `Fuse.Shared` carries a ghost event log and the state it leads to. `Valid()` says
  that the log is a run, that the tables, the slots, the dirty indices and the arena hold exactly
  that state, that every arena slot is free or in exactly one place of one index, and that each
  slot's reference count is the number of handles that map to it. Every operation keeps `Valid()`
  and says which events it added, so theorems about runs hold of the class at every moment.
  `Database.Db` carries a second ghost trace, `attempts`: one entry for every commit of buffered
  chunks, with the error if it was refused. What an operation promises about failures is said in
  terms of it.
* **Operations** holds what the operations do in values: the outcome of a write, a truncation, a
  flush, and the proofs that link them to the events.
* **Shutdown** is the two-thread protocol as a state machine; **Readdir** the paged listing.

Tables are maps whose update functions mirror the SQL statements; a transaction is one assignment.
Times are integers (nanoseconds) handed in by the caller, except in `Timestamps`. The order in which
a hash map is walked, and the victim among equally dirty inodes, is left open.

## Where the code does less than one might expect

* A time handed in that lies less than a second before the epoch is turned into the same distance
  after it. `Timestamps.SystemTimeConvertsBack` and `SystemTimeStoresAs` give the exact condition.
  The stored form has the same gap (`ReadTimeStoresBack`), but nothing the code stores falls into it
  (`StoredValuesAreStable`).
* `fallocate` can leave a slot idle: it commits the buffered writes of an inode without handles, and
  if the truncation after that is refused, returns without freeing the slot. Which calls can do so
  is known beforehand (`Operations.FallocateKeepsNoIdleSlot`, if and only if), and
  `FallocateLeavesAnIdleSlot` is a run that gets there. Every other operation, failed or not, leaves
  no slot idle.
* `link`, `open` and `write` do not refuse inodes the kernel would never pass them: see below.

## Model

| member | source | states |
|---|---|---|
| Chunking.ShiftOrIsSum | src/db.rs:22-34 | on 64-bit words the shifted inode number or-ed with a chunk index is their sum, a positive i64, and shifting and masking give both parts back |
| Chunking.KeyIsShiftOr | src/db.rs:22-34 | shifting the inode number by 24 bits and or-ing the chunk index, bit by bit on numbers, is the integer key used everywhere else, and masking gives the index back |
| Chunking.KeysDecodeAndRangesAreDisjoint | src/db.rs:13-34 | keys decode to their pair, are equal only for equal pairs, order like pairs, and the key range of an inode holds no key of another |
| Chunking.KeyOfParts | src/db.rs:32-34 | every nonnegative key is the key of the pair it decodes to |
| Chunking.PiecesTile | src/db.rs:962-971 | the pieces of a span tile the buffer in order without gap or overlap, each inside its chunk at the matching file position |
| Chunking.EveryByteInOnePiece | src/db.rs:948-971 | every byte of the buffer is in the piece of exactly one chunk, the one its file position divides to |
| Chunking.CopyOut | src/db.rs:973-984 | copying out sets exactly the bytes of the span that the chunk's data covers and touches no other |
| Files.WritePieceContents | src/db.rs:508-531 | read-modify-write of one chunk row is a splice into the plain byte array, and no byte ends up past the size |
| Files.ResizeAndCopyIsSplice | src/db.rs:518-530 | zero filling a short row and copying over it is the splice, so stale or missing bytes read as zeros |
| Files.FullChunkReplaces | src/db.rs:513-516 | a whole chunk needs no read of the row it replaces |
| Files.WriteChunksContents | src/db.rs:503-536 | the first chunks of a write put exactly the bytes they take into the plain array |
| Files.WriteFileContents | src/db.rs:472-542 | an unbuffered write is the splice of all its data: chunk borders, holes and short rows vanish |
| Files.NothingPastTheSize | src/db.rs:424-441 | bytes past the size read as zero in every well-formed file |
| Files.TruncateContents | src/db.rs:589-625 | truncating resizes the plain array: the exact prefix, or zeros appended |
| Files.ResizeIsPrefixOrZeros | src/db.rs:589-625 | resizing cuts to the exact prefix or appends only zeros |
| Files.WindowIsByteAt | src/db.rs:424-437 | the bytes a read collects position by position are the window of the file's contents |
| Timestamps.StoredTimeReadsBack | src/model.rs:32-46 | a normalized time survives storing exactly when it fits the stored range |
| Timestamps.ReadTimeStoresBack | src/model.rs:32-46 | a stored value survives reading exactly when it is not within a second before the epoch, where it comes back mirrored |
| Timestamps.StoredValuesAreStable | src/model.rs:32-46 | a value that storing or the migration produces reads and stores back unchanged: the mirrored range is never stored |
| Timestamps.SystemTimeConvertsBack | src/model.rs:17-54 | a system time survives the conversion exactly when it is not within a second before the epoch, where it comes back mirrored |
| Timestamps.SystemTimeStoresAs | src/model.rs:17-39 | the stored value is the time itself, clamped to the range, but for the mirrored second |
| Timestamps.MigrationAgrees | src/db.rs:1204-1212 | the migration formula never overflows, equals the conversion where it computes, and is off by less than a second where it clamps |
| CacheModel.StepKeepsInv | src/fuse.rs:89-277 | every cache step keeps the slot invariant: dirty chunks cover the rows they shadow, nothing lies past the size, clean slots have the stored size, unlinked marks exactly the open inodes without names |
| CacheModel.RunKeepsInv | src/fuse.rs:89-277 | the slot invariant holds after every run |
| CacheModel.StepIsLocal | src/fuse.rs:89-277 | an event changes no inode and no slot but the one it names |
| CacheModel.StoreKeepsSlot | src/fuse.rs:229-256 | buffering a piece, with the size grown to its end, keeps the slot invariant and is the piece written to the merged file |
| CacheModel.NameGoneStep | src/fuse.rs:278-292 | losing a name leaves other names, or an open nameless inode, or removes inode and slot, matching what the store did |
| CacheModel.SuffixRun | src/fuse.rs:89-277 | the later part of a run is a run from where the earlier part ended |
| CacheTheorems.StepRefinesFiles | src/fuse.rs:89-118 | each event changes the simple files as its file-level meaning says; flush, free, load, open and close change nothing |
| CacheTheorems.RunRefinesFiles | src/fuse.rs:167-258 | over any run the files are those of a store that applies each piece and truncation at once |
| CacheTheorems.RunRefinesBytes | src/fuse.rs:167-258 | over any run every reachable inode is the plain byte array its writes and truncations make |
| CacheTheorems.NewInodeIsFresh | src/fuse.rs:773-786 | a created inode number has no slot and is no reachable file, and the new file reads empty |
| CacheTheorems.FilesEndOnlyWithTheirLastUser | src/fuse.rs:263-292 | a file stays usable until the last close of an unlinked inode or the removal of a closed one; a nameless inode has a handle and is marked |
| CacheTheorems.StoredIsAnEarlierState | src/fuse.rs:252-255 | what is stored of an inode at any moment of any run is what the file was after an earlier prefix of the run |
| CacheTheorems.CleanStaysCleanAfterClosing | src/fuse.rs:215-219 | once writes are refused and every linked file is stored, no later step makes one dirty and stored stays equal to logical |
| CacheTheorems.CleanMeansStored | src/fuse.rs:120-141 | when every linked slot is clean, every linked file is stored as it is |
| CacheTheorems.AttributesSurvive | src/fuse.rs:301-314 | reported size and mtime survive every event but a write, truncation, setattr or removal of that inode |
| CacheTheorems.ExplicitMtimeSurvives | src/fuse.rs:545-569 | a time set by setattr is reported until the next write, truncation or setattr, through any flushes, evictions and closes |
| CacheTheorems.AllPiecesFold | src/db.rs:472-542 | applying all pieces of a sequence of writes is the batch write |
| CacheTheorems.BufferedEqualsBatch | src/fuse.rs:191-258 | any writes buffered in any run and then flushed leave exactly the rows and size of one unbuffered batch, whatever was evicted in between |
| CacheTheorems.FlushOnlyMoves | src/fuse.rs:87-104 | a flush changes no file, name, handle or flag: it stores the merged file and empties the dirty rows |
| CacheTheorems.FreeOnlyForgets | src/fuse.rs:106-112 | freeing an idle slot changes no file and no handle count |
| CacheTheorems.LoadOnlyRemembers | src/fuse.rs:153-159 | making a slot from the store changes no file |
| CacheTheorems.StoreOnlyWrites | src/fuse.rs:229-256 | buffering a piece writes exactly that piece of that file and nothing else |
| Namespace.FreshIsOk | src/db.rs:172-193 | an empty store with its root satisfies the directory invariants |
| Namespace.AddNodeKeepsOk | src/db.rs:817-890 | creating a node keeps unique names, the tree and all link counts |
| Namespace.AddNameKeepsOk | src/db.rs:394-415 | linking keeps unique names, the tree and all link counts |
| Namespace.DropNameKeepsOk | src/db.rs:632-659 | dropping a name, open or not, keeps the invariants |
| Namespace.DropDirKeepsOk | src/db.rs:661-685 | removing an empty directory keeps the invariants |
| Namespace.RenameKeepsOk | src/db.rs:701-786 | every rename that passes the checks, with or without a replaced file or directory, keeps the tree rooted and acyclic and all link counts right |
| Namespace.MoveUnderItselfDetaches | src/db.rs:715-717 | a move the ancestor check refuses would cut the directory off from the root, so the check refuses nothing too much |
| Namespace.AncestorThroughParent | src/db.rs:892-918 | being below a directory is decided by the one entry of a directory |
| Namespace.DropNamelessKeepsOk | src/db.rs:194-201 | deleting an inode without names keeps the invariants |
| Tables.RangeDeleteIsLocal | src/db.rs:1015-1022 | deleting a key range removes exactly the rows of that inode and range |
| Tables.NoRowsForNewInode | src/db.rs:841-858 | an inode number nobody owns has no chunk rows |
| Tables.OnlyRegularFilesHaveRows | docs/plans/2026-05-02-dbfs-v1-design.md:321 | directories and symlinks have no chunk rows |
| Tables.UpsertListed | src/db.rs:566-587 | upserting a chunk list is merging it over the rows |
| Tables.TruncateTableIsTruncateRows | src/db.rs:589-625 | the truncation statements cut the rows of one inode and leave every other inode's alone |
| Tables.RecomputeRepairs | src/db.rs:1098-1112 | startup repair makes link counts right, touches no file, and changes nothing if they were right |
| Tables.RekeyKeepsRows | src/db.rs:1240-1270 | the upgrade to integer keys keeps the rows of every existing inode and mixes none |
| Tables.RekeyAccepts | src/db.rs:1240-1252 | the upgrade goes through if and only if every chunk, owned or not, fits the new keys |
| Tables.ValidIsRepairable | src/db.rs:172-206 | the tables of a running mount can be opened at any moment, and the repair of link counts would change nothing |
| Database.Db.Open | src/db.rs:172-206 | startup deletes exactly the inodes without names, keeps every other file and all entries, keeps the times of directories, and leaves right directories unchanged |
| Database.Db.Sweep | src/db.rs:194-201 | the sweep removes exactly the nameless inodes with their chunks |
| Database.Db.ReadInto | src/db.rs:443-462 | the range query writes each stored byte to its place and leaves holes as they were |
| Database.Db.ReadFile | src/db.rs:424-437 | reading from the store answers the window of the file's bytes, or why not |
| Database.Db.ReadChunk | src/db.rs:544-562 | the stored row of one chunk, empty for a hole |
| Database.Db.ReplaceChunks | src/db.rs:566-587 | commits exactly the given chunks, size and mtime of one file, or changes nothing; no directory or entry changes; either way one attempt is recorded |
| Database.Db.StorePiece | src/db.rs:506-534 | one piece changes one row of one inode by the splice |
| Database.Db.WriteFileBatch | src/db.rs:472-542 | a batch writes every write in order and answers the bytes written, or changes nothing and says why |
| Database.Db.TruncateFile | src/db.rs:589-625 | truncation of exactly one file, all or nothing, with its refusals |
| Database.Db.NextRowid | src/db.rs:841-858 | a new row's number is larger than every one in use and at most one past the largest |
| Database.Db.Lookup | src/db.rs:240-252 | finds the one entry of that name, or there is none |
| Database.Db.IsDescendant | src/db.rs:892-918 | terminates and decides exactly whether one directory is in the subtree of another |
| Database.Db.CreateNode | src/db.rs:817-890 | adds a fresh inode and one entry, keeps all invariants and dates the parent, or changes nothing for one of five reasons |
| Database.Db.Link | src/db.rs:394-422 | adds one entry and one link and dates the parent, or changes nothing and says why |
| Database.Db.UnlinkEntry | src/db.rs:632-659 | removes one entry and dates its directory; the inode keeps its other names, stays nameless while open, or goes with its rows |
| Database.Db.UpdateMetadata | src/db.rs:788-815 | sets the mtime of one inode, file or directory, to the time asked for as it is stored, clamped, and no other field, and reads it back |
| Database.Db.DeleteInode | src/db.rs:383-392 | removes a nameless inode with all its chunk rows and nothing else |
| Database.Db.RemoveDir | src/db.rs:661-685 | removes an empty directory and its entry and dates the parent; the error cases are exact |
| Database.Db.RenameEntry | src/db.rs:701-786 | moves one entry, replaces at most the entry of the new name, keeps all invariants, dates exactly the two parents, and refuses only for the stated reasons |
| Arena.ChunkArena.constructor | src/arena.rs:25-34 | an empty arena of at least one slot and at most the budget |
| Arena.ChunkArena.Alloc | src/arena.rs:36-49 | an empty slot nobody holds, other chunks unchanged; none exactly when every slot the budget allows is held |
| Arena.ChunkArena.Release | src/arena.rs:51-53 | the slot joins the free ones and no chunk changes |
| Arena.ChunkArena.Write | src/arena.rs:73-84 | the chunk becomes the old one patched, gaps zeroed, empty data included, and no other chunk changes |
| Arena.DirtyIdx.Find | src/arena.rs:110-121 | the position of the chunk, or the only position that keeps the order, by the last-entry test and binary search |
| Arena.DirtyIdx.PartitionPoint | src/arena.rs:131-136 | splits the entries at a bound |
| Arena.DirtyIdx.Range | src/arena.rs:131-136 | all entries in the range, in order, and no other |
| Arena.DirtyIdx.Insert | src/arena.rs:127-129 | the index stays sorted and gains exactly one entry |
| Arena.DirtyIdx.ReleaseInto | src/arena.rs:142-148 | every slot of the index becomes free once, no chunk changes, the index is empty |
| OpenTable.OpenInodes.Insert | src/open_table.rs:44-72 | a blank live slot for an inode that has none; every other slot keeps inode and fields |
| OpenTable.OpenInodes.Remove | src/open_table.rs:74-83 | exactly this slot stops being live |
| OpenTable.OpenInodes.LiveSlots | src/open_table.rs:88-92 | every live slot exactly once |
| OpenTable.OpenInodes.LargestDirty | src/open_table.rs:94-102 | a live slot that no other exceeds in dirty chunks, and none only if nothing is dirty |
| OpenTable.ReuseKeepsIndex | src/open_table.rs:44-72 | reusing a free place keeps the index a bijection between inodes and live slots |
| OpenTable.Handles.Alloc | src/open_table.rs:113-125 | a handle nobody has, mapped to the slot; all others unchanged, the count one more |
| OpenTable.Handles.Release | src/open_table.rs:134-140 | frees the handle and answers its slot once; a second release is caught |
| OpenTable.Handles.CountedIffMapped | src/open_table.rs:127-132 | a slot is counted exactly when some handle leads to it |
| TableModel.OwnedAreDistinct | src/arena.rs:138-148 | the arena slots of one index are distinct and none is free, so releasing them is safe |
| TableModel.FullArenaHasAVictim | src/fuse.rs:191-202 | with the arena full some inode has something to flush: the failure for want of a victim cannot happen |
| TableModel.ChunkWriteKeepsTie | src/fuse.rs:229-256 | writing one arena slot changes the dirty chunk of its owner and no other |
| TableModel.OtherChunksKeepTie | src/arena.rs:36-49 | arena slots in nobody's index are nobody's data |
| Fuse.Shared.constructor | src/fuse.rs:345-353 | a new mount is valid, with nothing open and the budget in whole chunks |
| Fuse.Shared.FlushSlot | src/fuse.rs:87-104 | commits the merged file and frees its arena slots, or keeps everything; skips what it should skip |
| Fuse.Shared.FreeIfIdle | src/fuse.rs:106-112 | frees the slot exactly when it has no handle and nothing dirty |
| Fuse.Shared.DiscardSlot | src/fuse.rs:114-118 | drops one slot with its buffered data and returns its arena slots |
| Fuse.Shared.SlotFor | src/fuse.rs:152-159 | the slot of an inode, made from the store when missing, with no file changed |
| Fuse.Shared.OpenSlot | src/fuse.rs:161-165 | one more reference and a fresh handle for it |
| Fuse.Shared.Overlay | src/fuse.rs:181-184 | buffered bytes replace stored ones exactly where a dirty chunk has them |
| Fuse.Shared.ReadSlot | src/fuse.rs:167-186 | a read through a slot answers the window of the logical file, or why not; over a healthy store it succeeds on every regular file |
| Fuse.Shared.AllocChunk | src/fuse.rs:188-202 | terminates with an empty arena slot after at most one commit, of an inode that none exceeds in dirty chunks and only when the arena is full; fails exactly with the errno of that one refused commit |
| Fuse.Shared.EvictLargest | src/fuse.rs:196-200 | the victim is live and no live slot has more dirty chunks; one commit of it is tried, and its slot freed if idle, never the one being written |
| Fuse.Shared.BufferPiece | src/fuse.rs:229-256 | one piece of one file is buffered, or no file changes and no arena slot leaks |
| Fuse.Shared.WriteSlot | src/fuse.rs:204-258 | the checks in order with their errnos, then the whole write or whole leading pieces of it, dated as `WriteDated` says, also when the file evicts itself midway; over a healthy store it fails only by those checks |
| Fuse.Shared.ReleaseFh | src/fuse.rs:260-276 | the handle is gone; the last one of an unlinked inode removes slot, inode and chunks, any other flushes and frees what is idle; a refused commit keeps the writes |
| Fuse.Shared.EntryRemoved | src/fuse.rs:278-292 | the table follows what the store did with the inode of a removed entry |
| Fuse.Shared.HandleFacts | src/open_table.rs:127-132 | a handle leads to a live slot that counts it |
| Fuse.Shared.Read | src/fuse.rs:604-616 | a read by inode answers the logical file with or without a slot, and fails only for a missing inode, a wrong kind or a failing store |
| Fuse.Shared.ReadFh | src/fuse.rs:618-623 | a read by handle answers the logical file of its inode, EBADF for a freed handle |
| Fuse.Shared.Open | src/fuse.rs:597-602 | a fresh handle to the inode; no file changes |
| Fuse.Shared.Write | src/fuse.rs:625-635 | a write by inode applies and dates all of its data or a prefix of pieces, dates no other file, succeeds over a healthy store exactly when it may, and leaves no slot idle |
| Fuse.Shared.WriteFh | src/fuse.rs:637-642 | a write by handle, with the outcome and the dates of the slot write |
| Fuse.Shared.TruncateLocked | src/fuse.rs:678-691 | buffered writes are stored, then the file is cut or extended; a failure changes no file, and EFBIG comes only of a size past the limit |
| Fuse.Shared.Fallocate | src/fuse.rs:644-676 | the checks in order with their errnos, growth only, nothing touched unless the file has to grow, and the one case that leaves a slot idle |
| Fuse.Shared.SetAttr | src/fuse.rs:535-570 | adds exactly the events of storing, cutting and dating, or on failure a prefix of them; answers what is reported afterwards, of a directory too, with the size and the clamped time asked for; the reasons of a refusal |
| Fuse.Shared.GetAttr | src/fuse.rs:300-314 | size and mtime as buffered writes overlay them, and of a directory as they are stored |
| Fuse.Shared.FlushFile | src/fuse.rs:693-702 | the inode is clean afterwards and no file changed, or nothing changed and the commit was refused |
| Fuse.Shared.FlushFh | src/fuse.rs:704-709 | the same by handle, keeping the slot |
| Fuse.Shared.Unlink | src/fuse.rs:720-731 | store and table lose the name together and its directory is dated; the inode stays for its handles; three reasons to refuse |
| Fuse.Shared.Rename | src/fuse.rs:739-769 | the move of the store, with a replaced inode treated like an unlink and nothing flushed; refused only for the flags or a reason of the store |
| Fuse.Shared.Link | src/fuse.rs:527-532 | one more name, the directory dated, no file changed; five reasons to refuse |
| Fuse.Shared.CreateOpen | src/fuse.rs:771-786 | a new empty file with a number that no slot holds, and a fresh handle to it; five reasons to refuse |
| Fuse.Shared.NewNode | src/fuse.rs:491-521 | a new file or symlink, or nothing |
| Fuse.Shared.MakeDir | src/fuse.rs:479-492 | a new empty directory under a fresh number, it and its parent dated, or nothing for one of five reasons; no file or slot is touched |
| Fuse.Shared.RemoveDir | src/fuse.rs:733-737 | an empty directory and its entry go and the parent is dated, or nothing changes, and why; no file or slot is touched |
| Fuse.Shared.FlushAll | src/fuse.rs:120-141 | one commit is tried for each linked inode with buffered writes; exactly the refused ones keep them, all others are stored; the reply is the first refusal; the log gains only flushes and frees |
| Fuse.Shared.RefuseWrites | src/fuse.rs:143-146 | from now on buffered writes are refused |
| Fuse.Shared.FlushForShutdown | src/fuse.rs:323-330 | writes are refused first, then everything is flushed as above and the outcome noted; the log gains just that |
| Fuse.Shared.Destroy | src/fuse.rs:816-821 | the end of the session flushes everything as above and notes the outcome; the log gains just that |
| Fuse.Shared.OperationIsARun | src/fuse.rs:144-146 | what an operation added to the log is a run from the state it found |
| Fuse.Shared.ReadsArePlainBytes | src/fuse.rs:604-623 | after any operations a read returns the bytes a plain array per inode would |
| Fuse.Shared.CrashLeavesAnEarlierState | src/fuse.rs:252-255 | the tables at any moment hold an earlier state of every file |
| Fuse.Shared.BufferAndFlush | src/fuse.rs:191-258 | writes buffered one by one and flushed leave the rows and size of one unbuffered batch; over a healthy store that succeeds exactly if every write may be made |
| Fuse.Restart | src/db.rs:172-206 | after a crash at any moment the next mount is valid, with the same entries and directories, exactly the inodes with names, and every file as it was at an earlier point |
| Operations.OverlaidIsLogical | src/fuse.rs:174-185 | stored bytes with dirty chunks over them are the logical file, because a dirty chunk is never shorter than its row |
| Operations.EvictionIsInvisible | src/fuse.rs:188-202 | making room changes no file, keeps the written slot, and leaves no other slot idle |
| Operations.StoreMatches | src/fuse.rs:229-256 | loading, patching and growing a slot is the store event, also when a full chunk skips the load |
| Operations.FlushStores | src/fuse.rs:90-103 | the chunk list a flush hands to the store makes the stored file the merged one |
| Operations.WriteAppliesAPrefix | src/fuse.rs:229-256 | a write splices in all its data, or on failure a prefix ending at a chunk boundary; refused writes splice in nothing |
| Operations.OutcomeAppliesAPrefix | src/fuse.rs:204-258 | the same of a write through a handle |
| Operations.WritesAreDated | src/fuse.rs:223-256 | the file reports the time of a write that succeeded, and of one that changed it before failing |
| Operations.OutcomesAreDated | src/fuse.rs:204-258 | the same of a write through a handle |
| Operations.ErrnosTellErrorsApart | src/fuse.rs:1253-1266 | the ten errors of the store have ten different answers |
| Operations.SettlingOnlyMoves | src/fuse.rs:84-112 | flushing and freeing one inode changes no file and leaves it clean and not idle |
| Operations.TruncatingResizes | src/fuse.rs:678-691 | after any history shrinking yields the exact prefix and growing the old bytes followed only by zeros |
| Operations.AllocatingExtends | src/fuse.rs:644-676 | fallocate keeps the old bytes and appends only zeros, or nothing |
| Operations.FallocateKeepsNoIdleSlot | src/fuse.rs:644-691 | whatever the outcome no slot is left idle, if and only if the call would not grow a file that has a slot without handles |
| Operations.FallocateLeavesAnIdleSlot | src/fuse.rs:678-691 | a run from an empty table to a call of `fallocate` whose failure leaves a slot idle |
| Operations.FlushedAllIsClean | src/fuse.rs:120-141 | flushing all without a refusal leaves every linked file clean |
| Operations.OneFlushed | src/fuse.rs:124-136 | the loop tries the next inode once: refused, it keeps its writes and the others go on, else it is stored; the first refusal is remembered |
| Operations.FirstOfRefused | src/fuse.rs:121-140 | there is a first refusal exactly if some commit was refused, and it is one of them |
| Operations.OneSettles | src/fuse.rs:127-136 | one more inode is stored while the others stay as they are |
| Shutdown.MountIsSafe | src/run.rs:60-112 | the protocol invariant holds in every state of every interleaving |
| Shutdown.OtherThreadKeepsSafe | src/run.rs:150-164 | no step of the session thread or of a signal breaks it |
| Shutdown.MainKeepsSafe | src/run.rs:96-112 | no step of the main thread breaks it |
| Shutdown.MountSucceedsOnlyWhenStored | src/run.rs:60-85 | the mount ends in success only when every linked file is stored as it is, and stays so under straggling session steps |
| Shutdown.MountFailsOnlyForAReason | src/run.rs:60-112 | a mount that fails has had a session that reported failure, a failing unmount, or a failing flush |
| Shutdown.FailureIsFinal | src/run.rs:70-112 | after a failed session was heard of, or a failing unmount, the mount ends in nothing but failure |
| Shutdown.FlushCanSucceed | src/fuse.rs:120-141 | whatever is buffered, a flush of everything with no commit refused leads to a successful outcome |
| Shutdown.SessionEndSucceeds | src/run.rs:60-85 | any mount at work can end in success by the end of its session, without a signal |
| Shutdown.SignalSucceeds | src/run.rs:96-112 | any mount at work can end in success on a signal, though its session goes on |
| Shutdown.RunIsServed | src/run.rs:60-70 | every run of the cache before shutdown is what the session of some mount does |
| Shutdown.DirtyMountSucceeds | src/run.rs:60-112 | a mount with a linked file that is in memory alone ends in success, on a signal and without one |
| Readdir.ReadDirAfter | src/db.rs:296-325 | the entries after an id in order, all of them unless the page is full |
| Readdir.ReadDirStream | src/fuse.rs:438-462 | a page with `.`, `..` and entries under their cookies, complete unless full, each entry true |
| Readdir.NoCookieRepeats | src/fuse.rs:434-437 | over all pages of a listing cookies strictly grow, whatever happens between the calls |
| Readdir.StayingEntriesAreReturnedOnce | src/fuse.rs:434-437 | an entry that stays is returned by exactly one call |
| Readdir.ListAndDeleteEmpties | src/fuse.rs:434-437 | a client that deletes what it lists leaves nothing behind |
| Readdir.ListAndDeleteTerminates | src/fuse.rs:434-437 | with `n` entries at the start at most `n + 2` of its calls return anything |

## Left out

- Fuse.Shared.Open: requires that an inode without a slot is not a directory and has a name; the
  source would open a directory, which the kernel sends to `opendir`.
- Fuse.Shared.SlotFor: has the same requirement as opening.
- Fuse.Shared.Write: has the same requirement as opening.
- Fuse.Shared.Link: requires that the inode still has a name, as the kernel does; the source would
  revive a nameless one that only its handles keep.
- Chunking.NewSpan: requires that offset plus length fits 64 bits; the source adds unchecked.
- OpenTable.Handles.Alloc: slots, handles and arena slots are unbounded numbers, not 32-bit ones.
- OpenTable.OpenInodes.LargestDirty: any maximal victim may be chosen, not the one a hash map yields.
- Database.Db.ReplaceChunks: is called only for existing regular files; for a missing inode the
  source would leave chunks without an owner.
- Database.Db.UnlinkEntry: takes a target whose kind and link count are current; `unlink` resolves it
  just before, and nothing else changes entries in between.
- Database.Db.DeleteInode: is called only for files without names, after their last handle; the source
  would also delete an inode with its entries.
- Fuse.Shared.Unlink: resolves the name and removes it as one step; the session thread is the only
  one that changes entries.
- Fuse.Shared.AllocChunk: has no branch for a missing victim, because that branch cannot be reached.
- Shutdown.MountIsSafe: a panic while the table is locked is not followed into the poisoned lock.
- Readdir.ReadDirStream: a page has room for a number of entries, not of bytes.
- Mode, uid, gid, atime, ctime, symlink targets, `statfs` and extended attributes: plain columns or
  constants that no property above depends on.
- The FUSE trait, replies, kernel cache flags and time-outs: one-branch translations.
- SQLite itself: a transaction is atomic and a stored row is durable; `fdatasync` and the loss of
  committed data are below the model.
- Schema detection and table rebuilding in migrations, apart from the key mapping and the time
  formula; a database upgraded from version 3 may hold bytes past a file's size, so runs start from a
  store whose files are well formed.
- Mount options, the command line, threads, signals and time-outs as such: only their order matters.
