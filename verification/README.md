# The BeeGFS client's file caches, queues and tree copy, in Dafny

This project models the parts of the BeeGFS client and of its cache library that decide which bytes a file holds, and
proves that they decide it correctly: for every input, every run and every interleaving, or exactly under the stated
condition.

- `FileBytes`, `FileView`: files as byte sequences, one store, one read, and a file overlaid by unflushed data.
- `CacheStores`, `FileCache`, `CacheRuns`: the one-buffer-per-inode cache of buffered mode over an abstract server file
  whose writes may stop short or fail; whole runs against a plain file.
- `Flusher`, `FlusherCalls`: the asynchronous flusher against application threads, as a step relation over any number of
  inodes, and the calls of the file cache as runs of its application steps.
- `PageRange`, `NativePages`, `DirtyPages`, `WriteBack`: the dirty byte ranges of native mode, single pages and batched
  write-back.
- `AppendRanges`: where the write-back of native mode puts appended bytes.
- `AppendProtocol`: lock, stat, write, unlock by any number of clients.
- `Queues`, `AckManager`, `DelayedQueue`: queues whose mutex is dropped while an entry is processed.
- `NfsHandle`: NFS handles, with the printer and the scanner of entry IDs.
- `PathMap`, `WalkCodes`, `FollowSymlink`, `TreeFlush`: mapping of paths between the two mounts, copying with links
  followed, and flushing with discard.
- `DirIteration`, `SparseRead`, `PagedWrite`, `HandleAccounting`: directory reading, reading of holes, paged writes, and
  the shared file handles of an inode.

Objects whose methods change fields are classes; their contracts give the new state, and the lemmas beside them speak
about the value-level functions in those contracts. Other threads, servers and user memory appear as nondeterministic
results, as scripts of events, or as step relations. `dafny verify dfyconfig.toml` checks everything.

Assumptions, each made where it is used: a write of a non-empty range never returns 0 (otherwise
`FhgfsOpsHelper.c:274` reports success with the buffer still attached); nobody else writes the file while it is cached;
the slow-start length of `FhgfsOpsHelper.c:773` fits the pool buffer; a read that is no error stops early only at the end
of the file, or where nothing but zeros follows in the chunk; a directory does not change while it is listed, and the
server sends short lists only at its end; `%X` is scanned as the Linux kernel does it; reads of a source file do not
fail while it is copied.

Where the code does not do what its comments or callers suggest, the model follows the code, and the lemma or contract
says so:

- a vectored append returns the count of its last vector, although its interface promises the number of bytes written;
  the two agree exactly if all vectors but the last are empty (`AppendProtocol.AppendVectors`,
  `LastCountHidesShortWrite`). The two callers, at `FhgfsOpsHelper.c:869` and `FhgfsOpsFileNative.c:767`, pass one
  vector, so the client does not send the failing input today;
- after a short write the accounting may take a later, shorter page for written; it never does so exactly if the lengths
  never decrease (`WriteBack.CleanIsDeliveredIff`, `AlwaysRightIff`);
- every batch of one append is written to the append's own offset, which is right for the append's first page only: an
  append of more than 128 pages overwrites its own beginning (`AppendRanges.OffsetIsPlaceIff`, `LaterBatchOverwrites`);
  one that fits into a batch ends up whole at the end of the file (`AppendRanges.SingleBatchAppends`);
- a write-back that meets an append while it is being copied may gather its pages with a gap, exactly if the bytes present
  end inside the batch before its last page (`AppendRanges.EntriesJoinIff`);
- the zero byte that reserves an append's place overwrites the last byte of the file if nothing is to be reserved, because
  no byte could be copied (`AppendRanges.ReservedIff`); after a failed reservation the next write-back takes the place of
  that byte for the append's, which is right only for one byte (`AppendRanges.FailedReservationIsPlaceIff`), and the pages
  are accounted with stale lengths, so that those with length 0 count as written (`WriteBack.MarksOfNothing`);
- a file that a lookup has opened at the servers while a handle in use serves the same flags stays open there, with nobody
  left to close it (`HandleAccounting.InodeHandles.OpenLookedUp`);
- a page whose write-back callback fails, or whose write-back gets no file handle, loses its dirty mark although it has
  unsent bytes; a write-back that fails in a callback always loses that page
  (`WriteBack.WritePagesState.WritePages`, `NativePages.NativeFile.FlushPage`);
- the flusher gives up the data of a file that is still open if the write fails with anything but a communication error,
  although the comment at `Flusher.c:94` speaks of closed files (`Flusher.DecisionIsExact`, `GivenUpOnlyAfterFailure`);
- a zero-byte copy to the start of a page marks the whole page dirty, unless the page has a range that can take the write
  (`NativePages.NativeFile.Write`, `PageRange.EmptyCopyRange`);
- the entry ID "0-0-0" is decoded as the root's (`NfsHandle.StoredIDRecovered`);
- the mount test compares characters, not path elements, and making a path absolute may lose a directory and report
  success (`PathMap`);
- the path clean-up removes all spaces, so behind a followed link files whose names differ in spaces overwrite each other;
  the copy there is the plain one exactly if no copied name has a space and the link's target does not end with a name of
  spaces only (`FollowSymlink.SpacedNameCollides`, `LinkCopyIsPlainIff`);
- the walk's callback returns 1 rather than -1 to stop, and a directory whose owner may not be changed stops the walk,
  although the comment says that this is ignored: the walk succeeds exactly if every owner could be changed and nothing
  else failed (`FollowSymlink.WalkIsExpected`, `CopyIsExpected`);
- something other than a directory in the place of a directory of the tree is left there, and the walk goes on
  (`TreeFlush.Flush.HandleDirectory`);
- a destination that is a stale link is followed and truncated: opening it loses a file exactly if the link leads to a
  place of a file whose other place does not hold it (`TreeFlush.OpeningKeepsNoLossIff`), and a flush with discard loses
  one on the way exactly if a file is written over one at or behind it in the walk, or over the copy of one before it
  (`TreeFlush.NothingLostIffGoodPlaces`); a file copied onto itself is emptied and may be reported as copied
  (`TreeFlush.Flush.CopyFile`);
- filling a page with zeros instead of reading it hides what a failed synchronous write has left at the servers behind the
  size the client knows (`PagedWrite.ZeroFillClearsServerByte`); nothing else is hidden, so that over a whole run only
  bytes in the ranges of failed and short writes are affected (`PagedWrite.ZeroFillStores`, `CacheRuns.PagedSession`);
- flushing a single file with both the subdirectory and the discard flag reports an error after the file has been moved
  (`TreeFlush.Flush.HandleSubdirectoryFlag`);
- open flags that combine read-write modes get the handle for reading (`HandleAccounting.GrantsWantedIff`).

## Model

| member | source | states |
|---|---|---|
| `FileCache.FhgfsInode.WriteCached` | fhgfs_client_module/source/filesystem/FhgfsOpsHelper.c:294-426 | Every buffered write, append or positioned, is one store of its data at its place in the logical file (server contents overlaid by the unflushed buffer); a failed one stays inside its own range unless unflushed append data was around. It is complete unless a call to the servers or user memory fails, and then returns that failure; one that continues the buffer with room left reaches no server, one that fills it is delivered. No other inode's buffer is touched, and the buffer is left alone, given up, or replaced by one that the flusher can find. |
| `FileCache.FhgfsInode.WriteAfterFlush` | fhgfs_client_module/source/filesystem/FhgfsOpsHelper.c:351-384 | The same for the branch that cannot continue the buffer: flush, then write like a first write. |
| `FileCache.FhgfsInode.ExtendWriteBuffer` | fhgfs_client_module/source/filesystem/FhgfsOpsHelper.c:386-419 | Continuing the buffer, with the flush when it becomes full, is a store at the end of the buffered data. |
| `FileCache.FhgfsInode.WriteCacheFlushed` | fhgfs_client_module/source/filesystem/FhgfsOpsHelper.c:641-714 | With no buffer attached, a write becomes a new buffer exactly if it fits and the pool has one, and then reaches no server; otherwise it goes through. In both cases it is one store in the logical file. |
| `FileCache.FhgfsInode.WriteBufferLen` | fhgfs_client_module/source/filesystem/FhgfsOpsHelper.c:654-674 | A write is buffered exactly if caching is allowed and expected to pay off and the data leaves room; the usable length is then all the room there is, in the pool buffer and in the chunk. |
| `FileCache.FhgfsInode.CountWrite` | fhgfs_client_module/source/filesystem/FhgfsOpsHelper.c:326-373 | A write that cannot use the buffer raises the hit counter exactly if there is none and it appends, or starts inside a buffer put where the last write ended; otherwise the counter falls. |
| `FileCache.FhgfsInode.ReadCached` | fhgfs_client_module/source/filesystem/FhgfsOpsHelper.c:435-628 | A buffered read returns what one direct read of the logical file may return, in every overlap case: all bytes asked for up to the end of the file or to a hole; it leaves the logical file alone. An error is the failure of a call or of user memory, and any other result hides none; what the buffer holds is served without the servers; the hit counter rises exactly if the read meets read-ahead data, or would have met some. |
| `FileCache.FhgfsInode.ReadThroughBuffer` | fhgfs_client_module/source/filesystem/FhgfsOpsHelper.c:556-621 | The same for a read that meets read-ahead data, before, inside, behind or across the buffer. |
| `FileCache.FhgfsInode.ServeFromBuffer` | fhgfs_client_module/source/filesystem/FhgfsOpsHelper.c:561-593 | The parts before and inside the buffer join to the slice up to the end of the buffer; if the first part stops at a hole, that is the read, and the buffer is given up. |
| `FileCache.FhgfsInode.ReadCacheFlushed` | fhgfs_client_module/source/filesystem/FhgfsOpsHelper.c:725-804 | With no buffer attached, a read with or without read-ahead is such a read of the server file; what is read ahead, as much as ReadBufferLen says, is kept as a copy of the server bytes it covers. |
| `FileView.ReadStopped` | fhgfs_client_module/source/filesystem/FhgfsOpsHelper.c:556-567 | A read that stopped at a hole is as far as a longer read gets. |
| `FileCache.FhgfsInode.ReadBufferLen` | fhgfs_client_module/source/filesystem/FhgfsOpsHelper.c:740-775 | A read is read ahead exactly if caching is allowed and expected to pay off, the file has one reader and there is more room than asked for; the length is all the room, or the slow-start length for a small read at the start of the file. |
| `FileCache.FhgfsInode.CountRead` | fhgfs_client_module/source/filesystem/FhgfsOpsHelper.c:496-542 | The same for a read that cannot use the buffer: with no buffer it is a hit exactly if it meets a buffer put where the last read ended. |
| `FileCache.FhgfsInode.FlushCacheUnlocked` | fhgfs_client_module/source/filesystem/FhgfsOpsHelper.c:242-282 | Success delivers everything and detaches the buffer; a partial or failed flush that keeps a positioned buffer leaves the logical file unchanged, and the server changes only where the buffer lies; the error is that of the call that failed last, or the lack of space of a short write. |
| `FileCache.FhgfsInode.DiscardCache` | fhgfs_client_module/source/filesystem/FhgfsOpsHelper.c:811-833 | The buffer returns to the pool exactly once and the store gives up its reference. |
| `FileCache.FhgfsInode.WriteStatelessInode` | fhgfs_client_module/source/filesystem/FhgfsOpsHelper.c:1313-1355 | A write through a temporary handle stores a prefix or fails inside its range, also when closing the handle fails afterwards, which is then the error. |
| `FileCache.FlushOutcome` | fhgfs_client_module/source/filesystem/FhgfsOpsHelper.c:264-281 | Whatever prefix the servers took, the buffer laid over the result is the same logical file; a complete write makes it the server file. |
| `FileView.FlushKeepsLogical` | fhgfs_client_module/source/filesystem/FhgfsOpsHelper.c:264-281 | The positioned case of this, for every outcome of the write. |
| `FileView.BufferExtended` | fhgfs_client_module/source/filesystem/FhgfsOpsHelper.c:390-400 | Adding data to the end of the buffer is a store at the end of the buffered data. |
| `FileCache.InodeRefStore.AddAndReferenceInode` | fhgfs_client_module/source/toolkit/InodeRefStore.h:91-104 | Adds the inode and takes one reference exactly if it was not a member. |
| `FileCache.InodeRefStore.RemoveAndReleaseInode` | fhgfs_client_module/source/toolkit/InodeRefStore.h:216-229 | Removes the inode and drops the store's reference exactly if it was a member. |
| `CacheStores.BufferStore.InstantBuf` | fhgfs_client_module/source/toolkit/NoAllocBufferStore.c:228-248 | Hands out a free buffer, or none if all are out; every buffer stays either free or handed out. |
| `CacheStores.BufferStore.AddBuf` | fhgfs_client_module/source/toolkit/NoAllocBufferStore.c:253-271 | Takes back a buffer that was handed out. |
| `CacheStores.FileInfo.IncCacheHits` | fhgfs_client_module/source/filesystem/FsFileInfo.c:78-82 | The hit counter stays within its thresholds. |
| `CacheStores.FileInfo.DecCacheHits` | fhgfs_client_module/source/filesystem/FsFileInfo.c:89-93 | The hit counter stays within its thresholds. |
| `CacheStores.RemoteFile.ChunkEnd` | fhgfs_client_module/source/common/storage/striping/StripePattern.h:193-196 | The end of a position's chunk is the last position before the next multiple of the chunk size. |
| `CacheRuns.RunIsPlainFile` | fhgfs_client_module/source/filesystem/FhgfsOpsHelper.c:242-714 | Over every run of writes, reads and flushes without failures the logical file is a plain file that received the writes in order, and every read returns that file's bytes: all of those asked for up to its end, unless it stops where the chunk holds only zeros. |
| `CacheRuns.DamageStaysInItsRange` | fhgfs_client_module/source/filesystem/FhgfsOpsHelper.c:242-714 | Over every run of positioned calls with any failures, data given up by a failed discarding flush and pages filled with zeros included, each byte outside the ranges of the failed or short writes and of the given-up buffers is the plain file's. |
| `CacheRuns.BufferedSession.Write` | fhgfs_client_module/source/filesystem/FhgfsOpsHelper.c:294-426 | The call extends a run of the kind the two theorems speak about. |
| `CacheRuns.BufferedSession.Read` | fhgfs_client_module/source/filesystem/FhgfsOpsHelper.c:435-628 | The same for reads. |
| `CacheRuns.BufferedSession.Flush` | fhgfs_client_module/source/filesystem/FhgfsOpsHelper.c:195-232 | The same for flushes of application and flusher; a failed discarding flush of a positioned buffer is recorded as giving up that buffer's range. |
| `CacheRuns.GivenUp` | fhgfs_client_module/source/filesystem/FhgfsOpsHelper.c:266-275 | Giving up a positioned buffer after a failed flush changes the logical file only under that buffer. |
| `CacheRuns.NativeSession.Write` | fhgfs_client_module/source/filesystem/FhgfsOpsFileNative.c:1265-1382 | Native-mode writes, short and empty copies included, extend such a run too, so the theorems hold for the page cache; only an empty copy that marks a whole page ends the run. |
| `CacheRuns.NativeSession.ReadPage` | fhgfs_client_module/source/filesystem/FhgfsOpsFileNative.c:1078-1123 | The same for page reads. |
| `CacheRuns.NativeSession.Flush` | fhgfs_client_module/source/filesystem/FhgfsOpsFileNative.c:1065-1076 | The same for page flushes. |
| `CacheRuns.PagedSession.Write` | fhgfs_client_module/source/filesystem/FhgfsOpsFile.c:1894-2058 | Paged-mode writes, whatever fails, extend such a run; what a page filled with zeros hides lies behind the plain file's end, and without earlier failures nothing is hidden. |
| `CacheRuns.PagedSession.ReadPage` | fhgfs_client_module/source/filesystem/FhgfsOpsPages.c:959-984 | The same for page reads. |
| `Flusher.ReachableInv` | fhgfs_client_module/source/components/Flusher.c:67-133 | In every reachable state, for any number of inodes, buffers and interleavings: references equal store membership plus what the flusher holds; every inode with a buffer is in the store, held by the flusher, or being added; each pool buffer is free or attached to exactly one inode. |
| `Flusher.StepKeepsInv` | fhgfs_client_module/source/filesystem/FhgfsOpsHelper.c:217-232 | Every single step of application and flusher keeps that invariant. |
| `Flusher.KeepsPool` | fhgfs_client_module/source/filesystem/FhgfsOpsHelper.c:641-833 | A step moves at most one buffer between the pool and one inode. |
| `Flusher.NoLeakNoOverRelease` | fhgfs_client_module/source/components/Flusher.c:78-131 | Reference counts stay between 0 and 2; with the flusher idle an unlocked inode with a buffer is in the store with exactly one reference, and an inode outside the store has none. |
| `Flusher.PassIsAscending` | fhgfs_client_module/source/components/Flusher.c:74-131 | From taking an inode to the end of a pass the flusher takes inodes in the store's order, so none of them twice in one pass. |
| `Flusher.GivenUpOnlyAfterFailure` | fhgfs_client_module/source/components/Flusher.c:94-114 | Over any run: the flusher gives data up only in a final flush; since it took the inode a flush of it has failed, and that was no communication error or the file was found closed. |
| `Flusher.DecisionIsExact` | fhgfs_client_module/source/components/Flusher.c:80-126 | After a flush the final one follows if and only if the flush failed with something else than a communication error, or with one on a closed file; a busy lock and a communication error on an open file put the inode back into the store. |
| `Flusher.KeptForLater` | fhgfs_client_module/source/components/Flusher.c:86-126 | An inode that was put back is in the store with its buffer until an application thread acts on it or the flusher takes it again. |
| `Flusher.DataStays` | fhgfs_client_module/source/components/Flusher.c:67-133 | Unflushed data stays in its buffer over any stretch of a run until a step delivers it or gives it up. |
| `Flusher.FailureKeepsData` | fhgfs_client_module/source/components/Flusher.c:67-133 | What a failed flush could not deliver is still in the buffer when the flusher decides about it, if no application thread came in between. |
| `Flusher.DoubleReferenceIsReachable` | fhgfs_client_module/source/toolkit/InodeRefStore.h:112-127 | The situation that add-or-put exists for can happen: flusher and store hold a reference to the same inode. |
| `FlusherCalls.CallIsAppRun` | fhgfs_client_module/source/filesystem/FhgfsOpsHelper.c:195-833 | Leaving the buffer alone, giving it up, or replacing it by a new one that is in the store is a run of application steps on that inode. |
| `FlusherCalls.LockedWrite` | fhgfs_client_module/source/filesystem/FhgfsOpsHelper.c:294-426 | What a buffered write does to buffer, pool, store membership and references is such a run from any state that shows the inode, ends in a state that shows it, and never loses data. |
| `FlusherCalls.LockedRead` | fhgfs_client_module/source/filesystem/FhgfsOpsHelper.c:435-628 | The same for a buffered read. |
| `FlusherCalls.LockedFlush` | fhgfs_client_module/source/filesystem/FhgfsOpsHelper.c:195-282 | The same for a flush by the application; it loses data exactly if it fails and is told to discard. |
| `FlusherCalls.FlusherFlush` | fhgfs_client_module/source/filesystem/FhgfsOpsHelper.c:195-282 | The flusher's own call, with the lock held, is a run of flusher steps that ends with the result the call had: delivered, failed with or without a communication error, or, in the final flush, lost exactly if the write failed. |
| `PageRange.FieldsIndependent` | fhgfs_client_module/source/filesystem/FhgfsOpsFileNative.c:79-99 | Setting one packed offset stores it and leaves the other one alone. |
| `PageRange.MaskedFields` | fhgfs_client_module/source/filesystem/FhgfsOpsFileNative.c:79-87 | On a 64-bit word the masked getters are the arithmetic ones, and the two fields and the bits above them make up the word. |
| `PageRange.MaskIntoFirstFields` | fhgfs_client_module/source/filesystem/FhgfsOpsFileNative.c:89-93 | The masking setter stores the first offset and leaves all other bits alone. |
| `PageRange.MaskIntoLastFields` | fhgfs_client_module/source/filesystem/FhgfsOpsFileNative.c:95-99 | The masking setter stores the last offset and leaves all other bits alone. |
| `PageRange.InitIsWrite` | fhgfs_client_module/source/filesystem/FhgfsOpsFileNative.c:1367-1372 | A freshly initialised range is exactly the write. |
| `PageRange.MergeIsUnion` | fhgfs_client_module/source/filesystem/FhgfsOpsFileNative.c:101-125 | After an accepted merge the range is exactly the union of the old range, which may be empty, and the write. |
| `PageRange.CanMergeIffNoGap` | fhgfs_client_module/source/filesystem/FhgfsOpsFileNative.c:101-116 | The merge test accepts exactly the writes whose union with the old range has no gap, except writes that exceed the old range on both sides. |
| `PageRange.EmptyCopyRange` | fhgfs_client_module/source/filesystem/FhgfsOpsFileNative.c:1365-1372 | A zero-byte copy marks no byte dirty, but one at the start of a page marks the whole page dirty. |
| `NativePages.NativeFile.Write` | fhgfs_client_module/source/filesystem/FhgfsOpsFileNative.c:1265-1382 | One page's write is one store in the file seen by the application; a short copy into a dirty page, or an empty copy, counts as none and changes only bytes of its range; only bytes written since their last write-back are sent. The one exception is an empty copy to the start of a page that has no range able to take the write: then the whole page will be sent although none of it was written. |
| `NativePages.NativeFile.WriteBegin` | fhgfs_client_module/source/filesystem/FhgfsOpsFileNative.c:1265-1318 | Afterwards the page can take the write without a gap; a flush on the way changes nothing the application sees. |
| `NativePages.NativeFile.WriteEnd` | fhgfs_client_module/source/filesystem/FhgfsOpsFileNative.c:1320-1382 | The file grows to the end of the write and the set of unsent bytes grows by exactly the bytes written. |
| `NativePages.NativeFile.FlushPage` | fhgfs_client_module/source/filesystem/FhgfsOpsFileNative.c:993-1076 | A flush never changes the file seen by the application and sends only unsent bytes; if no file handle can be had the page keeps its range but loses its dirty mark, and every later flush of it reports success without doing anything. |
| `NativePages.NativeFile.Submit` | fhgfs_client_module/source/filesystem/FhgfsOpsFileNative.c:842-924 | One page: a complete write clears the range, any other outcome keeps it and marks the page dirty again. |
| `NativePages.NativeFile.ReadPage` | fhgfs_client_module/source/filesystem/FhgfsOpsFileNative.c:1078-1123 | A page that has been read shows the file, zero-extended; a range without dirty mark is lost. |
| `NativePages.PartialFlushKeepsContents` | fhgfs_client_module/source/filesystem/FhgfsOpsFileNative.c:872-889 | Whatever a write-back of the range left at the servers, the overlaid file is the same, and the servers changed only inside dirty ranges. |
| `NativePages.FullFlushKeepsContents` | fhgfs_client_module/source/filesystem/FhgfsOpsFileNative.c:892-906 | After a complete write-back the range can be cleared: exactly its bytes stop being pending and the overlaid file is the same. |
| `NativePages.WriteStores` | fhgfs_client_module/source/filesystem/FhgfsOpsFileNative.c:1354-1373 | Data copied into the page with the united range is one store in the overlaid file. |
| `NativePages.PageFromRead` | fhgfs_client_module/source/filesystem/FhgfsOpsFileNative.c:1078-1123 | What a read of a page returns, filled up with zeros, is the page, also if it stopped at a hole: a page lies in one chunk. |
| `WriteBack.FlushTestIsExact` | fhgfs_client_module/source/filesystem/FhgfsOpsFileNative.c:926-959 | A page is accepted into the batch exactly if the longer batch is consecutive, of one kind, without interior gap and of at most 128 pages. |
| `WriteBack.GatheredIsContiguous` | fhgfs_client_module/source/filesystem/FhgfsOpsFileNative.c:785-809 | The gather entries lie end to end and cover the file from the computed offset to the end of the last range, clipped at the file size. |
| `WriteBack.ClipIsExact` | fhgfs_client_module/source/filesystem/FhgfsOpsFileNative.c:799-802 | The clipped length is right exactly if the file reaches the page's first dirty byte; otherwise the difference is negative. |
| `WriteBack.BatchedIsPageByPage` | fhgfs_client_module/source/filesystem/FhgfsOpsFileNative.c:785-809 | One gathered write equals writing the pages one by one. |
| `WriteBack.GatheredByte` | fhgfs_client_module/source/filesystem/FhgfsOpsFileNative.c:785-809 | Each byte of a page's dirty range that is in the file is sent, to its own file position. |
| `WriteBack.GatheredFrom` | fhgfs_client_module/source/filesystem/FhgfsOpsFileNative.c:785-809 | Nothing else is sent: every position of the gathered write lies in the range of a page of the batch. |
| `WriteBack.StoreEachByte` | fhgfs_client_module/source/filesystem/FhgfsOpsFileNative.c:785-809 | Page-by-page writing leaves at each file position the byte of the last page whose range covers it, and otherwise the old byte. |
| `WriteBack.MarkClean` | fhgfs_client_module/source/filesystem/FhgfsOpsFileNative.c:892-914 | The accounting loop marks pages as the specification Marks says, and reports success exactly if all are marked. |
| `WriteBack.DeliveredIsLongestPrefix` | fhgfs_client_module/source/filesystem/FhgfsOpsFileNative.c:892-914 | The delivered pages are the longest prefix whose lengths fit the bytes written. |
| `WriteBack.CleanIsDeliveredIff` | fhgfs_client_module/source/filesystem/FhgfsOpsFileNative.c:892-914 | All delivered pages are marked clean; no other page is, if and only if every page behind the first incomplete one is longer than what was written of that page. |
| `WriteBack.AlwaysRightIff` | fhgfs_client_module/source/filesystem/FhgfsOpsFileNative.c:892-914 | Known before the write: the marking is right whatever the byte count if and only if the lengths never decrease. |
| `WriteBack.ShortLastPageIsLost` | fhgfs_client_module/source/filesystem/FhgfsOpsFileNative.c:892-914 | Concrete failure: 50 bytes written of lengths 4096 and 10 mark the second page clean. |
| `WriteBack.CompleteWriteMarksAll` | fhgfs_client_module/source/filesystem/FhgfsOpsFileNative.c:892-914 | A complete write marks every page. |
| `WriteBack.AllMarkedIsComplete` | fhgfs_client_module/source/filesystem/FhgfsOpsFileNative.c:892-914 | If every page is marked, everything was written. |
| `WriteBack.CompleteSubmit` | fhgfs_client_module/source/filesystem/FhgfsOpsFileNative.c:842-924 | If a batch ends with all pages clean, the server file is what page-by-page writing gives. |
| `WriteBack.CompleteAppend` | fhgfs_client_module/source/filesystem/FhgfsOpsFileNative.c:842-924 | The same for an append: a batch with all pages clean is stored at the append's offset as a whole, which for a gapless batch that begins with the append's first page is page-by-page writing to the right places. |
| `WriteBack.MarksOfNothing` | fhgfs_client_module/source/filesystem/FhgfsOpsFileNative.c:861-914 | If nothing is written, exactly the pages whose lengths are 0 count as written; after a failed reservation the lengths are stale. |
| `WriteBack.WritePagesState.AllocateArd` | fhgfs_client_module/source/filesystem/FhgfsOpsFileNative.c:748-776 | Reserves the append's place behind the end of the file once; a failure leaves file and descriptor alone, or may have left the byte and takes its place for the append's. |
| `WriteBack.WritePagesState.Submit` | fhgfs_client_module/source/filesystem/FhgfsOpsFileNative.c:778-924 | Data and place of the remote write, for ranges and for appends, and the state of all pages after it: ranges cleared, dirty marks and write-back marks exactly as the outcome says; pages of a short write stay under write-back; success exactly if the place could be had and all pages are clean. |
| `WriteBack.WritePagesState.Callback` | fhgfs_client_module/source/filesystem/FhgfsOpsFileNative.c:961-991 | The page joins the batch, after a flush if needed; if that flush fails the page is in no batch, and the unsent pages that are neither in the batch nor marked dirty are exactly those of before without the old batch. |
| `WriteBack.WritePagesState.WritePages` | fhgfs_client_module/source/filesystem/FhgfsOpsFileNative.c:993-1039 | Every page taken in is handed to a remote write once and in order; without errors, and with ranges only, each position of the server file holds the byte of the last page whose range covers it and otherwise its old byte; an error is that of a call, and success hides none; a page that is not clean afterwards stays marked dirty, except the one whose callback failed; for distinct pages with unsent bytes nothing is lost if and only if no callback failed. |
| `AppendRanges.EntriesJoinIff` | fhgfs_client_module/source/filesystem/FhgfsOpsFileNative.c:820-837 | The gather list of an append is gapless if and only if the bytes present do not end inside the batch before its last page. |
| `AppendRanges.AppendIsPageByPage` | fhgfs_client_module/source/filesystem/FhgfsOpsFileNative.c:820-837 | A gapless list written to its first page's place equals writing the pages one by one to their places. |
| `AppendRanges.AppendGatheredByte` | fhgfs_client_module/source/filesystem/FhgfsOpsFileNative.c:822-837 | In a gapless list each appended byte of each page is at its distance from the first one. |
| `AppendRanges.PlacedByte` | fhgfs_client_module/source/filesystem/FhgfsOpsFileNative.c:819-837 | Page-by-page writing puts each appended byte at its distance from the start of the append, counted from the append's place in the file. |
| `AppendRanges.OffsetIsPlaceIff` | fhgfs_client_module/source/filesystem/FhgfsOpsFileNative.c:819 | The offset a batch is written to is right if and only if the batch begins with the append's first page. |
| `AppendRanges.LaterBatchOverwrites` | fhgfs_client_module/source/filesystem/FhgfsOpsFileNative.c:819-889 | The second batch of an append replaces the bytes of the first one, which page-by-page writing would keep. |
| `AppendRanges.SingleBatchAppends` | fhgfs_client_module/source/filesystem/FhgfsOpsFileNative.c:748-840 | An append whose bytes are all present and fit into one batch follows what the file held at the reservation. |
| `AppendRanges.ReservedIff` | fhgfs_client_module/source/filesystem/FhgfsOpsFileNative.c:767-768 | A complete reservation extends the file by the range, and otherwise changes nothing, if and only if the range is not empty or the file ends with a zero. |
| `AppendRanges.FailedReservationIsPlaceIff` | fhgfs_client_module/source/filesystem/FhgfsOpsFileNative.c:761-772 | The place kept from a failed reservation is the end of the file if and only if one byte was to be reserved. |
| `AppendProtocol.FileIsAppendsInLockOrder` | fhgfs_client_module/source/filesystem/FhgfsOpsHelper.c:872-955 | In every state of every run of any number of clients, with failing locks, stats, writes and unlocks, the file is the initial content followed by what each lock holder appended, in lock order; an append without a short or failed write is exactly its data behind its gap. |
| `AppendProtocol.SingleAppendPlacesItsData` | fhgfs_client_module/source/filesystem/FhgfsOpsHelper.c:861-955 | A one-vector append that reports its full length put its data at the end of the file it found and returns the new end; with a gap this is the reservation of an append range. |
| `AppendProtocol.SuccessMeansWritten` | fhgfs_client_module/source/filesystem/FhgfsOpsHelper.c:889-955 | Over any run: an append whose result is no error owns the last segment of the file; if none of its writes was short, the new offset is the end of its data and the result is its last vector's count. |
| `AppendProtocol.OneWriterAtATime` | fhgfs_client_module/source/filesystem/FhgfsOpsHelper.c:889-955 | Two clients are never both past the lock. |
| `AppendProtocol.NobodyKeepsTheLock` | fhgfs_client_module/source/filesystem/FhgfsOpsHelper.c:889-955 | Over any run, whatever requests fail: the lock is held by a client in an append or by one that knows it must clean up, so nobody keeps it unknowingly. |
| `AppendProtocol.WriteKeepsInv` | fhgfs_client_module/source/filesystem/FhgfsOpsHelper.c:921-933 | A write of the lock holder keeps the invariant. |
| `AppendProtocol.AppendVectors` | fhgfs_client_module/source/filesystem/FhgfsOpsHelper.c:919-937 | The write loop: complete writes leave the concatenation at the end; the result is the last vector's count, for one vector it is full exactly if the append is intact, and it is the number of bytes written exactly if all vectors but the last are empty. |
| `AppendProtocol.LastCountHidesShortWrite` | fhgfs_client_module/source/filesystem/FhgfsOpsHelper.c:921-933 | Concrete failure: a short first vector is hidden by a full second one. |
| `Queues.FreeAt` | fhgfs_client_module/source/components/AckManager.c:232-234 | Freeing an entry and unlinking it leaves exactly the other entries, in order. |
| `Queues.SurvivorsMembers` | fhgfs_client_module/source/components/AckManager.c:111-237 | What is in the queue is exactly what was added and not freed, in the order of addition. |
| `AckManager.AckManager.ProcessAckQueue` | fhgfs_client_module/source/components/AckManager.c:111-237 | Under arbitrary concurrent appends each turn frees the entry that is first, with the fate that node, message and the outcomes of the two sends of this turn dictate; whatever else leaves was dropped behind an entry of the same node both of whose sends failed in one of the turns; a pass that is not cut short frees every entry, late arrivals included, exactly once; the entries added meanwhile are exactly those that arrived. |
| `AckManager.AckManager.ProcessFirst` | fhgfs_client_module/source/components/AckManager.c:126-234 | The first entry gets the fate of the turn: unknown node, not serializable, failed exactly if both sends failed, else delivered; other entries leave only after two failed sends, and then no entry of that node is left. |
| `AckManager.AckManager.SendWithRetry` | fhgfs_client_module/source/components/AckManager.c:166-205 | The ack is sent until a send succeeds, at most twice; it has failed exactly if both sends did; what arrives meanwhile is enqueued in order behind the rest. |
| `AckManager.AckManager.RemoveQueueEntriesByNode` | fhgfs_client_module/source/components/AckManager.c:258-275 | From the given position on exactly the entries of the node leave; the others keep their order. |
| `AckManager.AckManager.AddAckToQueue` | fhgfs_client_module/source/components/AckManager.c:283-301 | Appends a new entry. |
| `DelayedQueue.DelayedOps.ProcessQueue` | fhgfs_client_module/source/components/InternodeSyncer.c:834-874 | A pass tries entries in order, late arrivals included; an entry leaves exactly if its result was not a communication error, and all others keep their order; the entries added meanwhile are exactly those that arrived. The loops at lines 879-966 are the same. |
| `DelayedQueue.DelayedOps.TryAt` | fhgfs_client_module/source/components/InternodeSyncer.c:844-870 | One try: with a communication error the entry stays and the iterator advances, otherwise it is freed and the iterator stays. |
| `DelayedQueue.DelayedOps.Add` | fhgfs_client_module/source/components/InternodeSyncer.c:1086-1108 | Appends a new entry. |
| `NfsHandle.ParsePrinted` | fhgfs_client_module/source/filesystem/FhgfsOpsExport.c:536-576 | Scanning recovers every printed triple. |
| `NfsHandle.ScanTolerates` | fhgfs_client_module/source/filesystem/FhgfsOpsExport.c:543 | The scanner accepts white space and "0x" in front of a number and gives the same number. |
| `NfsHandle.CanonicalIffPrinted` | fhgfs_client_module/source/filesystem/FhgfsOpsExport.c:536-576 | The printed IDs are exactly three upper-case hexadecimal numbers of at most 8, 8 and 4 digits without leading zeros, joined by dashes, with nothing behind. |
| `NfsHandle.StoredIDRecovered` | fhgfs_client_module/source/filesystem/FhgfsOpsExport.c:536-576 | A stored ID is recovered if and only if it is the root's, or canonical in that textual sense and not "0-0-0". |
| `NfsHandle.ZeroIDIsRoot` | fhgfs_client_module/source/filesystem/FhgfsOpsExport.c:568-571 | "0-0-0" comes back as "root". |
| `NfsHandle.RootTestIsExact` | fhgfs_client_module/source/filesystem/FhgfsOpsExport.c:391-394 | No printed ID passes the root test, and the decoded ID passes it exactly for three zeros. |
| `NfsHandle.IDsDistinct` | fhgfs_client_module/source/filesystem/FhgfsOpsExport.c:565-576 | Different triples stand for different IDs. |
| `NfsHandle.EncodeHandle` | fhgfs_client_module/source/filesystem/FhgfsOpsExport.c:120-207 | Needs seven words; invalid exactly if an ID cannot be scanned; otherwise the buffer holds the triples of both IDs, owner, type and parent owner. |
| `NfsHandle.HandleToEntry` | fhgfs_client_module/source/filesystem/FhgfsOpsExport.c:216-298 | Accepts exactly long enough handles of the two known types, and looks up the stored entry. |
| `NfsHandle.HandleToParent` | fhgfs_client_module/source/filesystem/FhgfsOpsExport.c:309-348 | Accepts exactly long enough V2 handles, and looks up the parent with its owner. |
| `NfsHandle.RoundTrip` | fhgfs_client_module/source/filesystem/FhgfsOpsExport.c:120-394 | Encoding and decoding return the ID exactly if it is recoverable and the parent's ID can be scanned; if both are recoverable, owner, type, parent ID and parent owner come back too. |
| `PathMap.UniqueInPlace` | beegfs_deeper_lib/source/toolkit/CachePathTk.cpp:404-405 | In-place removal of repeated slashes computes the specification. |
| `PathMap.RemoveSpaces` | beegfs_deeper_lib/source/toolkit/CachePathTk.cpp:407 | In-place removal of spaces computes the specification. |
| `PathMap.PreparePath` | beegfs_deeper_lib/source/toolkit/CachePathTk.cpp:402-413 | The whole clean-up computes its specification. |
| `PathMap.PreparedIsIdentityIff` | beegfs_deeper_lib/source/toolkit/CachePathTk.cpp:402-413 | The clean-up leaves exactly the paths alone that have no repeated slash, no space and no slash at the end. |
| `PathMap.SpacesCollide` | beegfs_deeper_lib/source/toolkit/CachePathTk.cpp:407 | Two paths that differ in a space have the same clean path. |
| `PathMap.RoundTrip` | beegfs_deeper_lib/source/toolkit/CachePathTk.cpp:53-81 | Mapping an absolute path to the other mount and back returns it. |
| `PathMap.MappedBelowIff` | beegfs_deeper_lib/source/toolkit/CachePathTk.cpp:12-19 | The mapped path lies below the new root exactly if the path lies below the old one; the root test alone does not ensure this. |
| `PathMap.SiblingIsMapped` | beegfs_deeper_lib/source/toolkit/CachePathTk.cpp:12-19 | Concrete failure: a sibling directory whose name starts with the mount point's is accepted. |
| `PathMap.BothMountsIff` | beegfs_deeper_lib/source/toolkit/CachePathTk.cpp:28-43 | A path can count as global and cached at once exactly if one mount point's string starts with the other's. |
| `PathMap.AbsoluteOfNearest` | beegfs_deeper_lib/source/toolkit/CachePathTk.cpp:141-191 | Making a path absolute gives the real path of the nearest existing ancestor followed by the missing elements. |
| `PathMap.RelativeIsMapped` | beegfs_deeper_lib/source/toolkit/CachePathTk.cpp:95-132 | A relative path is mapped like the absolute path that its nearest existing ancestor and the missing elements make up. |
| `PathMap.LostElement` | beegfs_deeper_lib/source/toolkit/CachePathTk.cpp:160-180 | If that ancestor cannot be resolved its string is kept, the element below it is lost, and success is still reported. |
| `PathMap.MissingDirectoryIsLost` | beegfs_deeper_lib/source/toolkit/CachePathTk.cpp:160-180 | With no directory found "dir/name" becomes "/name", reported as a success. |
| `FollowSymlink.DeeperCache.HandleFollowSymlink` | beegfs_deeper_lib/source/filesystem/DeeperCache.cpp:1416-1534 | Terminates on every file system, cyclic ones included; counter and link paths are what they were on every return; the copy is the one of the specification in which link paths and count are arguments. |
| `FollowSymlink.DeeperCache.CopyDir` | beegfs_deeper_lib/source/filesystem/DeeperCache.cpp:1195-1260 | The same for a copy. |
| `FollowSymlink.DeeperCache.NftwCopyFile` | beegfs_deeper_lib/source/filesystem/DeeperCache.cpp:1548-1758 | The same for the callback of the walk, so an entry behind a followed link is mapped by the outer root. |
| `FollowSymlink.DeeperCache.Nftw` | beegfs_deeper_lib/source/filesystem/DeeperCache.cpp:1253-1256 | The same for a whole walk. |
| `FollowSymlink.DeeperCache.TestAndIncrementNumFollowedSymlinks` | beegfs_deeper_lib/source/filesystem/DeeperCache.cpp:2046-2090 | Succeeds exactly below 20, and then counts. |
| `FollowSymlink.CopyIsHonest` | beegfs_deeper_lib/source/filesystem/DeeperCache.cpp:1195-1260 | A copy that reports success did everything it began, the owners of directories included. |
| `FollowSymlink.RingIsError` | beegfs_deeper_lib/source/filesystem/DeeperCache.cpp:1485-1516 | Links in a circle are an error and copy nothing. |
| `FollowSymlink.TrapIsReported` | beegfs_deeper_lib/source/filesystem/DeeperCache.cpp:1416-1534 | For any closed set of links and directories, where each link leads into the set and each directory holds such a link at any depth, the copy of a member ends and reports a failure, however its operations go. |
| `FollowSymlink.LoopIsReported` | beegfs_deeper_lib/source/filesystem/DeeperCache.cpp:1416-1534 | The simplest case: a directory with a link back to itself. |
| `FollowSymlink.WalkStopsWell` | beegfs_deeper_lib/source/filesystem/DeeperCache.cpp:1548-1758 | A walk ends with 0, with the value that stops it, or with -1, and that only for an owner that may not be changed. |
| `FollowSymlink.FileIsCopied` | beegfs_deeper_lib/source/filesystem/DeeperCache.cpp:1422-1508 | A link that leads to a regular file in few enough steps, each present and on the mount, copies exactly that file to the link's place, and the result says whether that was done. |
| `FollowSymlink.DirectoryIsCopied` | beegfs_deeper_lib/source/filesystem/DeeperCache.cpp:1422-1504 | A link that leads to a directory copies that directory to the link's place, with its entries mapped below it and the steps counted. |
| `FollowSymlink.TooFarIsError` | beegfs_deeper_lib/source/filesystem/DeeperCache.cpp:1476-1487 | A link that leads to anything in more steps than are left is an error, and nothing is copied for it. |
| `FollowSymlink.EndIsReached` | beegfs_deeper_lib/source/filesystem/DeeperCache.cpp:1422-1534 | The end of a link, as the expected operations use it, is where its steps lead: both directions. |
| `FollowSymlink.FollowPerforms` | beegfs_deeper_lib/source/filesystem/DeeperCache.cpp:1416-1534 | Following any link does the operations for what is at its end, in order, up to the first that is not done, and succeeds exactly if all are done; a link out of the mount does nothing and is no error. |
| `FollowSymlink.RelativeTarget` | beegfs_deeper_lib/source/filesystem/DeeperCache.cpp:1431-1437 | A relative link is resolved from the directory the link is in. |
| `FollowSymlink.WalkIsExpected` | beegfs_deeper_lib/source/filesystem/DeeperCache.cpp:1548-1758 | A walk of any tree, links included, begins exactly one operation sequence, the tree's order with each entry once and with what is at the end of each link in its place, up to the first operation that is not done or the first error, and succeeds if and only if there is none; a path that exists already counts as done, an owner that may not be changed does not. |
| `FollowSymlink.CopyIsExpected` | beegfs_deeper_lib/source/filesystem/DeeperCache.cpp:1195-1260 | The same for a whole copy, of a file, a link or a tree, which creates the destination first. |
| `FollowSymlink.PlainWalkIsExpected` | beegfs_deeper_lib/source/filesystem/DeeperCache.cpp:1548-1758 | For a tree without links these are its entries' operations and no other errors occur. |
| `FollowSymlink.PlainCopyIsExpected` | beegfs_deeper_lib/source/filesystem/DeeperCache.cpp:1195-1260 | The same for the copy of a directory without links. |
| `FollowSymlink.MountCopyIsPlain` | beegfs_deeper_lib/source/filesystem/DeeperCache.cpp:1583-1592 | Below the source mount the sequence is the plain recursive copy to the other mount, whatever the names are. |
| `FollowSymlink.LinkCopyIsPlainIff` | beegfs_deeper_lib/source/filesystem/DeeperCache.cpp:1566-1581 | Behind a followed link, whatever its target is called, it is the plain recursive copy below the link's cleaned-up place if and only if no copied name contains a space and the target does not end with a name of spaces only while something is copied from it. |
| `FollowSymlink.MountPlacesDiffer` | beegfs_deeper_lib/source/toolkit/CachePathTk.cpp:95-132 | Different paths below the source mount have different places. |
| `FollowSymlink.LinkPlace` | beegfs_deeper_lib/source/toolkit/CachePathTk.cpp:95-132 | What lies below a followed link's target goes to the cleaned-up place of the link, extended by what the cleaned-up path adds to the cleaned-up target; the target need not be clean. |
| `FollowSymlink.LinkPlacesCollideIff` | beegfs_deeper_lib/source/toolkit/CachePathTk.cpp:95-132 | Behind a followed link two entries have one place exactly if their cleaned-up paths agree. |
| `FollowSymlink.SpacedNameCollides` | beegfs_deeper_lib/source/filesystem/DeeperCache.cpp:1566-1581 | Two entries of the target whose names differ in one space overwrite each other. |
| `FollowSymlink.AbsolutePaths` | beegfs_deeper_lib/source/filesystem/DeeperCache.cpp:1428-1452 | In the real environment a link to an absolute path on the mount leads there, as LoopIsReported asks. |
| `FollowSymlink.MountIsMapped` | beegfs_deeper_lib/source/filesystem/DeeperCache.cpp:1583-1592 | Everything below the source mount has a place on the other mount: its path with the mount exchanged. |
| `FollowSymlink.LinkIsMapped` | beegfs_deeper_lib/source/filesystem/DeeperCache.cpp:1566-1581 | Everything below a followed link's target, clean or not, has the place that LinkPlace says, unless the target is the root itself. |
| `PathMap.PreparedPrefix` | beegfs_deeper_lib/source/toolkit/CachePathTk.cpp:402-413 | The clean-up of the beginning of a path is the beginning of the clean-up of the path. |
| `TreeFlush.Flush.HandleSubdirectoryFlag` | beegfs_deeper_lib/source/filesystem/DeeperCache.cpp:1343-1398 | In no state on the way is a link of the tree at neither of its places; success means that every link is at its destination with its text moved to the other mount, that every directory of the tree and every directory above the destination is there, and with discard that nothing is left of the tree. If the links in the places of files do no harm, which is exactly what is needed, no state has lost a file and success means all files are at their destinations. A failure has a reason: a call failed, or something stands in the way; without discard success hides no failure. A single file or link with discard is never reported as a success. |
| `TreeFlush.Flush.CopyDir` | beegfs_deeper_lib/source/filesystem/DeeperCache.cpp:1195-1260 | The copying pass, for any links: on success all links and directories are at their destinations, in no state a link is lost, and the only failure it hides is that of deleting a source that is then still there; if the links do no harm there is no loss in any state, and all files are copied on success. |
| `TreeFlush.Flush.CreatePath` | beegfs_deeper_lib/source/toolkit/CachePathTk.cpp:221-309 | On success every directory above the destination, and for a directory the destination too, is there, unless a link stands for it; a failure is that of a call, or something above the destination is no directory. Nothing else changes. |
| `TreeFlush.Flush.HandleDirectory` | beegfs_deeper_lib/source/filesystem/DeeperCache.cpp:1700-1731 | One directory is made unless something is there, which stays as it is; a failure ends the walk, one to change the owner included. |
| `TreeFlush.Flush.CopyFile` | beegfs_deeper_lib/source/filesystem/DeeperCache.cpp:849-991 | In every state of the copy the source or the file the destination leads to is intact; the source goes only after everything else succeeded, and then does go unless deleting it fails, the one failure that success hides; an error is a failed call or a destination that leads nowhere or to a directory; one with too many links changes nothing; one that leads to the source empties it. |
| `TreeFlush.Flush.CreateSymlink` | beegfs_deeper_lib/source/filesystem/DeeperCache.cpp:1275-1329 | Creating a link never touches files or other links, and in no state in between the link is at neither place; success means that nothing was there and that the new link has the text moved to the other mount if it was an absolute path on the source mount; an error changes nothing and is a failed call or a place that was taken. |
| `TreeFlush.LinkStepLosesNone` | beegfs_deeper_lib/source/filesystem/DeeperCache.cpp:1275-1329 | While one link is moved, no link of the tree is lost. |
| `TreeFlush.Flush.DeleteWalk` | beegfs_deeper_lib/source/filesystem/DeeperCache.cpp:1772-1823 | Success means that the source and everything below it are gone; files are never deleted here; a failure means that a call failed, or that the tree holds something that is not one of its directories. |
| `TreeFlush.CopyStepKeepsNoLoss` | beegfs_deeper_lib/source/filesystem/DeeperCache.cpp:849-991 | If the links in the places of files do no harm, each state of the copy of one file has every file of the tree intact at its source or, through links, at its destination. |
| `TreeFlush.DestsApart` | beegfs_deeper_lib/source/toolkit/CachePathTk.cpp:95-132 | If neither the source nor its destination lies in the other's tree, destinations lie outside of the tree and are distinct. |
| `TreeFlush.TreesApartIff` | beegfs_deeper_lib/source/toolkit/CachePathTk.cpp:95-132 | That condition is exact: it holds if and only if no entry's destination is a path of the tree. |
| `TreeFlush.MountsOverlap` | beegfs_deeper_lib/source/toolkit/CachePathTk.cpp:28-43 | It can fail only if one mount's name starts with the other's, and for a source below its mount only if one mount lies below the other. |
| `TreeFlush.OpeningKeepsNoLossIff` | beegfs_deeper_lib/source/filesystem/DeeperCache.cpp:857-907 | Opening a destination loses no file if and only if what it leads to is no place of a non-empty file of the tree, except one whose other place holds it intact. |
| `TreeFlush.StaleLinkLosesFile` | beegfs_deeper_lib/source/filesystem/DeeperCache.cpp:857-907 | Concrete failure: a destination that is a link back to the file destroys it when opened. |
| `TreeFlush.StaleLinkLosesMovedFile` | beegfs_deeper_lib/source/filesystem/DeeperCache.cpp:857-907 | Concrete failure: a destination that is a link to where another file has been moved destroys that one. |
| `TreeFlush.PlaceIsOutside` | beegfs_deeper_lib/source/filesystem/DeeperCache.cpp:857-907 | A link in the place of a file that leads out of the tree and of its destinations makes no file be written into the tree. |
| `TreeFlush.LinksOutAreGood` | beegfs_deeper_lib/source/filesystem/DeeperCache.cpp:857-907 | Links that lead out, to different files, do no harm to the flush; no links at all are the simplest case. |
| `TreeFlush.NothingLostIffGoodPlaces` | beegfs_deeper_lib/source/filesystem/DeeperCache.cpp:1195-1260 | For a flush with discard in which nothing fails, into fresh destinations: no state on the way has lost a file if and only if, by the links found at the start and the order of the walk, no file is written over one that comes at or behind it, or over the copy of one before it. |
| `TreeFlush.GoodPlacesKept` | beegfs_deeper_lib/source/filesystem/DeeperCache.cpp:1275-1329 | Moving the tree's own links during the walk does not change where its files go. |
| `DirIteration.DirInfo.IterateIncremental` | fhgfs_client_module/source/filesystem/FhgfsOpsFile.c:362-492 | One call hands out exactly the next entries in server order, stops early only at the end or with an error, and returns the position behind the last one. |
| `DirIteration.DirInfo.RefreshDirInfoIncremental` | fhgfs_client_module/source/filesystem/FhgfsOpsHelper.c:126-186 | Afterwards the next entry is available, or none is left and the list is empty; an error loses no position. |
| `DirIteration.DirInfo.LlseekDir` | fhgfs_client_module/source/filesystem/FhgfsOpsFile.c:215-246 | Seeking to a position returned earlier continues with exactly the entries behind it; other directives and negative positions are refused. |
| `DirIteration.Server.ListDirFromOffset` | fhgfs_client_module/source/net/filesystem/FhgfsOpsRemoting.c:178-278 | The server lists the entries behind an offset, fewer than asked for only at the end. |
| `DirIteration.CallsCoverDirectory` | fhgfs_client_module/source/filesystem/FhgfsOpsFile.c:362-492 | In any session, calls with any room and without seeks in between hand out every entry once, in order, from where the first began to where the last ended. |
| `DirIteration.SeekContinues` | fhgfs_client_module/source/filesystem/FhgfsOpsFile.c:215-246 | After a seek to the position some earlier call returned, reading gives exactly the entries behind what had been read by then. |
| `DirIteration.DirSession.ReadEntries` | fhgfs_client_module/source/filesystem/FhgfsOpsFile.c:362-492 | The call extends a session of the kind the two theorems speak about. |
| `DirIteration.DirSession.SeekTo` | fhgfs_client_module/source/filesystem/FhgfsOpsFile.c:215-246 | The same for seeks; other directives and negative positions are refused and change nothing. |
| `DirIteration.IterateDirFindName` | fhgfs_client_module/source/filesystem/FhgfsOpsExport.c:796-886 | Finds the first entry with the ID, and reports none only if there is none or an error. |
| `SparseRead.ReadOrClearUser` | fhgfs_client_module/source/filesystem/FhgfsOpsHelper.c:965-996 | The chunk loop terminates and leaves the zero-extended content in the buffer, and nothing else changed. |
| `SparseRead.ReadSparse` | fhgfs_client_module/source/filesystem/FhgfsOpsFile.c:1021-1056 | Returns the bytes up to the refreshed file size, with zeros where the servers hold nothing. |
| `SparseRead.Read` | fhgfs_client_module/source/filesystem/FhgfsOpsFile.c:954-1011 | Through the buffer of the inode, whatever it holds: a read returns that many bytes of the file the application has written, zeros in its holes, and leaves that file alone; the first part stops early only at the end or at a hole. |
| `SparseRead.CompleteIff` | fhgfs_client_module/source/filesystem/FhgfsOpsFile.c:993-1005 | With an up-to-date refreshed size the read is complete if and only if its first part was, or the size known before reached behind it. |
| `PagedWrite.PagedFile.WriteBegin` | fhgfs_client_module/source/filesystem/FhgfsOpsFile.c:1894-1954 | Whether the page is read, zeroed or left alone, outside of the coming write it shows the file, or is known not to, or has been filled with zeros, which happens exactly if the write leaves unknown bytes and by the client's size nothing is there. |
| `PagedWrite.PagedFile.WriteEnd` | fhgfs_client_module/source/filesystem/FhgfsOpsFile.c:1962-2058 | By the dirty page or by a synchronous write, the copied bytes are one store in the file and the size grows alike; the page takes them exactly if it is or becomes up to date; a page filled with zeros takes the place of what it covers at or behind the client's size, which is nothing if the client knows the size; up-to-date pages show the file; only a failed or short synchronous write can put the size behind. |
| `PagedWrite.DirtyStores` | fhgfs_client_module/source/filesystem/FhgfsOpsFile.c:2023-2034 | Marking a page dirty stores the write in the overlaid file. |
| `PagedWrite.ZeroFillStores` | fhgfs_client_module/source/filesystem/FhgfsOpsFile.c:1929-1945 | Marking a page dirty that was filled with zeros, whatever the servers hold there, stores the write and clears exactly what the page covers at or behind the size the client knew. |
| `PagedWrite.ZeroFillClearsServerByte` | fhgfs_client_module/source/filesystem/FhgfsOpsFile.c:1929-2022 | Concrete failure: a byte that a failed synchronous write left at the servers is cleared by the next write. |
| `PagedWrite.SyncStores` | fhgfs_client_module/source/filesystem/FhgfsOpsFile.c:1995-2022 | A synchronous write has the same effect on the overlaid file as on the server file. |
| `PagedWrite.SyncKeepsPages` | fhgfs_client_module/source/filesystem/FhgfsOpsFile.c:1995-2022 | The other up-to-date pages still show the file afterwards. |
| `PagedWrite.PagedFile.ReadPageSync` | fhgfs_client_module/source/filesystem/FhgfsOpsPages.c:793-984 | A page that has been read shows the file, also behind a hole; the size is corrected to reach what the servers have sent. |
| `HandleAccounting.InodeHandles.ReferenceHandle` | fhgfs_client_module/source/filesystem/FhgfsInode.c:112-207 | Counts exactly one new user on success and none on failure; the handle is the flags' own, or the read-write one if that is allowed and the only one in use; it fails only where the servers are asked to open or to truncate, and truncates once if the flags say so, unless the lookup has opened the file; nothing is opened for a handle in use; a session that a lookup has opened is taken if and only if no handle in use serves the flags. |
| `HandleAccounting.InodeHandles.OpenLookedUp` | fhgfs_client_module/source/filesystem/FhgfsOpsInode.c:1242-1320 | An open after a lookup that opened the file succeeds with the session unclaimed if and only if a handle for the flags was in use; a failed one leaves all handles alone and closes the session unless that fails too. |
| `HandleAccounting.InodeHandles.ReleaseHandle` | fhgfs_client_module/source/filesystem/FhgfsInode.c:215-269 | Counts one user less; the last one closes the session, or hands it over once, exactly if the result is a communication error or an interruption. |
| `HandleAccounting.GrantsWantedIff` | fhgfs_client_module/source/filesystem/FhgfsInode.c:344-363 | The handle for some flags allows what they ask for if and only if they do not combine read-write modes. |
| `HandleAccounting.TypeRoundTrip` | fhgfs_client_module/source/filesystem/FhgfsInode.h:515-534 | Converting a handle type to flags and back, and the access of the flags. |
| `HandleAccounting.InodeHandles.OpenIffUsed` | fhgfs_client_module/source/filesystem/FhgfsInode.c:112-269 | Apart from the unclaimed ones, a session is open exactly if a handle in use stands for it, and no two handles in use share one. |

## Left out

- NativePages.NativeFile.Write: says nothing about the file after an empty copy has marked a whole page; `CacheRuns` ends there.
- FileCache.FhgfsInode.WriteCached: says nothing about the file if the call fails while append data is unflushed, because a repeated append flush may store data twice.
- FileCache.FhgfsInode.ReadCached: says nothing about the file if the read fails while append data is unflushed, for the same reason.
- WriteBack.WritePagesState.Submit: the descriptor of an append is given; how append calls create, extend and replace it (`FhgfsOpsFileNative.c:432-532`) is not modelled, and a reservation at a negative place counts as failed.
- WriteBack.WritePagesState.WritePages: hands out no further page after a failed callback; kernels that go on in data-integrity mode are not modelled.
- SparseRead.Read: faults of user memory in the sparse path are not modelled.
- AckManager.AckManager.ProcessAckQueue: termination of the thread is the end of the given turns, so a pass ends after finitely many arrivals.
- FollowSymlink.DeeperCache.CopyDir: creating the directories above the destination is one operation; FIFOs and devices are copied like the walk does, without their contents.
- TreeFlush.Flush.CreatePath: a destination that only begins with its mount's name, but is not below it, gets directories elsewhere; these are any outside of the tree.
- TreeFlush.Flush.CopyFile: links are followed in the last element of a destination, up to 40 of them; directories above it are taken for real ones.
- TreeFlush.Flush.HandleSubdirectoryFlag: links in the places of files that lead through the tree's own links, which move during the walk, are covered step by step only, by `TreeFlush.OpeningKeepsNoLossIff`; without discard the condition on links is sufficient, not exact.
- PagedWrite.PagedFile.WriteEnd: what comes later, the write-back of dirty pages in paged mode, is not modelled.
- PathMap.PreparePath: a path that consists of spaces only is excluded, because the code then looks before the first character.
- The packed range is an integer word; that its operations are those with masks and shifts is proved on 64-bit words, field by field, without a conversion between the two.
- Memory-mapped files, coherent-buffer tuning and partial invalidation of pages, which depend on kernel mapping state.
- Direct I/O, asynchronous I/O, locking calls, range locks and the readahead path of native mode.
- The lock levels of the file cache: each modelled call runs under the exclusive lock, and the read without buffer under the shared one.
- Contents of user memory are values; copying may stop at a fault, but user buffers do not change concurrently.
- Copying of file ranges, checksums, modes and owners of copied files, and the delete pass with links followed.
- Node stores, connection pools, message serialization, logging, statistics and the admon server.
