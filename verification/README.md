# Verified core of the vendored QEMU tree

This project models the parts of the vendored QEMU tree that keep data safe while
other things happen at the same time: live migration of disks and of RAM, the block
layer's request protocol and its image chains, write merging, AES in CBC mode,
word-level bitmaps, the migration output buffer, and the two re-entrant callback
lists. Each model follows the branches, constants and error returns of the code it
stands for, and the properties are proved for all inputs and all runs.

What the files hold:

- `BlockMigrationProtocol.dfy`: live block migration as a step system. Guest writes,
  asynchronous reads, their completions, flushes and the completion phase interleave
  freely. Convergence is proved for every orderly run, and each hypothesis it needs
  has its exact condition and a run that shows what happens without it.
- `BlockStream.dfy`, `BlockMigration.dfy`: the wire format and the receiver, and the
  sender as a class whose every state is reached by an orderly run of the protocol.
- `CopyOnRead.dfy`: tracked requests and copy-on-read as a step system over coroutines.
- `RamStream.dfy`, `RamMigration.dfy`: the RAM section byte by byte, its receiver, and
  the sender with a guest that writes at any moment.
- `Multiwrite.dfy`: merging of writes in place, its exact meaning, and the callbacks.
- `ImageChain.dfy`, `BlockGraph.dfy`: what is visible through a chain of images;
  commit, dropping intermediate images, swapping and appending.
- `ByteIo.dfy`: byte-granular reads and writes over sectors.
- `Bits.dfy`, `Bitmap.dfy`, `DirtyBitmap.dfy`: word tricks, bitmap searches and masked
  loops as operations on sets, and the dirty bitmap with its count.
- `AesField.dfy`, `AesCipher.dfy`, `Aes.dfy`, `Cbc.dfy`, `CbcBuffers.dfy`: GF(2^8), the
  ciphers of FIPS 197, the table-driven code, the key schedules, and cipher block
  chaining, also between overlapping parts of one buffer.
- `BufferedFile.dfy`: the rate-limited output buffer, over any sequence of replies of
  its backend.
- `BottomHalves.dfy`, `AioHandlers.dfy`: the callback lists with deferred deletion as step
  systems; `BottomHalfList.dfy`: the linked list of bottom halves in place, with callbacks
  that change it and poll again.
- `Common.dfy`: error numbers and small shared definitions.

How the parts are modelled. A class stands for state that the code updates in place,
an array for a buffer, a loop for a loop. Where other code runs in the middle of an
operation (coroutines, the event loop, callbacks, the guest's processors) the model is
a step system: a step is what happens between two points at which other code can run,
and a theorem about runs covers every interleaving. Drivers, failures, the clock and
the rate limit are unconstrained choices. Where a contract says when an operation
succeeds, the answers are given in advance: as a sequence of replies of the backend of
the output buffer and of the destination's writes, as the answer of the driver asked for
a new backing file, and elsewhere as the number of driver calls that are going to fail.

Where the code does not do what its comments or its callers may expect, the model
follows the code, and the exact condition is proved:

- `multiwrite_merge` lets a merged request end where its last part ends, so a request
  that lies inside an earlier one takes the earlier one's tail with it
  (`Multiwrite.ContainedRequestLosesTail`, `Multiwrite.MergeExact`).
- The comment at qemu-kvm/block.c:2754-2755 says that `bdrv_co_is_allocated_above` includes
  BASE; the loop stops before it, and so does the model.
- Dropping images in which nothing is allocated can uncover sectors that a short image
  had cut off (`ImageChain.ShortImageHides`, `ImageChain.DropExact`).
- The bulk path of block migration does not set the in-flight bit that the dirty path
  tests; two reads of one chunk can then complete out of order and lose a write
  (`BlockMigrationProtocol.OutOfOrderReadsDiverge`, `BlockMigrationProtocol.ReadDoneExact`).
- Cleanup after `block_save_complete` discards what a rate-limited flush left queued, and
  nothing sends what lies beyond the bulk cursor (`BlockMigrationProtocol.CompletionExact`,
  `BlockMigrationProtocol.CutShortFlushDiverges`, `BlockMigrationProtocol.EarlyCompletionDiverges`).
- A backend that returns 0 makes the output buffer record the error 0, that is, none,
  and go on (`BufferedFile.ZeroReturnReorders`, `BufferedFile.RunExact`).
- `AES_cbc_encrypt` overwrites input that it has yet to read when the output begins inside
  an input of more than one block (`CbcBuffers.EncExact`, `CbcBuffers.DecExact`,
  `Cbc.OverlapExact`, `Cbc.DecryptOverlapExact`).
- Decrypting a partial last block leaves the decrypted block in `ivec`, not the cipher
  text (`CbcMode.CbcIvs`).
- A call of `set_dirty_bitmap` for no sectors can still mark a chunk
  (`DirtyBitmap.EmptyRequestVisits`).

`dafny verify dfyconfig.toml` checks the whole project.

## Model

| member | source | states |
|---|---|---|
| BlockMigrationProtocol.StepKeepsShape | qemu-kvm/block-migration.c:206-260 | every step keeps all requested copies whole chunks of the right device, sent copies fully read and good, and no guest write under way once the guest is stopped |
| BlockMigrationProtocol.PipelineStep | qemu-kvm/block-migration.c:187-204 | what each step does to the one pipeline of copies (sent, queued, being read): it is extended at the end, one copy is moved or gains a sector, or it stays |
| BlockMigrationProtocol.WriteStepSettles | qemu-kvm/block.c:2332-2382 | a guest write changes a sector only while it covers it and marks every chunk it covered before it stops doing so, so no passed sector becomes unsettled |
| BlockMigrationProtocol.ReadSectorSettles | qemu-kvm/block-migration.c:206-260 | a sector read into a copy, at whatever moment, keeps the newest copy of every clean sector equal to the source |
| BlockMigrationProtocol.ReadDoneSettles | qemu-kvm/block-migration.c:187-204 | completing a read moves its copy from the reads to the queue; a passed sector stays settled if and only if that does not leave it a stale newest copy |
| BlockMigrationProtocol.SubmitStepSettles | qemu-kvm/block-migration.c:365-430 | clearing a dirty bit together with requesting the chunk keeps every passed sector settled |
| BlockMigrationProtocol.StepKeepsBase | qemu-kvm/block-migration.c:206-260 | with a shared base, no copy ever holds anything but the destination's value for a sector that the source's top image does not hold |
| BlockMigrationProtocol.StepKeepsInv | qemu-kvm/block-migration.c:187-260 | every step that overtakes neither a stale read nor the queue keeps: each sector past the bulk cursor is dirty, about to be marked by a guest write, or its newest copy equals the source |
| BlockMigrationProtocol.ReadDoneExact | qemu-kvm/block-migration.c:187-204 | reads may complete in any order: the invariant survives a completion if and only if, in the state before it, the read does not overtake an earlier outstanding one that holds another value than the disk for a passed, clean sector under no guest write, of which it is the newest copy |
| BlockMigrationProtocol.InOrderIsEnough | qemu-kvm/block-migration.c:187-204 | completing the reads of one chunk in the order of submission overtakes nothing |
| BlockMigrationProtocol.RunKeepsInv | qemu-kvm/block-migration.c:187-477 | the invariant holds after every orderly run, that is, every run that overtakes neither a stale read nor the queue |
| BlockMigrationProtocol.RunKeepsAio | qemu-kvm/block-migration.c:141-173 | an in-flight bit is only ever set for a chunk that is being read |
| BlockMigrationProtocol.RunConserves | qemu-kvm/block-migration.c:187-260 | over any run the copies sent, queued and being read are exactly those requested |
| BlockMigrationProtocol.Convergence | qemu-kvm/block-migration.c:621-737 | after any orderly run from setup, with guest writes in flight or none, to completion, every sector loaded from the stream equals the source's disk |
| BlockMigrationProtocol.ExclusiveIsOrderly | qemu-kvm/block-migration.c:365-378 | if no read of a chunk is submitted while one is outstanding, completion order does not matter: the run is orderly |
| BlockMigrationProtocol.OutOfOrderReadsDiverge | qemu-kvm/block-migration.c:236-256 | a run from setup to completion in which the bulk read of a chunk completes after a dirty read of it ends with a destination that differs from the source |
| BlockMigrationProtocol.CompletionExact | qemu-kvm/block-migration.c:447-477 | when the flush leaves blocks that cleanup discards, or the bulk phase is not over, the destination converges if and only if every clean sector of a discarded block or beyond the bulk cursor already has its value there |
| BlockMigrationProtocol.CutShortFlushDiverges | qemu-kvm/block-migration.c:517-539 | a run from setup after which the only copy of a clean chunk is queued: discarded it is lost, flushed it arrives |
| BlockMigrationProtocol.EarlyCompletionDiverges | qemu-kvm/block-migration.c:621-660 | a run from setup after which completion, before the end of the bulk phase, leaves the destination different |
| BlockStream.LoadReceives | qemu-kvm/block-migration.c:662-737 | loading a well-formed stream succeeds and leaves in every sector the value of the last block sent of it |
| BlockStream.LoadConverges | qemu-kvm/block-migration.c:662-737 | if the copies sent converge, loading the stream makes the destination's disks equal the source's |
| BlockStream.LoadSections | qemu-kvm/block-migration.c:662-737 | loading section by section is the same as loading the concatenation |
| BlockStream.Receiver.BlockLoad | qemu-kvm/block-migration.c:662-737 | returns 0 exactly behind the first end mark, having loaded everything before it with every write succeeding; otherwise stops at the first message that is missing, cannot be loaded or whose write fails, and returns its error |
| BlockStream.Incoming | qemu-kvm/block-migration.c:662-737 | a stream that can be loaded and ends with an end mark is loaded as a whole, section by section, if the destination's writes succeed |
| BlockMigration.ReachedStep | qemu-kvm/block-migration.c:187-260 | an enabled, orderly step taken by the sender extends the run that has reached its state |
| BlockMigration.CompletedRun | qemu-kvm/block-migration.c:621-660 | completion, told from the state after the flush, converges exactly when neither the discarded blocks nor the sectors beyond the bulk cursor hold anything the destination lacks |
| BlockMigration.BlkMig.constructor | qemu-kvm/block-migration.c:271-317 | setup, with guest writes in flight or none, starts with clean bitmaps, cursors at 0 and a state from which the invariant holds |
| BlockMigration.BlkMig.Accounting | qemu-kvm/block-migration.c:187-260 | submitted counts the reads outstanding, read_done the blocks queued, and with transferred they add up to the blocks requested |
| BlockMigration.BlkMig.OutsideStep | qemu-kvm/block-migration.c:187-204 | a guest or driver step, including the read callback in any order that overtakes no stale read, keeps the counters right |
| BlockMigration.BlkMig.SkipUnallocated | qemu-kvm/block-migration.c:216-224 | stops at the end or at a sector that the top image holds, having passed over sectors that it does not hold and the shared base makes unnecessary |
| BlockMigration.BlkMig.SaveDeviceBulk | qemu-kvm/block-migration.c:206-260 | advances the bulk cursor strictly or finishes the device, requests at most one block, never moves completed_sectors back, and is finished exactly at the end of the disk |
| BlockMigration.BlkMig.SaveBulkedBlock | qemu-kvm/block-migration.c:319-354 | serves the first unfinished device and no other: its cursor advances or it is finished, and it is marked finished exactly at the end of its disk; says no more exactly when all were finished; reports the percentage of completed sectors |
| BlockMigration.BlkMig.ReportProgress | qemu-kvm/block-migration.c:319-354 | what is reported is the percentage of completed sectors, 100 once every sector is completed, and it goes on the stream only when it has changed |
| BlockMigration.BlkMig.WaitOutRead | qemu-kvm/block-migration.c:375-377 | after waiting, no read of the chunk is in flight |
| BlockMigration.BlkMig.SaveDeviceDirtyAsync | qemu-kvm/block-migration.c:365-430 | every chunk the cursor passes was clean at some moment of the call; the last step is the request of the dirty chunk at the cursor, or the cursor is at the end and nothing was requested |
| BlockMigration.BlkMig.SaveDirtyBlockAsync | qemu-kvm/block-migration.c:432-445 | requests the next dirty chunk of the first device that has one, the devices before it being at their end, or all are; whatever is behind a cursor has been seen clean |
| BlockMigration.BlkMig.SendHead | qemu-kvm/block-migration.c:87-101 | the block put on the wire is the head of the queue, with its header, name and buffer |
| BlockMigration.BlkMig.FlushBlks | qemu-kvm/block-migration.c:447-477 | moves blocks from the queue to the stream in order until it is empty, the rate limit is reached, or a failed read is met |
| BlockMigration.BlkMig.RequestUpTo | qemu-kvm/block-migration.c:591-606 | the rate loop ends exactly when the limit is reached or there is nothing to ask for, that is, the bulk phase is over and every chunk of every device was clean at some moment of the call; it overshoots by at most one block |
| BlockMigration.BlkMig.QuietIsClean | qemu-kvm/block-migration.c:591-606 | if nothing happened meanwhile, nothing to ask for means that no chunk is dirty |
| BlockMigration.BlkMig.SaveIterate | qemu-kvm/block-migration.c:573-619 | keeps the sender valid; the blocks outstanding or sent in the call are enough to reach the limit, or every chunk of every device was clean at some moment of the call; a return of 1 means that the bulk phase is over; the section ends with its end mark; it fails only on a queued block whose read has failed |
| BlockMigration.BlkMig.SaveDeviceDirtySync | qemu-kvm/block-migration.c:395-417 | sends one dirty chunk, or meets a failing read and reports it, or reaches the end; never leaves a dirty chunk behind the cursor |
| BlockMigration.BlkMig.SendRemaining | qemu-kvm/block-migration.c:636-640 | the final loop ends; it has sent a copy of every chunk that was dirty and of no other, no dirty chunk is left, and an error is recorded exactly if a read failed |
| BlockMigration.BlkMig.SaveComplete | qemu-kvm/block-migration.c:621-660 | on success the destination converges if and only if neither the discarded blocks nor the sectors beyond the bulk cursor hold anything it lacks; after the bulk phase, with a flush that was not cut short, it converges; the flush was cut short exactly if blocks were left, and a copy of every dirty chunk follows what it sent; with no failed block queued and no read failing it succeeds |
| BlockMigration.Transfer | qemu-kvm/block-migration.c:621-737 | completion succeeds if no queued block failed and no read fails; the destination then loads the stream, section by section, without an error, and has exactly the source's disks if and only if completion lost nothing that it lacks, in particular after the bulk phase with a flush that was not cut short |
| CopyOnRead.OverlapRounded | qemu-kvm/block.c:1632-1661 | testing the rounded range of a request against the recorded range of another is the same as testing both rounded ranges |
| CopyOnRead.StepKeepsExclusion | qemu-kvm/block.c:1663-1697 | every step keeps the rounded ranges of a tracked copy-on-read request and of any other tracked request apart |
| CopyOnRead.StepKeepsBounce | qemu-kvm/block.c:2153-2217 | every step keeps the bounce buffer equal to what the guest sees of the clusters |
| CopyOnRead.StepKeepsInv | qemu-kvm/block.c:2222-2279 | every step of every request keeps exclusion, the in-flight count and the bounce buffers right |
| CopyOnRead.CopyOnReadInvisible | qemu-kvm/block.c:2153-2279 | over every interleaving of reads and writes, the visible disk is the one that the guest's writes alone produce |
| CopyOnRead.TrackedExclusion | qemu-kvm/block.c:1602-1697 | two tracked requests, one of them copy-on-read, never share a cluster, and copy_on_read_in_flight is the number of copy-on-read requests |
| CopyOnRead.CopyReadAtomic | qemu-kvm/block.c:2153-2217 | a copy-on-read request that ends well has populated its clusters and returns what the guest sees at that moment |
| CopyOnRead.FinishOne | qemu-kvm/block.c:2153-2279 | a tracked request can always run to its successful end by steps of its own: it reads or writes all its sectors, and a copying one populates all its clusters |
| CopyOnRead.WaitsForTracked | qemu-kvm/block.c:1663-1697 | a waiting request waits for a tracked one, which can run to its successful end by steps of its own |
| CopyOnRead.CanFinish | qemu-kvm/block.c:1602-1697 | no deadlock: from any state that a run reaches, all requests can be brought to their successful end without new ones entering |
| RamStream.HeaderFlags | qemu-kvm/arch_init.c:264-274 | a header decodes to exactly the flags, the offset and the total that were put into it |
| RamStream.Decoded | qemu-kvm/arch_init.c:666-694 | what the receiver finds where a message was put: header, name and contents, for every kind of message |
| RamStream.Receiver.CheckBlocks | qemu-kvm/arch_init.c:711-745 | accepts the announced block list, of any length, if all blocks are known with their lengths, and has then read exactly the list |
| RamStream.Receiver.HostBlock | qemu-kvm/arch_init.c:666-694 | a continued page belongs to the remembered block, any other to the named one, which is then remembered |
| RamStream.Receiver.LoadOne | qemu-kvm/arch_init.c:696-804 | one turn of the loop applies the message that is on the stream |
| RamStream.Receiver.RamLoad | qemu-kvm/arch_init.c:696-804 | loads the messages of a section up to its end mark, and refuses other versions |
| RamMigration.IsDupPage | qemu-kvm/arch_init.c:163-176 | true exactly for pages of one byte value |
| RamMigration.AfterPlace | qemu-kvm/arch_init.c:395-402 | going to the next page visits the places of all pages in turn and then starts again |
| RamMigration.RoundNoRepeats | qemu-kvm/arch_init.c:342-406 | one round of the scan meets no page twice |
| RamMigration.RoundCovers | qemu-kvm/arch_init.c:342-406 | one round of the scan leaves no page out |
| RamMigration.SendKeepsFresh | qemu-kvm/arch_init.c:359-386 | clearing the dirty bit before reading the page keeps: every page is dirty, logged, or right at the destination |
| RamMigration.RamSender.PutPage | qemu-kvm/arch_init.c:363-386 | whatever the guest writes meanwhile, the bytes sent are the page unless it has been marked or logged again |
| RamMigration.RamSender.SavePage | qemu-kvm/arch_init.c:353-392 | the page goes out with a header that the receiver reads as meant, continued exactly if the receiver remembers the block |
| RamMigration.RamSender.Scan | qemu-kvm/arch_init.c:352-402 | finds a dirty page if and only if there is one; the pages looked at are exactly those from the cursor on, going round, up to the first dirty one, no page twice |
| RamMigration.RamSender.RamSaveBlock | qemu-kvm/arch_init.c:342-406 | returns -1 exactly when no page is dirty, after one whole round; otherwise sends the first dirty page from the cursor on, going round, and leaves the cursor there; keeps the receiver's remembered block equal to last_block |
| RamMigration.RamSender.RamSaveSetup | qemu-kvm/arch_init.c:486-532 | marks every page and announces the blocks, which establishes the invariant |
| RamMigration.RamSender.RamSaveIterate | qemu-kvm/arch_init.c:534-599 | any number of turns keeps the invariant and puts one section on the stream |
| RamMigration.RamSender.RamSaveComplete | qemu-kvm/arch_init.c:601-623 | with the guest stopped it ends, with no page dirty or logged, and what has been sent makes up the whole RAM |
| RamMigration.Incoming | qemu-kvm/arch_init.c:696-804 | loading the sections one after the other applies all messages |
| RamMigration.Transfer | qemu-kvm/arch_init.c:601-804 | once the sender has completed, loading its stream gives the destination exactly the source's RAM |
| Multiwrite.JoinBytes | qemu-kvm/block.c:3354-3378 | a merged request writes the first one's bytes up to the second and then all of the second's |
| Multiwrite.MergeKeeps | qemu-kvm/block.c:3332-3386 | where no byte is lost, the merged requests write what the sorted requests write in order, whether or not the vector limit was met |
| Multiwrite.MergeLoses | qemu-kvm/block.c:3332-3386 | if the vector limit never keeps apart a request and the one before it that it touches, a lost byte is not written at all |
| Multiwrite.MergeExact | qemu-kvm/block.c:3332-3386 | if the vector limit never keeps apart two that touch, merging means the same for every disk if and only if no byte is covered by a request, followed by one that ends at or before it, and not covered again |
| Multiwrite.EndsInOrder | qemu-kvm/block.c:3332-3386 | nothing is lost when no request ends before one that starts earlier |
| Multiwrite.ContainedRequestLosesTail | qemu-kvm/block.c:3360-3376 | two requests for sector 0, of two sectors and of one, leave the second sector unwritten |
| Multiwrite.MergeSeparates | qemu-kvm/block.c:3345-3353 | if the vector limit never keeps apart two that touch, merged requests neither touch nor overlap |
| Multiwrite.SeparatedExact | qemu-kvm/block.c:3345-3353 | and only then: merged requests neither touch nor overlap if and only if the vector limit, met on the way through the sorted requests, never kept apart two that touch |
| Multiwrite.ShortIsNeverLimited | qemu-kvm/block.c:3345-3353 | requests whose segments together stay within the limit never meet it |
| Multiwrite.AnyOrder | qemu-kvm/block.c:3434-3439 | requests that do not overlap leave the same disk in whatever order they complete |
| Multiwrite.SortRequests | qemu-kvm/block.c:3311-3338 | some order by start sector of the same requests |
| Multiwrite.MultiwriteMerge | qemu-kvm/block.c:3332-3386 | the array holds the merged requests in front; callback and error fields are those of the sorted requests |
| Multiwrite.MultiwriteCB.RequestDone | qemu-kvm/block.c:3294-3309 | no callback runs before the last merged request is done; then every one runs once, with the first error |
| Multiwrite.AioMultiwrite | qemu-kvm/block.c:3402-3442 | the writes issued are the merged list of some order by start sector; they neither touch nor overlap if and only if the vector limit never kept apart two that touch, and then they leave, in whatever order they complete, what the sorted requests leave one after the other if and only if nothing is lost; every callback is recorded |
| ImageChain.DropSector | qemu-kvm/block.c:1798-1871 | what one sector reads as before and after images with nothing allocated are dropped |
| ImageChain.DropExact | qemu-kvm/block.c:1798-1871 | dropping images with nothing allocated keeps the visible disk if and only if every sector one of them cut off reads as zeroes from below |
| ImageChain.LongEnough | qemu-kvm/block.c:1798-1871 | that is the case when no dropped image is shorter than the base |
| ImageChain.ShortImageHides | qemu-kvm/block.c:2692-2698 | a short image without allocations hides what is below its end |
| ImageChain.WriteBelow | qemu-kvm/block.c:1531-1547 | writing to the image below what the chain shows, or where the overlay holds the sector, is invisible through the overlay |
| ImageChain.EmptyTop | qemu-kvm/block.c:1549-1552 | an overlay that has been copied down may drop any of its sectors unseen |
| BlockGraph.IsAllocated | qemu-kvm/block.c:2692-2713 | the allocation of the sector and of all sectors of the reported run; 0 past the end |
| BlockGraph.IsAllocatedAbove | qemu-kvm/block.c:2763-2798 | 1 only if an image above base holds the sector, 0 only if none does, with a run of which the same is true; the run is empty exactly when an image ends before the sector; an error exactly if a driver's query fails |
| BlockGraph.CommitChunk | qemu-kvm/block.c:1531-1547 | one turn of the loop, whether or not the query of the allocation state fails, changes nothing the guest sees, even if it fails half way; on success the backing image shows what the overlay shows |
| BlockGraph.CopyDown | qemu-kvm/block.c:1531-1547 | on success the backing image shows the overlay's contents over its whole length; if no driver call fails it succeeds exactly if that is long enough |
| BlockGraph.Commit | qemu-kvm/block.c:1502-1572 | on every exit the visible disk is unchanged; on success the backing image equals the overlay; the error returns and their order; if no driver call fails it succeeds exactly if the media are open and not in use and the backing image is long enough for what the overlay holds |
| BlockGraph.FindOverlay | qemu-kvm/block.c:1739-1764 | the image whose backing image is bs, or none exactly if bs is not below the active image |
| BlockGraph.DropIntermediate | qemu-kvm/block.c:1798-1871 | the return value: -EIO unless both media are open and base is top or below it, 0 if base is top, and otherwise the driver's answer; on success exactly the images from top down to above base are gone from the chain; on failure nothing has changed |
| BlockGraph.DropKeepsDisk | qemu-kvm/block.c:1798-1871 | after nothing was reported allocated above base for any sector, dropping keeps the visible disk if and only if nothing is uncovered |
| BlockGraph.Swap | qemu-kvm/block.c:1269-1303 | the images change places and the device's fields stay |
| BlockGraph.Append | qemu-kvm/block.c:1316-1328 | the new image is on top of the unchanged old chain, and the device's fields stay |
| BlockGraph.AppendEmpty | qemu-kvm/block.c:1316-1328 | an empty image on top keeps the visible disk if and only if it cuts nothing off |
| ByteIo.SectorSplice | qemu-kvm/block.c:2094-2100 | reading a sector, changing a part and writing it back changes exactly that part |
| ByteIo.Device.Pread | qemu-kvm/block.c:2035-2078 | for every range inside a device of whole sectors, succeeds exactly if no driver call fails; on success the buffer holds the bytes of the range, and nothing behind it changes |
| ByteIo.Device.Pwrite | qemu-kvm/block.c:2080-2127 | for every range inside a device of whole sectors, succeeds exactly if no driver call fails; on success exactly the bytes of the range have the new values, on failure no byte outside it has changed |
| ByteIo.WriteThenRead | qemu-kvm/block.c:2035-2127 | a write followed by a read of the range returns the bytes written |
| Bits.Ffsl | qemu-kvm/bitops.h:31-61 | the number of the lowest set bit |
| Bits.Flsl | qemu-kvm/bitops.h:69-99 | the number of the highest set bit |
| Bits.Ffz | qemu-kvm/bitops.h:107-110 | the number of the lowest clear bit |
| Bitmap.FindNextBit | qemu-kvm/bitops.c:21-64 | the least set bit at or after offset, or size if there is none, for every offset and partial last word |
| Bitmap.FindNextZeroBit | qemu-kvm/bitops.c:70-113 | the least clear bit at or after offset, or size if there is none |
| Bitmap.FindLastBit | qemu-kvm/bitops.c:115-142 | the greatest set bit, or size if there is none |
| Bitmap.BitmapSet | qemu-kvm/bitmap.c:160-178 | sets exactly the bits of the range across first, full and last words |
| Bitmap.BitmapClear | qemu-kvm/bitmap.c:180-198 | clears exactly the bits of the range |
| Bitmap.FindNextZeroArea | qemu-kvm/bitmap.c:214-237 | ends, with the least aligned index at or after start whose whole area is clear, or above size exactly when there is none, for a mask one below a power of two |
| Bitmap.AlignMaskRounds | qemu-kvm/bitmap.c:200 | adding and clearing a mask one below a power of two rounds up to its multiples |
| DirtyBitmap.ChunksVisited | qemu-kvm/block.c:1995-2021 | for at least one sector the chunks visited are exactly those of the sectors |
| DirtyBitmap.EmptyRequestVisits | qemu-kvm/block.c:1995-2021 | a request for no sectors visits the chunk it starts in unless it starts at a chunk boundary other than 0 |
| DirtyBitmap.MembersUpdate | qemu-kvm/block.c:2003-2018 | changing one bit of one word adds or removes one chunk, and the count follows |
| DirtyBitmap.Tracker.SetDirtyBitmap | qemu-kvm/block.c:1995-2021 | after any sequence of calls the words stand for exactly the dirty chunks and dirty_count is their number |
| DirtyBitmap.Tracker.GetDirty | qemu-kvm/block.c:4202-4213 | whether the chunk of the sector is dirty |
| AesField.InvMixLinear | qemu-kvm/aes.c:862-876 | InvMixColumns is linear |
| AesField.InvMixMix | qemu-kvm/aes.c:46-58 | InvMixColumns undoes MixColumns, for every column |
| AesField.MixInvMix | qemu-kvm/aes.c:46-58 | and MixColumns undoes InvMixColumns |
| AesCipher.InvRoundsUndo | qemu-kvm/aes.c:1076-1261 | by induction, n rounds of the inverse cipher undo n rounds of the cipher |
| AesCipher.InvCipherInverse | qemu-kvm/aes.c:885-1261 | the inverse cipher undoes the cipher under every schedule |
| AesCipher.InvertsBack | qemu-kvm/aes.c:46-58 | a byte table that undoes the other is undone by it: both are permutations of the bytes |
| AesCipher.CipherInverse | qemu-kvm/aes.c:885-1261 | the cipher undoes the inverse cipher under every schedule |
| AesCipher.EqInvCipherSame | qemu-kvm/aes.c:1076-1261 | under the transformed schedule the equivalent inverse cipher is the inverse cipher, for every block |
| Aes.TableRounds | qemu-kvm/aes.c:46-58 | the tables fold SubBytes, ShiftRows and MixColumns, and their inverses, into one look-up |
| Aes.EncryptBlock | qemu-kvm/aes.c:968-1070 | the two-round loop computes the cipher of FIPS 197 |
| Aes.Encrypt | qemu-kvm/aes.c:885-1070 | out gets the cipher of in, which may overlap it; nothing else changes |
| Aes.DecryptBlock | qemu-kvm/aes.c:1159-1261 | the two-round loop computes the equivalent inverse cipher of FIPS 197 |
| Aes.Decrypt | qemu-kvm/aes.c:1076-1261 | out gets the equivalent inverse cipher of in; nothing else changes |
| AesKeySchedule.RconPowers | qemu-kvm/aes.c:722-726 | the table of round constants holds the powers of x |
| AesKeySchedule.Expand128 | qemu-kvm/aes.c:757-773 | the loop computes the key expansion of FIPS 197 for 4 words |
| AesKeySchedule.Expand192 | qemu-kvm/aes.c:776-795 | the loop computes the key expansion of FIPS 197 for 6 words |
| AesKeySchedule.Expand256 | qemu-kvm/aes.c:798-824 | the loop computes the key expansion of FIPS 197 for 8 words |
| AesKeySchedule.SetEncryptKey | qemu-kvm/aes.c:731-827 | -1 for a missing argument, -2 for another key size, with nothing changed; otherwise the key expansion and 10, 12 or 14 rounds |
| AesKeySchedule.ReverseRoundKeys | qemu-kvm/aes.c:848-854 | swapping in place reverses the order of the round keys |
| AesKeySchedule.TableInvMixIs | qemu-kvm/aes.c:857-876 | looking up through both tables is InvMixColumns |
| AesKeySchedule.SetDecryptKey | qemu-kvm/aes.c:832-878 | the schedule is the reversed, transformed one of section 5.3.5 of FIPS 197 |
| AesKeySchedule.DecryptUndoesEncrypt | qemu-kvm/aes.c:832-1261 | for every key size, key and block, decrypting undoes encrypting; and on every block decrypting is the inverse cipher |
| AesKeySchedule.EncryptUndoesDecrypt | qemu-kvm/aes.c:832-1261 | for every key size, key and block, encrypting undoes decrypting |
| CbcMode.CbcRoundTrip | qemu-kvm/aes.c:1265-1314 | decrypting returns the data, for every length |
| CbcMode.CbcIvs | qemu-kvm/aes.c:1265-1314 | both directions leave the same chaining value after whole blocks, and what decrypting leaves after a partial one |
| CbcMode.CbcEncSplits | qemu-kvm/aes.c:1277-1285 | encrypting in two calls, split at a block boundary, is encrypting in one |
| CbcMode.CbcDecSplits | qemu-kvm/aes.c:1297-1306 | decrypting in two calls, split at a block boundary, is decrypting in one |
| Cbc.CbcEncrypt | qemu-kvm/aes.c:1276-1295 | from one buffer to another, in place, or between parts of one buffer: the output is the chained cipher text in whole blocks, and ivec the last of them, unless the output begins inside an input of more than one block; the rest of the buffer stays; within one buffer the result is in every case that of encrypting block by block |
| Cbc.CbcDecrypt | qemu-kvm/aes.c:1296-1314 | likewise the output is the chained plain text of the given length |
| Cbc.CbcReturnsData | qemu-kvm/aes.c:1265-1314 | under the two schedules of one user key and the same initial value, decrypting what was encrypted returns the data |
| Cbc.OverlapExact | qemu-kvm/aes.c:1276-1294 | under the schedule of a user key, encrypting within a buffer is right for whatever the buffer holds if and only if the output does not begin inside the input or the input is a single block |
| Cbc.DecryptOverlapExact | qemu-kvm/aes.c:1295-1313 | the same for decrypting under the schedule of a user key, output and chaining value together |
| CbcBuffers.EncClobbers | qemu-kvm/aes.c:1277-1285 | an output that begins inside the input is wrong whenever the first block written differs, in its first byte that overwrites unread input, from what was there |
| CbcBuffers.EncExact | qemu-kvm/aes.c:1276-1294 | for any injective block function, encrypting within a buffer is right for every content if and only if the output does not begin inside the input or the input is a single block |
| CbcBuffers.DecExact | qemu-kvm/aes.c:1295-1313 | the same for decrypting, output and chaining value together |
| BufferedFile.Buffered.Append | qemu-kvm/buffered_file.c:49-71 | the buffer grows if need be and holds its old contents followed by the new bytes |
| BufferedFile.Buffered.Flush | qemu-kvm/buffered_file.c:73-110 | delivers from the front of the buffer what the backend takes of it, until it is empty, the backend is not ready (output frozen) or it fails (error recorded) |
| BufferedFile.Buffered.PutBuffer | qemu-kvm/buffered_file.c:112-171 | the whole new state and the return value, for any replies of the backend; what is delivered followed by what is buffered is what was put, unless a put has failed on new bytes or let them overtake older ones |
| BufferedFile.Buffered.RateTick | qemu-kvm/buffered_file.c:243-263 | a new period flushes and keeps the bytes and their order; nothing happens while the output is frozen |
| BufferedFile.Buffered.Close | qemu-kvm/buffered_file.c:173-194 | ends, and without an error everything that was put has been delivered, in order, unless an earlier put broke the stream |
| BufferedFile.FlushConserves | qemu-kvm/buffered_file.c:86-109 | a flush neither loses nor reorders bytes |
| BufferedFile.PutExact | qemu-kvm/buffered_file.c:112-171 | a put keeps the bytes and their order if and only if, by the replies to come, the backend neither fails on the new bytes nor takes them after failing on older ones (bytes told apart) |
| BufferedFile.RunExact | qemu-kvm/buffered_file.c:112-263 | over any run of puts and ticks, what is delivered followed by what is buffered is what was put if and only if no put of the run does either |
| BufferedFile.RunNeverSilent | qemu-kvm/buffered_file.c:112-263 | if the backend never replies 0, a run that ends without an error recorded has kept every byte in order |
| BufferedFile.KeptBack | qemu-kvm/buffered_file.c:129-160 | bytes are held back after a put only while the output is frozen or the rate limit exceeded, or because the backend failed |
| BufferedFile.ZeroReturnReorders | qemu-kvm/buffered_file.c:95-149 | two puts against a backend that replies not ready, 0 and 1: the second byte is delivered before the first, and no error is recorded |
| BottomHalves.StepKeeps | qemu-kvm/async.c:44-121 | every step, of a callback or of a poll, keeps every activation at a listed node and what it owes ahead of it |
| BottomHalves.NoDanglingWalker | qemu-kvm/async.c:55-92 | no activation of qemu_bh_poll ever stands at, or goes on to, a freed node |
| BottomHalves.PollProceeds | qemu-kvm/async.c:55-92 | an activation can always go on |
| BottomHalves.OutermostSweeps | qemu-kvm/async.c:75-89 | the end of the outermost poll frees exactly the nodes that were deleted; every other node stays as it was, and in its place in the order |
| BottomHalves.SchedulingsConserved | qemu-kvm/async.c:94-121 | every scheduling, also of a node already deleted, is answered by one call, dropped by cancelling, deleting or freeing, or still pending |
| BottomHalves.PollMissesNothing | qemu-kvm/async.c:55-74 | when a poll ends, whatever was scheduled when it began has been called, cancelled or deleted |
| BottomHalfList.Context.New | qemu-kvm/async.c:44-53 | the new node is linked in front of the unchanged list |
| BottomHalfList.Context.Poll | qemu-kvm/async.c:55-92 | whatever the callbacks do, nested polls included, the walk stays on linked nodes; every call that was pending has been made, or dropped by cancelling or deleting; an inner poll only lets the list grow in front; the outermost one unlinks exactly the deleted nodes |
| BottomHalfList.Context.Sweep | qemu-kvm/async.c:77-89 | rewriting the links in place leaves the nodes that are not deleted, in order |
| AioHandlers.StepKeeps | qemu-kvm/aio.c:43-98 | every step keeps every walk at a listed node and one live handler per descriptor |
| AioHandlers.NoDanglingWalk | qemu-kvm/aio.c:105-194 | no walk ever stands at a freed node, and it can always go on |
| AioHandlers.OneHandlerPerFd | qemu-kvm/aio.c:43-98 | a descriptor has at most one live handler, the one that find_aio_handler returns |

## Left out

- XBZRLE compression of RAM pages; the models of RAM migration have it switched off.
- I/O throttling, the bandwidth estimates and `is_stage2_completed`: their outcomes are unconstrained choices.
- The numbers in the AES tables: the tables are defined by the formulas at qemu-kvm/aes.c:46-58 over any substitution box that its inverse box undoes; the unrolled variants, which are not compiled, are not modelled.
- `bdrv_write_compressed` and discard, which do not take part in request tracking.
- Opening, probing and creating images, snapshots, monitor commands and option parsing.
- Coroutine backends: a coroutine is a sequence of atomic sections.
- Allocation sizes, pointer casts and overflow of machine words, except where a 64-bit word is put on or read from a stream.
- The order that `sort_ram_list` gives: RAM migration is modelled for any order of the blocks.
- The headers that `savevm` puts between the sections of different handlers.
- BlockMigration.BlkMig.SaveDeviceDirtySync: a failing synchronous read uses up one of finitely many faults; with a read that fails for ever the loop in the source does not end.
- BlockMigration.BlkMig.SendRemaining: likewise.
- BlockStream.Receiver.BlockLoad: the stream is a sequence of whole messages; one that ends inside a message is not modelled byte by byte.
- Multiwrite.AioMultiwrite: where the limit on the vectors keeps overlapping requests apart, they are issued side by side, and what they leave depends on the order in which they complete.
- BufferedFile.Buffered.Close: the backend's replies are a finite sequence, after which it takes everything; with one that is never ready again the loop in the source does not end.
- RamStream.Receiver.RamLoad: a stream that ends inside a message is an error, but what the zeroes that the file layer then supplies would do to the RAM is not modelled.
- AioHandlers.StepKeeps: the linked list is a value, a list of node names, because arbitrary callbacks run in the middle of the walks; `select` and the descriptor sets are unconstrained choices.
- BottomHalfList.Context.Poll: callbacks nest to any depth, but to one that is fixed when the outermost poll begins.
- AesKeySchedule.SetEncryptKey: the user key is taken to be disjoint from the schedule.
- The idle flag of bottom halves, which only decides what `qemu_bh_poll` returns and how long the main loop sleeps.
- The notification of the client by `put_ready` in the output buffer.
- BlockGraph.Commit: queries of the allocation state report runs of at least one sector, inside the image; with an empty run the loop in the source does not end.
- `bdrv_rebind`, and the coroutine wrappers around the block layer's entry points.
- `bitmap_and`, `bitmap_or` and the other `slow_bitmap_*` loops, which combine two bitmaps word by word.
