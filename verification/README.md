# Formal model of the LogDrive block store and its tools

A LogDrive disk is an append-only log: each write of a block appends a zero-trimmed copy behind a 32-byte
header, the headers of one block form a linked list, newest first, and an in-memory index table holds the
heads. A read-only session at a restore point walks the lists to show the disk as it was then. These files
model that store as it is implemented in C, the Java tools that read the same images, the live-migration
handshake, and the small text formats around them, and prove what each of them is for.

`dafny verify dfyconfig.toml` checks the project. Main results:

* **A flat disk.** From any image on, any run of writes, reads and reopens reads what a plain sector array
  reads that starts as the image shows it, at any alignment, up to the first read that a stale window serves; which
  read that is, if any, is computed from the commands (`Sessions.Run`, with `Commands.RunStale`;
  `Lifetime.FromMkimage` from a new image).
* **Restore points.** A session at restore point t reads the array with exactly the writes stamped before t
  (`Sessions.TravelRun`, in nanoseconds), for all data if and only if the stamps are in order (`TimeTravel.TravelsExactly`).
* **Crashes.** A crash during any write of a session, whatever it leaves of that write, leaves an image that opens
  and shows every block as before or as after this very session; a session that never gets to pd_finalize is lost as
  a whole and nothing else is (`Sessions.Run`, `Sessions.Interrupted`). So any number of runs and crashes can follow
  each other (`Lifetime.Lives`).
* **Export.** The Java converter emits every record of every block exactly once, exactly if it gets the driver's index
  table (`Export.ExportAll`, `Export.ExportIsComplete`), and its newest records are the blocks the driver reads
  (`Database.SameAsDriver`).
* **Migration.** Over two processes and two streams that may break at any point, exactly when at most one copy
  of the guest runs and no name is held on both hosts (`Migration.AtMostOneRunning`,
  `Migration.AtMostOneName`); and where nothing breaks the migration succeeds (`MigrationRuns.FaultlessSucceeds`), or
  gives the guest back if the receiver cannot start it (`MigrationRuns.UnpauseFails`).
* **Text formats.** CPU bitmaps, disk specifications and virtual disk names against their parsers, each with
  the exact condition under which the text is read back.

## Layers

| files | what they model |
|---|---|
| `Bytes`, `Bits`, `Widths`, `Rounding`, `Wrappers`, `Numbers` | bytes, bit arrays, widths of integers, mask rounding, decimal numbers |
| `Flat`, `Versions`, `TimeTravel`, `Clock`, `Requests` | the flat disk, the list of block versions, restore points and their stamps, the sector arithmetic of requests |
| `Windows`, `Traces` | buffer and read window without the bytes: which reads of a run are stale |
| `Files`, `Trim`, `Log`, `Image`, `Crash`, `Finalize` | the bytes: files and torn writes, trimming, records and chains, images, torn images |
| `BufferedIo`, `Store`, `RecordIo`, `Disk` | `utils.c` and `preservation.c` as classes over a file, with the invariants of an open store |
| `Commands`, `Sessions`, `Lifetime`, `StaleWindow` | whole runs, crashes between them, and the one way in which a read goes wrong |
| `JavaBytes`, `Reader`, `Database`, `Export`, `LostTable` | the Java tools |
| `Migration`, `MigrationRuns` | `migrate_domain` and `migrate_receive`, and the runs in which nothing or one thing fails |
| `CpuMap`, `CpuPin`, `DiskSpec`, `DiskText`, `VirtDisk`, `DevNumbers` | the text formats |

The mutable parts of the C and Java code are classes and arrays here: file, write buffer, read window, index
table, cache flags and sizes, header, request buffers, and the text buffer that the disk parser cuts up. Ghost
fields (`log`, `store`) hold what the bytes mean, `steps` lists the writes of a file, and `State()` and `Traced()`
say how a buffer and a session stand.

## Where the code does not do what is intended

* `bio_flush` (utils.c:104-118) keeps the read window. A window filled up to the end of the flushed log is
  still hit after the next flush and gives bytes that are not those of the log. Which runs have such a read is computed
  exactly: `Commands.RunStale` follows the commands through the trace of the session, every method down to
  `BufferedIo.BufferedIo.Read` states its new trace, and up to the first stale read all answers are right. No read is
  stale as long as no session writes more than the write buffer holds, or with the parameter `clears`, which stands
  for a flush that also clears `read_buffer_enable` (`Commands.NeverStale`). What a stale read of a block returns when
  its header lies in memory that was never filled is `StaleWindow.MisreadRun`; `StaleWindow.Misread` is such a run
  of 259 whole-block commands on a new disk.
* A restore point shows whole versions. If two requests that touch a block are stamped against their order, the
  version of the later one, stamped earlier, carries the data of the one before it: `TimeTravel.TravelsExactly`
  says exactly when a restore point shows the disk as it was, and `TimeTravel.SwappedStamps` is an input for which it
  does not.
* The Java reader counts the bytes of the index table in an int. On disks of 2^28 blocks or more it gets only part
  of the table, or nothing of it (`Database.OpenedExactly`), and overlooks written blocks (`LostTable.Overlooked`).
* `libxl_domain_destroy` (libxl.c:753-762) and `libxl_domain_resume` return 0 whether or not they worked, while
  the receiver takes 0 for gone (xl_cmdimpl.c:2813-2827). Migration safety holds if and only if that is so, or
  a failed unpause leaves the guest stopped, or the sender never gets to say "go".
* A `:cdrom` specification is always read-only and ends the parse: xl_cmdimpl.c:582 overwrites the character
  that line 591 tests, so the mode behind it is never looked at.
* A disk specification with an empty device name is an error, but not at the very end of the text.
* `xvd`, `hd` and `sd` without a letter are accepted and decode to index -1; the partition is read with
  strtoul, so signs, white space and numbers that wrap around in a long are accepted too
  (libxl_device.c:171-201).
* `vcpu-pin` does not return for a range that ends at CPU 4294967295, because the 32-bit counter never exceeds it
  (`CpuPin.RangeExactly`), and it refuses the two texts "none" and "any cpu" that the printer prints for empty and
  full bitmaps.
* `getRecord` with a position beyond the end of a chain returns the oldest record.

## What a caller must provide

Blocks are at most 4096 bytes and a multiple of 512 (the stack buffers at preservation.c:419 and 447), the disk
is a whole number of blocks, requests lie inside the disk, requests that are not whole blocks touch no more
blocks than the stack buffer of pd_read holds, clock readings are not negative, and the log stays below 2^63
bytes. The clock of pd_write and the padding bytes of the headers that each request writes are parameters.

## Model

| member | source | states |
|---|---|---|
| Lifetime.FromMkimage | setup/xen-with-blktap/src/tools/blktap2/drivers/preservation.c:122-180 | From a new `mkimage.rb` image on, any sequence of writes, reads and reopens returns what a flat array of zeros returns, up to the first read that `RunStale` says is served by a stale window. If there is none, a later session at restore point t reads, for every request, the flat array with exactly the writes stamped before t (if their stamps are in order), and every session is safe: a crash during one of its writes leaves every block as before or as after this session, and between two sessions the file shows just the disk in between. |
| Sessions.Run | setup/xen-with-blktap/src/tools/blktap2/drivers/preservation.c:122-180 | The same from any image, whatever its history: the flat array starts as the image shows it. Whether a read is stale is exactly what `RunStale` computes from the commands and the lengths of image and log; without one the image left behind has the history extended by all writes; with one, too, every crash leaves an image that opens. |
| Sessions.TravelRun | setup/xen-with-blktap/src/tools/blktap2/drivers/preservation.c:310-351 | A read-only session: every read, in any order and however often repeated, returns the disk as of the restore point t, and the file is never changed. With regular stamps every byte is the one that the versions stamped in less nanoseconds than t have left at its place. |
| Clock.EarlierIsLess | setup/xen-with-blktap/src/tools/blktap2/drivers/preservation.c:326 | For seconds and nanoseconds as clock_gettime gives them, the comparison of the walk is that of the numbers of nanoseconds. |
| Clock.ReadsLastBefore | setup/xen-with-blktap/src/tools/blktap2/drivers/preservation.c:310-351 | A reader at t gets the last version of a block stamped in less nanoseconds than t, or zeros if there is none. |
| Clock.WholeSeconds | setup/xen-with-blktap/src/tools/blktap2/drivers/preservation.c:322-330 | A reader at second t sharp gets nothing that was stamped in second t or later, and all that was stamped in second t - 1 or before. |
| Clock.ShowsByteBefore | setup/xen-with-blktap/src/tools/blktap2/drivers/preservation.c:310-351 | Every byte of the disk as a reader at t sees it is that of the last version of its block stamped in less nanoseconds than t. |
| Clock.StampedBeforeIs | setup/xen-with-blktap/src/tools/blktap2/drivers/preservation.c:322-330 | The requests that a restore point admits are those stamped in less nanoseconds, in their order. |
| Sessions.Interrupted | setup/xen-with-blktap/src/tools/blktap2/drivers/preservation.c:122-180 | A run that is cut off before pd_finalize: the image shows exactly the flat disk as of the last reopen, and so does whatever a crash leaves of any write of the unfinished session; the sessions before it were safe. |
| Lifetime.Lives | setup/xen-with-blktap/src/tools/blktap2/drivers/preservation.c:122-180 | Any number of runs of one image, each ended by a crash during any write of its last session, or by none: each run reads what a flat disk reads that starts as the image shows it, up to its first stale read, and a run without one leads to a disk with every block as at its last reopen or as after its last command. |
| Lifetime.Crash | setup/xen-with-blktap/src/tools/blktap2/drivers/preservation.c:152-180 | Whatever a crash leaves of a write can be opened again, by a session whose log reaches no further than that of the run, and shows such a disk. |
| Sessions.RecoversShows | setup/xen-with-blktap/src/tools/blktap2/drivers/preservation.c:152-173 | If a crash during a write leaves every block at its saved or newest version, it leaves it as on the disk that the saved versions show or as on the one that all versions show. |
| Sessions.SessionEnds | setup/xen-with-blktap/src/tools/blktap2/drivers/preservation.c:152-173 | At the end of a session its writes are added to those of the sessions before, between their own two marks: every crash during one of them leaves every block as before or as after this session. |
| Commands.NeverStale | setup/xen-with-blktap/src/tools/blktap2/drivers/utils.c:67-118 | No read of a run is stale if no session writes more than the write buffer holds (a header and a whole block for each block a request touches), or if flushing clears the window. |
| Commands.TraceLaid | setup/xen-with-blktap/src/tools/blktap2/drivers/utils.c:67-118 | In such a run every record always lies wholly in the file or wholly in the buffer, and the window was filled since the last flush. |
| Commands.TraceHistory | setup/xen-with-blktap/src/tools/blktap2/drivers/preservation.c:445-519 | A run that is not stale has the history of all its writes, whatever the buffer did. |
| Lifetime.NewNeverStale | setup/xen-with-blktap/src/tools/blktap2/drivers/utils.c:67-118 | The same for runs from a new image. |
| Commands.RunAgrees | setup/xen-with-blktap/src/tools/blktap2/drivers/preservation.c:445-519 | Whatever history and flat disk a run starts from, if the newest versions are the disk, they still are after any commands. |
| Commands.HistoryOfWrites | setup/xen-with-blktap/src/tools/blktap2/drivers/preservation.c:445-519 | From an empty disk on, the history of a run is that of its write requests. |
| Sessions.TimeTravelShows | setup/xen-with-blktap/src/tools/blktap2/drivers/preservation.c:310-351 | With stamps in order at every block, what a reader at t sees is the replay of exactly the requests stamped before t, which `Clock.StampedBeforeIs` says in nanoseconds. |
| Commands.FlatStep | setup/xen-with-blktap/src/tools/blktap2/drivers/preservation.c:445-519 | How one more command changes the flat side: the disk, the expected outputs and the disks at the reopens. |
| Sessions.Execute | setup/xen-with-blktap/src/tools/blktap2/drivers/preservation.c:122-180 | One command keeps the refinement and moves the trace of the session exactly as `TraceOf` says, so that a read goes stale exactly when the trace is lost. |
| Sessions.ExecuteWrite | setup/xen-with-blktap/src/tools/blktap2/drivers/preservation.c:445-519 | A write request commits its versions to whatever history there is, unless a block it patches was read stale, which its trace says. |
| Sessions.ExecuteRead | setup/xen-with-blktap/src/tools/blktap2/drivers/preservation.c:383-442 | A read request returns the slice of the disk that the store shows, unless its trace is lost. |
| Sessions.ExecuteReopen | setup/xen-with-blktap/src/tools/blktap2/drivers/preservation.c:152-180 | pd_finalize and pd_initialize keep the history and where the log ends, and every write on the way can be recovered from. |
| Flat.ProductForms | setup/xen-with-blktap/src/tools/blktap2/drivers/preservation.c:97-103 | Block number, place in the block and byte offsets are quotient, remainder and products of the C code. |
| Versions.Newest | setup/xen-with-blktap/src/tools/blktap2/drivers/preservation.c:310-351 | The newest version of a block that a reader accepts: it is accepted, and no later one is. |
| Versions.Appended | setup/xen-with-blktap/src/tools/blktap2/drivers/preservation.c:310-351 | One more version changes what is read of its own block, if the reader accepts it, and nothing else. |
| Versions.PatchReads | setup/xen-with-blktap/src/tools/blktap2/drivers/preservation.c:499-514 | Leaving out an all-zero first write changes no read: every round of pd_write shows as a patch of its block and of no other. |
| Versions.LeftOutIff | setup/xen-with-blktap/src/tools/blktap2/drivers/preservation.c:499-504 | A round is left out exactly if its block is all zeros and no version has it. |
| Commands.RunStarts | setup/xen-with-blktap/src/tools/blktap2/drivers/preservation.c:499-504 | So a run never stores zeros for a block that has no record yet. |
| Versions.RoundIsStep | setup/xen-with-blktap/src/tools/blktap2/drivers/preservation.c:474-480 | The sector arithmetic of one round of pd_write cuts a request at the next block boundary. |
| Versions.CommitIsFlatWrite | setup/xen-with-blktap/src/tools/blktap2/drivers/preservation.c:461-516 | Request splitting: the versions that a request adds, block by block, together are one flat write of the whole request. |
| Versions.CommitExtends | setup/xen-with-blktap/src/tools/blktap2/drivers/preservation.c:456-516 | A request only adds versions, all with its own stamp. |
| Versions.HistoryIsReplay | setup/xen-with-blktap/src/tools/blktap2/drivers/preservation.c:445-519 | The newest versions of all blocks are the flat disk after all requests. |
| TimeTravel.TravelsBack | setup/xen-with-blktap/src/tools/blktap2/drivers/preservation.c:310-351 | With stamps in order, the newest version of a block stamped before t is that block of the flat disk with exactly the requests stamped before t. |
| TimeTravel.TravelsExactly | setup/xen-with-blktap/src/tools/blktap2/drivers/preservation.c:310-351 | And only then: a reader at t sees the block as the requests stamped before t have left it, for all data they may write, if and only if stamps and places are in order at that block. |
| TimeTravel.ReaderGets | setup/xen-with-blktap/src/tools/blktap2/drivers/preservation.c:310-351 | Whatever the stamps, a reader at t gets the block as it was after the last request that touches it and is stamped before t. |
| TimeTravel.ReplayedByte | setup/xen-with-blktap/src/tools/blktap2/drivers/preservation.c:310-351 | A byte of the replayed disk is that of the last accepted request that covers it. |
| TimeTravel.CommitTouches | setup/xen-with-blktap/src/tools/blktap2/drivers/preservation.c:461-516 | A request leaves blocks it does not touch alone, and its stamp on the newest version of those it does. |
| TimeTravel.OrderedIsInOrder | setup/xen-with-blktap/src/tools/blktap2/drivers/preservation.c:310-351 | If requests that touch a common block are stamped in their order, every restore point is in order there. |
| TimeTravel.ClockInOrder | setup/xen-with-blktap/src/tools/blktap2/drivers/preservation.c:310-351 | A clock that never runs backwards keeps every restore point in order at every block. |
| TimeTravel.SwappedPair | setup/xen-with-blktap/src/tools/blktap2/drivers/preservation.c:310-351 | The smallest disorder: two requests that touch a block, the first stamped after t and the second before, and a byte that only the first covers. |
| TimeTravel.SwappedStamps | setup/xen-with-blktap/src/tools/blktap2/drivers/preservation.c:310-351 | An input: on a disk of one block of two sectors a reader at 4 gets data that was stamped 5. |
| Traces.CommittedHistory | setup/xen-with-blktap/src/tools/blktap2/drivers/preservation.c:445-519 | A trace that is not lost has the history of the request, piece by piece. |
| Traces.SteppedIs | setup/xen-with-blktap/src/tools/blktap2/drivers/preservation.c:464-516 | One round of pd_write on the trace, in the sector arithmetic of the source. |
| Traces.RecordCalm | setup/xen-with-blktap/src/tools/blktap2/drivers/utils.c:82-118 | A record that lies wholly on one side of the flush boundary is never read stale through a window that was filled since the last flush. |
| Traces.WriteCalm | setup/xen-with-blktap/src/tools/blktap2/drivers/utils.c:67-80 | bio_write keeps that if the record fits into the buffer, or if flushing clears the window. |
| Traces.CommittedLaid | setup/xen-with-blktap/src/tools/blktap2/drivers/preservation.c:445-519 | A request that fits into the buffer, counted by touched blocks, is never lost and keeps every record on one side of the flush boundary. |
| Versions.StretchGrows | setup/xen-with-blktap/src/tools/blktap2/drivers/preservation.c:399-406 | Reading consecutive blocks one after the other reads one stretch of the disk. |
| Requests.LoopPiece | setup/xen-with-blktap/src/tools/blktap2/drivers/preservation.c:464-484 | The piece of one round of pd_write lies inside its block and is the next part of the request buffer. |
| Requests.LoopStep | setup/xen-with-blktap/src/tools/blktap2/drivers/preservation.c:464-516 | One round moves sector and remaining sectors by exactly that piece: the pieces partition the buffer in order. |
| Requests.LoopEnds | setup/xen-with-blktap/src/tools/blktap2/drivers/preservation.c:464-518 | When the loop of pd_write ends, the request has been committed as a whole. |
| Requests.AlignedBlocks | setup/xen-with-blktap/src/tools/blktap2/drivers/preservation.c:393-401 | A request in whole blocks covers exactly its blocks. |
| Requests.TouchStep | setup/xen-with-blktap/src/tools/blktap2/drivers/preservation.c:426-436 | One round of the unaligned read loop goes to the next block the request touches, and its block fits behind the others in the stack buffer. |
| Requests.TouchCovers | setup/xen-with-blktap/src/tools/blktap2/drivers/preservation.c:424-437 | The touched blocks cover the request, which starts at the sector offset that the final copy uses. |
| Requests.TwoBlocksFit | setup/xen-with-blktap/src/tools/blktap2/drivers/preservation.c:416-419 | Two blocks of any permitted size fit into the stack buffer of pd_read. |
| Requests.ServableIs | setup/xen-with-blktap/src/tools/blktap2/drivers/preservation.c:393-422 | Which requests pd_read can serve, by quotients and remainders: those inside the disk that are in whole blocks, or whose blocks from the first to the last sector take 8192 bytes at most. |
| Requests.StretchHolds | setup/xen-with-blktap/src/tools/blktap2/drivers/preservation.c:424-437 | The bytes copied out of the stack buffer are the requested sectors. |
| Rounding.MaskIsArithmetic | setup/xen-with-blktap/src/tools/blktap2/drivers/utils.c:32-38 | For every power-of-two unit, masking down gives the greatest multiple not above n; masking up gives the least multiple not below n exactly while n + unit - 1 fits in 64 bits, and 0 when it does not. |
| Rounding.RoundUp512 | setup/xen-with-blktap/src/tools/blktap2/drivers/utils.c:36-38 | round_up with the sector size is the least multiple of 512 not below n. |
| Rounding.RoundDown512 | setup/xen-with-blktap/src/tools/blktap2/drivers/utils.c:32-34 | round_down with the sector size is the greatest multiple of 512 not above n. |
| Trim.TrimIsLeast | setup/xen-with-blktap/src/tools/blktap2/drivers/preservation.c:185-203 | The trimmed size is the least multiple of 16 beyond which every byte is zero, at most the block size, and 0 exactly for all-zero blocks. |
| Trim.TrimIsLossless | setup/xen-with-blktap/src/tools/blktap2/drivers/preservation.c:367-379 | Zero-extending the trimmed block restores it. |
| Trim.GetActualDataSize | setup/xen-with-blktap/src/tools/blktap2/drivers/preservation.c:185-203 | The loop computes that trimmed size. |
| Log.HeaderRoundTrip | setup/xen-with-blktap/src/tools/blktap2/drivers/preservation.h:37-42 | Time stamp, link and size are read back from the bytes of an entry header, whatever its padding. |
| Log.AppendRecord | setup/xen-with-blktap/src/tools/blktap2/drivers/preservation.c:486-514 | A record appended with a link to the present head of its block extends the represented history by exactly that version, at a 16-aligned offset behind all others. |
| Log.RepresentsStable | setup/xen-with-blktap/src/tools/blktap2/drivers/preservation.c:157-171 | No change of the file that keeps the record region changes any record. |
| Log.HeadOffAppended | setup/xen-with-blktap/src/tools/blktap2/drivers/preservation.c:489-514 | After an append the head of the written block is the new record and all other heads are unchanged. |
| Log.RecordData | setup/xen-with-blktap/src/tools/blktap2/drivers/preservation.c:367-378 | The zero-extended data of a record is the version that was written. |
| Log.HeadHoldsBlock | setup/xen-with-blktap/src/tools/blktap2/drivers/preservation.c:356-381 | Reading the record under the head of a block gives the newest version a reader accepts, or zeros. |
| Log.ChainIsAll | setup/xen-with-blktap/src/tools/blktap2/drivers/preservation.c:322-330 | A chain holds every version of its block exactly once, newest first. |
| Log.ByteChainIsHistory | setup/xen-with-blktap/src/tools/blktap2/drivers/preservation.c:489-514 | Following the `next` fields in the bytes from a head lists the offsets of exactly those versions, newest first. |
| Log.NextIsEarlier | setup/xen-with-blktap/src/tools/blktap2/drivers/preservation.c:322-330 | Every link points strictly backwards, which ends every walk. |
| Log.ChainsAreDisjoint | setup/xen-with-blktap/src/tools/blktap2/drivers/preservation.c:489-514 | No record lies on the chains of two blocks. |
| Log.WalkStep | setup/xen-with-blktap/src/tools/blktap2/drivers/preservation.c:322-330 | One step of the time-travel walk: the newest version is accepted, or skipping it loses no answer. |
| Image.DataHeaderRoundTrip | setup/xen-with-blktap/src/tools/blktap2/drivers/preservation.h:31-35 | Disk size, block size and next offset are read back from the header bytes. |
| Image.FreshImage | tests/mkimage.rb:11-22 | An image from mkimage.rb holds the empty history. |
| Image.HoldsBelowNext | setup/xen-with-blktap/src/tools/blktap2/drivers/preservation.c:157-171 | Bytes behind the on-disk next offset do not matter: an image holds what it held before. |
| Crash.TornImageHolds | setup/xen-with-blktap/src/tools/blktap2/drivers/preservation.c:164-171 | An image with the new header and any part of the index entries written is a proper image again, with every block at its last finalized or its newest version. |
| Crash.CrashInFinalize | setup/xen-with-blktap/src/tools/blktap2/drivers/preservation.c:164-171 | An image with the new header, the old records and every index entry old or new is such a torn image. |
| Crash.SurvivorsAreLinked | setup/xen-with-blktap/src/tools/blktap2/drivers/preservation.c:164-171 | The records that stay reachable form a well-formed log of their own: their links are the heads of the surviving chains. |
| Finalize.SealedHolds | setup/xen-with-blktap/src/tools/blktap2/drivers/preservation.c:157-171 | After flush, header and index write the image holds the whole history; reopening restores the same index table and next offset. |
| Files.TornKeeps | setup/xen-with-blktap/src/tools/blktap2/drivers/preservation.c:157-171 | A write that keeps the first bytes of a file keeps them whatever a crash leaves of it, in units of eight bytes. |
| Files.AnyWords | setup/xen-with-blktap/src/tools/blktap2/drivers/preservation.c:157-171 | Any choice of aligned words of eight bytes of a write may be all that a crash has let through. |
| Files.ChainedAt | setup/xen-with-blktap/src/tools/blktap2/drivers/preservation.c:157-171 | The recorded writes of a file are all that has happened to it: each starts from what the one before has left, and the last has left the present contents. |
| Crash.AppendKeeps | setup/xen-with-blktap/src/tools/blktap2/drivers/utils.c:104-118 | A flush behind the on-disk next offset endangers nothing: whatever is left of it, the image holds the last finalized history. |
| Crash.KeptRecovers | setup/xen-with-blktap/src/tools/blktap2/drivers/preservation.c:152-173 | Such a write leaves every block at its saved version. |
| Finalize.TornHeader | setup/xen-with-blktap/src/tools/blktap2/drivers/preservation.c:164-166 | An interrupted header write leaves the old header or the new one and no other byte changed behind it. |
| Finalize.HeaderStep | setup/xen-with-blktap/src/tools/blktap2/drivers/preservation.c:164-166 | After the flush, whatever a crash leaves of the header write is an image that opens, with every block at its last finalized or newest version. |
| Finalize.TornTable | setup/xen-with-blktap/src/tools/blktap2/drivers/preservation.c:168-170 | An interrupted index write, behind the header write, leaves the new header, the records, and every entry old or new. |
| Finalize.TableStep | setup/xen-with-blktap/src/tools/blktap2/drivers/preservation.c:168-170 | So whatever a crash leaves of it is an image that opens, with every block at its last finalized or newest version. |
| Finalize.StepsKept | setup/xen-with-blktap/src/tools/blktap2/drivers/utils.c:104-118 | One more flush, and all writes of the session so far still endanger nothing. |
| Finalize.CrashAfterHeader | setup/xen-with-blktap/src/tools/blktap2/drivers/preservation.c:164-171 | An image of a store with the new header, the old records and every index entry old or new holds a history with every block at its last finalized or its newest version. |
| Finalize.SealKeepsLog | setup/xen-with-blktap/src/tools/blktap2/drivers/preservation.c:164-171 | The header and index writes leave the record region alone. |
| BufferedIo.BufferedIo.constructor | setup/xen-with-blktap/src/tools/blktap2/drivers/utils.c:40-56 | bio_init: an empty buffer, no window, and the log is the first `next_offset` bytes of the file. |
| BufferedIo.BufferedIo.Flush | setup/xen-with-blktap/src/tools/blktap2/drivers/utils.c:104-118 | The log only grows: every byte keeps its offset, nothing below the old next offset changes, and next offset moves by the buffer rounded up to sectors. The window stays enabled unless `clearsWindow`. |
| BufferedIo.BufferedIo.Append | setup/xen-with-blktap/src/tools/blktap2/drivers/utils.c:75-79 | The copy appends the bytes to the log and returns the offset they start at. |
| BufferedIo.BufferedIo.Write | setup/xen-with-blktap/src/tools/blktap2/drivers/utils.c:67-80 | The returned offset denotes the written bytes in the log, which keeps everything else; the record is wholly buffered, at or behind next offset, and 16-aligned if all sizes so far were. |
| BufferedIo.BufferedIo.Load | setup/xen-with-blktap/src/tools/blktap2/drivers/utils.c:90-98 | A refill makes the window agree with the flushed log. |
| BufferedIo.BufferedIo.Cover | setup/xen-with-blktap/src/tools/blktap2/drivers/utils.c:90-98 | The test whether the window can serve a read, and the refill: afterwards the window covers it, and reaches its end unless the hit was stale. |
| BufferedIo.BufferedIo.ReadWindow | setup/xen-with-blktap/src/tools/blktap2/drivers/utils.c:90-101 | A read through the window gives the bytes of the file unless it is a stale hit, and then exactly what the window showed. |
| BufferedIo.BufferedIo.Read | setup/xen-with-blktap/src/tools/blktap2/drivers/utils.c:82-102 | bio_read gives the bytes of the log whichever of buffer, window or reload serves it; `stale` rises exactly on a hit past the fill-time end, and then the bytes are those of the window. |
| BufferedIo.WindowRightIff | setup/xen-with-blktap/src/tools/blktap2/drivers/utils.c:90-100 | A window is right for every file that agrees with it up to its fill-time end exactly if the read ends there or before. |
| Windows.WindowEdge | setup/xen-with-blktap/src/tools/blktap2/drivers/utils.c:90-98 | A read that would end with the window is not served by it, and one that ends a byte before is. |
| Windows.BufferEdge | setup/xen-with-blktap/src/tools/blktap2/drivers/utils.c:67-80 | The buffer takes 528384 bytes, and a write that would exceed them flushes it first. |
| StaleWindow.MisreadRun | setup/xen-with-blktap/src/tools/blktap2/drivers/utils.c:90-118 | Every run whose first stale read is that of a whole block with its header behind all that the window was ever filled with: if the memory handed out for the window is zero, pd_read returns zeros, which is right exactly if the block is all zeros. |
| StaleWindow.UntouchedIsStale | setup/xen-with-blktap/src/tools/blktap2/drivers/utils.c:90-98 | Such a read is stale. |
| StaleWindow.FlatBlock | setup/xen-with-blktap/src/tools/blktap2/drivers/preservation.c:445-519 | On the flat disk the block read last is the one written. |
| StaleWindow.Misread | setup/xen-with-blktap/src/tools/blktap2/drivers/utils.c:90-118 | Such a run on a new disk of 300 blocks of 4096 bytes: 129 full blocks are written, block 127 read, 128 more written, and block 128 read. The last read is stale and no read before, and it returns zeros, not the block that was written. |
| Bits.WithBitSets | setup/xen-with-blktap/src/tools/blktap2/drivers/preservation.c:333 | Setting the flag of one block leaves every other flag alone. |
| Store.CacheFilled | setup/xen-with-blktap/src/tools/blktap2/drivers/preservation.c:315-339 | Keeping the answer of one walk in index table, flag and size array keeps the cache right for every block. |
| Store.AtRestTables | setup/xen-with-blktap/src/tools/blktap2/drivers/preservation.c:94-109 | The header and the index table of an image at rest are those of its history. |
| Store.RecordUnder | setup/xen-with-blktap/src/tools/blktap2/drivers/preservation.c:356-381 | Under every head lies a readable record with the block that the reader must see; head 0 means zeros. |
| Store.FlushedOk | setup/xen-with-blktap/src/tools/blktap2/drivers/utils.c:104-118 | A flush keeps every record wholly in the file or wholly in the buffer, and the on-disk image what it was. |
| Store.ExtendedOk | setup/xen-with-blktap/src/tools/blktap2/drivers/preservation.c:486-514 | A logged record keeps all invariants of the open store, whether or not the write flushed. |
| Store.IndexExtended | setup/xen-with-blktap/src/tools/blktap2/drivers/preservation.c:514 | Updating one index entry makes the table current for the longer history. |
| Store.ElisionTest | setup/xen-with-blktap/src/tools/blktap2/drivers/preservation.c:486-504 | `data_size == 0` and an empty index entry mean: all zeros and never written. |
| RecordIo.ReadHeader | setup/xen-with-blktap/src/tools/blktap2/drivers/preservation.c:368 | The header read is that in the log unless the window was stale, and how buffer and window stand afterwards is exactly `AfterRead`. |
| RecordIo.ReadBody | setup/xen-with-blktap/src/tools/blktap2/drivers/preservation.c:343-344 | Data read and zero fill give the zero-extended record and touch nothing else of the destination; the window moves as by `AfterRead`. |
| RecordIo.ReadBlockAt | setup/xen-with-blktap/src/tools/blktap2/drivers/preservation.c:356-381 | The body of read_latest_block gives the block under an index entry, unless the record is read stale, and that is exactly when `RecordWindow` says so. |
| RecordIo.Walk | setup/xen-with-blktap/src/tools/blktap2/drivers/preservation.c:310-330 | The search ends and finds the newest record of the block stamped before the restore point, or 0; in nanoseconds, see `Clock.ReadsLastBefore`. |
| RecordIo.WalkHere | setup/xen-with-blktap/src/tools/blktap2/drivers/preservation.c:322-330 | What the loop knows at each record. |
| RecordIo.AnswerReads | setup/xen-with-blktap/src/tools/blktap2/drivers/preservation.c:342-348 | The offset and size a walk found, cached or not, give the block as of the restore point. |
| RecordIo.ReadAnswer | setup/xen-with-blktap/src/tools/blktap2/drivers/preservation.c:342-348 | The second half of read_current_block reads that block. |
| RecordIo.PrepareRecord | setup/xen-with-blktap/src/tools/blktap2/drivers/preservation.c:486-491 | The buffer holds header and trimmed data of the version, linked to the given head. |
| RecordIo.AppendTo | setup/xen-with-blktap/src/tools/blktap2/drivers/preservation.c:514 | bio_write of a prepared record gives the store with that record added, at the offset that `Logged` gives. |
| RecordIo.Overlay | setup/xen-with-blktap/src/tools/blktap2/drivers/preservation.c:481-483 | The copy patches exactly the addressed part of the block. |
| Disk.PreservationDisk.constructor | setup/xen-with-blktap/src/tools/blktap2/drivers/preservation.c:71-139 | open_disk on any image with some history gives a disk whose index table, next offset and cache are right for it. |
| Disk.LoadTables | setup/xen-with-blktap/src/tools/blktap2/drivers/preservation.c:94-109 | Reading header and index table restores geometry, next offset and all heads. |
| Disk.ReadIndex | setup/xen-with-blktap/src/tools/blktap2/drivers/preservation.c:103-109 | The index table in memory is that of the image, zero where the file has ended. |
| Disk.PreservationDisk.ReadLatestBlock | setup/xen-with-blktap/src/tools/blktap2/drivers/preservation.c:356-381 | The newest version of the block, at its place in the destination only, unless a stale window serves it; buffer and window stand exactly as `BlockWindow` says, stale or not. |
| Disk.PreservationDisk.FindCurrent | setup/xen-with-blktap/src/tools/blktap2/drivers/preservation.c:311-339 | Offset and size are those of the uncached walk, whether they come from the cache or from a new walk. |
| Disk.PreservationDisk.ReadCurrentBlock | setup/xen-with-blktap/src/tools/blktap2/drivers/preservation.c:310-351 | The block as of the restore point. |
| Disk.PreservationDisk.ReadAligned | setup/xen-with-blktap/src/tools/blktap2/drivers/preservation.c:393-409 | Whole-block requests return the flat slice, unless `StretchWindow` over the touched blocks is stale. |
| Disk.PreservationDisk.ReadUnaligned | setup/xen-with-blktap/src/tools/blktap2/drivers/preservation.c:410-441 | Other requests return the flat slice, unless `StretchWindow` over the touched blocks is stale. |
| Disk.PreservationDisk.PdRead | setup/xen-with-blktap/src/tools/blktap2/drivers/preservation.c:383-442 | Every request that the stack buffer can serve returns the flat slice of what this session shows and keeps the disk valid, unless a stale window serves it; a writable session then stands exactly as `Fetched` says, so that it is stale exactly when that trace is lost. |
| Disk.PreservationDisk.AppendBlock | setup/xen-with-blktap/src/tools/blktap2/drivers/preservation.c:486-514 | The prepared block is recorded, or left out exactly if it is all zeros and was never written. |
| Disk.PreservationDisk.ReadAndPatch | setup/xen-with-blktap/src/tools/blktap2/drivers/preservation.c:464-483 | The newest block with the piece copied over it, unless `BlockWindow` is stale. |
| Disk.PreservationDisk.UpdateBlock | setup/xen-with-blktap/src/tools/blktap2/drivers/preservation.c:464-516 | One round of pd_write is one patch of the history and moves the trace as `Patched` says. |
| Disk.PreservationDisk.WriteRound | setup/xen-with-blktap/src/tools/blktap2/drivers/preservation.c:464-516 | One round brings the request one piece further towards its commit, and the trace towards `Committed`. |
| Disk.PreservationDisk.PdWrite | setup/xen-with-blktap/src/tools/blktap2/drivers/preservation.c:445-519 | A request commits exactly its versions, never touches an earlier one, and lets the log grow by at most 8192 bytes a sector; where the records go, when the buffer is flushed and whether a read of it was stale is exactly what `Committed` says. |
| Disk.PreservationDisk.FlushAll | setup/xen-with-blktap/src/tools/blktap2/drivers/preservation.c:157 | The flush before the header write puts the whole log into the file. |
| Disk.PreservationDisk.WriteTables | setup/xen-with-blktap/src/tools/blktap2/drivers/preservation.c:159-171 | Header and index write leave an image that holds the whole history; the recorded writes lead from the first contents of the file to the present ones, and whatever a crash leaves of any of this session opens with every block at its last finalized or its newest version. |
| Disk.PreservationDisk.PdFinalize | setup/xen-with-blktap/src/tools/blktap2/drivers/preservation.c:152-180 | After pd_finalize the image holds the whole history, a read-only session leaves the file as it was, and a crash during any write of the session, the flush, header and index writes of pd_finalize included, leaves an image that opens with every block at its last finalized or its newest version. |
| JavaBytes.DecodeLong | tests/preservationRecord.java:145-162 | The loop on a long gives the little-endian number modulo 2^64, as a signed value. |
| JavaBytes.DecodeInt | tests/preservationDatabase.java:109-115 | The loop on an int gives the little-endian number modulo 2^32, as a signed value. |
| JavaBytes.DecodeBig | tests/preservationRecord.java:129-141 | The loop on a BigDecimal gives the little-endian number. |
| Reader.PreservationRecord.constructor | tests/preservationRecord.java:118-175 | The record shows size, link, seconds and nanoseconds of the C header. |
| Reader.PreservationRecord.GetHeader | tests/preservationRecord.java:101-112 | getHeader returns the header with the block number in the place of the link. |
| Reader.ByteControl.constructor | tests/ByteControl.java:31-132 | The fields of an exported key: size, block number, the low 32 bits of the times, and the least number of 4096-byte sectors for the size, from one to eight. |
| Reader.KeyRoundTrip | tests/preservationRecord.java:101-162 | Decoding, re-encoding and decoding again keeps the size always, the seconds and the nanoseconds exactly if they are below 2^32, and gives the block number exactly if it is not negative. |
| Reader.KeyBytes | tests/preservationRecord.java:101-112 | Byte by byte: stamp, size and flags of an exported key are those of the header, and all others but the low four of the block number are zero. |
| Reader.RecordInFile | tests/preservationDatabase.java:181-213 | Every record of an image at rest, header and trimmed data, is in the file where its offset says. |
| Database.LoadRecord | tests/preservationDatabase.java:222-241 | getRecordSequence: the record at an offset of the image, with its data. |
| Database.ReadNumbers | tests/preservationDatabase.java:97-128 | The reader sees the same disk size, block size and next offset as the driver. |
| Database.EntriesRead | tests/preservationDatabase.java:52-70 | How many entries of the index table are read: all of them on disks of less than 2^28 blocks, fewer on any larger disk. |
| Database.ReadTable | tests/preservationDatabase.java:52-70 | The reader sees the entries of the driver as far as the int byte count of the table reaches, and zeros behind, where an exception ends the reading. |
| Database.OpenedExactly | tests/preservationDatabase.java:33-70 | A reader of part of the index table has the driver's table if and only if no block behind that part was ever written. |
| Database.PreservationDatabase.constructor | tests/preservationDatabase.java:33-70 | An opened database has the numbers of the driver and the index table as far as the int byte count reaches, on disks of any size. |
| Database.PreservationDatabase.GetNumOfRecord | tests/preservationDatabase.java:134-172 | The number of records is the length of the block's chain, or 0 for a block whose index entry was not read. |
| Database.PreservationDatabase.GetRecord | tests/preservationDatabase.java:181-213 | The record `pos` steps from the newest; beyond the end of the chain the oldest one; null for a negative `pos`, an empty chain, or a block whose index entry was not read. |
| Database.SameAsDriver | tests/preservationDatabase.java:181-213 | getRecord(b, 0) filled up with zeros is the block that the driver reads as the newest. |
| Export.ExportIsComplete | tests/convertToSequenceFileFromLdLocal.java:67-115 | The order of the export holds every record of every block exactly once, block by block and newest first. |
| LostTable.Overlooked | tests/preservationDatabase.java:33-70 | On every new disk of 2^28 blocks or more, every block behind the entries read that is written and finalized is overlooked: the driver shows it, the reader counts no record of it. |
| LostTable.LastEntry | tests/preservationDatabase.java:52-70 | Every disk of that size has such a block: its last one. |
| Export.CompleteIff | tests/convertToSequenceFileFromLdLocal.java:67-115 | The records of the blocks whose entries were read are all records if and only if no other block was ever written. |
| Export.ExportBlock | tests/convertToSequenceFileFromLdLocal.java:69-111 | One block exports exactly its chain, newest first, with the right key and data for each record, or nothing if its index entry was not read. |
| Export.ExportAll | tests/convertToSequenceFileFromLdLocal.java:67-115 | The converter ends and emits exactly the records of the blocks whose index entries were read, in the order of the export; its count is their number, which is that of all records if and only if the reader has the driver's table. |
| Migration.StepKeepsInv | setup/xen-with-blktap/src/tools/libxl/xl_cmdimpl.c:2551-2831 | Every event of sender, receiver, streams and crashes keeps the invariant of the protocol. |
| Migration.AtMostOneRunning | setup/xen-with-blktap/src/tools/libxl/xl_cmdimpl.c:2551-2831 | At most one copy of the guest runs in every reachable state, whatever breaks, if and only if a destroy that returns 0 has worked, or an unpause that fails leaves the guest stopped, or the sender takes its domain to have a name that it does not have. |
| Migration.AtMostOneName | setup/xen-with-blktap/src/tools/libxl/xl_cmdimpl.c:2641-2698 | No name is ever held on both hosts, if and only if the names given to sender and receiver, with the suffixes "--migratedaway" and "--incoming", keep apart as `NamesApart` says. |
| Migration.ResumesOnlyWithPermission | setup/xen-with-blktap/src/tools/libxl/xl_cmdimpl.c:2655-2690 | After trying to say go, the sender resumes only when the receiver's destroy has returned 0 and it wrote the permission. |
| Migration.Outcome | setup/xen-with-blktap/src/tools/libxl/xl_cmdimpl.c:2641-2725 | When the sender ends outside failed_badly exactly one copy runs, if and only if a resume of its own, where it made one, took effect. That it can end so, and with what, is said by the rows from `MigrationRuns.FaultlessSucceeds` on. |
| MigrationRuns.FaultlessSucceeds | setup/xen-with-blktap/src/tools/libxl/xl_cmdimpl.c:2551-2831 | A migration in which nothing fails has at most sixteen steps, and as long as it has not succeeded it can go on: then the guest runs at the receiver under its name there, and the sender has neither guest nor name. |
| MigrationRuns.Success | setup/xen-with-blktap/src/tools/libxl/xl_cmdimpl.c:2641-2698 | The list of events of a migration that succeeds, and the state that it leaves. |
| MigrationRuns.UnpauseFails | setup/xen-with-blktap/src/tools/libxl/xl_cmdimpl.c:2672-2693 | If the guest cannot be started and the receiver destroys its copy, the guest runs again at the sender, under its name there, and the receiver has neither copy nor name. |
| MigrationRuns.GoIsLost | setup/xen-with-blktap/src/tools/libxl/xl_cmdimpl.c:2777-2796 | The same if the permission to start is lost on the way, |
| MigrationRuns.RenameFails | setup/xen-with-blktap/src/tools/libxl/xl_cmdimpl.c:2784-2796 | and if the receiver cannot rename its domain. |
| MigrationRuns.DestroyFails | setup/xen-with-blktap/src/tools/libxl/xl_cmdimpl.c:2812-2820 | If the receiver cannot destroy its copy, the sender is not permitted to resume and fails badly, with both copies stopped. |
| MigrationRuns.DestroyedStays | setup/xen-with-blktap/src/tools/libxl/xl_cmdimpl.c:2695-2698 | After a destroy that has worked the sender has succeeded and has neither guest nor name, whatever happens before and after. |
| MigrationRuns.LeftBehind | setup/xen-with-blktap/src/tools/libxl/xl_cmdimpl.c:2695-2698 | A destroy that has no effect leaves the stopped copy and its name, and the sender ends in the same way. |
| MigrationRuns.ResumedAway | setup/xen-with-blktap/src/tools/libxl/xl_cmdimpl.c:2684-2691 | A rename back that fails is not looked at: the guest is resumed under the name for domains that were given away. |
| MigrationRuns.BadlyOnlyAfterGo | setup/xen-with-blktap/src/tools/libxl/xl_cmdimpl.c:2651-2680 | The sender fails badly only after trying to say go, and resumes as after a failed transfer only before. |
| MigrationRuns.CreateFails | setup/xen-with-blktap/src/tools/libxl/xl_cmdimpl.c:2626-2631 | If the receiver cannot create the domain, the sender does not get its answer and resumes the guest. |
| MigrationRuns.SuspendTooLate | setup/xen-with-blktap/src/tools/libxl/xl_cmdimpl.c:2614-2622 | If the guest does not stop in time, it goes on at the sender. |
| MigrationRuns.SuspendBreaks | setup/xen-with-blktap/src/tools/libxl/xl_cmdimpl.c:2614-2622 | If suspending fails otherwise, the sender resumes the guest. |
| MigrationRuns.RenameAwayFails | setup/xen-with-blktap/src/tools/libxl/xl_cmdimpl.c:2641-2647 | If the sender cannot rename its domain, it resumes it. |
| MigrationRuns.RenamedAllTheSame | setup/xen-with-blktap/src/tools/libxl/xl_cmdimpl.c:2644-2647 | If that rename is reported as failed but has been done, the guest is resumed under the other name. |
| MigrationRuns.ReportNotRead | setup/xen-with-blktap/src/tools/libxl/xl_cmdimpl.c:2662-2665 | If the report is not read, the sender fails badly. |
| MigrationRuns.GoNotWritten | setup/xen-with-blktap/src/tools/libxl/xl_cmdimpl.c:2655-2660 | If the permission is not written, the sender fails badly, though the permission may have arrived. |
| MigrationRuns.StatusNotRead | setup/xen-with-blktap/src/tools/libxl/xl_cmdimpl.c:2667-2670 | If the status is not read, the sender fails badly, though the guest runs at the receiver. |
| MigrationRuns.StatusNotWritten | setup/xen-with-blktap/src/tools/libxl/xl_cmdimpl.c:2804-2809 | If the receiver cannot write the status, it exits, and does not destroy a copy that was not started. |
| MigrationRuns.GrantNotWritten | setup/xen-with-blktap/src/tools/libxl/xl_cmdimpl.c:2823-2828 | If it cannot write the permission to resume, its copy is gone and the sender still waits. |
| MigrationRuns.BrokenStays | setup/xen-with-blktap/src/tools/libxl/xl_cmdimpl.c:2551-2831 | Nothing arrives on a broken stream any more, and it stays broken. |
| Numbers.StrtoulOfDecimal | setup/xen-with-blktap/src/tools/libxl/xl_cmdimpl.c:3570-3591 | strtoul reads back what `%d` printed and stops behind it. |
| Numbers.StrtoulOfSigned | setup/xen-with-blktap/src/tools/libxl/xl_cmdimpl.c:3572-3583 | strtoul of white space, a sign and digits: a minus negates modulo 2^64, and too large a number gives 2^64 - 1. |
| Numbers.StrtoulOfNone | setup/xen-with-blktap/src/tools/libxl/xl_cmdimpl.c:3572-3583 | Without a digit it is 0, and nothing is used up. |
| CpuMap.RunsAre | setup/xen-with-blktap/src/tools/libxl/xl_cmdimpl.c:3393-3441 | The printed runs cover exactly the set bits, are increasing and have a clear bit between any two: disjoint and maximal. |
| CpuMap.PrintBitmap | setup/xen-with-blktap/src/tools/libxl/xl_cmdimpl.c:3393-3441 | The loop with its switch prints exactly those runs, "none" or "any cpu". |
| CpuMap.PrintsWords | setup/xen-with-blktap/src/tools/libxl/xl_cmdimpl.c:3393-3441 | No CPU is printed as "none", all of them as "any cpu". |
| CpuMap.PrintsRuns | setup/xen-with-blktap/src/tools/libxl/xl_cmdimpl.c:3404-3440 | Any list of runs that are increasing, apart and cover the set bits is what is printed: "a" for a single CPU, "a-b" for more, with commas between. |
| CpuMap.PrintsLike | setup/xen-with-blktap/src/tools/libxl/xl_cmdimpl.c:3393-3441 | An input: the second, third and fifth of six CPUs are printed as "1-2,4". |
| CpuMap.Switch | setup/xen-with-blktap/src/tools/libxl/xl_cmdimpl.c:3404-3421 | One round of the switch keeps the printed text that of the runs seen so far. |
| CpuMap.Close | setup/xen-with-blktap/src/tools/libxl/xl_cmdimpl.c:3423-3440 | The switch behind the loop completes it. |
| CpuPin.TokensSplit | setup/xen-with-blktap/src/tools/libxl/xl_cmdimpl.c:3571 | strtok on commas: the tokens of a text around a comma are those before and those behind it, empty ones dropped. |
| CpuPin.PinOne | setup/xen-with-blktap/src/tools/libxl/xl_cmdimpl.c:3572-3591 | One token adds one CPU or a range, or is refused, or hangs the loop. |
| CpuPin.PinCpus | setup/xen-with-blktap/src/tools/libxl/xl_cmdimpl.c:3570-3595 | The token loop pins what all tokens together say; the first bad token decides. What that is for the texts of the format is said by the rows that follow. |
| CpuPin.AllExactly | setup/xen-with-blktap/src/tools/libxl/xl_cmdimpl.c:3570-3595 | "all", and no other text, sets the whole map. |
| CpuPin.NothingPinned | setup/xen-with-blktap/src/tools/libxl/xl_cmdimpl.c:3571-3572 | The empty text pins no CPU and is not refused. |
| CpuPin.ListPins | setup/xen-with-blktap/src/tools/libxl/xl_cmdimpl.c:3571-3591 | A list pins what its parts pin, and where the first part is refused or hangs, so is or does the list. |
| CpuPin.FirstBadDecides | setup/xen-with-blktap/src/tools/libxl/xl_cmdimpl.c:3571-3576 | A list is refused if one of its parts is, and nothing before that part is. |
| CpuPin.OneCpu | setup/xen-with-blktap/src/tools/libxl/xl_cmdimpl.c:3573-3591 | A number that is followed by neither a digit nor a dash pins the CPU that 32 bits make of it. |
| CpuPin.BackwardIsInvalid | setup/xen-with-blktap/src/tools/libxl/xl_cmdimpl.c:3578-3583 | A range "a-b" with b < a is refused. |
| CpuPin.OpenIsInvalid | setup/xen-with-blktap/src/tools/libxl/xl_cmdimpl.c:3578-3583 | A range without an end is refused. |
| CpuPin.ForwardPins | setup/xen-with-blktap/src/tools/libxl/xl_cmdimpl.c:3578-3587 | A range "a-b" with a <= b as the whole text pins exactly the CPUs from a to b, or hangs for b == 2^32 - 1. |
| CpuPin.RangeExactly | setup/xen-with-blktap/src/tools/libxl/xl_cmdimpl.c:3584-3587 | The counter of the range loop, taken modulo 2^32, stays at most b for ever if and only if b == 2^32 - 1; otherwise the loop ends and has set exactly the CPUs from a to b. |
| CpuPin.LeavesIff | setup/xen-with-blktap/src/tools/libxl/xl_cmdimpl.c:3584-3587 | The loop ends after exactly b + 1 - a rounds, and never for b == 2^32 - 1. |
| CpuPin.SetRange | setup/xen-with-blktap/src/tools/libxl/xl_cmdimpl.c:3584-3587 | The loop itself, watched for 2^32 rounds, does that. |
| CpuPin.EndlessExactly | setup/xen-with-blktap/src/tools/libxl/xl_cmdimpl.c:3578-3587 | A token "a-b" pins the CPUs from a to b, and hangs exactly if b == 2^32 - 1. |
| CpuPin.WordIsInvalid | setup/xen-with-blktap/src/tools/libxl/xl_cmdimpl.c:3572-3576 | A single token that starts with a letter is refused, "none" and "any cpu" among them. |
| CpuPin.PinOfPrinted | setup/xen-with-blktap/src/tools/libxl/xl_cmdimpl.c:3393-3591 | Parsing the printed text pins exactly the CPUs of the bitmap, if and only if it has both set and clear bits; otherwise the text is refused. |
| DiskSpec.ParseDiskConfig | setup/xen-with-blktap/src/tools/libxl/xl_cmdimpl.c:468-613 | The in-place state machine accepts exactly the texts that a left-to-right reading of the grammar accepts, and yields the same fields. What these are is said, with tags and fields written out, by the rows from `DiskText.TagsMean` on. |
| DiskSpec.InInitial | setup/xen-with-blktap/src/tools/libxl/xl_cmdimpl.c:477-505 | The step of DSTATE_INITIAL keeps that correspondence. |
| DiskSpec.InTap | setup/xen-with-blktap/src/tools/libxl/xl_cmdimpl.c:504-541 | The step of DSTATE_TAP, with its fall-through on a comma and the `aio` prefix that stays in the state; for the fields of each driver see `DiskText.DriversMean`. |
| DiskSpec.InPhysPath | setup/xen-with-blktap/src/tools/libxl/xl_cmdimpl.c:542-559 | The step of DSTATE_PHYSPATH, with the `ioemu:` skip. |
| DiskSpec.InVirtPath | setup/xen-with-blktap/src/tools/libxl/xl_cmdimpl.c:560-579 | The step of DSTATE_VIRTPATH, with its early exit on an empty name. |
| DiskSpec.InVirtType | setup/xen-with-blktap/src/tools/libxl/xl_cmdimpl.c:580-593 | The step of DSTATE_VIRTTYPE: the comma has been overwritten, so the next state is always DSTATE_TERMINAL. |
| DiskSpec.InRw | setup/xen-with-blktap/src/tools/libxl/xl_cmdimpl.c:594-601 | The step of DSTATE_RW. |
| DiskText.ReadsBack | setup/xen-with-blktap/src/tools/libxl/xl_cmdimpl.c:468-613 | Printing a well-formed specification (backend, format, path, `ioemu:`, device, cdrom, mode) and parsing it gives its fields back. |
| DiskText.TagsMean | setup/xen-with-blktap/src/tools/libxl/xl_cmdimpl.c:481-541 | "phy:" is a raw device, "file:" and a bare "tap:" or "tap2:" a raw image for blktap. |
| DiskText.DriversMean | setup/xen-with-blktap/src/tools/libxl/xl_cmdimpl.c:511-541 | Behind "tap:", "vhd:" is a VHD image for blktap, "qcow:" and "qcow2:" are such images for qdisk, "raw:" a raw and "preservation:" a preservation image for blktap, with "aio:" before it or not. |
| DiskText.OtherTagsRefused | setup/xen-with-blktap/src/tools/libxl/xl_cmdimpl.c:496-541 | Every other tag is refused, whatever follows it. |
| DiskText.EmptyDrive | setup/xen-with-blktap/src/tools/libxl/xl_cmdimpl.c:477-505 | A text without a colon before its first comma is an empty drive. |
| DiskText.EndingsMean | setup/xen-with-blktap/src/tools/libxl/xl_cmdimpl.c:542-613 | Behind the path "ioemu:" is skipped, the mode may be missing, and ":cdrom" makes an unpluggable drive that cannot be written, whatever mode follows. |
| DiskText.OtherTypesRefused | setup/xen-with-blktap/src/tools/libxl/xl_cmdimpl.c:580-593 | No type of virtual device but "cdrom" is accepted. |
| DiskText.AcceptsExactly | setup/xen-with-blktap/src/tools/libxl/xl_cmdimpl.c:468-613 | A text is accepted if and only if it is the text of a well-formed specification. |
| DiskText.SpecOf | setup/xen-with-blktap/src/tools/libxl/xl_cmdimpl.c:468-613 | Every accepted text is printed by some well-formed specification. |
| DiskText.CdromIsReadOnly | setup/xen-with-blktap/src/tools/libxl/xl_cmdimpl.c:580-601 | Whatever mode follows, an accepted ":cdrom" specification is unpluggable and read-only, and no other is unpluggable. |
| DiskText.VdevMissing | setup/xen-with-blktap/src/tools/libxl/xl_cmdimpl.c:560-611 | A missing device name is refused, except at the very end of the text, where the disk is accepted without one. |
| DiskText.CdInsertReads | setup/xen-with-blktap/src/tools/libxl/xl_cmdimpl.c:1876-1895 | The text that cd_insert prints for a well-formed disk parses to that disk as a read-only cdrom. |
| DiskText.CdEjectReads | setup/xen-with-blktap/src/tools/libxl/xl_cmdimpl.c:1876-1895 | Without a disk it parses to an empty read-only drive. |
| VirtDisk.IndexOfLetters | setup/xen-with-blktap/src/tools/libxl/libxl_device.c:171-192 | Letters are bijective base 26: every index is read back from its letters. |
| VirtDisk.LettersOfIndex | setup/xen-with-blktap/src/tools/libxl/libxl_device.c:171-192 | And every non-empty letter string is the letters of its index. |
| VirtDisk.DeviceVirtdiskMatches | setup/xen-with-blktap/src/tools/libxl/libxl_device.c:157-203 | The loop decodes letters and partition as specified, rejects early exactly what is too large in the end, and never leaves the range of int. |
| VirtDisk.MatchesText | setup/xen-with-blktap/src/tools/libxl/libxl_device.c:157-203 | The name of every disk and partition within the bounds decodes to them. |
| VirtDisk.AcceptedIsName | setup/xen-with-blktap/src/tools/libxl/libxl_device.c:157-203 | An accepted text is the name of a disk and partition within the bounds if and only if it has a drive letter and its partition is empty or plain digits below 2^63. |
| VirtDisk.OrAbove | setup/xen-with-blktap/src/tools/libxl/libxl_device.c:216-219 | Or of bit fields that do not overlap is their sum. |
| VirtDisk.NumberIs | setup/xen-with-blktap/src/tools/libxl/libxl_device.c:216-238 | The numbers of all valid names, in closed form. |
| VirtDisk.DevNumberOf | setup/xen-with-blktap/src/tools/libxl/libxl_device.c:205-241 | A valid name is numbered by its own family, whatever the branches tried before. |
| VirtDisk.DiskDevNumber | setup/xen-with-blktap/src/tools/libxl/libxl_device.c:205-241 | The chain of attempts returns the number that `VirtDisk.DevNumber` gives; what it is for names and numbers is said by `VirtDisk.DevNumberOf` and the rows from `DevNumbers.NamesNumbered` on. |
| DevNumbers.NamesNumbered | setup/xen-with-blktap/src/tools/libxl/libxl_device.c:205-241 | What is returned for "xvd", "hd" and "sd" with letters and a partition, in arithmetic: the number within the bounds of the family, -1 beyond them. |
| DevNumbers.LettersLook | setup/xen-with-blktap/src/tools/libxl/libxl_device.c:171-185 | The letters count a to z, then aa, to zz, then aaa. |
| DevNumbers.NumbersNumbered | setup/xen-with-blktap/src/tools/libxl/libxl_device.c:226-228 | A number in decimal, octal or hexadecimal is its own device number if it fits an int, and -1 otherwise; a minus negates modulo 2^64 first, and a number that does not fit 64 bits is refused. |
| DevNumbers.DecimalNumbered | setup/xen-with-blktap/src/tools/libxl/libxl_device.c:226-228 | A plain decimal number n gives n up to 2^31 - 1, and -1 from there on; the empty text gives 0. |
| DevNumbers.TrailingRefused | setup/xen-with-blktap/src/tools/libxl/libxl_device.c:226-228 | A number with anything behind it is refused. |
| DevNumbers.WordRefused | setup/xen-with-blktap/src/tools/libxl/libxl_device.c:205-241 | A text that starts like no number and like no name is refused. |
| DevNumbers.SpellingNumbered | setup/xen-with-blktap/src/tools/libxl/libxl_device.c:212-219 | "d<disk>p<partition>" gets the number of the xvd disk within its bounds, and -1 beyond them. |
| DevNumbers.SpellingScanned | setup/xen-with-blktap/src/tools/libxl/libxl_device.c:212-214 | The two numbers may be written with white space, signs and in any of the three bases; what an int makes of them decides, and nothing may stand behind. |
| DevNumbers.StoredIntIs | setup/xen-with-blktap/src/tools/libxl/libxl_device.c:213 | What `%i` stores: the number, cut down to the range of a long, modulo 2^32 in the range of an int. |
| DevNumbers.WrappedAccepted | setup/xen-with-blktap/src/tools/libxl/libxl_device.c:194-201 | A partition of 2^63 or more passes the test of a signed long, and is what 32 bits make of it. |
| VirtDisk.NumbersAreDifferent | setup/xen-with-blktap/src/tools/libxl/libxl_device.c:205-241 | No two valid xvd, hd or sd names share a device number. |
| VirtDisk.ScanOfDecimal | setup/xen-with-blktap/src/tools/libxl/libxl_device.c:212-214 | `%i` reads a printed number back. |
| VirtDisk.NumericSpelling | setup/xen-with-blktap/src/tools/libxl/libxl_device.c:212-219 | "d<disk>p<partition>" gets the number of the xvd name with the same fields. |
| VirtDisk.BareHd | setup/xen-with-blktap/src/tools/libxl/libxl_device.c:229-233 | "hd" without a letter is accepted and gets the number of "hdb". |

## Left out

- Real file input and output: the file is an array of bytes whose holes read as zero; open, read and write do not fail or stop short. Writes reach the disk in program order, and a crash interrupts one of them, of which any aligned words of eight bytes may have been written.
- Disk.PreservationDisk.PdRead: where a header read through a stale window names more data than a block holds, the C code copies past its buffers; the model stops there with `ok == false`, and `stale` is then set. Of the bytes that a stale read returns, only the case of an all-zero header is stated.
- Sessions.Run: after a stale read the writes that patch what it returned are not followed: the history and which disks a crash shows are stated for runs without one.
- Disk.PreservationDisk.PdWrite: the reported length of the log assumes offsets below 2^63, so 64-bit wrap-around of offsets is not modelled.
- Database.PreservationDatabase.constructor: memory does not run out, and the unused data_start_offset is not modelled.
- Export.ExportAll: getRecord is called once per block instead of three or four times; the calls only read.
- Export.ExportAll: the minimum and maximum time stamps are not modelled; the source takes them from the newest record of each block only.
- Migration.AtMostOneRunning: streams carry whole messages; a message that breaks off in the middle counts as not delivered, and the configuration and memory image are one message.
- Migration.AtMostOneName: `migration_domname` is not initialized in C when the configuration has no name (xl_cmdimpl.c:2739); the model takes it to be NULL then. Other domains of either host are left out.
- Migration.Outcome: what the toolstack calls do inside is not modelled, only whether they report success and take effect; after failed_badly nothing is claimed about the number of copies beyond at most one.
- CpuPin.PinCpus: the CPU map is a set; libxl_cpumap_set is not part of this model, and the affinity calls behind the loop are left out. A range that never ends is the result `Endless`, for which the loop is watched for 2^32 rounds.
- DiskSpec.ParseDiskConfig: strdup and malloc do not fail, and a refused text has no fields.
- VirtDisk.DevNumber: sscanf and strtoul are modelled as on 64-bit Linux; for index -1 only the `hd` number is computed, because shifting a negative number left is undefined in C.
- block-preservation.c, block-timetravel.c, block-aio.c, block-log.c: wrappers around a queue that is not shown; restore points are arbitrary here, of which those with zero nanoseconds are a special case.
- Debug printing, `O_DIRECT`, memory alignment, pd_set_driver_info: no behaviour worth stating.
- The rest of libxl, the generated configuration scanner, and the MapReduce programs around hashes and samples: command-line plumbing and easy members.
