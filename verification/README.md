# A verified model of the backup engine

The repository has two cores. The native part compares two versions of a file with an rsync-like algorithm, emits
a list of copy commands, and later resolves reads through chains of such command lists. The managed part decides, at
every backup, which files need their data stored again, writes an archive per version, and finds at restore which
archives hold what. This project models both, and the archive container between them, and proves what they promise:

* the commands of a comparison rebuild the new file byte for byte, and k comparisons in a row, each searching the table
  that the one before left, give back version k through a chain of deltas;
* the commands are the only list that copies from the old file exactly where its table has the block of the new file;
* every backup of every run stores the data that its criterion calls for, refers to the data it had for the rest, and
  lists exactly the versions it refers to;
* after any run of backups the data of every object is in exactly the archive its version number names, and that
  archive is among those a restore opens;
* the archive reader, which starts at the end of the file, recovers what the writer was given.

`dafny verify dfyconfig.toml` checks everything.

## How the model is laid out

| file | what it models |
|---|---|
| `ByteStrings.dfy` | bytes, fixed-width integers, slices |
| `RollingChecksum.dfy` | the rolling checksum in 32-bit arithmetic |
| `CircularBuffer.dfy` | the ring buffer, as a class over an array |
| `BinarySearch.dfy` | `triple_search` and `find_all` |
| `BlockTable.dfy` | the sorted table of block checksums, and the choice of the block size |
| `BlockSearch.dfy` | the bitmap prefilter and the three-level search |
| `BlockReader.dfy` | the double-buffered readers, over a disk that splits reads as it likes |
| `DeltaCommands.dfy` | `rsync_command`, its top-bit flag, and what a command list means |
| `Matcher.dfy`, `Delta.dfy` | the comparison as a function, and its main theorems |
| `Choices.dfy` | which commands a comparison must choose, said of the table and the new file alone |
| `HashingThread.dfy` | the producer/consumer pipeline as a state machine |
| `FileComparer.dfy` | the comparer as it is: three states, buffers, reader, queue |
| `DeltaChain.dfy` | `RsyncChainLink` over plain files, to any depth |
| `VersionRuns.dfy` | a run of versions, each compared with the table the comparison before left, and chained |
| `BackupSpec.dfy` | one backup as a function, and the invariant of the version chain |
| `BackupMeaning.dfy` | what an archive must hold, said of trees, criteria and archives alone |
| `BackupEngine.dfy` | the engine's passes over the objects, proved to compute that function |
| `Restore.dfy` | the restore worklist and `FillDependencies` |
| `ArchiveContainer.dfy` | archive writer and reader, bounded streams |

Code that changes state is modelled by classes and loops. Each such method is tied to a function of its inputs, and the
properties are proved about these functions: `FileComparer.Process` computes `Matching.Compare`, about which
`Matcher.CompareCompletes` and `Choices.CommandsAreTheChoice` speak; `BackupEngine.PerformBackup` appends
`BackupSpec.NewArchive`, about which `BackupSpec.KeepsChainIff` and `BackupMeaning.BackupRecords` speak; `ArchiveWriter` leaves `Container.ArchiveFile`, about which `Container.RoundTrip`
speaks.

What lies outside the code is a parameter:

* SHA-1 is an arbitrary function `sha` into numbers; `memcmp` of digests is their order. Where the comparison needs
  it, "no old block collides with a window of the new file" is a precondition (`Delta.NoCollision`), never an axiom.
* The disk returns any non-empty part, at most 8192 bytes, of what is asked for, or end of file.
* The scheduler runs the hashing thread any number of turns between two steps of the comparer.
* The change criterion of a backup is an arbitrary predicate on path, new data and old data.
* Archive filters are arbitrary functions whose decoder undoes the encoder and is not disturbed by bytes that follow;
  serializers are arbitrary functions with an inverse.

The model follows `BackupEngineNativePart`, with the match length of `rsync_test2` (the size of the window) as the
comparer whose commands are proved right. The other length is modelled too, see below.

## Where the code falls short of what it promises

Each of these is a theorem with the exact condition.

* `matching_increment` of the native copy returns the block size even for a short window at the end of the file. For
  every old file, it covers every new file that does not collide with it exactly when the old size is a multiple of
  the block size, or a window of the short last block of the old file collides with a block of that file
  (`Delta.NativeCoversEveryNewFileIff`); otherwise it misses a new file that is this last block alone
  (`Delta.NativeMissesTail`). A file compared with itself gets the right length exactly when its size is a multiple of
  the block size (`Delta.NativeCompareWithItself`).
* `push_buffer` copies from the start of its argument again when it wraps. It stores what it was given exactly when
  the bytes fit before the end of the array (`RingBuffer.PushedFaithful`, `RingBuffer.PushedWrapFails`). The readers
  only ever push into buffers that start at the front, which `BlockReader` proves.
* `pop_buffer` does not reduce `start`. The source stays inside its memory exactly when `start`, plus the smaller of
  its size and the space in the destination, is at most the capacity (`RingBuffer.CircularBuffer.PopBuffer`);
  `RingBuffer.PopBufferLeavesMemory` drains a wrapped buffer for which it is not. The readers only drain sources in
  one piece, for which it always is.
* `process_whole` hands out nothing of a full buffer whose `start` is at the capacity, and the queue of every other
  one (`RingBuffer.CircularBuffer.Pieces`, `RingBuffer.RefilledBufferYieldsNothing`).
* `next_byte` right after `seek` finds an empty buffer and returns false; only `whole_block` or a successful
  `next_byte` primes it (`BlockReader.ByteByByteReader.NextByte`).
* A plain file does not clip a section at its end. What `reconstruct_section` adds lies inside the plain files,
  announces as many bytes as there are and gives the section exactly when the stream is a chain link or the section
  ends inside the file (`DeltaChain.ReconstructSection`).
* A command whose length reaches 2^63 turns its own copy flag (`DeltaCommands.GrowOverflowsIntoFlag`).
* The table left by a comparison has one entry more than the one digested from scratch exactly when the size is a
  multiple of the block size. The entry is empty and never found (`BlockTable.ByProductDiffersByEmptyEntry`,
  `Delta.ByProductTableServes`).
* A changed object whose mode was set to `Unmodified` from outside claims the new version without having data there.
  A backup keeps the chain valid exactly when there is no such object (`BackupSpec.KeepsChainIff`);
  `BackupSpec.LyingBackup` is one that does not.
* A file judged unchanged against an old self without data is stored nowhere. In every run of backups, an object has
  no data exactly when going back, from leaders judged unchanged to their old selves, one comes to an object that
  belonged to no stream, such as a directory at the path of the file (`BackupSpec.LeftOutOfRunIff`,
  `BackupSpec.FileInPlaceOfDirectoryIsLeftOut`). `FindPath` does not look at the kind of the old object.
* A restore callback that leaves a stream unread is shown its bytes again as the next stream. What a callback sees
  of a stream is a prefix of its own bytes, whatever the streams hold, exactly when all earlier ones were read fully
  or nothing is read of this one (`Container.ShowsOwnBytesIff`, `Container.UnreadStreamIsShownAgain`).

## Model

| member | source | states |
|---|---|---|
| RollingChecksum.SubtractIsPop | BackupEngineNativePart/RollingChecksum.cpp:17-27 | taking the oldest byte out of a checksum, in wrapping 32-bit arithmetic, gives the checksum of the window without it |
| RollingChecksum.AddIsPush | BackupEngineNativePart/RollingChecksum.cpp:29-38 | adding a byte gives the checksum of the longer window |
| RollingChecksum.RollingIsRecomputing | BackupEngineNativePart/RollingChecksum.cpp:17-38 | after any sequence of pops and pushes, also on a window that only shrinks, the rolled checksum is the one recomputed from scratch |
| RollingChecksum.PiecewiseIsWhole | BackupEngineNativePart/RollingChecksum.h:19-31 | however a window is cut into pieces, feeding them with their offsets gives the checksum of the whole |
| RollingChecksum.ComputeChecksum | BackupEngineNativePart/RollingChecksum.h:5-17 | the loop with 32-bit accumulators computes the mathematical checksum |
| RollingChecksum.ComputePiece | BackupEngineNativePart/RollingChecksum.h:19-31 | the same for a piece at an offset, on top of a previous value |
| RingBuffer.PushedFaithful | BackupEngineNativePart/circular_buffer.h:39-49 | push_buffer stores its argument, for every content, if and only if the bytes do not wrap |
| RingBuffer.PushedWrapFails | BackupEngineNativePart/circular_buffer.h:44-47 | an argument that is stored wrongly whenever it wraps |
| RingBuffer.PopBufferLeavesMemory | BackupEngineNativePart/circular_buffer.h:50-56 | a wrapped buffer, reached with its own operations, that pop_buffer leaves with its start behind its memory |
| RingBuffer.RefilledBufferYieldsNothing | BackupEngineNativePart/circular_buffer.h:25-33 | a drained and refilled buffer of which process_whole hands out nothing |
| RingBuffer.CircularBuffer.PushPieces | BackupEngineNativePart/circular_buffer.h:50-53 | pushing the pieces of a source stores as many of its bytes as there is space for |
| ByteStrings.ModIsRemainder | BackupEngineNativePart/circular_buffer.cpp:26 | the remainder the model computes is that of the % operator |
| RingBuffer.StoredQueue | BackupEngineNativePart/circular_buffer.h:39-49 | the two copies of push_buffer, with the index taken modulo the capacity, append to the queue, on both sides of the wrap point |
| RingBuffer.CircularBuffer.constructor | BackupEngineNativePart/circular_buffer.cpp:4-6 | a new buffer is full of whatever the memory holds |
| RingBuffer.CircularBuffer.Realloc | BackupEngineNativePart/circular_buffer.cpp:12-19 | the capacity becomes n, with the old memory or a fresh one |
| RingBuffer.CircularBuffer.Reset | BackupEngineNativePart/circular_buffer.cpp:38-41 | the whole memory is the contents |
| RingBuffer.CircularBuffer.ResetSize | BackupEngineNativePart/circular_buffer.h:62-64 | the contents become empty |
| RingBuffer.CircularBuffer.Trim | BackupEngineNativePart/circular_buffer.h:57-61 | the contents are cut to n bytes, never extended |
| RingBuffer.CircularBuffer.Pop | BackupEngineNativePart/circular_buffer.cpp:21-29 | takes the oldest byte and wraps start, or gives 0 on an empty buffer |
| RingBuffer.CircularBuffer.Push | BackupEngineNativePart/circular_buffer.cpp:31-36 | appends the byte, also at the front when start is at the capacity, or does nothing on a full buffer |
| RingBuffer.CircularBuffer.PushBuffer | BackupEngineNativePart/circular_buffer.h:39-49 | appends as much as there is space for, with the wrap as the code has it |
| RingBuffer.CircularBuffer.Pieces | BackupEngineNativePart/circular_buffer.h:25-33 | process_whole hands out the contents in order, in one piece or two, except of a full buffer that starts at the capacity, of which it hands out nothing |
| RingBuffer.CircularBuffer.PopBuffer | BackupEngineNativePart/circular_buffer.h:50-56 | moves as many of the oldest bytes as the destination has space for; the source stays inside its memory if and only if these end before the memory does |
| RingBuffer.CircularBuffer.At | BackupEngineNativePart/circular_buffer.h:65-70 | indexing gives the contents in order across the wrap point |
| RingBuffer.CircularBuffer.ComputeChecksum | BackupEngineNativePart/RollingChecksum.cpp:5-9 | the dispatch on one piece or two gives the checksum of the contents |
| BinarySearch.TripleSearch | BackupEngineNativePart/binary_search.h:44-121 | on every partitioned range it returns exactly the zero run, with the promised ends when there is none: both null when the zeros would lie strictly inside |
| BinarySearch.FindInside | BackupEngineNativePart/binary_search.h:71-83 | the first loop finds a zero or two neighbours around the place where it would be |
| BinarySearch.FirstZero | BackupEngineNativePart/binary_search.h:95-106 | the second loop finds the first zero |
| BinarySearch.PastLastZero | BackupEngineNativePart/binary_search.h:108-120 | the third loop finds the end of the zeros |
| BinarySearch.FindAll | BackupEngineNativePart/MiscFunctions.h:32-51 | the first index from which a monotone predicate holds |
| BlockTable.SortedUnique | BackupEngineNativePart/MiscTypes.h:14-25 | the order of table items is total: a multiset of items has one sorted arrangement, so any correct std::sort gives it |
| BlockTable.Sort | BackupEngineNativePart/RsyncableFile.cpp:36 | sorted, and the same items |
| BlockTable.TablesDescribe | BackupEngineNativePart/RsyncableFile.cpp:19-36 | in the table digested from scratch and in the one left by a comparison, every item describes the block at its offset and every block has its item |
| BlockTable.ByProductDiffersByEmptyEntry | BackupEngineNativePart/FileComparer.cpp:269-310 | the table left by a comparison is the one digested from scratch, plus one empty entry exactly when the size is a multiple of the block size |
| BlockTable.ScalerFunction | BackupEngineNativePart/RsyncableFile.h:17-23 | terminates with the least 512 * 2^k whose table fits in 64 MiB |
| BlockTable.BlockCount | BackupEngineNativePart/RsyncableFile.h:42-44 | a table has exactly ceil(size / block size) entries |
| BlockTable.BlocksTile | BackupEngineNativePart/RsyncableFile.cpp:22-34 | the offsets of the entries tile the file: each block ends where the next begins, the last at the end |
| BlockSearch.InitBitmap | BackupEngineNativePart/RsyncableFile.cpp:47-51 | a bit is set if and only if an item has these 24 low bits |
| BlockSearch.PrefilterIsSafe | BackupEngineNativePart/RsyncableFile.cpp:62-64 | the prefilter never rejects the checksum of an item |
| BlockSearch.FindSpec | BackupEngineNativePart/FileComparer.cpp:183-220 | a search succeeds if and only if an item has checksum and hash; it gives the target offset if that is among them, otherwise the lowest |
| BlockSearch.Search | BackupEngineNativePart/FileComparer.cpp:183-220 | prefilter and three binary searches compute that result |
| BlockSearch.SearchTable | BackupEngineNativePart/FileComparer.cpp:186-220 | the same without the prefilter, on any sorted table |
| BlockSearch.PickOffset | BackupEngineNativePart/FileComparer.cpp:208-219 | the last loop terminates and prefers the target offset |
| BlockReader.BlockByBlockReader.constructor | BackupEngineNativePart/StreamBlockReader.cpp:84-87 | a new reader stands at the start of the file; a block size of 0 stands for the disk's |
| BlockReader.BlockByBlockReader.Seek | BackupEngineNativePart/StreamBlockReader.cpp:30-40 | whatever was buffered, the cursor is at the target |
| BlockReader.BlockByBlockReader.FinishRead | BackupEngineNativePart/StreamBlockReader.cpp:64-82 | delivers some of the bytes at the offset and advances by them, or sets eof at the end |
| BlockReader.BlockByBlockReader.NextBlock | BackupEngineNativePart/StreamBlockReader.cpp:93-114 | the next min(block size, remaining) bytes, nothing lost or repeated however the disk splits its reads |
| BlockReader.ByteByByteReader.constructor | BackupEngineNativePart/StreamBlockReader.cpp:122-125 | a new reader stands at the start with its second buffer filled |
| BlockReader.ByteByByteReader.Seek | BackupEngineNativePart/StreamBlockReader.cpp:116-120 | the cursor is at the target and the second buffer is empty |
| BlockReader.ByteByByteReader.NextByte | BackupEngineNativePart/StreamBlockReader.cpp:127-134 | the next byte; false exactly when the second buffer is empty, which after whole_block means the end of the file |
| BlockReader.ByteByByteReader.ReadMore2 | BackupEngineNativePart/StreamBlockReader.cpp:136-139 | looks one block ahead without moving the cursor |
| BlockReader.ByteByByteReader.WholeBlock | BackupEngineNativePart/StreamBlockReader.cpp:141-157 | the next min(block size, remaining) bytes whatever mix of calls came before, and the reader is primed |
| BlockReader.NormalFile.Seek | BackupEngineNativePart/Rsync.cpp:21-29 | the cursor is at the target whatever was carried over |
| BlockReader.NormalFile.Read | BackupEngineNativePart/Rsync.cpp:31-54 | the next bytes, short only at the end |
| BlockReader.NormalFile.ReadSeries | BackupEngineNativePart/Rsync.cpp:31-54 | any series of reads is what the plain cursor delivers |
| BlockReader.ReadsAreSlices | BackupEngineNativePart/Rsync.cpp:21-54 | after seek(o) the k-th read is the slice of the file behind the earlier ones |
| DeltaCommands.GrowKeepsFlag | BackupEngineNativePart/MiscTypes.h:28-45 | growing a command below 2^63 adds to its length and leaves flag and offset alone |
| DeltaCommands.GrowOverflowsIntoFlag | BackupEngineNativePart/MiscTypes.h:28-45 | growing it to 2^63 or beyond turns the flag |
| DeltaCommands.TilesIff | rsync_test2/FileComparer.cpp:68-122 | tiling is the shape every run has, and that copy-old commands stay inside the old file |
| DeltaCommands.TilesInRange | rsync_test2/FileComparer.cpp:68-122 | in a tiling list a copy-new command reads from its own position and a copy-old command stays inside the old file |
| DeltaCommands.TransformFile | rsync_test/Program.cs:535-566 | writes the bytes the commands stand for, in chunks of 4096 |
| DeltaCommands.CopyCommand | rsync_test/Program.cs:556-563 | one command copies its slice, whatever the chunk buffer held |
| Matcher.EveryRunTiles | rsync_test2/FileComparer.cpp:56-122 | in every run, whatever the searches return, no command is empty, the lengths sum to the file size, and a copy-new command reads from its own position |
| Matcher.FittingRunStaysInside | rsync_test2/FileComparer.cpp:68-94 | if search results have space for their windows, copy-old commands stay inside the old file |
| Matcher.CompareCompletes | rsync_test2/FileComparer.cpp:56-122 | with sound searches the commands rebuild the new file byte for byte and tile it |
| Matcher.AgreeCompare | rsync_test2/FileComparer.cpp:56-122 | searches that agree at every position give the same commands |
| Matcher.SelfCompare | rsync_test2/FileComparer.cpp:68-94 | searches that find each block at its own offset give one copy-old command |
| Matcher.NativeRoundsUp | BackupEngineNativePart/FileComparer.cpp:99-102 | with the native increment the commands are the same, except that a copy-old command at the end is rounded up to whole blocks |
| Matcher.SameWithoutShortMatch | BackupEngineNativePart/FileComparer.cpp:222-228 | if no window shorter than a block is ever found, the native commands are the same |
| Matcher.NativeCoversIff | BackupEngineNativePart/FileComparer.cpp:222-228 | a step: the native commands cover the new file if and only if the last command is not a copy-old of broken length |
| Delta.EveryRunTilesNewFile | rsync_test2/FileComparer.cpp:56-122 | for every table and new file, collisions included, the commands tile the new file |
| Delta.TransformKeepsSize | rsync_test/Program.cs:535-566 | so TransformFile always writes as many bytes as the new file has |
| Delta.CopiesStayInside | rsync_test2/FileComparer.cpp:68-94 | if no window shares its key with an old block of another length, every command reads inside its file |
| Delta.SearchesAreSound | BackupEngineNativePart/FileComparer.cpp:183-220 | without collisions every search result is an old block with the window's bytes |
| Delta.CommandsRebuild | rsync_test2/FileComparer.cpp:56-122 | for every old file, new file and block size without collisions, the command list rebuilds the new file, and reads inside both files |
| Delta.RoundTrip | rsync_test/Program.cs:535-566 | the same through TransformFile |
| Delta.CompareWithItself | rsync_test2/FileComparer.cpp:68-94 | a non-empty file compared with itself gives one command, copy-old from 0 with the full length; no assumption on collisions |
| Delta.NativeCompareWithItself | BackupEngineNativePart/FileComparer.cpp:222-228 | for the native copy that length is right if and only if the size is a multiple of the block size |
| Delta.NativeCoversEveryNewFileIff | BackupEngineNativePart/FileComparer.cpp:222-228 | for every old file, the native copy covers every collision-free new file if and only if the old size is a multiple of the block size or a window of its short last block collides with one of its blocks |
| Delta.TailMayCollide | BackupEngineNativePart/FileComparer.cpp:183-220 | the second case exists: an old file of broken size that no collision-free new file ends like |
| Delta.NativeCoversThis | BackupEngineNativePart/FileComparer.cpp:222-228 | under that condition the native copy covers a given collision-free new file |
| Delta.NativeMissesTail | BackupEngineNativePart/FileComparer.cpp:222-228 | otherwise it does not cover the last block alone |
| Delta.ShortMatchIsTail | BackupEngineNativePart/FileComparer.cpp:183-220 | a window shorter than a block is only found if it is the short last block of the old file |
| Delta.EmptyEntryNeverFound | BackupEngineNativePart/FileComparer.cpp:153-156 | what a window finds is in the table left by a comparison if and only if it is in the one digested from scratch |
| Delta.ByProductTableServes | BackupEngineNativePart/RsyncableFile.cpp:40-45 | a table left by a comparison gives the same commands as one digested from scratch |
| Choices.LookIs | BackupEngineNativePart/FileComparer.cpp:183-220 | a window is found if and only if the table has its checksum and hash; where it is found is an offset the table has for it, the target if that is one, otherwise the lowest |
| Choices.EveryRunChoosesWell | BackupEngineNativePart/FileComparer.cpp:79-137 | for every table and new file, collisions included: at no position of a copy-new command does the table have the window; at each block start of a copy-old command it has the window at the offset read there; a copy-old command starts at the lowest offset and only where the one before cannot go on |
| Choices.CommandsAreTheChoice | BackupEngineNativePart/FileComparer.cpp:79-137 | a list of commands is well chosen and complete if and only if it is the one the comparison emits |
| Choices.EveryNativeRunChoosesWell | BackupEngineNativePart/FileComparer.cpp:222-224 | the commands of the native copy are well chosen too |
| HashingThread.FeedKeepsInv | BackupEngineNativePart/FileComparer.cpp:248-267 | filling new_buffer keeps: bytes hashed, then queued, then in new_buffer are the bytes fed |
| HashingThread.FlushKeepsInv | BackupEngineNativePart/FileComparer.cpp:153-154 | so does the forced push |
| HashingThread.TerminateKeepsInv | BackupEngineNativePart/FileComparer.cpp:155 | and the terminator, which nothing follows |
| HashingThread.BlockKeepsBytes | BackupEngineNativePart/FileComparer.cpp:286-306 | the thread takes a block without changing what was hashed and queued together |
| HashingThread.BlockKeepsTable | BackupEngineNativePart/FileComparer.cpp:299-306 | and adds its item at the right offset |
| HashingThread.ThreadKeepsInv | BackupEngineNativePart/FileComparer.cpp:281-310 | and each turn of the thread |
| HashingThread.RunKeepsInv | BackupEngineNativePart/FileComparer.cpp:248-310 | and every legal run of steps |
| HashingThread.EveryInterleaving | BackupEngineNativePart/FileComparer.cpp:248-310 | in every interleaving no byte is lost, repeated or out of order; a stopped thread has hashed the whole file and sorted its table |
| HashingThread.DoneTable | BackupEngineNativePart/FileComparer.cpp:299-309 | table and digest of a stopped thread are those of the bytes fed |
| Comparer.DigestFile | BackupEngineNativePart/RsyncableFile.cpp:10-38 | table, digest and block size of a file, through the reader |
| Comparer.FileComparer.constructor | BackupEngineNativePart/FileComparer.cpp:139-147 | a new comparer is ready and its new block size is the one scaler_function chooses |
| Comparer.FileComparer.AddBlock | BackupEngineNativePart/FileComparer.cpp:257-267 | feeds exactly the block, however it straddles new_buffer, with the thread running in between |
| Comparer.FileComparer.RequestThreadStop | BackupEngineNativePart/FileComparer.cpp:153-156 | queues the rest and the terminator, and keeps the pipeline's invariant |
| Comparer.FileComparer.Finished | BackupEngineNativePart/FileComparer.cpp:70-77 | after it the thread is done, with the table and digest of the whole new file |
| Comparer.FileComparer.ReadMoreData | BackupEngineNativePart/FileComparer.cpp:162-167 | the window becomes the next block with its checksum, or the file is at its end and fed completely |
| Comparer.FileComparer.NonMatchingReadMoreData | BackupEngineNativePart/FileComparer.cpp:169-181 | the window moves by one byte, shrinking at the end of the file, and the rolled checksum is the window's |
| Comparer.FileComparer.SearchWindow | BackupEngineNativePart/FileComparer.cpp:183-220 | searches for the window; what a search must find is Choices.LookIs, what the run makes of it is in Process |
| Comparer.FileComparer.StateInitial | BackupEngineNativePart/FileComparer.cpp:79-88 | the state keeps the command list the run will end with |
| Comparer.FileComparer.StateMatching | rsync_test2/FileComparer.cpp:68-94 | the same for matching |
| Comparer.FileComparer.StateNonMatching | BackupEngineNativePart/FileComparer.cpp:118-137 | the same for not matching |
| Comparer.FileComparer.Process | BackupEngineNativePart/FileComparer.cpp:51-62 | terminates, for either increment and whatever disk and scheduler did, with commands that copy from the old file where its table has the block and from the new file only where it has none, and with the table and digest of the new file |
| Comparer.TableOfNewFile | BackupEngineNativePart/RsyncableFile.cpp:40-45 | the new file can be the old file of the next comparison |
| Comparer.CompareFiles | BackupEngineNativePart/FileComparer.cpp:51-62 | one comparison: the commands are well chosen and complete, they rebuild the new file, and the table left behind is the by-product table for the block size of the new file |
| DeltaChain.OneArrangement | BackupEngineNativePart/Rsync.cpp:182 | parts at different offsets have one sorted arrangement |
| DeltaChain.MakeLink | BackupEngineNativePart/Rsync.cpp:166-185 | for every table the parts are a sorted arrangement of its commands; over a tiling table the link contains what the commands make of its two files |
| DeltaChain.TransformOffset | BackupEngineNativePart/Rsync.cpp:199-207 | finds the one part that holds an offset, or fails exactly at the end of the version |
| DeltaChain.ReconstructSection | BackupEngineNativePart/Rsync.cpp:209-222 | for streams of any depth, the parts added lie inside plain files, announce as many bytes as there are and read as the slice of the version, clipped to its length, if and only if the stream is a link or the section ends inside the file; loop and recursion terminate |
| DeltaChain.LeafReconstructs | BackupEngineNativePart/Rsync.cpp:12-19 | a plain file delivers, with as many bytes as announced, exactly the sections that end inside it |
| DeltaChain.ReconstructLink | BackupEngineNativePart/Rsync.cpp:209-222 | the loop of a link |
| DeltaChain.ChainGivesVersion | BackupEngineNativePart/Rsync.cpp:166-185 | a chain of k deltas contains version k |
| DeltaChain.ReconstructVersion | BackupEngineNativePart/Rsync.cpp:209-222 | the deltas against any tables that describe their versions, chained, give back every section of the last version |
| VersionRuns.NextVersion | BackupEngineNativePart/RsyncableFile.cpp:40-45 | one run of the comparer and one link: from version i, its table and its chain to those of version i + 1 |
| VersionRuns.ReconstructAfterComparisons | BackupEngineNativePart/Rsync.cpp:166-222 | version 0 is digested, every later version is compared by the comparer with the table the one before left, and the chain gives back every section of the last version from plain files |
| DeltaChain.OneDelta | rsync_test2/FileComparer.cpp:56-122 | the commands of one comparison are a delta from the old version to the new |
| BackupSpec.HonestKeepsChain | BackupEngine/BackupEngine.cs:494-539 | a backup in which no changed object was marked Unmodified keeps the chain valid: data located, dependencies earlier, ids fresh |
| BackupSpec.LieBreaksChain | BackupEngine/BackupEngine.cs:459-473 | a changed object marked Unmodified breaks it |
| BackupSpec.KeepsChainIff | BackupEngine/BackupEngine.cs:452-492 | hence a backup keeps the chain valid if and only if there is no such object |
| BackupSpec.EveryRunIsValid | BackupEngine/BackupEngine.cs:320-343 | after any run of backups with adds, deletes, edits, hardlinks and backups that throw, the chain is valid |
| BackupSpec.IdsBelow | BackupEngine/BackupEngine.cs:157-160 | ids of a version are below those of every later one: never reused |
| BackupSpec.ExactlyOneArchive | BackupEngine/BackupEngine.cs:378-405 | of the archives opened at restore, the version and its direct dependencies, exactly the one named by LatestVersion has the object's stream |
| BackupSpec.HardlinksShareStream | BackupEngine/BackupEngine.cs:438-450 | hardlinks to one file, on a tree where objects that share a GUID are hardlinks, have one id and one version |
| BackupSpec.LyingBackup | BackupEngine/BackupEngine.cs:459-473 | a backup that succeeds and breaks the chain |
| BackupSpec.LeftOutOfRunIff | BackupEngine/BackupEngine.cs:669-707 | in every run an object has no data if and only if going back along unchanged old selves leads to an object that belonged to no stream |
| BackupSpec.RunHistory | BackupEngine/BackupEngine.cs:320-343 | every archive of a run is what one backup wrote on top of the archive before |
| BackupSpec.FileInPlaceOfDirectoryIsLeftOut | BackupEngine/BackupEngine.cs:669-707 | such a run of two backups |
| BackupSpec.FindPath | BackupEngine/BackupEngine.cs:664-667 | the first object at a path, or none if there is none |
| BackupSpec.LeaderOf | BackupEngine/BackupEngine.cs:585-598 | the object whose stream an object belongs to comes no later and is addable |
| BackupMeaning.ThrowsIff | BackupEngine/BackupEngine.cs:452-492 | a backup fails if and only if data that must be stored again has a mode other than Full and ForceFull |
| BackupMeaning.LeaderWrites | BackupEngine/BackupEngine.cs:459-483 | an object that starts a stream gets the new version and an id of this archive if its data must be stored, otherwise id and version of the object that stood at its path |
| BackupMeaning.StreamsWritten | BackupEngine/BackupEngine.cs:562-583 | the archive has one stream for each object whose data must be stored, ids in their order, and no other |
| BackupMeaning.DependenciesWritten | BackupEngine/BackupEngine.cs:504-510 | the manifest lists a version if and only if it is an earlier one and some object refers to it |
| BackupMeaning.BackupRecords | BackupEngine/BackupEngine.cs:494-539 | an archive holds the tree, stores what must be stored and nothing else, keeps id and version of the rest, and lists exactly the versions it refers to |
| BackupMeaning.EverySessionRecords | BackupEngine/BackupEngine.cs:269-276 | over any run of backups: each session either throws, when it should, and leaves the archives alone, or adds one archive that records what it must, said of its tree, its criterion and the archives before it |
| BackupMeaning.RunsGrow | BackupEngine/BackupEngine.cs:320-343 | later backups leave the archives of a run alone |
| BackupMeaning.DifferentFilesDifferentIds | BackupEngine/BackupEngine.cs:157-160 | in every version of every run, two objects stored in it that are not hardlinks of one file have different ids |
| Engine.SkipStep | BackupEngine/BackupEngine.cs:585-598 | an object without a stream keeps the invariant of the pass |
| Engine.JoinStep | BackupEngine/BackupEngine.cs:438-450 | a hardlink that joins a known stream keeps it, and the stream is its leader's |
| Engine.LeadStep | BackupEngine/BackupEngine.cs:452-492 | an object that starts a stream keeps it, with or without a fresh id |
| Engine.DependencyAgrees | BackupEngine/BackupEngine.cs:541-555 | what GetDependencies adds is what the specification says |
| Engine.BackupEngine.ShouldBeAdded | BackupEngine/BackupEngine.cs:585-598 | which objects start a stream, and the version every object gets first |
| Engine.BackupEngine.FixUpStreamReference | BackupEngine/BackupEngine.cs:438-450 | a hardlink with a known GUID joins its stream; nothing else changes |
| Engine.BackupEngine.GenerateInitialStream | BackupEngine/BackupEngine.cs:419-436 | a new full stream for a leader, otherwise the object is done |
| Engine.BackupEngine.FileHasChanged | BackupEngine/BackupEngine.cs:669-707 | no old self or a criterion that fires; an unchanged object takes the old version |
| Engine.BackupEngine.CheckAndMaybeAdd | BackupEngine/BackupEngine.cs:452-492 | the stream the specification decides on; throws exactly when the specification does; which these must be is BackupMeaning.LeaderWrites and ThrowsIff |
| Engine.BackupEngine.SetUniqueIds | BackupEngine/FileSystem/FileSystemObject.cs:384-387 | the object gets the next id |
| Engine.BackupEngine.GenerateStreams | BackupEngine/BackupEngine.cs:562-583 | the pass over all objects ends with every object as specified, or throws exactly when one of them makes it |
| Engine.BackupEngine.GetDependencies | BackupEngine/BackupEngine.cs:541-555 | adds the versions of one object |
| Engine.BackupEngine.CollectDependencies | BackupEngine/BackupEngine.cs:504-510 | the manifest lists exactly the specified versions, which by BackupMeaning.DependenciesWritten are those objects refer to |
| Engine.BackupEngine.GenerateArchive | BackupEngine/BackupEngine.cs:494-539 | adds the specified archive, or none when the pass throws |
| Engine.BackupEngine.SetOldObjectsDict | BackupEngine/BackupEngine.cs:309-318 | the dictionary, which the last object at a path wins, agrees with the search, which the first wins |
| Engine.BackupEngine.PresetStreamIds | BackupEngine/BackupEngine.cs:332-341 | every object starts with the id of its old self; that it keeps it with the version is BackupMeaning.LeaderWrites |
| Engine.BackupEngine.CreateInitialVersion | BackupEngine/BackupEngine.cs:303-307 | the first archive is the specified one |
| Engine.BackupEngine.UpdateExistingVersion | BackupEngine/BackupEngine.cs:320-343 | so is every later one |
| Engine.BackupEngine.PerformBackup | BackupEngine/BackupEngine.cs:269-276 | one backup throws when it should and leaves the archives as they were, or adds an archive that records what it must |
| Engine.BackupRepeatedly | BackupEngine/BackupEngine.cs:246-276 | any number of backups, one engine and one change criterion each, leave the specified chain, and it is valid |
| Restore.ClosedHasAll | BackupEngine/BackupEngine.cs:356-365 | a set of versions closed under dependencies has everything its members reach |
| Restore.ReachesBack | BackupEngine/BackupEngine.cs:364 | a version reaches only versions no later than itself |
| Restore.OpenVersions | BackupEngine/BackupEngine.cs:352-365 | the worklist terminates; every version it opens is needed, opened once, and brings its dependencies |
| Restore.VersionForRestore.MapDependencies | BackupEngine/VersionForRestore.cs:87 | every lookup in the dictionary succeeds and is recorded |
| Restore.VersionForRestore.FillDependencies | BackupEngine/VersionForRestore.cs:83-90 | terminates with this version and everything it reaches full, and leaves later versions alone |
| Restore.FullReachesFull | BackupEngine/VersionForRestore.cs:83-90 | a full version reaches only full versions |
| Restore.InitializeStructures | BackupEngine/BackupEngine.cs:351-369 | exactly the versions reachable from the latest are opened, each once, and all of them end full |
| Container.LengthFieldReads | BackupEngine/Archive/ArchiveWriter.cs:140-141 | the eight length bytes read back as the length, below 2^63 |
| Container.UnsignedSnoc | BackupEngine/Archive/ArchiveWriter.cs:140-141 | of the length bytes the last one weighs most |
| Container.CutUndoesFlatten | BackupEngine/Archive/ArchiveReader.cs:65-69 | cutting joined entries at their sizes gives the entries, whatever follows |
| Container.ArchiveWriter.AddFile | BackupEngine/Archive/ArchiveWriter.cs:62-89 | adds a stream, in the states that allow it |
| Container.ArchiveWriter.AddFso | BackupEngine/Archive/ArchiveWriter.cs:91-112 | adds an object and closes the file section, in the states that allow it |
| Container.ArchiveWriter.AddVersionManifest | BackupEngine/Archive/ArchiveWriter.cs:114-154 | leaves the archive file of everything added, and only right after an object: it begins with the encoded files and objects and ends with the digest of all bytes before |
| Container.BoundedStream.Read | BackupEngine/Streams/BoundedStream.cs:33-40 | the next bytes of the stream below, never beyond the bound; empty exactly at bound, end or request for nothing |
| Container.BoundedStream.ReadUpTo | BackupEngine/Streams/BoundedStream.cs:33-40 | a reader that asks again gets min(wanted, size, remaining) bytes however the reads are split |
| Container.ArchiveReader.ReadManifest | BackupEngine/Archive/ArchiveReader.cs:30-54 | finds the manifest from the end of the file, also when asked again, or fails on a file too short or with a bad length |
| Container.ArchiveReader.ReadBaseObjects | BackupEngine/Archive/ArchiveReader.cs:56-71 | the objects in the section before the manifest |
| Container.ArchiveReader.Begin | BackupEngine/Archive/ArchiveReader.cs:80-94 | what a callback sees that reads any number of bytes of each stream |
| Container.RoundTrip | BackupEngine/Archive/ArchiveReader.cs:30-94 | manifest, objects and, with every stream read fully, (id, bytes) streams are those written |
| Container.ShowsOwnBytesIff | BackupEngine/Archive/ArchiveReader.cs:87-92 | what Begin shows of a stream is a prefix of its own bytes, whatever the streams hold, if and only if all earlier ones were read fully or nothing is read of this one |
| Container.StartsRightIff | BackupEngine/Archive/ArchiveReader.cs:87-92 | a step: the cursor stands at the start of a stream if and only if all earlier ones were read fully |
| Container.UnreadStreamIsShownAgain | BackupEngine/BackupEngine.cs:384-386 | two streams and a callback that skips the first |
| Container.WriteThenRead | BackupEngine/Archive/ArchiveWriter.cs:62-154 | writer and reader, run one after the other on any files, objects and version, undo each other |

## Left out

- RingBuffer.CircularBuffer.Pop: needs a start inside the memory unless the buffer is empty. A buffer drained by pop_buffer up to its very end and pushed into again holds its bytes at the front, and pop would read behind the memory.
- RingBuffer.CircularBuffer.PushBuffer: needs a capacity other than 0, by which it divides.
- DeltaChain.MakeLink: what a link over a table that does not tile contains is not said; entries of length zero would confuse find_part.
- Delta.CommandsRebuild: sizes below 2^63, as the top-bit flag requires.
- Container.RoundTrip: a manifest section shorter than 2^63 bytes, as its length field requires.
- Engine.BackupEngine.PerformBackup: objects and streams refer to each other by index instead of by reference; the base objects are one list in Iterate order, so that the loop over base objects in GenerateArchive is one loop over all of it; AddFile's hashing of contents is not modelled.
- Engine.BackupEngine.UpdateExistingVersion: at most one old object to a path, as in a file tree; paths are compared as they are, without SimplifyPath.
- BackupSpec.EveryRunIsValid: objects that share a GUID are all hardlinks, as a file system guarantees; version numbers are consecutive because no archive is ever deleted.
- BackupSpec.IdsBelow: stream ids are unbounded numbers; the wrap-around of the 64-bit counter is not modelled.
- BlockTable.ScalerFunction: file sizes are unbounded numbers, so that the sum in it never wraps.
- Restore.InitializeStructures: the dependencies of a version are a set and are visited in any order.
- HashingThread.EveryInterleaving: safety only. The terminator is pushed without the mutex and without a second signal of the event, so that the thread need not wake up; its push is one step of the model.
- Disk reads: the overlapped read and its wait are one step, so cancelling a read has no effect; a missing current_buffer is an empty one; Win32 errors are not part of this model.
- SparseFile, and seek and read of RsyncChainLink: they contradict their own use (the part index is taken from the end of the list, and a failed lookup is taken for success), so there is no behaviour of theirs to prove; reads go through reconstruct_section.
- Writing restored data: the callback in RestoreBackup does not compare the id it found with the id of the stream; the model says where data is, not what is written.
- Snapshots, volumes and path mapping, reparse points, transactions, LZMA, protobuf and SHA: foreign code, abstracted or absent.
- DiffStream and differential backup: not implemented in the code beyond an exception, which is modelled as a backup that throws.
- SetAllStreamIds, GetFso and GetStream of VersionForRestore: not used by restore.
- Hashes kept with objects, console output and progress bars: no influence on what is proved.
