# Sorted MD5 word list: a Dafny model of the external sort

The modelled program builds a word list. For every ID in a range `start..end` of Java
`long`s, it computes the MD5 digest of the ID's 16-digit zero-padded hex form plus a
newline: a 16-byte record. It then writes all records to one file, in ascending order of
their last six bytes read as unsigned numbers (the record's key). There are more records
than memory holds, so the sort is external and runs in two phases.

1. **CreateBlocks.** The IDs are cut into consecutive blocks of `bufferSize / 16` IDs each.
   For each block in turn:
   - worker threads fill a byte buffer, each thread taking a consecutive sub-range of the
     block's IDs and writing each record at the ID's own slot;
   - the buffer is quicksorted in place into *descending* key order;
   - the buffer is written to the block's file `filename + blockId` and then released.
2. **MergeBlocks.** The byte budget is shared out among one `ReverseFileReader` per block
   file.
   - A reader moves the tail of its file into its buffer, truncates the file by as much,
     and pops the buffered records from the top down. A descending file therefore pops in
     ascending order, and what has been read no longer occupies the disk.
   - A `MergeHandler` splits the blocks into ranges, one per lane thread. Each lane
     merges its blocks through a priority queue into its own blocking queue of
     `ComparisonDTO`s, closed by a null entry.
   - The handler (the coordinator) merges the lanes' queues the same way into a result
     queue, closed by a one-byte array.
   - The main thread writes every 16-byte array it takes from the result queue to the
     output file.

The model has one Dafny module per core Java file:

| module | Java file | what it holds |
|---|---|---|
| `Comparison` | ComparisonDTO | the record order |
| `Quicksort` | Quicksort | in-place sort on an `array<Byte>` |
| `Blocks` | Block | class with the record buffer and the block file |
| `Planning` | CreateBlocks | block sizing and the `create()` loop |
| `Reader` | ReverseFileReader | class with buffer, position, limit, the file on disk and a ghost record of what was popped |
| `PriorityMerge` + `MergeHandler` | MergeHandler | both priority-queue loops |
| `MergeBlocks` | MergeBlocks | constructor sizing and `merge()` |

Shared definitions:
- `Bytes`: Java `byte`, 16-byte records, the record view of a buffer.
- `Ranges`: the split of a range into consecutive parts, which both `generateHashes` and
  `initThreads` use.
- `JavaArith`: Java's truncating `/` and `%`.
- `Wrappers`: `Option`, `Result` and `Outcome` for null and thrown exceptions.

Exceptions the Java code throws are `Failure`/`Fail` results with the exception's kind.

The main results:
- Quicksort sorts its range in place into descending key order, and the result is a
  permutation of what was there.
- `generateHashes` leaves the record of every ID of the block in its slot.
- `create()` writes the block files for exactly the plan's blocks, each sorted.
- A reader pops exactly its file's records, last first, and loses or repeats nothing.
- The lane and coordinator loops pass on exactly the records they were given, and pass
  them in ascending order when their inputs are ascending.
- `merge()` writes 16 bytes for every record of the block files, as a permutation of
  those records, ascending when the block files are descending.
- `CreatedBlocksFeedMerge` connects the two phases: the block files `create()` writes
  satisfy everything `Merge` needs, and together they hold the record of every ID of
  `start..end` exactly once.

The threads hand records to one another only through blocking queues, so what each queue
receives does not depend on how the threads interleave. The model therefore runs the
worker threads, the quicksort halves and the merge lanes one after another.

## Model

Source paths are relative to the repository root.

| member | source | states |
|---|---|---|
| Bytes.Unsigned | src/main/java/se/kth/ii142x/thesis/DTO/ComparisonDTO.java:45-46 | `b & 0xff` is a value in 0..255 congruent to the signed byte modulo 256 |
| Comparison.ComparisonDTO.CompareTo | src/main/java/se/kth/ii142x/thesis/DTO/ComparisonDTO.java:21-24 | two entries compare by the sign of their records' key difference; a null right record makes the result -1, a null left one (right not null) 1 |
| Comparison.Compare | src/main/java/se/kth/ii142x/thesis/DTO/ComparisonDTO.java:34-54 | null right gives -1 even if left is null, null left gives 1, two records give the sign of Key(left) - Key(right), where Key is bytes 10..15 as an unsigned big-endian number |
| Comparison.KeyScanIsKeyOrder | src/main/java/se/kth/ii142x/thesis/DTO/ComparisonDTO.java:43-53 | the byte-by-byte loop, from any point where the keys agree so far, returns the numeric order of the two keys |
| Comparison.KeyScanZero | src/main/java/se/kth/ii142x/thesis/DTO/ComparisonDTO.java:43-53 | the loop returns 0 exactly when the remaining key bytes are equal |
| Comparison.KeyIs48Bits | src/main/java/se/kth/ii142x/thesis/DTO/ComparisonDTO.java:8-11 | a key (six bytes from index 10) is below 2^48 |
| Comparison.CompareZeroIffKeysEqual | src/main/java/se/kth/ii142x/thesis/DTO/ComparisonDTO.java:34-54 | on records the result is -1, 0 or 1, and 0 exactly when bytes 10..15 are equal |
| Comparison.OnlyKeyBytesMatter | src/main/java/se/kth/ii142x/thesis/DTO/ComparisonDTO.java:43-51 | changing bytes 0..9 of either record never changes the result |
| Comparison.FirstDifferenceDecides | src/main/java/se/kth/ii142x/thesis/DTO/ComparisonDTO.java:43-51 | the first differing key byte decides, compared as unsigned values |
| Comparison.HighBytesRankAbove | src/main/java/se/kth/ii142x/thesis/DTO/ComparisonDTO.java:44-46 | at the first differing key byte, a negative Java byte (0x80..0xff) ranks above a non-negative one, in both argument orders |
| Comparison.TotalPreorder | src/main/java/se/kth/ii142x/thesis/DTO/ComparisonDTO.java:34-54 | on records the comparison is antisymmetric, transitive and total |
| Ranges.PartsChain | src/main/java/se/kth/ii142x/thesis/model/Block.java:44-56 | the parts `start + i * range .. start + (i + 1) * range - 1`, the last one running to the end, are consecutive and lie inside the range, part 0 starting at its first and the last part ending at its last member |
| Ranges.PartsCover | src/main/java/se/kth/ii142x/thesis/model/Block.java:44-56 | the parts laid end to end are exactly the range, so every member belongs to exactly one part |
| JavaArith.DivRemSpec | src/main/java/se/kth/ii142x/thesis/MergeBlocks.java:32-34 | the model's Java `/` and `%` satisfy q * b + r == a, abs(r) < abs(b), and r takes the dividend's sign; on non-negative operands they are ordinary division |
| JavaArith.FloorToRecordSpec | src/main/java/se/kth/ii142x/thesis/CreateBlocks.java:27-28 | `x -= x % 16` gives a multiple of 16 at most 15 away from x toward zero, positive exactly when x >= 16 |
| Quicksort.Swap | src/main/java/se/kth/ii142x/thesis/util/Quicksort.java:89-98 | after the byte-by-byte exchange through a one-record temporary, the record view is the old one with the two records exchanged and every other record as it was |
| Quicksort.SwappedBytesSwapRecords | src/main/java/se/kth/ii142x/thesis/util/Quicksort.java:91-98 | exchanging the 16 bytes at two aligned offsets exchanges the two records of the record view |
| Quicksort.CompareTo | src/main/java/se/kth/ii142x/thesis/util/Quicksort.java:100-118 | the in-buffer comparison at two byte offsets equals ComparisonDTO.compare on the two records |
| Quicksort.InsertRecord | src/main/java/se/kth/ii142x/thesis/util/Quicksort.java:73-85 | one pass of the inner loop turns a descending prefix [start, m) into a descending [start, m], permuting only records of the range |
| Quicksort.InsertionSort | src/main/java/se/kth/ii142x/thesis/util/Quicksort.java:65-87 | records [start, end] become a permutation of themselves in descending key order; nothing outside changes; a range of at most one record is left unchanged |
| Quicksort.Partition | src/main/java/se/kth/ii142x/thesis/util/Quicksort.java:43-58 | returns the pivot's final index p in [start, end]; records before it have keys >= the pivot's, records after it smaller keys; the range is a permutation of what it was |
| Quicksort.SortedSidesJoin | src/main/java/se/kth/ii142x/thesis/util/Quicksort.java:60-61 | sorting the two sides of a partition, each by a permutation within its side, sorts the whole range descending |
| Quicksort.Compute | src/main/java/se/kth/ii142x/thesis/util/Quicksort.java:37-62 | records [start, end] end up a permutation of the old ones in descending key order, every record outside unchanged, with or without equal keys |
| Blocks.HexStringFits | src/main/java/se/kth/ii142x/thesis/model/Block.java:129 | `Long.toHexString` of any long has at most 16 digits, so `padZeros` never throws on it |
| Blocks.HexDigitsInjective | src/main/java/se/kth/ii142x/thesis/model/Block.java:129 | distinct numbers have distinct hex forms |
| Blocks.PadZeros | src/main/java/se/kth/ii142x/thesis/model/Block.java:145-147 | throws exactly for strings longer than 16; otherwise 16 characters, the string at the end and '0' before it |
| Blocks.PadZerosInjective | src/main/java/se/kth/ii142x/thesis/model/Block.java:145-147 | two hex forms without leading zeros pad to the same string only if they are equal |
| Blocks.DigestText | src/main/java/se/kth/ii142x/thesis/model/Block.java:129 | the digested text is 17 characters, 16 hex digits then a newline |
| Blocks.DigestInput | src/main/java/se/kth/ii142x/thesis/model/Block.java:130 | the UTF-8 bytes of the digested text are its 17 ASCII codes |
| Blocks.DigestInputsDistinct | src/main/java/se/kth/ii142x/thesis/model/Block.java:129-130 | distinct IDs are digested from distinct byte strings |
| Blocks.BlockFilesDistinct | src/main/java/se/kth/ii142x/thesis/model/Block.java:31 | distinct block ids give distinct file names `filename + blockId`, so no block overwrites another |
| Blocks.OffsetsDisjoint | src/main/java/se/kth/ii142x/thesis/model/Block.java:134-137 | every ID's slot `(n - blockStart) * 16` lies inside the buffer and slots of distinct IDs do not overlap, so threads writing distinct IDs never write the same byte |
| Blocks.PutRecord | src/main/java/se/kth/ii142x/thesis/model/Block.java:135-137 | the 16 bytes from startIndex become the record; every other byte is unchanged |
| Blocks.Call | src/main/java/se/kth/ii142x/thesis/model/Block.java:123-143 | every ID of the thread's range has its record in its slot and no byte outside the range's slots changes; a released buffer throws NullPointerException exactly when there is an ID to write |
| Blocks.ThreadStep | src/main/java/se/kth/ii142x/thesis/model/Block.java:48-56 | thread i starts where thread i - 1 stopped, stays within the block, and the last thread ends at the block's end |
| Blocks.Block.constructor | src/main/java/se/kth/ii142x/thesis/model/Block.java:25-34 | the fields as given, `amountOfHashes == end - start + 1`, name `filename + blockId`, a fresh buffer of 16 bytes per ID, no file yet |
| Blocks.NewBlock | src/main/java/se/kth/ii142x/thesis/model/Block.java:25-34 | `ByteBuffer.allocate` throws IllegalArgumentException exactly for a negative size (end < start - 1); otherwise the constructor's block |
| Blocks.Block.GenerateHashes | src/main/java/se/kth/ii142x/thesis/model/Block.java:39-71 | fails with IllegalArgument for a thread count below 1, and for a released buffer that has IDs to write with the ExecutionException that `future.get()` wraps around the worker's NullPointerException; otherwise the buffer's records are those of IDs start..end in ID order |
| Blocks.Block.Sort | src/main/java/se/kth/ii142x/thesis/model/Block.java:73-81 | NullPointer for a released buffer, IllegalArgument for a pool size outside 1..0x7fff (buffer unchanged); otherwise the records become a descending permutation of themselves |
| Blocks.Block.WriteToFile | src/main/java/se/kth/ii142x/thesis/model/Block.java:83-92 | the file becomes the whole buffer and the buffer is released; with a released buffer it throws NullPointer and the file is unchanged |
| Planning.HashesPerBlock | src/main/java/se/kth/ii142x/thesis/CreateBlocks.java:21-35 | throws IllegalArgument exactly when the budget is below one record; otherwise the most records whose bytes fit the budget (at least 1) |
| Planning.HashesPerBlockFits | src/main/java/se/kth/ii142x/thesis/CreateBlocks.java:34 | an int budget gives at most Integer.MAX_VALUE / 16 records per block, so a block's byte count is an int |
| Planning.PlanCovers | src/main/java/se/kth/ii142x/thesis/CreateBlocks.java:50-80 | the blocks' IDs laid end to end are exactly start..end, each once and in order |
| Planning.PlanSizes | src/main/java/se/kth/ii142x/thesis/CreateBlocks.java:51-57 | every block has 1..hashesPerBlock IDs, and every block but the last exactly hashesPerBlock |
| Planning.PlanChain | src/main/java/se/kth/ii142x/thesis/CreateBlocks.java:75-79 | the first block starts at start, each one starts right after the one before it ends, and the last ends at end |
| Planning.PlanCount | src/main/java/se/kth/ii142x/thesis/CreateBlocks.java:50-80 | there are ceil((end - start + 1) / hashesPerBlock) blocks |
| Planning.PlanWithin | src/main/java/se/kth/ii142x/thesis/CreateBlocks.java:51-57 | every block lies inside start..end |
| Planning.PlanEncodes | src/main/java/se/kth/ii142x/thesis/CreateBlocks.java:50-80 | the blocks' records laid end to end are the records of start..end in ID order |
| Planning.WriteBlock | src/main/java/se/kth/ii142x/thesis/CreateBlocks.java:61-70 | new block, generate, sort, write: IllegalArgument exactly for a negative size or a thread count outside 1..0x7fff; otherwise a released block whose file holds the records of first..last, sorted descending |
| Planning.AppendBlock | src/main/java/se/kth/ii142x/thesis/CreateBlocks.java:61-73 | the same failures; otherwise the block and its file are added after those written so far, as plan entry `blockId`, and every block so far is released with files[k] as its file |
| Planning.Create | src/main/java/se/kth/ii142x/thesis/CreateBlocks.java:40-84 | IllegalArgument exactly when the first block has a negative size or the thread count is outside 1..0x7fff; otherwise block k is plan entry k, named `filename + k`, its file the records of its IDs sorted descending; every block's buffer is released and its file is files[k] |
| Reader.ReverseFileReader.constructor | src/main/java/se/kth/ii142x/thesis/model/ReverseFileReader.java:19-24 | a fresh buffer of the given capacity, `empty` false, the file on disk as given, nothing popped |
| Reader.ReverseFileReader.RefillBuffer | src/main/java/se/kth/ii142x/thesis/model/ReverseFileReader.java:28-63 | an exhausted reader only empties the buffer; otherwise the last min(length, capacity) bytes of the file move to the front of the buffer, the file is truncated by as much and deleted when exhausted, `empty` is set exactly when this was the rest, a one-record window sits at the top, and nothing is lost; a move of fewer than 16 bytes throws IllegalArgument |
| Reader.ReverseFileReader.Pop | src/main/java/se/kth/ii142x/thesis/model/ReverseFileReader.java:70-93 | null exactly when nothing is left unread; otherwise the record in the window, which is the last of the unread bytes, after which the window moves down one record or the buffer is refilled; the reader's invariant is kept |
| Reader.Open | src/main/java/se/kth/ii142x/thesis/model/ReverseFileReader.java:19-26 | throws IllegalArgument exactly for a negative size or when the first refill moves less than a record (empty file or capacity below 16); otherwise a valid fresh reader over the file, nothing popped |
| Reader.PopOrder | src/main/java/se/kth/ii142x/thesis/model/ReverseFileReader.java:70-93 | the records popped so far, then the unread records back to front, are the original file's records back to front |
| Reader.DescendingFilePopsAscending | src/main/java/se/kth/ii142x/thesis/model/ReverseFileReader.java:9-13 | over a file in descending key order, the records popped and still to pop form one ascending sequence |
| Reader.ExhaustedPoppedAll | src/main/java/se/kth/ii142x/thesis/model/ReverseFileReader.java:70-72 | once the reader is exhausted it has popped exactly the file's records, last first |
| PriorityMerge.CompareRank | src/main/java/se/kth/ii142x/thesis/DTO/ComparisonDTO.java:21-54 | `compareTo` orders entries exactly by rank: the key, with null after every record |
| PriorityMerge.LeastRank | src/main/java/se/kth/ii142x/thesis/MergeHandler.java:107 | the entry `poll()` returns has the least rank, and it is null only when every entry is |
| PriorityMerge.PollConserves | src/main/java/se/kth/ii142x/thesis/MergeHandler.java:177-188 | one poll, re-read and put loses and invents no record (the records still to come drop by exactly the record passed on), and the queue plus what is unread strictly shrinks |
| PriorityMerge.PollKeepsOrder | src/main/java/se/kth/ii142x/thesis/MergeHandler.java:177-188 | over ascending sources the record passed on is at least every record passed before and at most every record still to come |
| PriorityMerge.FillStep | src/main/java/se/kth/ii142x/thesis/MergeHandler.java:165-169 | adding a source's first pop to the queue keeps the records still to come and the queue's order |
| MergeHandler.Init | src/main/java/se/kth/ii142x/thesis/MergeHandler.java:47-86 | IllegalArgument for a thread count below 1, division by zero with no blocks, IllegalArgument when `queueSize / lanes` < 1; otherwise min(threads, blocks) lanes, lane i with id i, blocks [i * range, (i + 1) * range - 1] (the last to the last block) and capacity `queueSize / lanes` |
| MergeHandler.LanesCover | src/main/java/se/kth/ii142x/thesis/MergeHandler.java:64-80 | the lanes' block ranges laid end to end are exactly 0..blocks - 1; each range is non-empty and ends right before the next begins |
| MergeHandler.LaneNonEmpty | src/main/java/se/kth/ii142x/thesis/MergeHandler.java:59-80 | with lanes limited to the block count, every lane has at least one block, so its PriorityQueue capacity is at least 1 |
| MergeHandler.InitCovers | src/main/java/se/kth/ii142x/thesis/MergeHandler.java:58-86 | the lanes initThreads makes cover the blocks, and each has a record when its blocks do |
| MergeHandler.RunLane | src/main/java/se/kth/ii142x/thesis/MergeHandler.java:162-197 | every entry carries the lane's id and the queue ends with a null; the records put are exactly those of the lane's blocks, which are all read; ascending blocks give ascending output; when every block has a record only the closing entry is null |
| MergeHandler.TakeIsPop | src/main/java/se/kth/ii142x/thesis/MergeHandler.java:108-112 | taking the head of a lane's queue gives the lane's next record, or null once none is left, and the rest of the queue holds the rest |
| MergeHandler.RunLanes | src/main/java/se/kth/ii142x/thesis/MergeHandler.java:139-197 | all lanes over their ranges: each finishes with a record first, together they hold exactly the blocks' records, each ascending when every block is |
| MergeHandler.Populate | src/main/java/se/kth/ii142x/thesis/MergeHandler.java:95-98 | afterwards every lane has its first record in the priority queue, nothing is put yet, and no record is lost |
| MergeHandler.Drain | src/main/java/se/kth/ii142x/thesis/MergeHandler.java:100-115 | what is put is exactly every record left in the lanes, ascending when every lane is |
| MergeHandler.Coordinate | src/main/java/se/kth/ii142x/thesis/MergeHandler.java:89-123 | `minResult` receives 16-byte records, then the sentinel {0}; the records are exactly the lanes' records, ascending when every lane is |
| MergeHandler.Run | src/main/java/se/kth/ii142x/thesis/MergeHandler.java:89-132 | lanes then coordinator: `minResult` is exactly the blocks' records, then {0}, ascending when every block is |
| MergeHandler.Handle | src/main/java/se/kth/ii142x/thesis/MergeHandler.java:47-132 | fails exactly when the constructor throws: division by zero for no blocks (with threads >= 1), IllegalArgument for threads < 1 or a queue share below 1; otherwise `minResult` is exactly the blocks' records, then {0}, ascending when every block's pops are |
| MergeBlocks.BlockBufferSize | src/main/java/se/kth/ii142x/thesis/MergeBlocks.java:32-34 | the size as written: division by zero exactly with no blocks, otherwise a multiple of 16 |
| MergeBlocks.BlockBufferSizeShares | src/main/java/se/kth/ii142x/thesis/MergeBlocks.java:32-34 | for a non-negative budget, the largest multiple of 16 of which one copy per block fits in the budget |
| MergeBlocks.SmallBudgetStarvesReaders | src/main/java/se/kth/ii142x/thesis/MergeBlocks.java:32-37 | a budget below 16 bytes per block gives size 0, and a reader with a 0-byte buffer throws on every file |
| MergeBlocks.ReaderBufferSize | src/main/java/se/kth/ii142x/thesis/MergeBlocks.java:32-34 | the corrected size: the same failure, otherwise a multiple of 16 and at least 16 |
| MergeBlocks.ReaderBufferSizeSpec | src/main/java/se/kth/ii142x/thesis/MergeBlocks.java:32-37 | equal to the size as written whenever the budget holds a record per block; with it a reader opens exactly on files holding a record |
| MergeBlocks.BlockBufferSizeHoldsRecord | src/main/java/se/kth/ii142x/thesis/MergeBlocks.java:32-34 | the constructor's share is at least one record exactly when the budget is at least 16 bytes per block, negative budgets included |
| MergeBlocks.OpenReaders | src/main/java/se/kth/ii142x/thesis/MergeBlocks.java:35-37 | with blocks to open, IllegalArgument exactly when the size is below one record or some block file is empty; otherwise one fresh valid reader per file, in order, over that file, nothing popped |
| MergeBlocks.Construct | src/main/java/se/kth/ii142x/thesis/MergeBlocks.java:25-38 | division by zero with no blocks; IllegalArgument when the budget is below 16 bytes per block or some block file is empty; otherwise one fresh valid reader per file, in order, with buffers of the size as written |
| MergeBlocks.ConstructCorrected | src/main/java/se/kth/ii142x/thesis/MergeBlocks.java:25-38 | the constructor with the corrected size: division by zero with no blocks, IllegalArgument exactly when some block file is empty, whatever the budget |
| MergeBlocks.WriteUntilSentinel | src/main/java/se/kth/ii142x/thesis/MergeBlocks.java:54-64 | writes the bytes of the 16-byte arrays before the first array of another length, which is not written; with printAmount 0 it throws a division by zero right after the first record |
| MergeBlocks.StreamsHoldFileRecords | src/main/java/se/kth/ii142x/thesis/model/ReverseFileReader.java:9-13 | the readers' pops, block by block, hold the same records as the block files |
| MergeBlocks.FilesFeedLanes | src/main/java/se/kth/ii142x/thesis/MergeBlocks.java:43-45 | block files holding a record give every lane of the MergeHandler a record to pop |
| MergeBlocks.DescendingFilesAscendingStreams | src/main/java/se/kth/ii142x/thesis/model/ReverseFileReader.java:9-13 | descending block files give readers that pop in ascending order |
| MergeBlocks.QueueShare | src/main/java/se/kth/ii142x/thesis/MergeHandler.java:71 | the result queue's share per lane `QUEUE_SIZE / lanes` is below one exactly when there are more than 2^14 lanes |
| MergeBlocks.HandleFiles | src/main/java/se/kth/ii142x/thesis/MergeBlocks.java:43-45 | the MergeHandler over the readers fails exactly for threads < 1 or more than 2^14 lanes (IllegalArgument) and for no blocks (division by zero); otherwise it leaves the block files' records, then {0}, ascending when the files are descending |
| MergeBlocks.WriteMerged | src/main/java/se/kth/ii142x/thesis/MergeBlocks.java:50-67 | division by zero exactly when printAmount is 0; otherwise 16 bytes per record of the block files, a permutation of them, ascending when the files are descending |
| MergeBlocks.Merge | src/main/java/se/kth/ii142x/thesis/MergeBlocks.java:41-68 | fails exactly for threads < 1 or more than 2^14 lanes (IllegalArgument), and for no blocks or printAmount 0 (division by zero); otherwise the output is a permutation of the block files' records, 16 bytes each, ascending when every block file is descending |
| MergeBlocks.CreatedBlocksFeedMerge | src/main/java/se/kth/ii142x/thesis/CreateSortedWordlist.java:40-51 | the files `create()` writes for start..end are non-empty, whole records, descending, and together hold the record of every ID of start..end exactly once (end - start + 1 records), so `merge()` writes the sorted word list |

## Left out

- Threads. The worker threads of `generateHashes`, the fork-join halves of Quicksort and the merge lanes run one after another. Each thread writes disjoint slots (`Blocks.OffsetsDisjoint`) or talks to others only through blocking queues, so the contents do not depend on the interleaving. Blocking, queue capacities (apart from the constructor's capacity checks) and `join` are not modelled.
- I/O. Files are byte sequences. `IOException`, `InterruptedException` and crashes between truncation and use are not modelled. Neither are the caught-and-printed exceptions in `MergeHandler.run` and the lane threads, which would leave a queue without its null.
- Logging. The `LOGGER` calls and the `printAmount` progress message are not modelled. Only the division by zero of `++iterations % printAmount` is.
- MD5. The digest is a parameter `md5` of the operations that need it.
- CreateSortedWordlist.main. The constants and the sequencing of the two phases are not part of this model. `MergeBlocks.CreatedBlocksFeedMerge` states what the first phase hands to the second.
- Block.initReverseFileReader and Block.pop. Both only delegate to ReverseFileReader. `MergeBlocks.Construct` opens the readers on the block files directly, and `Blocks.Block` has no reader field.
- MergeBlocks.Merge: takes the block files as values and gives the MergeHandler each reader's pops, `Pops(file)`. `Reader.PopOrder` and `Reader.ExhaustedPoppedAll` justify this. The reader objects are not threaded through the merge.
- MergeBlocks.Merge: requires every block file to hold a record. `MergeBlocks.Construct` has already failed otherwise.
- MergeBlocks.Merge: with printAmount 0, returns only the error, although the source has already written the first record to the output file.
- MergeBlocks.Construct: on failure, does not state that the readers opened before the failing one have already truncated their files.
- MergeHandler.Handle: requires every lane to have a block with a record. A lane without one puts only null entries, one per block and the closing one. The coordinator polls such an entry and calls `minResult.put(null)`, which throws NullPointerException. Only InterruptedException is caught, so the handler thread dies and the main thread's `take()` waits forever, and no result models it. Merge meets this requirement (`MergeBlocks.FilesFeedLanes`).
- MergeBlocks.WriteUntilSentinel: requires the queue to hold an end-of-stream array. Without one, `take()` waits forever.
- Planning.Create: requires end < Long.MAX_VALUE. The model computes block boundaries as unbounded integers, so it does not capture the long wrap-around of `currentBlockEnd + 1`, or of `currentBlockStart + hashesPerBlock - 1`, when the IDs come within hashesPerBlock of Long.MAX_VALUE.
- Planning.Create: requires end - start + 1 >= -(Integer.MAX_VALUE / 16). For a range more negative than that, the source's `(int)` cast and `* 16` wrap around and which exception follows depends on the wrapped value.
- Planning.Create: takes hashesPerBlock rather than the raw budget. The CreateBlocks constructor's sizing is `Planning.HashesPerBlock`, with the bound `Planning.HashesPerBlockFits`.
- Structure. Some source loops are split into helper methods so that each proof stays small:
  - the inner insertion loop (`Quicksort.InsertRecord`);
  - the partition scan (`Quicksort.Partition`);
  - the coordinator's two loops (`MergeHandler.Populate`, `MergeHandler.Drain`);
  - the lane threads (`MergeHandler.RunLanes`).
- Ties. The PriorityQueue may poll any of several entries with equal keys. The model polls an arbitrary least entry, so its results hold for every tie-break.

## Findings

| source | as written | input that shows it | evidently intended | confidence | as-written member | corrected member |
|---|---|---|---|---|---|---|
| src/main/java/se/kth/ii142x/thesis/MergeBlocks.java:32-37 | each reader gets `bufferSize / blocks` bytes, floored to a multiple of 16, with no lower bound, so a budget below 16 bytes per block gives 0-byte readers, and the first refill calls `position(0 - 16)`, which throws IllegalArgumentException | start = 0, end = 1, bufferSize = 16: CreateBlocks makes blocks of one record, so two blocks; 16 / 2 = 8 floors to 0 and opening the first reader throws | every reader holds at least one record, so any budget that sizes the blocks also merges them | not executed | MergeBlocks.SmallBudgetStarvesReaders | MergeBlocks.ReaderBufferSizeSpec |
