/**
 * MergeBlocks: shares the byte budget out among one ReverseFileReader per
 * block file, starts the MergeHandler over the blocks and writes every
 * record it hands out to the output file, stopping at its end-of-stream
 * array.
 *
 * A block reader pops its file's records last first (Reader.PopOrder and
 * Reader.ExhaustedPoppedAll), so the MergeHandler sees, for block k, the
 * sequence Pops(files[k]).
 */
module MergeBlocks {
  import opened Wrappers
  import opened Bytes
  import opened Comparison
  import opened Ranges
  import opened JavaArith
  import opened Blocks
  import Planning
  import Reader
  import MergeHandler

  /** Capacity of the result queue, `1 << 14`. */
  const QUEUE_SIZE: int := 0x4000

  /**
   * The reader buffer size as the constructor computes it: the budget
   * divided evenly among the blocks (Java division), then floored to whole
   * records. No blocks means a division by zero.
   */
  function BlockBufferSize(bufferSize: int, blockCount: nat): (r: Result<int>)
    ensures r.Failure? <==> blockCount == 0
    ensures r.Failure? ==> r.error == ArithmeticDivByZero
    ensures r.Success? ==> r.value % HASH_SIZE == 0
  {
    if blockCount == 0 then Failure(ArithmeticDivByZero)
    else
      FloorToRecordSpec(Div(bufferSize, blockCount));
      Success(FloorToRecord(Div(bufferSize, blockCount)))
  }

  /**
   * Within a non-negative budget, the size is the largest multiple of 16 of
   * which one copy per block still fits in the budget.
   */
  lemma BlockBufferSizeShares(bufferSize: int, blockCount: nat)
    requires bufferSize >= 0 && blockCount >= 1
    ensures var s := BlockBufferSize(bufferSize, blockCount).value;
      0 <= s && s * blockCount <= bufferSize < (s + HASH_SIZE) * blockCount
  {
    var q := Div(bufferSize, blockCount);
    DivBounds(bufferSize, blockCount);
    FloorToRecordSpec(q);
    var s := FloorToRecord(q);
    MulMonotone(s, q, blockCount);
    MulMonotone(q + 1, s + HASH_SIZE, blockCount);
    assert (q + 1) * blockCount == q * blockCount + blockCount;
  }

  /**
   * The sizing as written starves the readers when the budget is below one
   * record per block: every reader gets a 0-byte buffer, and a reader with
   * a 0-byte buffer cannot be opened on any block file.
   */
  lemma SmallBudgetStarvesReaders(bufferSize: int, blockCount: nat)
    requires blockCount >= 1 && 0 <= bufferSize < HASH_SIZE * blockCount
    ensures BlockBufferSize(bufferSize, blockCount) == Success(0)
    ensures forall fileLength: nat :: Reader.OpenFails(0, fileLength)
  {
    var q := Div(bufferSize, blockCount);
    DivBounds(bufferSize, blockCount);
    if q >= HASH_SIZE {
      MulMonotone(HASH_SIZE, q, blockCount);
      assert false;
    }
    FloorToRecordSpec(q);
  }

  /**
   * The reader buffer size as intended: the same even share of the budget,
   * but never less than one record.
   */
  function ReaderBufferSize(bufferSize: int, blockCount: nat): (r: Result<int>)
    ensures r.Failure? <==> blockCount == 0
    ensures r.Failure? ==> r.error == ArithmeticDivByZero
    ensures r.Success? ==> r.value >= HASH_SIZE && r.value % HASH_SIZE == 0
  {
    match BlockBufferSize(bufferSize, blockCount)
    case Failure(e) => Failure(e)
    case Success(s) => Success(if s < HASH_SIZE then HASH_SIZE else s)
  }

  /**
   * The corrected size keeps to the constructor's share whenever the budget
   * holds a record per block, and with it a reader opens on exactly the
   * block files that hold a record.
   */
  lemma ReaderBufferSizeSpec(bufferSize: int, blockCount: nat, fileLength: nat)
    requires blockCount >= 1
    ensures bufferSize >= HASH_SIZE * blockCount ==>
      ReaderBufferSize(bufferSize, blockCount) == BlockBufferSize(bufferSize, blockCount)
    ensures Reader.OpenFails(ReaderBufferSize(bufferSize, blockCount).value, fileLength) <==> fileLength < HASH_SIZE
  {
    if bufferSize >= HASH_SIZE * blockCount {
      BlockBufferSizeShares(bufferSize, blockCount);
    }
  }

  /**
   * A budget holds a record per block exactly when the constructor's share
   * is at least one record.
   */
  lemma BlockBufferSizeHoldsRecord(bufferSize: int, blockCount: nat)
    requires blockCount >= 1
    ensures BlockBufferSize(bufferSize, blockCount).value >= HASH_SIZE <==> bufferSize >= HASH_SIZE * blockCount
  {
    var s := BlockBufferSize(bufferSize, blockCount).value;
    if bufferSize >= 0 {
      BlockBufferSizeShares(bufferSize, blockCount);
      if s >= HASH_SIZE {
        MulMonotone(HASH_SIZE, s, blockCount);
      }
    } else {
      FloorToRecordSpec(Div(bufferSize, blockCount));
    }
  }

  /**
   * The constructor's loop over the blocks: opens a reader with a buffer of
   * `size` bytes on every block file, in block order. The first reader that
   * cannot be opened ends the loop with its exception: a size below one
   * record fails on any file, and an empty file fails with any size.
   */
  method OpenReaders(files: seq<seq<Byte>>, size: int) returns (res: Result<seq<Reader.ReverseFileReader>>)
    requires size % HASH_SIZE == 0
    requires forall k :: 0 <= k < |files| ==> |files[k]| % HASH_SIZE == 0
    ensures res.Failure? <==> files != [] && (size < HASH_SIZE || exists k :: 0 <= k < |files| && files[k] == [])
    ensures res.Failure? ==> res.error == IllegalArgument
    ensures res.Success? ==> |res.value| == |files|
    ensures res.Success? ==> forall k :: 0 <= k < |files| ==>
      && fresh(res.value[k]) && res.value[k].Valid()
      && res.value[k].original == files[k] && res.value[k].popped == []
      && res.value[k].buffer.Length == size
  {
    var readers: seq<Reader.ReverseFileReader> := [];
    for k := 0 to |files|
      invariant |readers| == k
      invariant forall i :: 0 <= i < k ==> size >= HASH_SIZE && files[i] != []
      invariant forall i :: 0 <= i < k ==>
        && fresh(readers[i]) && readers[i].Valid()
        && readers[i].original == files[i] && readers[i].popped == []
        && readers[i].buffer.Length == size
    {
      var reader := Reader.Open(size, files[k]);
      if reader.Failure? {
        return Failure(reader.error);
      }
      readers := readers + [reader.value];
    }
    assert files != [] ==> files[0] != [];
    return Success(readers);
  }

  /**
   * `new MergeBlocks(blocks, amountOfThreads, bufferSize, filename,
   * printAmount)`: opens a reader on every block file, in block order, each
   * with a buffer of BlockBufferSize bytes. No blocks means a division by
   * zero; a budget below one record per block starves every reader, and an
   * empty block file cannot be opened, both with IllegalArgumentException.
   */
  method Construct(files: seq<seq<Byte>>, bufferSize: int) returns (res: Result<seq<Reader.ReverseFileReader>>)
    requires forall k :: 0 <= k < |files| ==> |files[k]| % HASH_SIZE == 0
    ensures res.Failure? <==>
      files == [] || bufferSize < HASH_SIZE * |files| || exists k :: 0 <= k < |files| && files[k] == []
    ensures res.Failure? ==> res.error == if files == [] then ArithmeticDivByZero else IllegalArgument
    ensures res.Success? ==> |res.value| == |files|
    ensures res.Success? ==> forall k :: 0 <= k < |files| ==>
      && fresh(res.value[k]) && res.value[k].Valid()
      && res.value[k].original == files[k] && res.value[k].popped == []
      && res.value[k].buffer.Length == BlockBufferSize(bufferSize, |files|).value
  {
    var size := BlockBufferSize(bufferSize, |files|);
    if size.Failure? {
      return Failure(size.error);
    }
    BlockBufferSizeHoldsRecord(bufferSize, |files|);
    res := OpenReaders(files, size.value);
  }

  /**
   * The constructor with the corrected share ReaderBufferSize: it fails
   * only for no blocks or an empty block file, whatever the budget.
   */
  method ConstructCorrected(files: seq<seq<Byte>>, bufferSize: int) returns (res: Result<seq<Reader.ReverseFileReader>>)
    requires forall k :: 0 <= k < |files| ==> |files[k]| % HASH_SIZE == 0
    ensures res.Failure? <==> files == [] || exists k :: 0 <= k < |files| && files[k] == []
    ensures res.Failure? ==> res.error == if files == [] then ArithmeticDivByZero else IllegalArgument
    ensures res.Success? ==> |res.value| == |files|
    ensures res.Success? ==> forall k :: 0 <= k < |files| ==>
      && fresh(res.value[k]) && res.value[k].Valid()
      && res.value[k].original == files[k] && res.value[k].popped == []
      && res.value[k].buffer.Length == ReaderBufferSize(bufferSize, |files|).value
  {
    var size := ReaderBufferSize(bufferSize, |files|);
    if size.Failure? {
      return Failure(size.error);
    }
    res := OpenReaders(files, size.value);
  }

  /**
   * The drain loop of `merge()`: takes the arrays from the result queue in
   * order, writes every 16-byte one to the output and stops at the first
   * array of another length, which is not written. The progress report
   * `++iterations % printAmount` divides by zero after the first record
   * when printAmount is 0. Without an end-of-stream array `take` would
   * wait forever, so the queue is required to hold one.
   */
  method WriteUntilSentinel(queue: seq<seq<Byte>>, printAmount: int) returns (outcome: Outcome, out: seq<Byte>, written: nat)
    requires exists k :: 0 <= k < |queue| && |queue[k]| != HASH_SIZE
    ensures written < |queue|
    ensures forall k :: 0 <= k < written ==> |queue[k]| == HASH_SIZE
    ensures out == Concat(queue[..written]) && |out| == HASH_SIZE * written
    ensures outcome.Fail? <==> printAmount == 0 && |queue[0]| == HASH_SIZE
    ensures outcome.Fail? ==> outcome.error == ArithmeticDivByZero && written == 1
    ensures outcome.Pass? ==> |queue[written]| != HASH_SIZE
  {
    ghost var stop :| 0 <= stop < |queue| && |queue[stop]| != HASH_SIZE;
    out, written := [], 0;
    while true
      invariant written <= stop
      invariant forall k :: 0 <= k < written ==> |queue[k]| == HASH_SIZE
      invariant out == Concat(queue[..written]) && |out| == HASH_SIZE * written
      invariant printAmount == 0 ==> written == 0
      decreases stop - written
    {
      var minBlock := queue[written];
      if |minBlock| != HASH_SIZE {
        break;
      }
      WrittenGrows(queue, written);
      out := out + minBlock;
      written := written + 1;
      if printAmount == 0 {
        return Fail(ArithmeticDivByZero), out, written;
      }
    }
    return Pass, out, written;
  }

  /** Writing one more array appends its bytes to what has been written. */
  lemma WrittenGrows(queue: seq<seq<Byte>>, n: int)
    requires 0 <= n < |queue|
    ensures Concat(queue[..n + 1]) == Concat(queue[..n]) + queue[n]
  {
    assert queue[..n + 1] == queue[..n] + [queue[n]];
    ConcatAppend(queue[..n], [queue[n]]);
    assert Concat([queue[n]]) == queue[n] + Concat([queue[n]][1..]);
  }

  /** The records a block's reader pops, in the order it pops them: its file's records, last first. */
  function Pops(file: seq<Byte>): (r: seq<Hash>)
    requires |file| % HASH_SIZE == 0
  {
    Reverse(Records(file))
  }

  /** Whether every block file holds whole records. */
  predicate WholeFiles(files: seq<seq<Byte>>)
  {
    forall k :: 0 <= k < |files| ==> |files[k]| % HASH_SIZE == 0
  }

  /** What the MergeHandler is given: the pops of each block's reader, block by block. */
  function Streams(files: seq<seq<Byte>>): (r: seq<seq<Hash>>)
    requires WholeFiles(files)
    ensures |r| == |files|
    ensures forall k :: 0 <= k < |files| ==> r[k] == Pops(files[k])
  {
    seq(|files|, k requires 0 <= k < |files| => Pops(files[k]))
  }

  /** The records of each block file, block by block. */
  function FileRecords(files: seq<seq<Byte>>): (r: seq<seq<Hash>>)
    requires WholeFiles(files)
    ensures |r| == |files|
    ensures forall k :: 0 <= k < |files| ==> r[k] == Records(files[k])
  {
    seq(|files|, k requires 0 <= k < |files| => Records(files[k]))
  }

  /** Reading every block back to front changes the order of the records, not which records there are. */
  lemma StreamsHoldFileRecords(files: seq<seq<Byte>>)
    requires WholeFiles(files)
    ensures multiset(Concat(Streams(files))) == multiset(Concat(FileRecords(files)))
  {
    forall k | 0 <= k < |files|
      ensures multiset(Streams(files)[k]) == multiset(FileRecords(files)[k])
    {
      ReverseMultiset(Records(files[k]));
    }
    PartwiseSameMultiset(Streams(files), FileRecords(files));
  }

  /** Parts that agree one by one as multisets give concatenations that agree as multisets. */
  lemma {:induction false} PartwiseSameMultiset<T>(a: seq<seq<T>>, b: seq<seq<T>>)
    requires |a| == |b|
    requires forall k :: 0 <= k < |a| ==> multiset(a[k]) == multiset(b[k])
    ensures multiset(Concat(a)) == multiset(Concat(b))
  {
    if a != [] {
      PartwiseSameMultiset(a[1..], b[1..]);
    }
  }

  /** A block file holding a record gives a reader with a record to pop, so every lane has one. */
  lemma FilesFeedLanes(files: seq<seq<Byte>>, n: int)
    requires WholeFiles(files) && 1 <= n <= |files|
    requires forall k :: 0 <= k < |files| ==> files[k] != []
    ensures MergeHandler.LanesHaveRecords(Streams(files), n)
  {
    var streams := Streams(files);
    forall i | 0 <= i < n
      ensures exists j :: (MergeHandler.LaneStart(|streams|, n, i) <= j <= MergeHandler.LaneEnd(|streams|, n, i)
        && 0 <= j < |streams| && streams[j] != [])
    {
      MergeHandler.LaneNonEmpty(|streams|, n, i);
      var j := MergeHandler.LaneStart(|streams|, n, i);
      assert |Records(files[j])| >= 1;
      assert |streams[j]| >= 1;
    }
    assert forall i :: 0 <= i < n ==>
      exists j :: MergeHandler.LaneStart(|streams|, n, i) <= j <= MergeHandler.LaneEnd(|streams|, n, i) && 0 <= j < |streams| && streams[j] != [];
  }

  /** Block files in descending key order give readers that pop in ascending order. */
  lemma DescendingFilesAscendingStreams(files: seq<seq<Byte>>)
    requires WholeFiles(files) && |files| >= 1
    requires forall k :: 0 <= k < |files| ==> Descending(Records(files[k]), 0, |files[k]| / HASH_SIZE)
    ensures MergeHandler.AllAscending(Streams(files), 0, |files| - 1)
  {
    forall k | 0 <= k < |files|
      ensures Ascending(Streams(files)[k])
    {
      Reader.DescendingReversedAscends(Records(files[k]));
    }
  }

  /** The result queue's share per lane is below one exactly when there are more lanes than QUEUE_SIZE. */
  lemma QueueShare(n: int)
    requires n >= 1
    ensures Div(QUEUE_SIZE, n) < 1 <==> n > QUEUE_SIZE
  {
    DivRemSpec(QUEUE_SIZE, n);
  }

  /** Records cut from the bytes of some 16-byte arrays are those arrays. */
  lemma {:induction false} RecordsOfWritten(hs: seq<Hash>)
    ensures |Concat(hs)| == HASH_SIZE * |hs| && Records(Concat(hs)) == hs
  {
    ConcatIsFlatten(hs);
    RecordsOfFlatten(hs);
  }

  /** Laying 16-byte arrays end to end is laying out records. */
  lemma {:induction false} ConcatIsFlatten(hs: seq<Hash>)
    ensures Concat(hs) == Flatten(hs)
  {
    if hs != [] {
      ConcatIsFlatten(hs[1..]);
    }
  }

  /** Every block file is in descending key order, as CreateBlocks writes them. */
  ghost predicate DescendingFiles(files: seq<seq<Byte>>)
    requires WholeFiles(files)
  {
    forall k :: 0 <= k < |files| ==> Descending(Records(files[k]), 0, |files[k]| / HASH_SIZE)
  }

  /**
   * What the MergeHandler leaves on the result queue, in terms of the block
   * files: at least one record, then the end-of-stream array {0}; the
   * records are those of the block files, and in ascending key order when
   * the block files are in descending order.
   */
  ghost predicate Handled(files: seq<seq<Byte>>, minResult: seq<seq<Byte>>)
    requires WholeFiles(files)
  {
    && |minResult| >= 2 && minResult[|minResult| - 1] == [0]
    && (forall k :: 0 <= k < |minResult| - 1 ==> |minResult[k]| == HASH_SIZE)
    && multiset(minResult[..|minResult| - 1]) == multiset(Concat(FileRecords(files)))
    && (DescendingFiles(files) ==> Ascending(minResult[..|minResult| - 1]))
  }

  /** The MergeHandler's promise about the readers' pops, restated about the block files. */
  lemma HandledFiles(files: seq<seq<Byte>>, streams: seq<seq<Hash>>, minResult: seq<seq<Byte>>)
    requires WholeFiles(files) && |files| >= 1 && streams == Streams(files)
    requires forall k :: 0 <= k < |files| ==> files[k] != []
    requires |minResult| >= 1 && minResult[|minResult| - 1] == [0]
    requires forall k :: 0 <= k < |minResult| - 1 ==> |minResult[k]| == HASH_SIZE
    requires multiset(minResult[..|minResult| - 1]) == multiset(Concat(streams))
    requires MergeHandler.AllAscending(streams, 0, |streams| - 1) ==> Ascending(minResult[..|minResult| - 1])
    ensures Handled(files, minResult)
  {
    StreamsHoldFileRecords(files);
    MergeHandler.ConcatKeeps(streams, 0);
    assert |multiset(minResult[..|minResult| - 1])| > 0;
    if DescendingFiles(files) {
      DescendingFilesAscendingStreams(files);
    }
  }

  /**
   * The writing half of `merge()`: the drain over what the MergeHandler
   * left on the result queue. It throws when printAmount is 0; otherwise
   * the output is the bytes of the records before the end-of-stream array.
   */
  method WriteMerged(files: seq<seq<Byte>>, minResult: seq<seq<Byte>>, printAmount: int) returns (res: Result<seq<Byte>>)
    requires WholeFiles(files) && Handled(files, minResult)
    ensures res.Failure? <==> printAmount == 0
    ensures res.Failure? ==> res.error == ArithmeticDivByZero
    ensures res.Success? ==> |res.value| == HASH_SIZE * |Concat(FileRecords(files))|
    ensures res.Success? ==> multiset(Records(res.value)) == multiset(Concat(FileRecords(files)))
    ensures res.Success? && DescendingFiles(files) ==> Ascending(Records(res.value))
  {
    var last := |minResult| - 1;
    assert |minResult[0]| == HASH_SIZE && |minResult[last]| != HASH_SIZE;
    var outcome, out, written := WriteUntilSentinel(minResult, printAmount);
    if outcome.Fail? {
      return Failure(outcome.error);
    }
    assert written == last;
    var records: seq<Hash> := minResult[..last];
    RecordsOfWritten(records);
    assert |records| == |multiset(Concat(FileRecords(files)))|;
    return Success(out);
  }

  /**
   * `merge()` once every block's reader is open (which needs a record in
   * every block file): the MergeHandler over the readers' pops with a
   * result queue of QUEUE_SIZE, then the drain into the output file. It
   * throws when the MergeHandler cannot be set up, and when printAmount is
   * 0. Otherwise the output holds 16 bytes per record of the blocks, every
   * record of the blocks exactly as often as the blocks hold it, and, when
   * every block file is in descending key order, in ascending key order.
   */
  method Merge(files: seq<seq<Byte>>, amountOfThreads: int, printAmount: int) returns (res: Result<seq<Byte>>)
    requires WholeFiles(files)
    requires forall k :: 0 <= k < |files| ==> files[k] != []
    ensures res.Failure? <==>
      || amountOfThreads < 1 || files == []
      || MergeHandler.LaneCount(|files|, amountOfThreads) > QUEUE_SIZE
      || printAmount == 0
    ensures res.Failure? ==>
      res.error == if amountOfThreads < 1 || (files != [] && MergeHandler.LaneCount(|files|, amountOfThreads) > QUEUE_SIZE)
        then IllegalArgument else ArithmeticDivByZero
    ensures res.Success? ==> |res.value| == HASH_SIZE * |Concat(FileRecords(files))|
    ensures res.Success? ==> multiset(Records(res.value)) == multiset(Concat(FileRecords(files)))
    ensures res.Success? && DescendingFiles(files) ==> Ascending(Records(res.value))
  {
    var handled := HandleFiles(files, amountOfThreads);
    if handled.Failure? {
      return Failure(handled.error);
    }
    res := WriteMerged(files, handled.value, printAmount);
  }

  /**
   * The handler half of `merge()`: `new MergeHandler(blocks, minResult,
   * amountOfThreads, QUEUE_SIZE)` and its run over the readers' pops.
   */
  method HandleFiles(files: seq<seq<Byte>>, amountOfThreads: int) returns (res: Result<seq<seq<Byte>>>)
    requires WholeFiles(files)
    requires forall k :: 0 <= k < |files| ==> files[k] != []
    ensures res.Failure? <==>
      || amountOfThreads < 1 || files == []
      || MergeHandler.LaneCount(|files|, amountOfThreads) > QUEUE_SIZE
    ensures res.Failure? ==> res.error == if amountOfThreads >= 1 && files == [] then ArithmeticDivByZero else IllegalArgument
    ensures res.Success? ==> Handled(files, res.value)
  {
    if amountOfThreads >= 1 && |files| >= 1 {
      FilesFeedLanes(files, MergeHandler.LaneCount(|files|, amountOfThreads));
      QueueShare(MergeHandler.LaneCount(|files|, amountOfThreads));
    }
    var streams := Streams(files);
    res := MergeHandler.Handle(streams, amountOfThreads, QUEUE_SIZE);
    if res.Success? {
      HandledFiles(files, streams, res.value);
    }
  }

  /** Entry k of the plan's records is the records of plan entry k's IDs. */
  lemma {:induction false} EncodedSpansAt(md5: seq<Byte> -> Hash, p: seq<(int, int)>, k: int)
    requires Planning.LongSpans(p) && 0 <= k < |p|
    ensures Planning.EncodedSpans(md5, p)[k] == Encoded(md5, p[k].0, p[k].1)
  {
    if k > 0 {
      assert Planning.LongSpans(p[1..]) by {
        forall j | 0 <= j < |p| - 1
          ensures IsLong(p[1..][j].0) && IsLong(p[1..][j].1)
        {
          assert p[1..][j] == p[j + 1];
        }
      }
      EncodedSpansAt(md5, p[1..], k - 1);
    }
  }

  /**
   * The block files CreateBlocks writes for start..end are what Merge needs
   * and what makes its output the sorted word list: every file holds whole
   * records, at least one, in descending key order, and together the files
   * hold the record of every ID of start..end exactly once.
   */
  lemma CreatedBlocksFeedMerge(start: int, end: int, hashesPerBlock: int, blocks: seq<Block>, files: seq<seq<Byte>>,
                               filename: string, md5: seq<Byte> -> Hash)
    requires IsLong(start) && IsLong(end) && start <= end && hashesPerBlock >= 1
    requires Planning.Written(blocks, files, Planning.PlanBlocks(start, end, hashesPerBlock), filename, md5)
    ensures WholeFiles(files) && |files| >= 1 && DescendingFiles(files)
    ensures forall k :: 0 <= k < |files| ==> files[k] != []
    ensures multiset(Concat(FileRecords(files))) == multiset(Encoded(md5, start, end))
    ensures |Concat(FileRecords(files))| == end - start + 1
  {
    var p := Planning.PlanBlocks(start, end, hashesPerBlock);
    Planning.PlanSizes(start, end, hashesPerBlock);
    Planning.PlanEncodes(md5, start, end, hashesPerBlock);
    var spans := Planning.EncodedSpans(md5, p);
    forall k | 0 <= k < |files|
      ensures |files[k]| % HASH_SIZE == 0 && files[k] != []
      ensures Descending(Records(files[k]), 0, |files[k]| / HASH_SIZE)
      ensures multiset(Records(files[k])) == multiset(spans[k])
    {
      CreatedFile(blocks, files, p, k, filename, md5);
    }
    PartwiseSameMultiset(FileRecords(files), spans);
    assert |Concat(FileRecords(files))| == |multiset(Encoded(md5, start, end))|;
  }

  /** Block file k of a plan holds whole records, at least one, sorted descending: those of plan entry k. */
  lemma CreatedFile(blocks: seq<Block>, files: seq<seq<Byte>>, p: seq<(int, int)>, k: int, filename: string, md5: seq<Byte> -> Hash)
    requires Planning.Written(blocks, files, p, filename, md5) && Planning.LongSpans(p)
    requires 0 <= k < |p| && p[k].0 <= p[k].1
    ensures |files[k]| % HASH_SIZE == 0 && files[k] != []
    ensures Descending(Records(files[k]), 0, |files[k]| / HASH_SIZE)
    ensures multiset(Records(files[k])) == multiset(Planning.EncodedSpans(md5, p)[k])
  {
    assert Planning.WrittenAs(blocks[k], files[k], p[k], k, filename, md5);
    EncodedSpansAt(md5, p, k);
    assert |Records(files[k])| == |multiset(Encoded(md5, p[k].0, p[k].1))| >= 1;
  }
}
