/**
 * CreateBlocks: phase one of the sort. The ID range start..end is cut into
 * consecutive blocks of hashesPerBlock IDs (the last one takes what is
 * left); each block is generated, sorted and written to its own file before
 * the next one is made.
 */
module Planning {
  import opened Wrappers
  import opened Bytes
  import opened Comparison
  import opened Ranges
  import opened JavaArith
  import opened Blocks
  import Quicksort

  /**
   * The constructor's sizing: the buffer size is floored to a multiple of
   * 16 and must stay positive; a block holds as many records as fit.
   */
  function HashesPerBlock(bufferSize: int): (r: Result<int>)
    ensures r.Failure? <==> bufferSize < HASH_SIZE
    ensures r.Failure? ==> r.error == IllegalArgument
    ensures r.Success? ==> 1 <= r.value && HASH_SIZE * r.value <= bufferSize < HASH_SIZE * (r.value + 1)
  {
    FloorToRecordSpec(bufferSize);
    var floored := FloorToRecord(bufferSize);
    if floored <= 0 then Failure(IllegalArgument) else Success(floored / HASH_SIZE)
  }

  /** A block size in bytes that is a Java int gives blocks whose byte count is an int too. */
  lemma HashesPerBlockFits(bufferSize: int)
    requires bufferSize <= INT_MAX && HashesPerBlock(bufferSize).Success?
    ensures HashesPerBlock(bufferSize).value <= MAX_BLOCK_HASHES
  {
  }

  /**
   * The (first ID, last ID) of every block `create` makes from cur on. The
   * loop body runs at least once, so there is always a first block; a block
   * ends hashesPerBlock - 1 IDs after its start or at `end`, whichever comes
   * first, and the loop stops once the next start is past `end`.
   */
  function PlanBlocks(cur: int, end: int, hashesPerBlock: int): (p: seq<(int, int)>)
    requires hashesPerBlock >= 1
    decreases end + 1 - cur
  {
    var blockEnd := if cur + hashesPerBlock - 1 > end then end else cur + hashesPerBlock - 1;
    [(cur, blockEnd)] + (if blockEnd + 1 > end then [] else PlanBlocks(blockEnd + 1, end, hashesPerBlock))
  }

  /** The IDs of each planned block. */
  function Spans(p: seq<(int, int)>): (r: seq<seq<int>>)
    ensures |r| == |p|
  {
    if p == [] then [] else [Range(p[0].0, p[0].1)] + Spans(p[1..])
  }

  lemma ConcatCons<T>(x: seq<T>, ys: seq<seq<T>>)
    ensures Concat([x] + ys) == x + Concat(ys)
  {
    assert ([x] + ys)[1..] == ys;
  }

  /** The first block of a plan, and the plan for the rest of the range. */
  lemma PlanUnfold(cur: int, end: int, hashesPerBlock: int)
    requires hashesPerBlock >= 1
    ensures var p := PlanBlocks(cur, end, hashesPerBlock);
      var blockEnd := p[0].1;
      && p[0].0 == cur
      && blockEnd == (if cur + hashesPerBlock - 1 > end then end else cur + hashesPerBlock - 1)
      && (blockEnd + 1 > end ==> p == [(cur, blockEnd)])
      && (blockEnd + 1 <= end ==> p == [(cur, blockEnd)] + PlanBlocks(blockEnd + 1, end, hashesPerBlock))
  {
  }

  lemma SpansCons(span: (int, int), rest: seq<(int, int)>)
    ensures Spans([span] + rest) == [Range(span.0, span.1)] + Spans(rest)
  {
    assert ([span] + rest)[1..] == rest;
  }

  lemma CoversStep(start: int, blockEnd: int, end: int, rest: seq<int>)
    requires start <= blockEnd + 1 <= end + 1 && rest == Range(blockEnd + 1, end)
    ensures Range(start, blockEnd) + rest == Range(start, end)
  {
    RangeSplit(start, blockEnd, end);
  }

  /**
   * The blocks partition the range: laid end to end their IDs are exactly
   * start, ..., end, each once and in order.
   */
  lemma {:induction false} PlanCovers(start: int, end: int, hashesPerBlock: int)
    requires hashesPerBlock >= 1 && start <= end
    ensures Concat(Spans(PlanBlocks(start, end, hashesPerBlock))) == Range(start, end)
    decreases end - start
  {
    PlanUnfold(start, end, hashesPerBlock);
    var blockEnd := PlanBlocks(start, end, hashesPerBlock)[0].1;
    var tail := if blockEnd + 1 > end then [] else PlanBlocks(blockEnd + 1, end, hashesPerBlock);
    SpansCons((start, blockEnd), tail);
    ConcatCons(Range(start, blockEnd), Spans(tail));
    if blockEnd + 1 <= end {
      PlanCovers(blockEnd + 1, end, hashesPerBlock);
      CoversStep(start, blockEnd, end, Concat(Spans(tail)));
    } else {
      assert Concat(Spans(tail)) == [];
    }
  }

  /**
   * The size of each block: between 1 and hashesPerBlock IDs, and exactly
   * hashesPerBlock for every block but the last.
   */
  lemma {:induction false} PlanSizes(start: int, end: int, hashesPerBlock: int)
    requires hashesPerBlock >= 1 && start <= end
    ensures var p := PlanBlocks(start, end, hashesPerBlock);
      && (forall k :: 0 <= k < |p| ==> 1 <= p[k].1 - p[k].0 + 1 <= hashesPerBlock)
      && (forall k :: 0 <= k < |p| - 1 ==> p[k].1 - p[k].0 + 1 == hashesPerBlock)
    decreases end - start
  {
    PlanUnfold(start, end, hashesPerBlock);
    var p := PlanBlocks(start, end, hashesPerBlock);
    var blockEnd := p[0].1;
    if blockEnd + 1 <= end {
      var rest := PlanBlocks(blockEnd + 1, end, hashesPerBlock);
      PlanSizes(blockEnd + 1, end, hashesPerBlock);
      assert forall k :: 1 <= k < |p| ==> p[k] == rest[k - 1];
    }
  }

  /**
   * The blocks are consecutive: the first starts at `start`, each one
   * starts right after the one before it ends, and the last ends at `end`.
   */
  lemma {:induction false} PlanChain(start: int, end: int, hashesPerBlock: int)
    requires hashesPerBlock >= 1 && start <= end
    ensures var p := PlanBlocks(start, end, hashesPerBlock);
      && p[0].0 == start && p[|p| - 1].1 == end
      && (forall k :: 0 <= k < |p| - 1 ==> p[k + 1].0 == p[k].1 + 1)
    decreases end - start
  {
    var blockEnd := BlockEnd(start, end, hashesPerBlock);
    PlanHead(start, end, hashesPerBlock);
    if blockEnd + 1 <= end {
      PlanChain(blockEnd + 1, end, hashesPerBlock);
      PlanCons(start, end, hashesPerBlock);
      ChainCons((start, blockEnd), PlanBlocks(blockEnd + 1, end, hashesPerBlock));
    } else {
      assert |PlanBlocks(start, end, hashesPerBlock)| == 1;
    }
  }

  /** The first block of a plan, which is the whole plan when it reaches `end`. */
  lemma PlanHead(cur: int, end: int, hashesPerBlock: int)
    requires hashesPerBlock >= 1
    ensures var p := PlanBlocks(cur, end, hashesPerBlock);
      && |p| >= 1 && p[0] == (cur, BlockEnd(cur, end, hashesPerBlock))
      && (BlockEnd(cur, end, hashesPerBlock) + 1 > end ==> p == [p[0]])
  {
  }

  /** After its first block, a plan goes on as the plan of the rest of the range. */
  lemma PlanCons(cur: int, end: int, hashesPerBlock: int)
    requires hashesPerBlock >= 1 && BlockEnd(cur, end, hashesPerBlock) + 1 <= end
    ensures PlanBlocks(cur, end, hashesPerBlock)
      == [(cur, BlockEnd(cur, end, hashesPerBlock))] + PlanBlocks(BlockEnd(cur, end, hashesPerBlock) + 1, end, hashesPerBlock)
  {
  }

  /** A chain of blocks with one more block in front, ending right before the chain starts, is still a chain. */
  lemma ChainCons(span: (int, int), rest: seq<(int, int)>)
    requires rest != [] && rest[0].0 == span.1 + 1
    requires forall k :: 0 <= k < |rest| - 1 ==> rest[k + 1].0 == rest[k].1 + 1
    ensures var p := [span] + rest;
      && p[|p| - 1] == rest[|rest| - 1]
      && forall k :: 0 <= k < |p| - 1 ==> p[k + 1].0 == p[k].1 + 1
  {
    var p := [span] + rest;
    forall k | 0 <= k < |p| - 1
      ensures p[k + 1].0 == p[k].1 + 1
    {
      assert p[k + 1] == rest[k];
      if k > 0 {
        assert p[k] == rest[k - 1];
      }
    }
  }

  /**
   * There are ceil((end - start + 1) / hashesPerBlock) blocks: all but the
   * last are full, and the last holds at least one ID.
   */
  lemma {:induction false} PlanCount(start: int, end: int, hashesPerBlock: int)
    requires hashesPerBlock >= 1 && start <= end
    ensures var n := |PlanBlocks(start, end, hashesPerBlock)|;
      hashesPerBlock * (n - 1) < end - start + 1 <= hashesPerBlock * n
    decreases end - start
  {
    PlanUnfold(start, end, hashesPerBlock);
    var p := PlanBlocks(start, end, hashesPerBlock);
    var blockEnd := p[0].1;
    if blockEnd + 1 <= end {
      var m := |PlanBlocks(blockEnd + 1, end, hashesPerBlock)|;
      PlanCount(blockEnd + 1, end, hashesPerBlock);
      assert |p| == m + 1;
      assert hashesPerBlock * (m + 1) == hashesPerBlock * m + hashesPerBlock;
      assert hashesPerBlock * m == hashesPerBlock * (m - 1) + hashesPerBlock;
    }
  }

  /** Every planned block lies inside start..end. */
  lemma {:induction false} PlanWithin(start: int, end: int, hashesPerBlock: int)
    requires hashesPerBlock >= 1 && start <= end
    ensures var p := PlanBlocks(start, end, hashesPerBlock);
      forall k :: 0 <= k < |p| ==> start <= p[k].0 <= p[k].1 <= end
    decreases end - start
  {
    PlanUnfold(start, end, hashesPerBlock);
    var p := PlanBlocks(start, end, hashesPerBlock);
    var blockEnd := p[0].1;
    if blockEnd + 1 <= end {
      var rest := PlanBlocks(blockEnd + 1, end, hashesPerBlock);
      PlanWithin(blockEnd + 1, end, hashesPerBlock);
      assert forall k :: 1 <= k < |p| ==> p[k] == rest[k - 1];
    }
  }

  /** Every block of the plan holds IDs that are Java longs. */
  ghost predicate LongSpans(p: seq<(int, int)>)
  {
    forall k :: 0 <= k < |p| ==> IsLong(p[k].0) && IsLong(p[k].1)
  }

  /** The records of each planned block, in ID order. */
  function EncodedSpans(md5: seq<Byte> -> Hash, p: seq<(int, int)>): (r: seq<seq<Hash>>)
    requires LongSpans(p)
    ensures |r| == |p|
  {
    if p == [] then [] else [Encoded(md5, p[0].0, p[0].1)] + EncodedSpans(md5, p[1..])
  }

  lemma EncodedSplit(md5: seq<Byte> -> Hash, lo: int, mid: int, hi: int)
    requires IsLong(lo) && IsLong(mid) && IsLong(hi) && IsLong(mid + 1)
    requires lo <= mid + 1 <= hi + 1
    ensures Encoded(md5, lo, mid) + Encoded(md5, mid + 1, hi) == Encoded(md5, lo, hi)
  {
  }

  lemma EncodedSpansCons(md5: seq<Byte> -> Hash, span: (int, int), rest: seq<(int, int)>)
    requires IsLong(span.0) && IsLong(span.1) && LongSpans(rest)
    ensures LongSpans([span] + rest)
    ensures EncodedSpans(md5, [span] + rest) == [Encoded(md5, span.0, span.1)] + EncodedSpans(md5, rest)
  {
    assert ([span] + rest)[1..] == rest;
    assert forall k :: 0 <= k < |rest| ==> rest[k] == ([span] + rest)[k + 1];
  }

  /** The blocks' records laid end to end are the records of start..end, in ID order. */
  lemma {:induction false} PlanEncodes(md5: seq<Byte> -> Hash, start: int, end: int, hashesPerBlock: int)
    requires hashesPerBlock >= 1 && start <= end && IsLong(start) && IsLong(end)
    ensures LongSpans(PlanBlocks(start, end, hashesPerBlock))
    ensures Concat(EncodedSpans(md5, PlanBlocks(start, end, hashesPerBlock))) == Encoded(md5, start, end)
    decreases end - start
  {
    var blockEnd := BlockEnd(start, end, hashesPerBlock);
    PlanHead(start, end, hashesPerBlock);
    var p := PlanBlocks(start, end, hashesPerBlock);
    var tail := if blockEnd + 1 > end then [] else PlanBlocks(blockEnd + 1, end, hashesPerBlock);
    if blockEnd + 1 <= end {
      PlanEncodes(md5, blockEnd + 1, end, hashesPerBlock);
      PlanCons(start, end, hashesPerBlock);
    }
    assert p == [(start, blockEnd)] + tail;
    EncodedSpansCons(md5, (start, blockEnd), tail);
    ConcatCons(Encoded(md5, start, blockEnd), EncodedSpans(md5, tail));
    if blockEnd + 1 <= end {
      EncodedSplit(md5, start, blockEnd, end);
    }
  }

  /**
   * A block file as `writeToFile` leaves it: the records of IDs lo..hi,
   * each once, in descending key order.
   */
  ghost predicate SortedBlockFile(file: seq<Byte>, lo: int, hi: int, md5: seq<Byte> -> Hash)
    requires IsLong(lo) && IsLong(hi)
  {
    && |file| % HASH_SIZE == 0
    && Descending(Records(file), 0, |file| / HASH_SIZE)
    && multiset(Records(file)) == multiset(Encoded(md5, lo, hi))
  }

  /**
   * Block `b`, the `blockId`-th, was made for IDs span.0..span.1, is named
   * `filename + blockId`, and its file holds those IDs' records, sorted.
   */
  ghost predicate WrittenAs(b: Block, file: seq<Byte>, span: (int, int), blockId: nat, filename: string, md5: seq<Byte> -> Hash)
  {
    && b.start == span.0 && b.end == span.1 && b.filename == BlockFileName(filename, blockId)
    && IsLong(span.0) && IsLong(span.1) && SortedBlockFile(file, span.0, span.1, md5)
  }

  /** Block k and file k were written for plan entry k. */
  ghost predicate Written(blocks: seq<Block>, files: seq<seq<Byte>>, plan: seq<(int, int)>, filename: string, md5: seq<Byte> -> Hash)
  {
    && |blocks| == |plan| && |files| == |plan|
    && forall k {:trigger WrittenAs(blocks[k], files[k], plan[k], k, filename, md5)} ::
         0 <= k < |plan| ==> WrittenAs(blocks[k], files[k], plan[k], k, filename, md5)
  }

  lemma WrittenAppend(blocks: seq<Block>, files: seq<seq<Byte>>, plan: seq<(int, int)>, filename: string, md5: seq<Byte> -> Hash,
                      b: Block, file: seq<Byte>, span: (int, int))
    requires Written(blocks, files, plan, filename, md5) && WrittenAs(b, file, span, |plan|, filename, md5)
    ensures Written(blocks + [b], files + [file], plan + [span], filename, md5)
  {
  }

  /** Every block has been written out: its buffer is released and its file is files[k]. */
  ghost predicate Released(blocks: seq<Block>, files: seq<seq<Byte>>)
    reads blocks
  {
    |blocks| == |files| &&
    forall k :: 0 <= k < |blocks| ==> blocks[k].buffer == null && blocks[k].file == Some(files[k])
  }

  /** Where the block starting at `cur` ends: hashesPerBlock - 1 IDs later, or at `end`. */
  function BlockEnd(cur: int, end: int, hashesPerBlock: int): int
  {
    if cur + hashesPerBlock - 1 > end then end else cur + hashesPerBlock - 1
  }

  /**
   * Block k of the plan ends at its BlockEnd; another block follows it
   * exactly when its end is before `end`, and that block starts right after.
   */
  lemma PlanNext(start: int, end: int, hashesPerBlock: int, k: nat)
    requires hashesPerBlock >= 1 && k < |PlanBlocks(start, end, hashesPerBlock)|
    ensures var p := PlanBlocks(start, end, hashesPerBlock);
      && p[k].1 == BlockEnd(p[k].0, end, hashesPerBlock)
      && (k + 1 < |p| <==> p[k].1 + 1 <= end)
      && (k + 1 < |p| ==> p[k + 1].0 == p[k].1 + 1)
  {
    PlanUnfold(start, end, hashesPerBlock);
    if start <= end {
      PlanSizes(start, end, hashesPerBlock);
      PlanChain(start, end, hashesPerBlock);
      PlanWithin(start, end, hashesPerBlock);
      var p := PlanBlocks(start, end, hashesPerBlock);
      if k + 1 < |p| {
        assert p[k + 1].0 <= end;
      } else {
        assert p[k].1 == end;
      }
    }
  }

  /**
   * One pass of the `create()` loop body: make block `blockId` for
   * first..last, generate its records, sort them and write them to its file.
   * Each step's exception propagates.
   */
  method WriteBlock(first: int, last: int, blockId: nat, amountOfThreads: int, filename: string, md5: seq<Byte> -> Hash)
    returns (res: Result<Block>, contents: seq<Byte>)
    requires IsLong(first) && IsLong(last) && -MAX_BLOCK_HASHES <= last - first + 1 <= MAX_BLOCK_HASHES
    ensures res.Failure? <==> last - first + 1 < 0 || !(1 <= amountOfThreads <= FORK_JOIN_MAX_CAP)
    ensures res.Failure? ==> res.error == IllegalArgument
    ensures res.Success? ==> fresh(res.value) && res.value.Valid()
    ensures res.Success? ==> res.value.buffer == null && res.value.file == Some(contents)
    ensures res.Success? ==> WrittenAs(res.value, contents, (first, last), blockId, filename, md5)
  {
    var made := NewBlock(first, last, blockId, amountOfThreads, filename);
    if made.Failure? {
      return Failure(made.error), [];
    }
    var currentBlock := made.value;
    var outcome := currentBlock.GenerateHashes(md5);
    if outcome.Fail? {
      return Failure(outcome.error), [];
    }
    outcome := currentBlock.Sort();
    if outcome.Fail? {
      return Failure(outcome.error), [];
    }
    outcome := currentBlock.WriteToFile();
    return Success(currentBlock), currentBlock.file.value;
  }

  /**
   * The rest of one pass of the `create()` loop body: write block number
   * `blockId` for first..last and add it, and its file, after those written
   * so far.
   */
  method AppendBlock(blocks: seq<Block>, files: seq<seq<Byte>>, ghost plan: seq<(int, int)>, first: int, last: int,
                     blockId: nat, amountOfThreads: int, filename: string, md5: seq<Byte> -> Hash)
    returns (res: Result<seq<Block>>, newFiles: seq<seq<Byte>>)
    requires IsLong(first) && IsLong(last) && -MAX_BLOCK_HASHES <= last - first + 1 <= MAX_BLOCK_HASHES
    requires Written(blocks, files, plan, filename, md5) && blockId == |plan|
    requires Released(blocks, files)
    ensures res.Failure? <==> last - first + 1 < 0 || !(1 <= amountOfThreads <= FORK_JOIN_MAX_CAP)
    ensures res.Failure? ==> res.error == IllegalArgument
    ensures res.Success? ==> Written(res.value, newFiles, plan + [(first, last)], filename, md5)
    ensures res.Success? ==> Released(res.value, newFiles)
  {
    var made, contents := WriteBlock(first, last, blockId, amountOfThreads, filename, md5);
    if made.Failure? {
      return Failure(made.error), files;
    }
    WrittenAppend(blocks, files, plan, filename, md5, made.value, contents, (first, last));
    return Success(blocks + [made.value]), files + [contents];
  }

  /**
   * `create()`. It fails (IllegalArgumentException) exactly when the first
   * block has a negative size (end < start - 1) or the thread count is
   * outside 1..MAX_CAP; otherwise every planned block is made, generated,
   * sorted and written, in order, block k to the file `filename + k`.
   * `files` are the block files' contents, in block order.
   */
  method Create(start: int, end: int, amountOfThreads: int, hashesPerBlock: int, filename: string, md5: seq<Byte> -> Hash)
    returns (res: Result<seq<Block>>, files: seq<seq<Byte>>)
    requires IsLong(start) && IsLong(end) && end < LONG_MAX
    requires 1 <= hashesPerBlock <= MAX_BLOCK_HASHES
    requires start - end - 1 <= MAX_BLOCK_HASHES
    ensures res.Failure? <==> end - start + 1 < 0 || !(1 <= amountOfThreads <= FORK_JOIN_MAX_CAP)
    ensures res.Failure? ==> res.error == IllegalArgument
    ensures res.Success? ==> Written(res.value, files, PlanBlocks(start, end, hashesPerBlock), filename, md5)
    ensures res.Success? ==> Released(res.value, files)
  {
    var blocks: seq<Block> := [];
    files := [];
    ghost var plan := PlanBlocks(start, end, hashesPerBlock);
    ghost var steps: seq<(int, int)> := [];
    PlanHead(start, end, hashesPerBlock);
    var currentBlockId := 0;
    var currentBlockStart := start;
    while true
      invariant currentBlockId == |blocks| == |steps| < |plan| && plan[currentBlockId].0 == currentBlockStart
      invariant forall k :: 0 <= k < |steps| ==> steps[k] == plan[k]
      invariant currentBlockStart == start || start < currentBlockStart <= end
      invariant currentBlockStart != start ==> 1 <= amountOfThreads <= FORK_JOIN_MAX_CAP && start <= end
      invariant Written(blocks, files, steps, filename, md5)
      invariant Released(blocks, files)
      decreases end + 1 - currentBlockStart
    {
      var currentBlockEnd := currentBlockStart + hashesPerBlock - 1;
      if currentBlockEnd > end {
        currentBlockEnd := end;
      }
      PlanNext(start, end, hashesPerBlock, currentBlockId);
      assert plan[currentBlockId] == (currentBlockStart, currentBlockEnd);
      var appended, newFiles := AppendBlock(blocks, files, steps, currentBlockStart, currentBlockEnd,
                                            currentBlockId, amountOfThreads, filename, md5);
      if appended.Failure? {
        return Failure(appended.error), files;
      }
      blocks, files := appended.value, newFiles;
      steps := steps + [(currentBlockStart, currentBlockEnd)];
      currentBlockId := currentBlockId + 1;
      currentBlockStart := currentBlockEnd + 1;
      if currentBlockStart > end {
        assert steps == plan;
        break;
      }
    }
    return Success(blocks), files;
  }
}
