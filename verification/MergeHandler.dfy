/**
 * MergeHandler: the blocks are split into ranges, one per lane thread; each
 * lane merges its range of blocks into a queue of ComparisonDTOs tagged with
 * the lane's id and closed by a null entry, and the handler (the
 * coordinator) merges the lanes' queues into `minResult`, closed by the
 * one-byte array {0}.
 *
 * The threads only hand records to one another through blocking queues, so
 * what each queue receives does not depend on how the threads interleave:
 * the model runs every lane to completion and then the coordinator, each
 * reading what the others produced as a whole sequence.
 */
module MergeHandler {
  import opened Wrappers
  import opened Bytes
  import opened Comparison
  import opened Ranges
  import opened JavaArith
  import opened PriorityMerge

  /** One lane thread as initThreads sets it up: its id, its block range and the capacity of its pending queue. */
  datatype Lane = Lane(threadId: int, start: int, end: int, capacity: int)

  /** initThreads limits the number of lanes to the number of blocks. */
  function LaneCount(blockCount: nat, amountOfThreads: int): int
  {
    if blockCount < amountOfThreads then blockCount else amountOfThreads
  }

  /**
   * `new MergeHandler(blocks, result, amountOfThreads, queueSize)`, that is
   * the constructor and initThreads. `new ArrayList<>(n)` rejects a negative
   * n and `new PriorityQueue<>(n)` an n below 1; with no blocks there are no
   * lanes and `size / 0` throws; a lane queue capacity `queueSize / lanes`
   * below 1 is rejected by ArrayBlockingQueue. Otherwise lane i gets the
   * blocks [i * range, (i + 1) * range - 1], the last lane everything up to
   * the last block, where range = size / lanes.
   */
  method Init(blockCount: nat, amountOfThreads: int, queueSize: int) returns (res: Result<seq<Lane>>)
    ensures amountOfThreads < 1 ==> res == Failure(IllegalArgument)
    ensures amountOfThreads >= 1 && blockCount == 0 ==> res == Failure(ArithmeticDivByZero)
    ensures amountOfThreads >= 1 && blockCount >= 1 ==>
      (res.Failure? <==> Div(queueSize, LaneCount(blockCount, amountOfThreads)) < 1)
    ensures res.Failure? && amountOfThreads >= 1 && blockCount >= 1 ==> res.error == IllegalArgument
    ensures res.Success? ==>
      var n := LaneCount(blockCount, amountOfThreads);
      && |res.value| == n
      && forall i :: 0 <= i < n ==>
           res.value[i] == Lane(i, LaneStart(blockCount, n, i), LaneEnd(blockCount, n, i), Div(queueSize, n))
  {
    if amountOfThreads < 1 {
      return Failure(IllegalArgument);
    }
    var lanes := amountOfThreads;
    if blockCount < lanes {
      lanes := blockCount;
    }
    if lanes == 0 {
      return Failure(ArithmeticDivByZero);
    }
    var threadRange := blockCount / lanes;
    var threads: seq<Lane> := [];
    for i := 0 to lanes
      invariant |threads| == i
      invariant i > 0 ==> Div(queueSize, lanes) >= 1
      invariant forall k :: 0 <= k < i ==>
        threads[k] == Lane(k, LaneStart(blockCount, lanes, k), LaneEnd(blockCount, lanes, k), Div(queueSize, lanes))
    {
      var capacity := Div(queueSize, lanes);
      if capacity < 1 {
        return Failure(IllegalArgument);
      }
      var currentStart := i * threadRange;
      var currentEnd := (i + 1) * threadRange - 1;
      if i == lanes - 1 {
        currentEnd := blockCount - 1;
      }
      threads := threads + [Lane(i, currentStart, currentEnd, capacity)];
    }
    return Success(threads);
  }

  /** First block of lane i. */
  function LaneStart(blockCount: nat, n: int, i: int): int
    requires n >= 1
  {
    PartStart(0, blockCount - 1, n, i)
  }

  /** Last block of lane i. */
  function LaneEnd(blockCount: nat, n: int, i: int): int
    requires n >= 1
  {
    PartEnd(0, blockCount - 1, n, i)
  }

  /**
   * The lanes cover the blocks: their ranges, in lane order, are exactly the
   * block indices 0 .. size - 1, each lane's range is non-empty (so the
   * lane's own PriorityQueue, sized end - start + 1, never rejects its
   * capacity), and a lane's range ends where the next one's begins.
   */
  lemma LanesCover(blockCount: nat, n: int)
    requires 1 <= n <= blockCount
    ensures Concat(Parts(0, blockCount - 1, n, n)) == Range(0, blockCount - 1)
    ensures LaneStart(blockCount, n, 0) == 0 && LaneEnd(blockCount, n, n - 1) == blockCount - 1
    ensures forall i :: 0 <= i < n ==> 0 <= LaneStart(blockCount, n, i) <= LaneEnd(blockCount, n, i) < blockCount
    ensures forall i :: 0 <= i < n - 1 ==> LaneEnd(blockCount, n, i) + 1 == LaneStart(blockCount, n, i + 1)
  {
    PartsCover(0, blockCount - 1, n);
    PartsChain(0, blockCount - 1, n, 0);
    forall i | 0 <= i < n
      ensures 0 <= LaneStart(blockCount, n, i) <= LaneEnd(blockCount, n, i) < blockCount
    {
      LaneNonEmpty(blockCount, n, i);
    }
    forall i | 0 <= i < n - 1
      ensures LaneEnd(blockCount, n, i) + 1 == LaneStart(blockCount, n, i + 1)
    {
      PartsChain(0, blockCount - 1, n, i);
    }
  }

  /** With at least as many blocks as lanes, every lane gets at least one block. */
  lemma LaneNonEmpty(blockCount: nat, n: int, i: int)
    requires 1 <= n <= blockCount && 0 <= i < n
    ensures 0 <= LaneStart(blockCount, n, i) <= LaneEnd(blockCount, n, i) < blockCount
  {
    var r := blockCount / n;
    assert r >= 1;
    assert n * r <= blockCount;
    MulMonotone(0, i, r);
    MulMonotone(i + 1, n, r);
    assert (i + 1) * r == i * r + r;
  }

  /**
   * What a queue of ComparisonDTOs from lane l looks like once the lane is
   * done: every entry carries l, the records come first and the nulls after
   * them, and the last entry is null.
   */
  ghost predicate Finished(q: seq<ComparisonDTO>, l: int)
  {
    && q != [] && q[|q| - 1].hash.None?
    && Tagged(q, l)
    && RecordsThenNulls(q)
  }

  /** Every entry of the queue carries lane id l. */
  ghost predicate Tagged(q: seq<ComparisonDTO>, l: int)
  {
    forall k :: 0 <= k < |q| ==> q[k].id == l
  }

  /** No record follows a null entry. */
  ghost predicate RecordsThenNulls(q: seq<ComparisonDTO>)
  {
    forall a, b :: 0 <= a < b < |q| && q[a].hash.None? ==> q[b].hash.None?
  }

  /** Every block of [start, end] has at least one record. */
  ghost predicate AllNonEmpty(streams: seq<seq<Hash>>, start: int, end: int)
    requires 0 <= start && end < |streams|
  {
    forall j :: start <= j <= end ==> streams[j] != []
  }

  /** Every block of [start, end] pops in ascending key order. */
  ghost predicate AllAscending(streams: seq<seq<Hash>>, start: int, end: int)
    requires 0 <= start && end < |streams|
  {
    forall j :: start <= j <= end ==> Ascending(streams[j])
  }

  /**
   * A lane while it fills its priority queue: blocks [start, i) have been
   * popped once and have their entry (a null one when the block was empty),
   * the others are untouched.
   */
  ghost predicate FillShape(start: int, end: int, streams: seq<seq<Hash>>, pq: Queue, rest: seq<seq<Hash>>, i: int)
    requires 0 <= start <= i <= end + 1 <= |streams|
  {
    && |rest| == |streams|
    && (forall j :: 0 <= j < |streams| && !(start <= j < i) ==> rest[j] == streams[j])
    && (forall id :: id in pq <==> start <= id < i)
    && (forall j :: start <= j < i && pq[j].None? ==> rest[j] == [])
  }

  /** No record of the lane's blocks has been lost or invented. */
  ghost predicate KeepsRecords(start: int, end: int, streams: seq<seq<Hash>>, pq: Queue, rest: seq<seq<Hash>>, out: seq<Hash>)
    requires 0 <= start <= end + 1 <= |streams| == |rest|
  {
    multiset(Remaining(pq, rest, start, end + 1)) + multiset(out) == multiset(Concat(streams[start..end + 1]))
  }

  /** Blocks with records give record entries; ascending blocks keep the queue ordered. */
  ghost predicate FillOrder(start: int, end: int, streams: seq<seq<Hash>>, pq: Queue, rest: seq<seq<Hash>>)
    requires 0 <= start <= end + 1 <= |streams| == |rest|
  {
    && (AllNonEmpty(streams, start, end) ==> forall id :: id in pq ==> pq[id].Some?)
    && (AllAscending(streams, start, end) ==> Ordered(pq, rest, [], start, end + 1, 0))
  }

  lemma LaneFillStart(start: int, end: int, streams: seq<seq<Hash>>)
    requires 0 <= start <= end + 1 <= |streams|
    ensures FillShape(start, end, streams, map[], streams, start)
    ensures KeepsRecords(start, end, streams, map[], streams, [])
    ensures FillOrder(start, end, streams, map[], streams)
  {
    var empty: Queue := map[];
    RemainingOfSources(empty, streams, start, end + 1);
    var left := Remaining(empty, streams, start, end + 1);
    assert multiset(left) + multiset([]) == multiset(left);
    if AllAscending(streams, start, end) {
      forall j | start <= j < end + 1
        ensures Ascending(streams[j])
      {
      }
      assert Ascending([]);
      assert Ordered(empty, streams, [], start, end + 1, 0);
    }
  }

  lemma FillShapeStep(start: int, end: int, streams: seq<seq<Hash>>, pq: Queue, rest: seq<seq<Hash>>, i: int)
    requires 0 <= start <= i <= end < |streams|
    requires FillShape(start, end, streams, pq, rest, i)
    ensures i !in pq && rest[i] == streams[i]
    ensures FillShape(start, end, streams, pq[i := PopHead(rest[i])], rest[i := Tail(rest[i])], i + 1)
  {
  }

  lemma FillRecordsStep(start: int, end: int, streams: seq<seq<Hash>>, pq: Queue, rest: seq<seq<Hash>>, i: int)
    requires 0 <= start <= i <= end < |streams| == |rest| && i !in pq
    requires KeepsRecords(start, end, streams, pq, rest, [])
    ensures KeepsRecords(start, end, streams, pq[i := PopHead(rest[i])], rest[i := Tail(rest[i])], [])
  {
    FillConserves(pq, rest, start, end + 1, i);
  }

  lemma FillOrderStep(start: int, end: int, streams: seq<seq<Hash>>, pq: Queue, rest: seq<seq<Hash>>, i: int)
    requires 0 <= start <= i <= end < |streams| == |rest| && i !in pq && rest[i] == streams[i]
    requires FillOrder(start, end, streams, pq, rest)
    ensures FillOrder(start, end, streams, pq[i := PopHead(rest[i])], rest[i := Tail(rest[i])])
  {
    if AllAscending(streams, start, end) {
      FillKeepsOrder(pq, rest, start, end + 1, i);
    }
  }

  /**
   * A lane between two polls: the blocks outside [start, end] are
   * untouched; a block without an entry, or with a null one, is exhausted;
   * every entry put carries the lane's id and no record follows a null;
   * once a null was put the queue holds only nulls; and when every block
   * has a record there are no nulls yet.
   */
  ghost predicate MergeShape(threadId: int, start: int, end: int, streams: seq<seq<Hash>>,
                             pq: Queue, rest: seq<seq<Hash>>, pending: seq<ComparisonDTO>)
    requires 0 <= start <= end < |streams|
  {
    && |rest| == |streams|
    && (forall j :: 0 <= j < |streams| && !(start <= j <= end) ==> rest[j] == streams[j])
    && (forall id :: id in pq ==> start <= id <= end)
    && (forall j :: start <= j <= end && (j !in pq || pq[j].None?) ==> rest[j] == [])
    && Tagged(pending, threadId)
    && RecordsThenNulls(pending)
    && (pending != [] && pending[|pending| - 1].hash.None? ==> forall id :: id in pq ==> pq[id].None?)
    && (AllNonEmpty(streams, start, end) ==>
          (forall id :: id in pq ==> pq[id].Some?) && forall k :: 0 <= k < |pending| ==> pending[k].hash.Some?)
  }

  /** For ascending blocks, the records put so far are in order and precede what is still queued. */
  ghost predicate MergeOrder(start: int, end: int, streams: seq<seq<Hash>>,
                             pq: Queue, rest: seq<seq<Hash>>, out: seq<Hash>, floor: int)
    requires 0 <= start <= end + 1 <= |streams| == |rest|
  {
    AllAscending(streams, start, end) ==> Ordered(pq, rest, out, start, end + 1, floor)
  }

  lemma LaneMergeStart(start: int, end: int, streams: seq<seq<Hash>>, pq: Queue, rest: seq<seq<Hash>>)
    requires 0 <= start <= end < |streams|
    requires FillShape(start, end, streams, pq, rest, end + 1)
    requires FillOrder(start, end, streams, pq, rest)
    ensures forall threadId :: MergeShape(threadId, start, end, streams, pq, rest, [])
    ensures MergeOrder(start, end, streams, pq, rest, [], 0)
  {
  }

  /**
   * One poll of a lane: the least entry is removed, its block popped again
   * (a record goes back into the queue, a null does not), and the polled
   * entry is put, tagged with the lane's id.
   */
  lemma MergeShapeStep(threadId: int, start: int, end: int, streams: seq<seq<Hash>>,
                       pq: Queue, rest: seq<seq<Hash>>, pending: seq<ComparisonDTO>, id: int)
    requires 0 <= start <= end < |streams|
    requires MergeShape(threadId, start, end, streams, pq, rest, pending)
    requires Least(pq, id)
    ensures start <= id <= end && (pq[id].None? ==> rest[id] == [])
    ensures MergeShape(threadId, start, end, streams, Polled(pq, rest, id), rest[id := Tail(rest[id])],
                       pending + [ComparisonDTO(threadId, pq[id])])
  {
    LeastRank(pq, id);
  }

  lemma MergeRecordsStep(threadId: int, start: int, end: int, streams: seq<seq<Hash>>,
                         pq: Queue, rest: seq<seq<Hash>>, pending: seq<ComparisonDTO>, id: int)
    requires 0 <= start <= id <= end < |streams| == |rest|
    requires id in pq && (pq[id].None? ==> rest[id] == [])
    requires KeepsRecords(start, end, streams, pq, rest, Present(pending))
    ensures KeepsRecords(start, end, streams, Polled(pq, rest, id), rest[id := Tail(rest[id])],
                         Present(pending + [ComparisonDTO(threadId, pq[id])]))
    ensures |Remaining(Polled(pq, rest, id), rest[id := Tail(rest[id])], start, end + 1)| + |Polled(pq, rest, id)|
          < |Remaining(pq, rest, start, end + 1)| + |pq|
  {
    PollConserves(pq, rest, start, end + 1, id);
    PresentAppend(pending, ComparisonDTO(threadId, pq[id]));
  }

  lemma MergeOrderStep(threadId: int, start: int, end: int, streams: seq<seq<Hash>>,
                       pq: Queue, rest: seq<seq<Hash>>, pending: seq<ComparisonDTO>, floor: int, id: int)
    requires 0 <= start <= id <= end < |streams| == |rest|
    requires Least(pq, id) && (pq[id].None? ==> rest[id] == [])
    requires MergeOrder(start, end, streams, pq, rest, Present(pending), floor)
    ensures MergeOrder(start, end, streams, Polled(pq, rest, id), rest[id := Tail(rest[id])],
                       Present(pending + [ComparisonDTO(threadId, pq[id])]),
                       if pq[id].Some? then Key(pq[id].value) else floor)
  {
    PresentAppend(pending, ComparisonDTO(threadId, pq[id]));
    if AllAscending(streams, start, end) {
      PollKeepsOrder(pq, rest, Present(pending), start, end + 1, floor, id);
    }
  }

  /** Once the queue is empty every block of the lane is exhausted, and the closing null finishes the lane's queue. */
  lemma MergeShapeEnd(threadId: int, start: int, end: int, streams: seq<seq<Hash>>,
                      pq: Queue, rest: seq<seq<Hash>>, pending: seq<ComparisonDTO>)
    requires 0 <= start <= end < |streams|
    requires MergeShape(threadId, start, end, streams, pq, rest, pending) && |pq| == 0
    ensures forall j :: 0 <= j < |streams| ==> rest[j] == if start <= j <= end then [] else streams[j]
    ensures Finished(pending + [ComparisonDTO(threadId, None)], threadId)
    ensures AllNonEmpty(streams, start, end) ==>
      forall k :: 0 <= k < |pending| ==> (pending + [ComparisonDTO(threadId, None)])[k].hash.Some?
  {
    assert pq == map[];
  }

  /** Once the queue is empty the records put are all the lane's records. */
  lemma MergeRecordsEnd(threadId: int, start: int, end: int, streams: seq<seq<Hash>>,
                        pq: Queue, rest: seq<seq<Hash>>, pending: seq<ComparisonDTO>)
    requires 0 <= start <= end < |streams| == |rest|
    requires forall j :: start <= j <= end ==> rest[j] == []
    requires KeepsRecords(start, end, streams, pq, rest, Present(pending)) && |pq| == 0
    ensures multiset(Present(pending + [ComparisonDTO(threadId, None)])) == multiset(Concat(streams[start..end + 1]))
  {
    assert pq == map[];
    forall j | start <= j < end + 1
      ensures Held(pq, j) == [] && rest[j] == []
    {
    }
    RemainingDrained(pq, rest, start, end + 1);
    PresentAppend(pending, ComparisonDTO(threadId, None));
    assert Present(pending + [ComparisonDTO(threadId, None)]) == Present(pending);
    assert multiset(Remaining(pq, rest, start, end + 1)) == multiset{};
  }

  /** The closing null adds no record, so ascending output stays ascending. */
  lemma MergeOrderEnd(threadId: int, start: int, end: int, streams: seq<seq<Hash>>,
                      pq: Queue, rest: seq<seq<Hash>>, pending: seq<ComparisonDTO>, floor: int)
    requires 0 <= start <= end < |streams| == |rest|
    requires MergeOrder(start, end, streams, pq, rest, Present(pending), floor)
    ensures AllAscending(streams, start, end) ==> Ascending(Present(pending + [ComparisonDTO(threadId, None)]))
  {
    PresentAppend(pending, ComparisonDTO(threadId, None));
  }

  /**
   * MergeHandlerThread.run for lane `threadId` over blocks [start, end];
   * `streams[j]` is what block j's reader pops, in order. It puts one entry
   * per pop into its queue (a null one for an exhausted block), then a
   * closing null entry. Returns the lane's queue and what the readers have
   * left.
   *
   * Its records are exactly the records of its blocks; when every block is
   * ascending they come out ascending; and when every block has at least one
   * record, the closing entry is the only null one.
   */
  method RunLane(threadId: int, start: int, end: int, streams: seq<seq<Hash>>)
    returns (pending: seq<ComparisonDTO>, rest: seq<seq<Hash>>)
    requires 0 <= start <= end < |streams|
    ensures |rest| == |streams|
    ensures forall j :: 0 <= j < |streams| ==> rest[j] == if start <= j <= end then [] else streams[j]
    ensures Finished(pending, threadId)
    ensures multiset(Present(pending)) == multiset(Concat(streams[start..end + 1]))
    ensures AllNonEmpty(streams, start, end) ==> forall k :: 0 <= k < |pending| - 1 ==> pending[k].hash.Some?
    ensures AllAscending(streams, start, end) ==> Ascending(Present(pending))
  {
    var pq: Queue := map[];
    rest := streams;
    LaneFillStart(start, end, streams);
    // populate the priority queue with the first pop of every block
    for i := start to end + 1
      invariant FillShape(start, end, streams, pq, rest, i)
      invariant KeepsRecords(start, end, streams, pq, rest, [])
      invariant FillOrder(start, end, streams, pq, rest)
    {
      FillShapeStep(start, end, streams, pq, rest, i);
      FillRecordsStep(start, end, streams, pq, rest, i);
      FillOrderStep(start, end, streams, pq, rest, i);
      pq := pq[i := PopHead(rest[i])];
      rest := rest[i := Tail(rest[i])];
    }
    LaneMergeStart(start, end, streams, pq, rest);
    pending := [];
    assert Present(pending) == [];
    ghost var floor := 0;
    while true
      invariant MergeShape(threadId, start, end, streams, pq, rest, pending)
      invariant KeepsRecords(start, end, streams, pq, rest, Present(pending))
      invariant MergeOrder(start, end, streams, pq, rest, Present(pending), floor)
      decreases |Remaining(pq, rest, start, end + 1)| + |pq|
    {
      if |pq| == 0 {
        break;
      }
      LeastExists(pq);
      var id :| Least(pq, id);
      MergeShapeStep(threadId, start, end, streams, pq, rest, pending, id);
      MergeRecordsStep(threadId, start, end, streams, pq, rest, pending, id);
      MergeOrderStep(threadId, start, end, streams, pq, rest, pending, floor, id);
      floor := if pq[id].Some? then Key(pq[id].value) else floor;
      ghost var polled := Polled(pq, rest, id);
      // current = priorityQueue.poll(); next = the block's next pop
      var current := ComparisonDTO(id, pq[id]);
      pq := pq - {id};
      var next := ComparisonDTO(id, PopHead(rest[id]));
      rest := rest[id := Tail(rest[id])];
      if next.hash.Some? {
        pq := pq[id := next.hash];
      }
      assert pq == polled;
      pending := pending + [ComparisonDTO(threadId, current.hash)];
    }
    MergeShapeEnd(threadId, start, end, streams, pq, rest, pending);
    MergeRecordsEnd(threadId, start, end, streams, pq, rest, pending);
    MergeOrderEnd(threadId, start, end, streams, pq, rest, pending, floor);
    pending := pending + [ComparisonDTO(threadId, None)];
  }

  /** A lane's queue whose head is null holds no record. */
  lemma {:induction false} NullsCarryNothing(q: seq<ComparisonDTO>)
    requires q != [] && q[0].hash.None? && RecordsThenNulls(q)
    ensures Present(q) == []
    decreases |q|
  {
    if |q| > 1 {
      assert q[1..][0].hash.None?;
      NullsCarryNothing(q[1..]);
    }
  }

  /**
   * Taking the head of a lane's queue is popping the lane's records: the
   * entry taken is the lane's next record, or null once they are all taken,
   * and what is left to take holds the rest.
   */
  lemma TakeIsPop(q: seq<ComparisonDTO>)
    requires q != [] && RecordsThenNulls(q)
    ensures q[0].hash == PopHead(Present(q))
    ensures Present(q[1..]) == Tail(Present(q))
    ensures RecordsThenNulls(q[1..])
  {
    if q[0].hash.None? {
      NullsCarryNothing(q);
      if |q| > 1 {
        NullsCarryNothing(q[1..]);
      }
    }
  }

  /** The records each lane puts, lane by lane. */
  function LaneRecords(lanes: seq<seq<ComparisonDTO>>): (r: seq<seq<Hash>>)
    ensures |r| == |lanes|
    ensures forall l :: 0 <= l < |lanes| ==> r[l] == Present(lanes[l])
  {
    seq(|lanes|, l requires 0 <= l < |lanes| => Present(lanes[l]))
  }

  /** What the coordinator needs of each lane's queue: the lane finished, and its first entry is a record. */
  ghost predicate Ready(lanes: seq<seq<ComparisonDTO>>)
  {
    forall l {:trigger Finished(lanes[l], l)} :: 0 <= l < |lanes| ==> Finished(lanes[l], l) && Present(lanes[l]) != []
  }

  /**
   * Lane l's queue as the coordinator sees it: every entry carries the
   * lane's id, records come before nulls, `rest[l]` is the records still in
   * it, a queue not yet emptied still ends with the closing null, and a lane
   * with an entry in the priority queue has something left to take.
   */
  ghost predicate MirrorLane(queues: seq<seq<ComparisonDTO>>, pq: Queue, rest: seq<seq<Hash>>, l: int)
    requires 0 <= l < |queues| == |rest|
  {
    && Tagged(queues[l], l) && RecordsThenNulls(queues[l]) && rest[l] == Present(queues[l])
    && (queues[l] != [] ==> queues[l][|queues[l]| - 1].hash.None?)
    && (l in pq ==> queues[l] != [])
  }

  /** Every lane's queue is as MirrorLane says. */
  ghost predicate Mirror(queues: seq<seq<ComparisonDTO>>, pq: Queue, rest: seq<seq<Hash>>)
  {
    && |queues| == |rest|
    && forall l {:trigger MirrorLane(queues, pq, rest, l)} :: 0 <= l < |rest| ==> MirrorLane(queues, pq, rest, l)
  }

  /** The coordinator polls only records, and a lane without an entry has no record left. */
  ghost predicate Drains(pq: Queue, rest: seq<seq<Hash>>)
  {
    && (forall l :: l in pq ==> 0 <= l < |rest| && pq[l].Some?)
    && (forall l :: 0 <= l < |rest| && l !in pq ==> rest[l] == [])
  }

  /** Finished lanes whose first entry is a record are mirrored by their records, and each has one. */
  lemma CoordStart(lanes: seq<seq<ComparisonDTO>>, streams: seq<seq<Hash>>)
    requires Ready(lanes) && streams == LaneRecords(lanes)
    ensures Mirror(lanes, map[], streams)
    ensures AllNonEmpty(streams, 0, |lanes| - 1)
  {
    forall l | 0 <= l < |lanes|
      ensures MirrorLane(lanes, map[], streams, l) && streams[l] != []
    {
      assert Finished(lanes[l], l);
      TakeIsPop(lanes[l]);
    }
  }

  /**
   * Taking the head of lane l's queue: the entry carries id l and is what
   * popping the lane's records gives, and the queues stay mirrored provided
   * the priority queue gains no other lane and keeps lane l only while it
   * has records.
   */
  lemma MirrorTake(queues: seq<seq<ComparisonDTO>>, pq: Queue, rest: seq<seq<Hash>>, l: int, pq': Queue)
    requires Mirror(queues, pq, rest) && 0 <= l < |rest| && queues[l] != []
    requires pq'.Keys <= pq.Keys + {l}
    requires l in pq' ==> rest[l] != []
    ensures queues[l][0].id == l && queues[l][0].hash == PopHead(rest[l])
    ensures Mirror(queues[l := queues[l][1..]], pq', rest[l := Tail(rest[l])])
  {
    assert MirrorLane(queues, pq, rest, l);
    TakeIsPop(queues[l]);
    var q := queues[l];
    if l in pq' {
      assert q[0].hash.Some? && q[|q| - 1].hash.None?;
      assert |q| >= 2;
    }
    var queues', rest' := queues[l := q[1..]], rest[l := Tail(rest[l])];
    assert Tagged(q[1..], l) by {
      forall k | 0 <= k < |q[1..]|
        ensures q[1..][k].id == l
      {
        assert q[1..][k] == q[k + 1];
      }
    }
    forall k | 0 <= k < |rest'|
      ensures MirrorLane(queues', pq', rest', k)
    {
      assert MirrorLane(queues, pq, rest, k);
    }
  }

  /** After populating, every lane has its record in the priority queue. */
  lemma CoordFilled(streams: seq<seq<Hash>>, pq: Queue, rest: seq<seq<Hash>>)
    requires |streams| == |rest| && AllNonEmpty(streams, 0, |streams| - 1)
    requires FillShape(0, |streams| - 1, streams, pq, rest, |streams|)
    requires FillOrder(0, |streams| - 1, streams, pq, rest)
    ensures Drains(pq, rest)
    ensures MergeOrder(0, |streams| - 1, streams, pq, rest, [], 0)
  {
  }

  /** A poll keeps the priority queue to records, and a lane leaves it only when its records are all taken. */
  lemma DrainsStep(pq: Queue, rest: seq<seq<Hash>>, id: int)
    requires Drains(pq, rest) && Least(pq, id)
    ensures 0 <= id < |rest| && pq[id].Some?
    ensures Polled(pq, rest, id).Keys <= pq.Keys + {id}
    ensures id in Polled(pq, rest, id) ==> rest[id] != []
    ensures Drains(Polled(pq, rest, id), rest[id := Tail(rest[id])])
  {
  }

  /** Once the priority queue is empty, every lane is done. */
  lemma CoordDrained(pq: Queue, rest: seq<seq<Hash>>)
    requires Drains(pq, rest) && |pq| == 0
    ensures forall j :: 0 <= j < |rest| ==> rest[j] == []
  {
    assert pq == map[];
  }

  lemma CoordRecordsStep(streams: seq<seq<Hash>>, pq: Queue, rest: seq<seq<Hash>>, out: seq<Hash>, id: int)
    requires 0 <= id < |streams| == |rest|
    requires id in pq && pq[id].Some?
    requires KeepsRecords(0, |streams| - 1, streams, pq, rest, out)
    ensures KeepsRecords(0, |streams| - 1, streams, Polled(pq, rest, id), rest[id := Tail(rest[id])], out + [pq[id].value])
    ensures |Remaining(Polled(pq, rest, id), rest[id := Tail(rest[id])], 0, |streams|)| + |Polled(pq, rest, id)|
          < |Remaining(pq, rest, 0, |streams|)| + |pq|
  {
    PollConserves(pq, rest, 0, |streams|, id);
    assert Held(pq, id) == [pq[id].value];
  }

  lemma CoordOrderStep(streams: seq<seq<Hash>>, pq: Queue, rest: seq<seq<Hash>>, out: seq<Hash>, floor: int, id: int)
    requires 0 <= id < |streams| == |rest|
    requires Least(pq, id) && pq[id].Some?
    requires MergeOrder(0, |streams| - 1, streams, pq, rest, out, floor)
    ensures MergeOrder(0, |streams| - 1, streams, Polled(pq, rest, id), rest[id := Tail(rest[id])],
                       out + [pq[id].value], Key(pq[id].value))
  {
    assert Held(pq, id) == [pq[id].value];
    if AllAscending(streams, 0, |streams| - 1) {
      PollKeepsOrder(pq, rest, out, 0, |streams|, floor, id);
    }
  }

  /** Once every lane is done, every lane's records have been put. */
  lemma CoordRecordsEnd(streams: seq<seq<Hash>>, pq: Queue, rest: seq<seq<Hash>>, out: seq<Hash>)
    requires |streams| == |rest| && |pq| == 0
    requires forall j :: 0 <= j < |rest| ==> rest[j] == []
    requires KeepsRecords(0, |streams| - 1, streams, pq, rest, out)
    ensures multiset(out) == multiset(Concat(streams))
  {
    NothingRemains(pq, rest);
    assert streams[0..|streams|] == streams;
  }

  /** An empty priority queue over exhausted lanes leaves nothing to put. */
  lemma NothingRemains(pq: Queue, rest: seq<seq<Hash>>)
    requires |pq| == 0 && forall j :: 0 <= j < |rest| ==> rest[j] == []
    ensures Remaining(pq, rest, 0, |rest|) == []
  {
    assert pq == map[];
    forall j | 0 <= j < |rest|
      ensures Held(pq, j) == [] && rest[j] == []
    {
    }
    RemainingDrained(pq, rest, 0, |rest|);
  }

  /**
   * The first loop of MergeHandler.run: take the first entry of every lane
   * into the priority queue. Afterwards every lane has its first record in
   * the queue, nothing has been put yet, and what is left in the queues is
   * still mirrored by the lanes' records.
   */
  method Populate(lanes: seq<seq<ComparisonDTO>>, ghost streams: seq<seq<Hash>>)
    returns (queues: seq<seq<ComparisonDTO>>, pq: Queue, ghost rest: seq<seq<Hash>>)
    requires |lanes| == |streams| && AllNonEmpty(streams, 0, |streams| - 1)
    requires Mirror(lanes, map[], streams)
    ensures |rest| == |streams|
    ensures Drains(pq, rest) && Mirror(queues, pq, rest)
    ensures KeepsRecords(0, |streams| - 1, streams, pq, rest, [])
    ensures MergeOrder(0, |streams| - 1, streams, pq, rest, [], 0)
  {
    queues := lanes;
    pq := map[];
    rest := streams;
    LaneFillStart(0, |streams| - 1, streams);
    for threadId := 0 to |lanes|
      invariant FillShape(0, |streams| - 1, streams, pq, rest, threadId)
      invariant Mirror(queues, pq, rest)
      invariant KeepsRecords(0, |streams| - 1, streams, pq, rest, [])
      invariant FillOrder(0, |streams| - 1, streams, pq, rest)
    {
      FillShapeStep(0, |streams| - 1, streams, pq, rest, threadId);
      assert MirrorLane(queues, pq, rest, threadId);
      MirrorTake(queues, pq, rest, threadId, pq[threadId := PopHead(rest[threadId])]);
      FillRecordsStep(0, |streams| - 1, streams, pq, rest, threadId);
      FillOrderStep(0, |streams| - 1, streams, pq, rest, threadId);
      var taken := queues[threadId][0];
      queues := queues[threadId := queues[threadId][1..]];
      pq := pq[taken.id := taken.hash];
      rest := rest[threadId := Tail(rest[threadId])];
    }
    CoordFilled(streams, pq, rest);
  }

  /**
   * The second loop of MergeHandler.run: until the priority queue is empty,
   * poll the least entry, put its record and take the next entry of the same
   * lane, keeping it unless it is the lane's closing null. What it puts is
   * every record left in the lanes, ascending when every lane is.
   */
  method Drain(ghost streams: seq<seq<Hash>>, queues: seq<seq<ComparisonDTO>>, pq: Queue, ghost rest: seq<seq<Hash>>)
    returns (out: seq<Hash>)
    requires |rest| == |streams|
    requires Drains(pq, rest) && Mirror(queues, pq, rest)
    requires KeepsRecords(0, |streams| - 1, streams, pq, rest, [])
    requires MergeOrder(0, |streams| - 1, streams, pq, rest, [], 0)
    ensures multiset(out) == multiset(Concat(streams))
    ensures AllAscending(streams, 0, |streams| - 1) ==> Ascending(out)
  {
    var queues, pq := queues, pq;
    ghost var rest := rest;
    out := [];
    ghost var floor := 0;
    while true
      invariant |rest| == |streams|
      invariant Drains(pq, rest) && Mirror(queues, pq, rest)
      invariant KeepsRecords(0, |streams| - 1, streams, pq, rest, out)
      invariant MergeOrder(0, |streams| - 1, streams, pq, rest, out, floor)
      decreases |Remaining(pq, rest, 0, |streams|)| + |pq|
    {
      if |pq| == 0 {
        break;
      }
      LeastExists(pq);
      var id :| Least(pq, id);
      DrainsStep(pq, rest, id);
      assert MirrorLane(queues, pq, rest, id);
      MirrorTake(queues, pq, rest, id, Polled(pq, rest, id));
      CoordRecordsStep(streams, pq, rest, out, id);
      CoordOrderStep(streams, pq, rest, out, floor, id);
      var current := pq[id].value;
      floor := Key(current);
      ghost var polled := Polled(pq, rest, id);
      var next := queues[id][0];
      queues := queues[id := queues[id][1..]];
      rest := rest[id := Tail(rest[id])];
      // the polled entry leaves; the lane's next entry joins unless it is the closing null
      pq := if next.hash.Some? then (pq - {id})[id := next.hash] else pq - {id};
      assert pq == polled;
      out := out + [current];
    }
    CoordDrained(pq, rest);
    CoordRecordsEnd(streams, pq, rest, out);
  }

  /**
   * MergeHandler.run: take the first entry of every lane into the priority
   * queue; then, until it is empty, poll the least entry, put its record
   * into `minResult` and take the next entry of the same lane, keeping it
   * unless it is the lane's closing null; finally put the one-byte sentinel
   * {0}.
   *
   * Everything put before the sentinel is a 16-byte record, the records are
   * exactly the lanes' records, and they come out ascending when every lane's
   * records are ascending.
   */
  method Coordinate(lanes: seq<seq<ComparisonDTO>>) returns (minResult: seq<seq<Byte>>)
    requires Ready(lanes)
    ensures |minResult| >= 1 && minResult[|minResult| - 1] == [0]
    ensures forall k :: 0 <= k < |minResult| - 1 ==> |minResult[k]| == HASH_SIZE
    ensures multiset(minResult[..|minResult| - 1]) == multiset(Concat(LaneRecords(lanes)))
    ensures AllAscending(LaneRecords(lanes), 0, |lanes| - 1) ==> Ascending(minResult[..|minResult| - 1])
  {
    ghost var streams := LaneRecords(lanes);
    CoordStart(lanes, streams);
    var queues, pq, rest := Populate(lanes, streams);
    var out := Drain(streams, queues, pq, rest);
    minResult := out + [[0]];
    assert minResult[..|minResult| - 1] == out;
  }

  /** Every lane has at least one block with a record. */
  ghost predicate LanesHaveRecords(streams: seq<seq<Hash>>, n: int)
    requires n >= 1
  {
    forall i :: 0 <= i < n ==>
      exists j :: LaneStart(|streams|, n, i) <= j <= LaneEnd(|streams|, n, i) && 0 <= j < |streams| && streams[j] != []
  }

  /**
   * Lanes as initThreads sets them up: numbered in order, each with a
   * non-empty range, the ranges consecutive and together covering the
   * blocks 0 .. blockCount - 1.
   */
  ghost predicate Covers(threads: seq<Lane>, blockCount: int)
  {
    && |threads| >= 1
    && threads[0].start == 0 && threads[|threads| - 1].end == blockCount - 1
    && (forall i :: 0 <= i < |threads| ==> threads[i].threadId == i && 0 <= threads[i].start <= threads[i].end < blockCount)
    && (forall a, b :: 0 <= a && b == a + 1 < |threads| ==> threads[a].end + 1 == threads[b].start)
  }

  /** Every lane has a block with a record. */
  ghost predicate HaveRecords(threads: seq<Lane>, streams: seq<seq<Hash>>)
  {
    forall i {:trigger HasRecord(threads, streams, i)} :: 0 <= i < |threads| ==> HasRecord(threads, streams, i)
  }

  /** Lane i has a block with a record. */
  ghost predicate HasRecord(threads: seq<Lane>, streams: seq<seq<Hash>>, i: int)
    requires 0 <= i < |threads|
  {
    exists j :: threads[i].start <= j <= threads[i].end && 0 <= j < |streams| && streams[j] != []
  }

  /** Where lane i's blocks begin; past the last lane, the number of blocks. */
  function Reach(threads: seq<Lane>, blockCount: int, i: int): int
  {
    if 0 <= i < |threads| then threads[i].start else blockCount
  }

  /** The lanes initThreads makes cover the blocks, and have records when the blocks give each lane one. */
  lemma InitCovers(streams: seq<seq<Hash>>, n: int, threads: seq<Lane>, capacity: int)
    requires 1 <= n <= |streams| && |threads| == n
    requires forall i :: 0 <= i < n ==> threads[i] == Lane(i, LaneStart(|streams|, n, i), LaneEnd(|streams|, n, i), capacity)
    requires LanesHaveRecords(streams, n)
    ensures Covers(threads, |streams|) && HaveRecords(threads, streams)
  {
    LanesCover(|streams|, n);
    forall i | 0 <= i < n
      ensures HasRecord(threads, streams, i)
    {
      assert threads[i].start == LaneStart(|streams|, n, i) && threads[i].end == LaneEnd(|streams|, n, i);
    }
  }

  /** The first `b` elements are the first `a` followed by those from `a` to `b`. */
  lemma SliceSplit<T>(s: seq<T>, a: int, b: int)
    requires 0 <= a <= b <= |s|
    ensures s[..b] == s[..a] + s[a..b]
  {
  }

  /** Laying out sequences end to end loses no non-empty one. */
  lemma ConcatKeeps<T>(ss: seq<seq<T>>, j: int)
    requires 0 <= j < |ss| && ss[j] != []
    ensures Concat(ss) != []
  {
    assert ss == ss[..j] + ss[j..];
    ConcatAppend(ss[..j], ss[j..]);
    assert ss[j..][0] == ss[j];
  }

  /**
   * One more lane: when the lanes so far hold exactly the records of the
   * blocks before `s` and the new lane those of blocks [s, e], together they
   * hold the records of the blocks before e + 1.
   */
  lemma LaneAccount(streams: seq<seq<Hash>>, records: seq<seq<Hash>>, r: seq<Hash>, s: int, e: int)
    requires 0 <= s <= e < |streams|
    requires multiset(Concat(records)) == multiset(Concat(streams[..s]))
    requires multiset(r) == multiset(Concat(streams[s..e + 1]))
    ensures multiset(Concat(records + [r])) == multiset(Concat(streams[..e + 1]))
  {
    ConcatAppend(records, [r]);
    assert Concat([r]) == r + Concat([]);
    SliceSplit(streams, s, e + 1);
    ConcatAppend(streams[..s], streams[s..e + 1]);
  }

  /** Two sequences that agree from `a` on have the same slices there. */
  lemma SameFrom<T>(s: seq<T>, t: seq<T>, a: int, b: int)
    requires 0 <= a <= b <= |s| == |t|
    requires s[a..] == t[a..]
    ensures s[a..b] == t[a..b]
  {
    assert s[a..b] == s[a..][..b - a];
    assert t[a..b] == t[a..][..b - a];
  }

  /**
   * One lane thread over the readers the lanes before it have left: those
   * agree with the original blocks from the lane's first block on, and one of
   * its blocks has a record. The lane finishes with a record first, holds
   * exactly its blocks' records (ascending when every block is), and leaves
   * the blocks after it untouched.
   */
  method LaneOver(streams: seq<seq<Hash>>, blocks: seq<seq<Hash>>, threadId: int, start: int, end: int, ghost j: int)
    returns (pending: seq<ComparisonDTO>, left: seq<seq<Hash>>)
    requires 0 <= start <= j <= end < |streams| == |blocks| && streams[j] != []
    requires blocks[start..] == streams[start..]
    ensures |left| == |streams| && left[end + 1..] == streams[end + 1..]
    ensures Finished(pending, threadId) && Present(pending) != []
    ensures multiset(Present(pending)) == multiset(Concat(streams[start..end + 1]))
    ensures AllAscending(streams, 0, |streams| - 1) ==> Ascending(Present(pending))
  {
    pending, left := RunLane(threadId, start, end, blocks);
    SameRecords(blocks, streams, start, end, j, Present(pending));
    SameLeft(blocks, streams, left, start, end);
  }

  /**
   * What a lane read from readers that agree with the blocks on its range
   * is what it would have read from the blocks themselves; and a lane one of
   * whose blocks has a record holds a record.
   */
  lemma SameRecords(blocks: seq<seq<Hash>>, streams: seq<seq<Hash>>, s: int, e: int, j: int, r: seq<Hash>)
    requires 0 <= s <= j <= e < |streams| == |blocks| && streams[j] != []
    requires blocks[s..] == streams[s..]
    requires multiset(r) == multiset(Concat(blocks[s..e + 1]))
    requires AllAscending(blocks, s, e) ==> Ascending(r)
    ensures r != []
    ensures multiset(r) == multiset(Concat(streams[s..e + 1]))
    ensures AllAscending(streams, 0, |streams| - 1) ==> Ascending(r)
  {
    SameFrom(blocks, streams, s, e + 1);
    assert streams[s..e + 1][j - s] == streams[j];
    ConcatKeeps(streams[s..e + 1], j - s);
    assert |multiset(Concat(streams[s..e + 1]))| > 0;
  }

  /** A lane leaves the readers after its range as they were. */
  lemma SameLeft(blocks: seq<seq<Hash>>, streams: seq<seq<Hash>>, left: seq<seq<Hash>>, s: int, e: int)
    requires 0 <= s <= e < |streams| == |blocks| == |left|
    requires blocks[s..] == streams[s..]
    requires forall k :: 0 <= k < |blocks| ==> left[k] == if s <= k <= e then [] else blocks[k]
    ensures left[e + 1..] == streams[e + 1..]
  {
  }

  /** The lanes run so far: each finished with a record first, holding `records`. */
  ghost predicate LanesSoFar(lanes: seq<seq<ComparisonDTO>>, records: seq<seq<Hash>>, ascending: bool)
  {
    && |lanes| == |records|
    && (forall l {:trigger LaneSoFar(lanes, records, ascending, l)} :: 0 <= l < |lanes| ==> LaneSoFar(lanes, records, ascending, l))
  }

  /** Lane l finished with a record first, holds `records[l]`, ascending when `ascending` is. */
  ghost predicate LaneSoFar(lanes: seq<seq<ComparisonDTO>>, records: seq<seq<Hash>>, ascending: bool, l: int)
    requires 0 <= l < |lanes| == |records|
  {
    Finished(lanes[l], l) && Present(lanes[l]) != [] && records[l] == Present(lanes[l]) && (ascending ==> Ascending(records[l]))
  }

  /** Appending one more finished lane keeps `LanesSoFar`. */
  lemma LanesSoFarStep(lanes: seq<seq<ComparisonDTO>>, records: seq<seq<Hash>>, ascending: bool, q: seq<ComparisonDTO>)
    requires LanesSoFar(lanes, records, ascending)
    requires Finished(q, |lanes|) && Present(q) != [] && (ascending ==> Ascending(Present(q)))
    ensures LanesSoFar(lanes + [q], records + [Present(q)], ascending)
  {
    forall l | 0 <= l < |lanes| + 1
      ensures LaneSoFar(lanes + [q], records + [Present(q)], ascending, l)
    {
      if l < |lanes| {
        assert LaneSoFar(lanes, records, ascending, l);
      }
    }
  }

  /** One more lane, over blocks [s, e], run after the lanes that hold the blocks before s. */
  lemma LanesStep(streams: seq<seq<Hash>>, lanes: seq<seq<ComparisonDTO>>, records: seq<seq<Hash>>, ascending: bool,
                  q: seq<ComparisonDTO>, s: int, e: int)
    requires 0 <= s <= e < |streams|
    requires LanesSoFar(lanes, records, ascending) && multiset(Concat(records)) == multiset(Concat(streams[..s]))
    requires Finished(q, |lanes|) && Present(q) != [] && (ascending ==> Ascending(Present(q)))
    requires multiset(Present(q)) == multiset(Concat(streams[s..e + 1]))
    ensures LanesSoFar(lanes + [q], records + [Present(q)], ascending)
    ensures multiset(Concat(records + [Present(q)])) == multiset(Concat(streams[..e + 1]))
  {
    LaneAccount(streams, records, Present(q), s, e);
    LanesSoFarStep(lanes, records, ascending, q);
  }

  /** Lane i of a covering has a block with a record, and begins where lane i - 1 ended. */
  lemma LaneOfCover(threads: seq<Lane>, streams: seq<seq<Hash>>, i: int) returns (j: int)
    requires Covers(threads, |streams|) && HaveRecords(threads, streams) && 0 <= i < |threads|
    ensures threads[i].threadId == i && 0 <= threads[i].start <= j <= threads[i].end < |streams| && streams[j] != []
    ensures Reach(threads, |streams|, i) == threads[i].start && Reach(threads, |streams|, i + 1) == threads[i].end + 1
  {
    assert HasRecord(threads, streams, i);
    j :| threads[i].start <= j <= threads[i].end && 0 <= j < |streams| && streams[j] != [];
  }

  /** When every lane has run, the lanes are ready and hold every block's records. */
  lemma LanesDone(streams: seq<seq<Hash>>, lanes: seq<seq<ComparisonDTO>>, records: seq<seq<Hash>>, ascending: bool)
    requires LanesSoFar(lanes, records, ascending) && ascending == AllAscending(streams, 0, |streams| - 1)
    requires multiset(Concat(records)) == multiset(Concat(streams[..|streams|]))
    ensures Ready(lanes)
    ensures multiset(Concat(LaneRecords(lanes))) == multiset(Concat(streams))
    ensures ascending ==> AllAscending(LaneRecords(lanes), 0, |lanes| - 1)
  {
    forall l | 0 <= l < |lanes|
      ensures Finished(lanes[l], l) && Present(lanes[l]) != [] && records[l] == Present(lanes[l])
      ensures ascending ==> Ascending(records[l])
    {
      assert LaneSoFar(lanes, records, ascending, l);
    }
    assert streams[..|streams|] == streams;
    assert records == LaneRecords(lanes);
  }

  /**
   * The state after lanes 0 .. i - 1 have run: the readers from `reach`, the
   * first block of lane i, on are untouched, and the lanes so far hold
   * exactly the records of the blocks before it.
   */
  ghost predicate LanesUpTo(streams: seq<seq<Hash>>, threads: seq<Lane>, i: int, blocks: seq<seq<Hash>>,
                            lanes: seq<seq<ComparisonDTO>>, records: seq<seq<Hash>>, reach: int, ascending: bool)
  {
    && |lanes| == i && |blocks| == |streams| && reach == Reach(threads, |streams|, i) && 0 <= reach <= |streams|
    && blocks[reach..] == streams[reach..]
    && LanesSoFar(lanes, records, ascending)
    && multiset(Concat(records)) == multiset(Concat(streams[..reach]))
  }

  /**
   * Lane `threadId` runs over its blocks [start, end] of the readers the
   * lanes before it have left, which are untouched from `start` on; then the
   * readers from end + 1 on are still untouched, and the lanes hold exactly
   * the records of the blocks before end + 1.
   */
  method NextLane(streams: seq<seq<Hash>>, blocks: seq<seq<Hash>>, threadId: int, start: int, end: int, ghost j: int,
                  lanes: seq<seq<ComparisonDTO>>, ghost records: seq<seq<Hash>>, ghost ascending: bool)
    returns (blocks': seq<seq<Hash>>, lanes': seq<seq<ComparisonDTO>>, ghost records': seq<seq<Hash>>)
    requires 0 <= start <= j <= end < |streams| == |blocks| && streams[j] != [] && threadId == |lanes|
    requires blocks[start..] == streams[start..] && ascending == AllAscending(streams, 0, |streams| - 1)
    requires LanesSoFar(lanes, records, ascending) && multiset(Concat(records)) == multiset(Concat(streams[..start]))
    ensures |blocks'| == |streams| && blocks'[end + 1..] == streams[end + 1..] && |lanes'| == |lanes| + 1
    ensures LanesSoFar(lanes', records', ascending) && multiset(Concat(records')) == multiset(Concat(streams[..end + 1]))
  {
    var pending, left := LaneOver(streams, blocks, threadId, start, end, j);
    LanesStep(streams, lanes, records, ascending, pending, start, end);
    lanes' := lanes + [pending];
    records' := records + [Present(pending)];
    blocks' := left;
  }

  /**
   * The lane threads of MergeHandler.run, one after the other: lane i runs
   * over its blocks [start, end] of the readers the lanes before it have
   * left. Every lane finishes with a record first, the lanes together hold
   * exactly the blocks' records, and each lane's records are ascending when
   * every block's are.
   */
  method RunLanes(streams: seq<seq<Hash>>, threads: seq<Lane>) returns (lanes: seq<seq<ComparisonDTO>>)
    requires Covers(threads, |streams|) && HaveRecords(threads, streams)
    ensures |lanes| == |threads| && Ready(lanes)
    ensures multiset(Concat(LaneRecords(lanes))) == multiset(Concat(streams))
    ensures AllAscending(streams, 0, |streams| - 1) ==> AllAscending(LaneRecords(lanes), 0, |threads| - 1)
  {
    ghost var records;
    lanes, records := RunEach(streams, threads);
    LanesDone(streams, lanes, records, AllAscending(streams, 0, |streams| - 1));
  }

  /** The loop of RunLanes: lane after lane, each over what the ones before it left. */
  method RunEach(streams: seq<seq<Hash>>, threads: seq<Lane>) returns (lanes: seq<seq<ComparisonDTO>>, ghost records: seq<seq<Hash>>)
    requires Covers(threads, |streams|) && HaveRecords(threads, streams)
    ensures |lanes| == |threads| && LanesSoFar(lanes, records, AllAscending(streams, 0, |streams| - 1))
    ensures multiset(Concat(records)) == multiset(Concat(streams[..|streams|]))
  {
    ghost var ascending := AllAscending(streams, 0, |streams| - 1);
    var blocks := streams;
    lanes := [];
    records := [];
    ghost var reach := 0;
    for i := 0 to |threads|
      invariant LanesUpTo(streams, threads, i, blocks, lanes, records, reach, ascending)
    {
      var Lane(threadId, start, end, _) := threads[i];
      ghost var j := LaneOfCover(threads, streams, i);
      blocks, lanes, records := NextLane(streams, blocks, threadId, start, end, j, lanes, records, ascending);
      reach := end + 1;
    }
  }

  /**
   * MergeHandler.run over lanes that cover the blocks, each with a record:
   * the lane threads, then the coordinator. `minResult` receives exactly the
   * blocks' records, ascending when every block is, then the sentinel.
   */
  method Run(streams: seq<seq<Hash>>, threads: seq<Lane>) returns (minResult: seq<seq<Byte>>)
    requires Covers(threads, |streams|) && HaveRecords(threads, streams)
    ensures |minResult| >= 1 && minResult[|minResult| - 1] == [0]
    ensures forall k :: 0 <= k < |minResult| - 1 ==> |minResult[k]| == HASH_SIZE
    ensures multiset(minResult[..|minResult| - 1]) == multiset(Concat(streams))
    ensures AllAscending(streams, 0, |streams| - 1) ==> Ascending(minResult[..|minResult| - 1])
  {
    var lanes := RunLanes(streams, threads);
    minResult := Coordinate(lanes);
  }

  /**
   * `new MergeHandler(blocks, minResult, amountOfThreads, queueSize)` then
   * `run()`: the lanes as initThreads sets them up, each run over its blocks,
   * then the coordinator. `streams[j]` is what block j's reader pops. It
   * fails as the constructor does; otherwise `minResult` receives exactly
   * the blocks' records, ascending when every block is, then the sentinel.
   */
  method Handle(streams: seq<seq<Hash>>, amountOfThreads: int, queueSize: int) returns (res: Result<seq<seq<Byte>>>)
    requires amountOfThreads >= 1 && |streams| >= 1 ==> LanesHaveRecords(streams, LaneCount(|streams|, amountOfThreads))
    ensures res.Failure? <==>
      amountOfThreads < 1 || |streams| == 0 || Div(queueSize, LaneCount(|streams|, amountOfThreads)) < 1
    ensures res.Failure? ==>
      res.error == if amountOfThreads >= 1 && |streams| == 0 then ArithmeticDivByZero else IllegalArgument
    ensures res.Success? ==>
      && |res.value| >= 1 && res.value[|res.value| - 1] == [0]
      && (forall k :: 0 <= k < |res.value| - 1 ==> |res.value[k]| == HASH_SIZE)
      && multiset(res.value[..|res.value| - 1]) == multiset(Concat(streams))
      && (AllAscending(streams, 0, |streams| - 1) ==> Ascending(res.value[..|res.value| - 1]))
  {
    var init := Init(|streams|, amountOfThreads, queueSize);
    if init.Failure? {
      return Failure(init.error);
    }
    InitCovers(streams, |init.value|, init.value, Div(queueSize, |init.value|));
    var minResult := Run(streams, init.value);
    return Success(minResult);
  }
}
