/**
 * The priority-queue merge that both loops of MergeHandler run. Every source
 * (a block in a lane, a lane in the coordinator) has at most one entry in
 * the queue; `poll()` removes an entry that no other entry compares below,
 * the source of that entry is read once more, its next record (if any) goes
 * into the queue, and the polled record is passed on.
 *
 * The accounting: `Remaining` is every record still to be passed on — those held
 * in the queue and those the sources have not yet given — so that the
 * records still to come plus the records already passed on are always the
 * records the sources started with.
 */
module PriorityMerge {
  import opened Wrappers
  import opened Bytes
  import opened Comparison
  import opened Ranges

  /** The queue: source id to the record of that source's entry (None stands for Java's null). */
  type Queue = map<int, Option<Hash>>

  /** `poll()` may return the entry of `id`: no entry of the queue compares below it. */
  predicate Least(pq: Queue, id: int)
  {
    id in pq && forall o :: o in pq ==> Compare(pq[id], pq[o]) <= 0
  }

  /** Where an entry sorts: by its key, and null after every record. */
  function Rank(x: Option<Hash>): nat
  {
    if x.None? then 0x1_0000_0000_0000 else Key(x.value)
  }

  /** `compare` orders entries exactly by rank. */
  lemma CompareRank(x: Option<Hash>, y: Option<Hash>)
    ensures Compare(x, y) <= 0 <==> Rank(x) <= Rank(y)
  {
    if x.Some? {
      KeyIs48Bits(x.value);
    }
    if y.Some? {
      KeyIs48Bits(y.value);
    }
  }

  /** Among the entries of `keys`, one of least rank. */
  lemma {:induction false} LowestRank(pq: Queue, keys: set<int>) returns (id: int)
    requires keys != {} && keys <= pq.Keys
    ensures id in keys && forall o :: o in keys ==> Rank(pq[id]) <= Rank(pq[o])
    decreases |keys|
  {
    assert (forall x :: x !in keys) ==> keys == {};
    var k :| k in keys;
    if keys == {k} {
      id := k;
    } else {
      var m := LowestRank(pq, keys - {k});
      id := if Rank(pq[m]) <= Rank(pq[k]) then m else k;
    }
  }

  /** `poll()` on a non-empty queue always has an entry to return. */
  lemma LeastExists(pq: Queue)
    requires |pq| > 0
    ensures exists id :: Least(pq, id)
  {
    assert (forall x :: x !in pq.Keys) ==> pq.Keys == {};
    var id := LowestRank(pq, pq.Keys);
    forall o | o in pq
      ensures Compare(pq[id], pq[o]) <= 0
    {
      CompareRank(pq[id], pq[o]);
    }
    assert Least(pq, id);
  }

  lemma RankOfRecord(x: Option<Hash>)
    ensures x.Some? ==> Rank(x) < 0x1_0000_0000_0000
  {
    if x.Some? {
      KeyIs48Bits(x.value);
    }
  }

  /** The least entry has the least rank; when it is null, every entry is null. */
  lemma LeastRank(pq: Queue, id: int)
    requires Least(pq, id)
    ensures forall o :: o in pq ==> Rank(pq[id]) <= Rank(pq[o])
    ensures pq[id].None? ==> forall o :: o in pq ==> pq[o].None?
  {
    forall o | o in pq
      ensures Rank(pq[id]) <= Rank(pq[o])
    {
      CompareRank(pq[id], pq[o]);
    }
    if pq[id].None? {
      forall o | o in pq
        ensures pq[o].None?
      {
        RankOfRecord(pq[o]);
      }
    }
  }

  /** A reader's `pop()` on what it has left: the next record, or null once nothing is left. */
  function PopHead(s: seq<Hash>): (h: Option<Hash>)
    ensures h.None? <==> s == []
  {
    if s == [] then None else Some(s[0])
  }

  /** What a reader has left after a `pop()`. */
  function Tail(s: seq<Hash>): (t: seq<Hash>)
    ensures s == [] ==> t == []
    ensures s != [] ==> s == [s[0]] + t
  {
    if s == [] then [] else s[1..]
  }

  /** The record the queue holds for source i: none if it holds no entry or a null one. */
  function Held<T>(pq: map<int, Option<T>>, i: int): (r: seq<T>)
    ensures |r| <= 1
    ensures r != [] <==> i in pq && pq[i].Some?
  {
    if i in pq && pq[i].Some? then [pq[i].value] else []
  }

  /** The records of source j still to be passed on: the one held in the queue, then those not yet read. */
  function Contribution<T>(pq: map<int, Option<T>>, rest: seq<seq<T>>, j: int): seq<T>
    requires 0 <= j < |rest|
  {
    Held(pq, j) + rest[j]
  }

  /** The records of sources [lo, hi) still to be passed on. */
  ghost function Remaining<T>(pq: map<int, Option<T>>, rest: seq<seq<T>>, lo: int, hi: int): seq<T>
    requires 0 <= lo <= hi <= |rest|
    decreases hi - lo
  {
    if lo == hi then [] else Remaining(pq, rest, lo, hi - 1) + Contribution(pq, rest, hi - 1)
  }

  /** The records of a sequence of entries, in order, nulls skipped. */
  function Present(ds: seq<ComparisonDTO>): seq<Hash>
  {
    if ds == [] then [] else (if ds[0].hash.Some? then [ds[0].hash.value] else []) + Present(ds[1..])
  }

  lemma {:induction false} PresentAppend(ds: seq<ComparisonDTO>, d: ComparisonDTO)
    ensures Present(ds + [d]) == Present(ds) + (if d.hash.Some? then [d.hash.value] else [])
  {
    if ds != [] {
      assert (ds + [d])[1..] == ds[1..] + [d];
      PresentAppend(ds[1..], d);
    }
  }

  /** Sources whose entries and unread records are unchanged contribute the same records. */
  lemma {:induction false} RemainingSame<T>(pq: map<int, Option<T>>, rest: seq<seq<T>>, pqNext: map<int, Option<T>>, restNext: seq<seq<T>>, lo: int, hi: int)
    requires 0 <= lo <= hi <= |rest| && hi <= |restNext|
    requires forall j :: lo <= j < hi ==> Contribution(pqNext, restNext, j) == Contribution(pq, rest, j)
    ensures Remaining(pqNext, restNext, lo, hi) == Remaining(pq, rest, lo, hi)
    decreases hi - lo
  {
    if lo < hi {
      RemainingSame(pq, rest, pqNext, restNext, lo, hi - 1);
    }
  }

  lemma SeqAssoc<T>(a: seq<T>, b: seq<T>, c: seq<T>, d: seq<T>)
    ensures a + b + c + d == a + b + (c + d)
  {
  }

  /** The records of [lo, hi) are those of [lo, i), of source i, then of (i, hi). */
  lemma {:induction false} RemainingSplit<T>(pq: map<int, Option<T>>, rest: seq<seq<T>>, lo: int, i: int, hi: int)
    requires 0 <= lo <= i < hi <= |rest|
    ensures Remaining(pq, rest, lo, hi)
         == Remaining(pq, rest, lo, i) + Contribution(pq, rest, i) + Remaining(pq, rest, i + 1, hi)
    decreases hi - lo
  {
    if i < hi - 1 {
      RemainingSplit(pq, rest, lo, i, hi - 1);
      SeqAssoc(Remaining(pq, rest, lo, i), Contribution(pq, rest, i),
               Remaining(pq, rest, i + 1, hi - 1), Contribution(pq, rest, hi - 1));
    } else {
      assert Remaining(pq, rest, i + 1, hi) == [];
    }
  }

  lemma MultisetOfParts<T>(a: seq<T>, d: seq<T>, c: seq<T>, b: seq<T>)
    ensures multiset(a + (d + c) + b) == multiset(a + c + b) + multiset(d)
  {
  }

  /**
   * When only source i changes, and what it held and had left is `d`
   * followed by what it holds and has left now, the records still to be
   * passed on lose exactly `d`.
   */
  lemma RemainingStep<T>(pq: map<int, Option<T>>, rest: seq<seq<T>>, pqNext: map<int, Option<T>>, restNext: seq<seq<T>>, lo: int, hi: int, i: int, d: seq<T>)
    requires 0 <= lo <= i < hi <= |rest| == |restNext|
    requires forall j :: lo <= j < hi && j != i ==> Contribution(pqNext, restNext, j) == Contribution(pq, rest, j)
    requires Contribution(pq, rest, i) == d + Contribution(pqNext, restNext, i)
    ensures multiset(Remaining(pq, rest, lo, hi)) == multiset(Remaining(pqNext, restNext, lo, hi)) + multiset(d)
  {
    RemainingSplit(pq, rest, lo, i, hi);
    RemainingSplit(pqNext, restNext, lo, i, hi);
    RemainingSame(pq, rest, pqNext, restNext, lo, i);
    RemainingSame(pq, rest, pqNext, restNext, i + 1, hi);
    MultisetOfParts(Remaining(pq, rest, lo, i), d, Contribution(pqNext, restNext, i), Remaining(pq, rest, i + 1, hi));
  }

  /** Before anything is read, the records to pass on are the sources' records, source by source. */
  lemma {:induction false} RemainingOfSources<T>(pq: map<int, Option<T>>, rest: seq<seq<T>>, lo: int, hi: int)
    requires 0 <= lo <= hi <= |rest|
    requires forall j :: lo <= j < hi ==> j !in pq
    ensures Remaining(pq, rest, lo, hi) == Concat(rest[lo..hi])
    decreases hi - lo
  {
    if lo < hi {
      RemainingOfSources(pq, rest, lo, hi - 1);
      var front, last := rest[lo..hi - 1], rest[hi - 1];
      assert rest[lo..hi] == front + [last];
      ConcatAppend(front, [last]);
      assert Concat([last]) == last + Concat([]);
      assert Contribution(pq, rest, hi - 1) == last;
    }
  }

  /** Once every source is exhausted and its entry gone or null, nothing is left to pass on. */
  lemma {:induction false} RemainingDrained<T>(pq: map<int, Option<T>>, rest: seq<seq<T>>, lo: int, hi: int)
    requires 0 <= lo <= hi <= |rest|
    requires forall j :: lo <= j < hi ==> Held(pq, j) == [] && rest[j] == []
    ensures Remaining(pq, rest, lo, hi) == []
    decreases hi - lo
  {
    if lo < hi {
      RemainingDrained(pq, rest, lo, hi - 1);
    }
  }

  /**
   * The order a merge keeps when every source is ascending: what has been
   * passed on is ascending and bounded by `floor`, every record in the queue
   * is at least `floor` and at most the next record of its source.
   */
  ghost predicate Ordered(pq: Queue, rest: seq<seq<Hash>>, out: seq<Hash>, lo: int, hi: int, floor: int)
    requires 0 <= lo <= hi <= |rest|
  {
    && Ascending(out)
    && (forall k :: 0 <= k < |out| ==> Key(out[k]) <= floor)
    && (forall id :: id in pq && pq[id].Some? ==> floor <= Key(pq[id].value))
    && (forall id :: id in pq && pq[id].Some? && lo <= id < hi && rest[id] != [] ==> Key(pq[id].value) <= Key(rest[id][0]))
    && (forall j :: lo <= j < hi ==> Ascending(rest[j]))
  }

  /** The queue after a poll of `id` and a re-read of source `id`. */
  function Polled(pq: Queue, rest: seq<seq<Hash>>, id: int): Queue
    requires 0 <= id < |rest|
  {
    var next := PopHead(rest[id]);
    if next.Some? then (pq - {id})[id := next] else pq - {id}
  }

  /**
   * One step of a merge: poll the entry of `id`, read its source again, pass
   * the polled record on. No record is lost or invented, and the queue plus
   * what is still to come strictly shrink.
   */
  lemma PollConserves(pq: Queue, rest: seq<seq<Hash>>, lo: int, hi: int, id: int)
    requires 0 <= lo <= id < hi <= |rest|
    requires id in pq && (pq[id].None? ==> rest[id] == [])
    ensures var restNext := rest[id := Tail(rest[id])];
      && multiset(Remaining(pq, rest, lo, hi)) == multiset(Remaining(Polled(pq, rest, id), restNext, lo, hi)) + multiset(Held(pq, id))
      && |Remaining(Polled(pq, rest, id), restNext, lo, hi)| + |Polled(pq, rest, id)| < |Remaining(pq, rest, lo, hi)| + |pq|
  {
    var restNext := rest[id := Tail(rest[id])];
    var pqNext := Polled(pq, rest, id);
    forall j | lo <= j < hi && j != id
      ensures Contribution(pqNext, restNext, j) == Contribution(pq, rest, j)
    {
      assert Held(pqNext, j) == Held(pq, j) && restNext[j] == rest[j];
    }
    if rest[id] != [] {
      assert Held(pqNext, id) + restNext[id] == rest[id];
    }
    assert Contribution(pq, rest, id) == Held(pq, id) + Contribution(pqNext, restNext, id);
    RemainingStep(pq, rest, pqNext, restNext, lo, hi, id, Held(pq, id));
    var r, rNext := Remaining(pq, rest, lo, hi), Remaining(pqNext, restNext, lo, hi);
    assert |multiset(r)| == |r| && |multiset(rNext)| == |rNext| && |multiset(Held(pq, id))| == |Held(pq, id)|;
    if rest[id] != [] {
      assert |pqNext| == |pq| && |Held(pq, id)| == 1;
    } else {
      assert |pqNext| == |pq| - 1;
    }
  }

  /** Appending a record no smaller than an upper bound of an ascending sequence keeps it ascending. */
  lemma AscendingSnoc(out: seq<Hash>, floor: int, h: Hash)
    requires Ascending(out) && floor <= Key(h)
    requires forall k :: 0 <= k < |out| ==> Key(out[k]) <= floor
    ensures Ascending(out + [h])
    ensures forall k :: 0 <= k < |out + [h]| ==> Key((out + [h])[k]) <= Key(h)
  {
    var outNext := out + [h];
    forall p, q | 0 <= p < q < |outNext|
      ensures Key(outNext[p]) <= Key(outNext[q])
    {
      if q == |out| {
        assert Key(out[p]) <= floor;
      }
    }
  }

  /** What is left of an ascending source is ascending, and its next record is no smaller than the one just read. */
  lemma TailAscends(s: seq<Hash>)
    requires Ascending(s)
    ensures Ascending(Tail(s))
    ensures s != [] && Tail(s) != [] ==> Key(s[0]) <= Key(Tail(s)[0])
  {
  }

  /**
   * A step of a merge over ascending sources keeps the order: the polled
   * record is at least everything passed on before it, and at most every
   * record that can follow it.
   */
  lemma PollKeepsOrder(pq: Queue, rest: seq<seq<Hash>>, out: seq<Hash>, lo: int, hi: int, floor: int, id: int)
    requires 0 <= lo <= id < hi <= |rest|
    requires Least(pq, id) && (pq[id].None? ==> rest[id] == [])
    requires Ordered(pq, rest, out, lo, hi, floor)
    ensures Ordered(Polled(pq, rest, id), rest[id := Tail(rest[id])], out + Held(pq, id), lo, hi,
                    if pq[id].Some? then Key(pq[id].value) else floor)
  {
    var restNext := rest[id := Tail(rest[id])];
    var pqNext := Polled(pq, rest, id);
    LeastRank(pq, id);
    TailAscends(rest[id]);
    if pq[id].Some? {
      var h := pq[id].value;
      AscendingSnoc(out, floor, h);
      forall o | o in pqNext && pqNext[o].Some?
        ensures Key(h) <= Key(pqNext[o].value)
      {
        if o != id {
          assert Rank(pq[id]) <= Rank(pq[o]);
        }
      }
      assert Ordered(pqNext, restNext, out + [h], lo, hi, Key(h));
    } else {
      assert pqNext == pq - {id};
      assert Ordered(pqNext, restNext, out, lo, hi, floor);
      assert out + Held(pq, id) == out;
    }
  }

  /**
   * Filling the queue: source i, which has no entry yet, is read once and its
   * record (or null) becomes its entry. The records still to come are the
   * same, and an empty output stays in order.
   */
  lemma FillStep(pq: Queue, rest: seq<seq<Hash>>, lo: int, hi: int, i: int)
    requires 0 <= lo <= i < hi <= |rest| && i !in pq
    ensures multiset(Remaining(pq[i := PopHead(rest[i])], rest[i := Tail(rest[i])], lo, hi)) == multiset(Remaining(pq, rest, lo, hi))
    ensures Ordered(pq, rest, [], lo, hi, 0) ==> Ordered(pq[i := PopHead(rest[i])], rest[i := Tail(rest[i])], [], lo, hi, 0)
  {
    FillConserves(pq, rest, lo, hi, i);
    if Ordered(pq, rest, [], lo, hi, 0) {
      FillKeepsOrder(pq, rest, lo, hi, i);
    }
  }

  lemma FillConserves(pq: Queue, rest: seq<seq<Hash>>, lo: int, hi: int, i: int)
    requires 0 <= lo <= i < hi <= |rest| && i !in pq
    ensures multiset(Remaining(pq[i := PopHead(rest[i])], rest[i := Tail(rest[i])], lo, hi)) == multiset(Remaining(pq, rest, lo, hi))
  {
    var pqNext := pq[i := PopHead(rest[i])];
    var restNext := rest[i := Tail(rest[i])];
    forall j | lo <= j < hi && j != i
      ensures Contribution(pqNext, restNext, j) == Contribution(pq, rest, j)
    {
      assert Held(pqNext, j) == Held(pq, j) && restNext[j] == rest[j];
    }
    if rest[i] != [] {
      assert Held(pqNext, i) + restNext[i] == rest[i];
    }
    assert Contribution(pq, rest, i) == [] + Contribution(pqNext, restNext, i);
    RemainingStep(pq, rest, pqNext, restNext, lo, hi, i, []);
  }

  lemma FillKeepsOrder(pq: Queue, rest: seq<seq<Hash>>, lo: int, hi: int, i: int)
    requires 0 <= lo <= i < hi <= |rest| && i !in pq
    requires Ordered(pq, rest, [], lo, hi, 0)
    ensures Ordered(pq[i := PopHead(rest[i])], rest[i := Tail(rest[i])], [], lo, hi, 0)
  {
    TailAscends(rest[i]);
  }
}
