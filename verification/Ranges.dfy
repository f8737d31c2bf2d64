/**
 * Inclusive integer ranges and their split into consecutive parts. The same
 * split is used twice in the system: Block.generateHashes gives each worker
 * thread a sub-range of the block's IDs, and MergeHandler.initThreads gives
 * each merge lane a sub-range of the block indices. Part i of n starts at
 * first + i * (count / n) and ends just before part i + 1; the last part runs
 * to the end of the range, so it takes the remainder of the division.
 */
module Ranges {

  /** The integers lo, lo + 1, ..., hi in order; empty when hi < lo. */
  function Range(lo: int, hi: int): (r: seq<int>)
    ensures |r| == if hi < lo then 0 else hi - lo + 1
    ensures forall k :: 0 <= k < |r| ==> r[k] == lo + k
  {
    if hi < lo then [] else seq(hi - lo + 1, k requires 0 <= k <= hi - lo => lo + k)
  }

  /** The sequences of `ss` laid end to end. */
  function Concat<T>(ss: seq<seq<T>>): (r: seq<T>)
  {
    if ss == [] then [] else ss[0] + Concat(ss[1..])
  }

  lemma {:induction false} ConcatAppend<T>(a: seq<seq<T>>, b: seq<seq<T>>)
    ensures Concat(a + b) == Concat(a) + Concat(b)
  {
    if a == [] {
      assert a + b == b;
    } else {
      assert (a + b)[1..] == a[1..] + b;
      ConcatAppend(a[1..], b);
    }
  }

  /** Two adjacent ranges joined are one range. */
  lemma RangeSplit(lo: int, mid: int, hi: int)
    requires lo <= mid + 1 <= hi + 1
    ensures Range(lo, mid) + Range(mid + 1, hi) == Range(lo, hi)
  {
  }

  /** First member of part i when [first, last] is split into `parts` parts. */
  function PartStart(first: int, last: int, parts: int, i: int): int
    requires parts >= 1
  {
    first + i * ((last - first + 1) / parts)
  }

  /** Last member of part i: one before the next part starts, or `last` for the last part. */
  function PartEnd(first: int, last: int, parts: int, i: int): int
    requires parts >= 1
  {
    if i == parts - 1 then last else first + (i + 1) * ((last - first + 1) / parts) - 1
  }

  lemma MulMonotone(i: int, j: int, r: int)
    requires 0 <= i <= j && 0 <= r
    ensures i * r <= j * r
  {
    assert j * r - i * r == (j - i) * r;
  }

  /**
   * The parts are consecutive: part 0 starts at `first`, each part ends one
   * before the next begins, the last ends at `last`, and every part lies
   * inside [first, last] (a part is empty when the range has fewer members
   * than there are parts).
   */
  lemma PartsChain(first: int, last: int, parts: int, i: int)
    requires parts >= 1 && first <= last + 1 && 0 <= i < parts
    ensures PartStart(first, last, parts, 0) == first
    ensures PartEnd(first, last, parts, parts - 1) == last
    ensures first <= PartStart(first, last, parts, i) <= PartEnd(first, last, parts, i) + 1 <= last + 1
    ensures i < parts - 1 ==> PartEnd(first, last, parts, i) + 1 == PartStart(first, last, parts, i + 1)
  {
    var count := last - first + 1;
    var r := count / parts;
    assert parts * r <= count;
    MulMonotone(i, parts - 1, r);
    MulMonotone(parts - 1, parts, r);
    MulMonotone(0, i, r);
    assert (i + 1) * r == i * r + r;
    if i < parts - 1 {
      MulMonotone(i + 1, parts - 1, r);
    }
  }

  /** The members of part i, in order. */
  function Part(first: int, last: int, parts: int, i: int): seq<int>
    requires parts >= 1
  {
    Range(PartStart(first, last, parts, i), PartEnd(first, last, parts, i))
  }

  /** Part n - 1 begins right after part n - 2 (or at `first`) and ends right before part n (or at `last`). */
  lemma PartJoins(first: int, last: int, parts: int, n: int)
    requires parts >= 1 && first <= last + 1 && 1 <= n <= parts
    ensures n == 1 ==> PartStart(first, last, parts, n - 1) == first
    ensures n > 1 ==> PartStart(first, last, parts, n - 1) == PartEnd(first, last, parts, n - 2) + 1
    ensures PartEnd(first, last, parts, n - 1) == if n == parts then last else PartStart(first, last, parts, n) - 1
    ensures first <= PartStart(first, last, parts, n - 1) <= PartEnd(first, last, parts, n - 1) + 1
  {
    PartsChain(first, last, parts, n - 1);
    if n > 1 {
      PartsChain(first, last, parts, n - 2);
    }
  }

  /** Parts 0 .. n - 1 of the split, in order. */
  function Parts(first: int, last: int, parts: int, n: nat): (ps: seq<seq<int>>)
    requires parts >= 1
    ensures |ps| == n
    ensures forall i :: 0 <= i < n ==> ps[i] == Part(first, last, parts, i)
  {
    if n == 0 then [] else Parts(first, last, parts, n - 1) + [Part(first, last, parts, n - 1)]
  }

  /** The parts 0 .. n - 1 laid end to end run from `first` to just before part n. */
  lemma {:induction false} PartsPrefix(first: int, last: int, parts: int, n: nat)
    requires parts >= 1 && first <= last + 1 && n <= parts
    ensures Concat(Parts(first, last, parts, n))
         == Range(first, if n == parts then last else PartStart(first, last, parts, n) - 1)
  {
    if n == 0 {
      PartsChain(first, last, parts, 0);
    } else {
      PartsPrefix(first, last, parts, n - 1);
      var front := Parts(first, last, parts, n - 1);
      var p := Part(first, last, parts, n - 1);
      assert Parts(first, last, parts, n) == front + [p];
      ConcatAppend(front, [p]);
      assert Concat([p]) == p;
      var s, e := PartStart(first, last, parts, n - 1), PartEnd(first, last, parts, n - 1);
      PartJoins(first, last, parts, n);
      RangeSplit(first, s - 1, e);
      assert Concat(front + [p]) == Range(first, s - 1) + Range(s, e);
    }
  }

  /**
   * The parts partition the range: laid end to end they are exactly
   * first, ..., last, so every member belongs to exactly one part.
   */
  lemma PartsCover(first: int, last: int, parts: int)
    requires parts >= 1 && first <= last + 1
    ensures Concat(Parts(first, last, parts, parts)) == Range(first, last)
  {
    PartsPrefix(first, last, parts, parts);
  }
}
