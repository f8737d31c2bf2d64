/**
 * Quicksort: sorts 16-byte records of a byte buffer in place into
 * descending key order. Last record as pivot, records with key >= pivot
 * moved to the left, insertion sort for ranges of at most nine records.
 * Record indices are inclusive (`start`, `end`); `end = start - 1` is the
 * empty range.
 */
module Quicksort {
  import opened Wrappers
  import opened Bytes
  import opened Comparison

  /** Ranges with `end - start` up to this go to insertion sort. */
  const INSERTION_SORT_THRESHOLD: int := 8

  /** r with the elements at i and j exchanged. */
  function Swapped<T>(r: seq<T>, i: int, j: int): (r': seq<T>)
    requires 0 <= i < |r| && 0 <= j < |r|
    ensures |r'| == |r| && r'[i] == r[j] && r'[j] == r[i]
    ensures forall k :: 0 <= k < |r| && k != i && k != j ==> r'[k] == r[k]
  {
    r[i := r[j]][j := r[i]]
  }

  /**
   * r' is r with the records in [lo, hi) permuted and every other record
   * untouched: same multiset of records, same record at every index outside.
   */
  ghost predicate PermutedIn<T>(r: seq<T>, r': seq<T>, lo: int, hi: int)
  {
    && 0 <= lo <= hi <= |r| == |r'|
    && multiset(r) == multiset(r')
    && forall k :: 0 <= k < |r| && !(lo <= k < hi) ==> r'[k] == r[k]
  }

  lemma SwapPermutes<T>(r: seq<T>, x: int, y: int, lo: int, hi: int)
    requires 0 <= lo <= x < hi <= |r| && lo <= y < hi
    ensures PermutedIn(r, Swapped(r, x, y), lo, hi)
  {
    assert multiset(r[x := r[y]][y := r[x]]) == multiset(r);
  }

  lemma PermutedTrans<T>(r0: seq<T>, r1: seq<T>, r2: seq<T>, lo: int, hi: int)
    requires PermutedIn(r0, r1, lo, hi) && PermutedIn(r1, r2, lo, hi)
    ensures PermutedIn(r0, r2, lo, hi)
  {
  }

  /** A permutation of a sub-range is a permutation of any range containing it. */
  lemma PermutedWiden<T>(r: seq<T>, r': seq<T>, lo: int, lo': int, hi': int, hi: int)
    requires 0 <= lo <= lo' <= hi' <= hi <= |r|
    requires PermutedIn(r, r', lo', hi')
    ensures PermutedIn(r, r', lo, hi)
  {
  }

  /** A sequence's multiset is that of a slice plus that of the rest. */
  lemma SplitMultiset<T>(r: seq<T>, lo: int, hi: int)
    requires 0 <= lo <= hi <= |r|
    ensures multiset(r) == multiset(r[lo..hi]) + (multiset(r[..lo]) + multiset(r[hi..]))
  {
    assert r == r[..lo] + r[lo..hi] + r[hi..];
  }

  lemma MultisetCancel<T>(b: multiset<T>, b': multiset<T>, c: multiset<T>)
    requires b + c == b' + c
    ensures b == b'
  {
    forall x
      ensures b[x] == b'[x]
    {
      assert (b + c)[x] == (b' + c)[x];
    }
  }

  /** The records inside the range of a permutation are the same multiset before and after. */
  lemma PermutedSlice<T>(r: seq<T>, r': seq<T>, lo: int, hi: int)
    requires PermutedIn(r, r', lo, hi)
    ensures multiset(r[lo..hi]) == multiset(r'[lo..hi])
  {
    SplitMultiset(r, lo, hi);
    SplitMultiset(r', lo, hi);
    assert r[..lo] == r'[..lo];
    assert r[hi..] == r'[hi..];
    MultisetCancel(multiset(r[lo..hi]), multiset(r'[lo..hi]), multiset(r[..lo]) + multiset(r[hi..]));
  }

  /** A permutation keeps every key bound that held for the whole range. */
  lemma PermutedKeepsBounds(r: seq<Hash>, r': seq<Hash>, lo: int, hi: int, low: int, high: int)
    requires PermutedIn(r, r', lo, hi)
    requires forall k :: lo <= k < hi ==> low <= Key(r[k]) < high
    ensures forall k :: lo <= k < hi ==> low <= Key(r'[k]) < high
  {
    PermutedSlice(r, r', lo, hi);
    forall k | lo <= k < hi
      ensures low <= Key(r'[k]) < high
    {
      assert r'[k] == r'[lo..hi][k - lo];
      assert r'[k] in multiset(r[lo..hi]);
      var j :| 0 <= j < hi - lo && r[lo..hi][j] == r'[k];
      assert r[lo + j] == r'[k];
    }
  }

  /** Two descending runs around a pivot, larger keys left and smaller right, form one descending run. */
  lemma DescendingAroundPivot(r: seq<Hash>, lo: int, p: int, hi: int)
    requires 0 <= lo <= p < hi <= |r|
    requires Descending(r, lo, p) && Descending(r, p + 1, hi)
    requires forall k :: lo <= k < p ==> Key(r[p]) <= Key(r[k])
    requires forall k :: p < k < hi ==> Key(r[k]) < Key(r[p])
    ensures Descending(r, lo, hi)
  {
  }

  /**
   * Where the byte at offset x comes from once the first n bytes of the
   * records at byte offsets l and r have been exchanged.
   */
  function SwapSource(x: int, l: int, r: int, n: int): int
  {
    if l <= x < l + n then x - l + r else if r <= x < r + n then x - r + l else x
  }

  /** Exchanging the bytes of records li and ri exchanges the two records of the record view. */
  lemma SwappedBytesSwapRecords(s: seq<Byte>, s': seq<Byte>, li: int, ri: int)
    requires |s| == |s'| && |s| % 16 == 0
    requires 0 <= li && 16 * li + 16 <= |s|
    requires 0 <= ri && 16 * ri + 16 <= |s|
    requires forall x :: 0 <= x < |s| ==> s'[x] == s[SwapSource(x, 16 * li, 16 * ri, 16)]
    ensures Records(s') == Swapped(Records(s), li, ri)
  {
    var R := Records(s);
    var R' := R[li := R[ri]][ri := R[li]];
    forall k | 0 <= k < |R|
      ensures Records(s')[k] == R'[k]
    {
      var src := if k == ri then li else if k == li then ri else k;
      forall t | 0 <= t < 16
        ensures Records(s')[k][t] == R'[k][t]
      {
        assert Records(s')[k][t] == s'[16 * k + t];
        assert SwapSource(16 * k + t, 16 * li, 16 * ri, 16) == 16 * src + t;
      }
    }
  }

  /** Aligned records are the same record or do not overlap. */
  lemma AlignedApart(li: int, ri: int)
    ensures 16 * li == 16 * ri || 16 * li + 16 <= 16 * ri || 16 * ri + 16 <= 16 * li
  {
    if li < ri {
      assert 16 * ri - 16 * li == 16 * (ri - li);
    } else if ri < li {
      assert 16 * li - 16 * ri == 16 * (li - ri);
    }
  }

  /**
   * `swap(l, r)`: exchanges the records at byte offsets l and r, byte by
   * byte through a one-record temporary, leaving every other record as it
   * was. The ghost li and ri are the record indices of the two offsets.
   */
  method Swap(a: array<Byte>, l: int, r: int, ghost li: int, ghost ri: int)
    requires a.Length % 16 == 0
    requires 0 <= li && l == 16 * li && l + 16 <= a.Length
    requires 0 <= ri && r == 16 * ri && r + 16 <= a.Length
    modifies a
    ensures Records(a[..]) == Swapped(old(Records(a[..])), li, ri)
  {
    AlignedApart(li, ri);
    for i := 0 to 16
      invariant forall x :: l <= x < l + i ==> a[x] == old(a[x - l + r])
      invariant forall x :: r <= x < r + i ==> a[x] == old(a[x - r + l])
      invariant forall x :: 0 <= x < a.Length && !(l <= x < l + i) && !(r <= x < r + i) ==> a[x] == old(a[x])
    {
      var temp := a[l + i];
      a[l + i] := a[r + i];
      a[r + i] := temp;
    }
    SwappedBytesSwapRecords(old(a[..]), a[..], li, ri);
  }

  /**
   * `compareTo(left, right)` on byte offsets: the same unsigned scan of the
   * six key bytes as ComparisonDTO.compare on the two records.
   */
  method CompareTo(a: array<Byte>, left: int, right: int, ghost li: int, ghost ri: int) returns (c: int)
    requires a.Length % 16 == 0
    requires 0 <= li && left == 16 * li && left + 16 <= a.Length
    requires 0 <= ri && right == 16 * ri && right + 16 <= a.Length
    ensures c == Compare(Some(Records(a[..])[li]), Some(Records(a[..])[ri]))
  {
    ghost var lh: Hash := a[left..left + 16];
    ghost var rh: Hash := a[right..right + 16];
    assert Records(a[..])[li] == lh && Records(a[..])[ri] == rh;
    var i := 0;
    while i < COMP_AMOUNT
      invariant 0 <= i <= COMP_AMOUNT
      invariant KeyScan(lh, rh, i) == KeyScan(lh, rh, 0)
    {
      var l := Unsigned(a[left + COMP_START + i]);
      var r := Unsigned(a[right + COMP_START + i]);
      if l < r {
        return -1;
      } else if l > r {
        return 1;
      }
      i := i + 1;
    }
    return 0;
  }

  /**
   * The order the inner insertion loop keeps: records [start, m] are in
   * descending order except for the one at j, which is larger than every
   * record to its right.
   */
  ghost predicate InsertOrder(r: seq<Hash>, start: int, m: int, j: int)
    requires 0 <= start <= j <= m < |r|
  {
    && (forall p, q :: start <= p < q <= m && p != j && q != j ==> Key(r[q]) <= Key(r[p]))
    && (forall q :: j < q <= m ==> Key(r[q]) < Key(r[j]))
  }

  /** The state of the inner insertion loop: a permutation of r0 within [start, hi), ordered as InsertOrder says. */
  ghost predicate Inserting(r0: seq<Hash>, r: seq<Hash>, start: int, m: int, hi: int, j: int)
  {
    && 0 <= start <= j <= m < hi <= |r|
    && PermutedIn(r0, r, start, hi)
    && InsertOrder(r, start, m, j)
  }

  lemma InsertOrderStep(r: seq<Hash>, start: int, m: int, j: int)
    requires 0 <= start < j <= m < |r|
    requires InsertOrder(r, start, m, j) && Key(r[j - 1]) < Key(r[j])
    ensures InsertOrder(Swapped(r, j, j - 1), start, m, j - 1)
  {
  }

  /** A swap inside the range extends a permutation of the range. */
  lemma PermutedSwap<T>(r0: seq<T>, r: seq<T>, x: int, y: int, lo: int, hi: int)
    requires PermutedIn(r0, r, lo, hi) && lo <= x < hi && lo <= y < hi
    ensures PermutedIn(r0, Swapped(r, x, y), lo, hi)
  {
    SwapPermutes(r, x, y, lo, hi);
    PermutedTrans(r0, r, Swapped(r, x, y), lo, hi);
  }

  /** One swap of the inner insertion loop keeps its invariant. */
  lemma InsertingStep(r0: seq<Hash>, r: seq<Hash>, start: int, m: int, hi: int, j: int)
    requires Inserting(r0, r, start, m, hi, j) && start < j && Key(r[j - 1]) < Key(r[j])
    ensures Inserting(r0, Swapped(r, j, j - 1), start, m, hi, j - 1)
  {
    InsertOrderStep(r, start, m, j);
    PermutedSwap(r0, r, j, j - 1, start, hi);
  }

  /** The inner loop stops once the record at j is no larger than its left neighbour: [start, m] is descending. */
  lemma InsertingDone(r0: seq<Hash>, r: seq<Hash>, start: int, m: int, hi: int, j: int)
    requires Inserting(r0, r, start, m, hi, j)
    requires j == start || Key(r[j]) <= Key(r[j - 1])
    ensures PermutedIn(r0, r, start, hi)
    ensures Descending(r, start, m + 1)
  {
  }

  /**
   * One pass of the inner `while` of `insertionSort`: the record at m moves
   * left past every record with a smaller key, so that records [start, m]
   * become descending, given that [start, m) was.
   */
  method InsertRecord(a: array<Byte>, start: int, m: int, ghost hi: int, ghost r0: seq<Hash>)
    requires a.Length % 16 == 0
    requires 0 <= start < m < hi <= a.Length / 16
    requires PermutedIn(r0, Records(a[..]), start, hi)
    requires Descending(Records(a[..]), start, m)
    modifies a
    ensures PermutedIn(r0, Records(a[..]), start, hi)
    ensures Descending(Records(a[..]), start, m + 1)
  {
    ghost var r := Records(a[..]);
    var j := m;
    while j > start
      invariant r == Records(a[..])
      invariant Inserting(r0, r, start, m, hi, j)
    {
      // descending order: move the record left while it is larger
      var c := CompareTo(a, 16 * j, 16 * (j - 1), j, j - 1);
      if c > 0 {
        InsertingStep(r0, r, start, m, hi, j);
        r := Swapped(r, j, j - 1);
        Swap(a, 16 * j, 16 * (j - 1), j, j - 1);
      } else {
        InsertingDone(r0, r, start, m, hi, j);
        return;
      }
      j := j - 1;
    }
    InsertingDone(r0, r, start, m, hi, j);
  }

  /**
   * `insertionSort(start, end)`: records [start, end] end up a permutation
   * of what they were, in descending key order; one record or none is a no-op.
   */
  method InsertionSort(a: array<Byte>, start: int, end: int)
    requires a.Length % 16 == 0
    requires 0 <= start <= end + 1 <= a.Length / 16
    modifies a
    ensures PermutedIn(old(Records(a[..])), Records(a[..]), start, end + 1)
    ensures Descending(Records(a[..]), start, end + 1)
    ensures end <= start ==> a[..] == old(a[..])
  {
    if start == end {
      return;
    }
    ghost var r0 := Records(a[..]);
    var i := 1;
    while i < end - start + 1
      invariant 1 <= i && (end < start || start + i <= end + 1)
      invariant PermutedIn(r0, Records(a[..]), start, end + 1)
      invariant start <= end ==> Descending(Records(a[..]), start, start + i)
      invariant end < start ==> a[..] == old(a[..])
    {
      InsertRecord(a, start, i + start, end + 1, r0);
      i := i + 1;
    }
  }

  /**
   * The state of the partition scan: the pivot is the record at end,
   * records [start, g) have keys at least the pivot's and records [g, c)
   * smaller ones.
   */
  ghost predicate Scanned(r: seq<Hash>, start: int, end: int, g: int, c: int)
  {
    && 0 <= start <= g <= c <= end < |r|
    && (forall k :: start <= k < g ==> Key(r[end]) <= Key(r[k]))
    && (forall k :: g <= k < c ==> Key(r[k]) < Key(r[end]))
  }

  /** A record with key >= the pivot's is swapped to the boundary, which moves right. */
  lemma ScanTake(r: seq<Hash>, start: int, end: int, g: int, c: int)
    requires Scanned(r, start, end, g, c) && c < end
    requires Key(r[end]) <= Key(r[c])
    ensures Scanned(Swapped(r, c, g), start, end, g + 1, c + 1)
  {
  }

  /** A record with a smaller key stays where it is. */
  lemma ScanSkip(r: seq<Hash>, start: int, end: int, g: int, c: int)
    requires Scanned(r, start, end, g, c) && c < end
    requires Key(r[c]) < Key(r[end])
    ensures Scanned(r, start, end, g, c + 1)
  {
  }

  /** Records [start, p) have keys at least the pivot's at p, records (p, end] smaller ones. */
  ghost predicate PartitionedAt(r: seq<Hash>, start: int, p: int, end: int)
    requires 0 <= start <= p <= end < |r|
  {
    && (forall k :: start <= k < p ==> Key(r[p]) <= Key(r[k]))
    && (forall k :: p < k <= end ==> Key(r[k]) < Key(r[p]))
  }

  /** Once the scan reaches the pivot, swapping the pivot to the boundary partitions the range. */
  lemma ScanDone(r: seq<Hash>, start: int, end: int, g: int)
    requires Scanned(r, start, end, g, end)
    ensures PartitionedAt(Swapped(r, end, g), start, g, end)
  {
  }

  /**
   * The partition step of `compute()`: the last record is the pivot; every
   * record with key >= the pivot's is swapped to the left, then the pivot
   * goes to the boundary, whose index is returned.
   */
  method Partition(a: array<Byte>, start: int, end: int) returns (pivot: int)
    requires a.Length % 16 == 0
    requires 0 <= start < end < a.Length / 16
    modifies a
    ensures start <= pivot <= end
    ensures PermutedIn(old(Records(a[..])), Records(a[..]), start, end + 1)
    ensures PartitionedAt(Records(a[..]), start, pivot, end)
  {
    var current, gtPivot := start, start;
    pivot := end;
    ghost var r0 := Records(a[..]);
    ghost var r := r0;
    // scan low to high, moving every record with key >= pivot to the left
    while current < end
      invariant r == Records(a[..])
      invariant PermutedIn(r0, r, start, end + 1)
      invariant Scanned(r, start, end, gtPivot, current)
    {
      var c := CompareTo(a, 16 * current, 16 * pivot, current, pivot);
      if c >= 0 {
        ScanTake(r, start, end, gtPivot, current);
        PermutedSwap(r0, r, current, gtPivot, start, end + 1);
        r := Swapped(r, current, gtPivot);
        Swap(a, 16 * current, 16 * gtPivot, current, gtPivot);
        gtPivot := gtPivot + 1;
      } else {
        ScanSkip(r, start, end, gtPivot, current);
      }
      current := current + 1;
    }
    ScanDone(r, start, end, gtPivot);
    PermutedSwap(r0, r, pivot, gtPivot, start, end + 1);
    r := Swapped(r, pivot, gtPivot);
    Swap(a, 16 * pivot, 16 * gtPivot, pivot, gtPivot);
    pivot := gtPivot;
  }

  /** Permuting the two sides of a pivot in turn permutes the whole range. */
  lemma SidesPermuted<T>(r1: seq<T>, r2: seq<T>, r3: seq<T>, start: int, p: int, end: int)
    requires 0 <= start <= p <= end < |r1|
    requires PermutedIn(r1, r2, start, p)
    requires PermutedIn(r2, r3, p + 1, end + 1)
    ensures PermutedIn(r1, r3, start, end + 1)
  {
    PermutedWiden(r1, r2, start, start, p, end + 1);
    PermutedWiden(r2, r3, start, p + 1, end + 1, end + 1);
    PermutedTrans(r1, r2, r3, start, end + 1);
  }

  /**
   * Sorting the two sides of a partition, each a permutation within its
   * side, sorts the whole range.
   */
  lemma SortedSidesJoin(r1: seq<Hash>, r2: seq<Hash>, r3: seq<Hash>, start: int, p: int, end: int)
    requires 0 <= start <= p <= end < |r1|
    requires PartitionedAt(r1, start, p, end)
    requires PermutedIn(r1, r2, start, p) && Descending(r2, start, p)
    requires PermutedIn(r2, r3, p + 1, end + 1) && Descending(r3, p + 1, end + 1)
    ensures Descending(r3, start, end + 1)
  {
    var pv := Key(r1[p]);
    forall k | start <= k < p
      ensures pv <= Key(r1[k]) < 0x1_0000_0000_0000
    {
      KeyIs48Bits(r1[k]);
    }
    PermutedKeepsBounds(r1, r2, start, p, pv, 0x1_0000_0000_0000);
    PermutedKeepsBounds(r2, r3, p + 1, end + 1, 0, pv);
    DescendingAroundPivot(r3, start, p, end + 1);
  }

  /**
   * `compute()`: sorts records [start, end] in place into descending key
   * order. Afterwards they are a permutation of the records that were there,
   * and no record outside the range has changed.
   */
  method Compute(a: array<Byte>, start: int, end: int)
    requires a.Length % 16 == 0
    requires 0 <= start <= end + 1 <= a.Length / 16
    modifies a
    ensures PermutedIn(old(Records(a[..])), Records(a[..]), start, end + 1)
    ensures Descending(Records(a[..]), start, end + 1)
    decreases end - start
  {
    if end - start <= INSERTION_SORT_THRESHOLD {
      InsertionSort(a, start, end);
      return;
    }
    ghost var r0 := Records(a[..]);
    var pivot := Partition(a, start, end);
    ghost var r1 := Records(a[..]);
    Compute(a, start, pivot - 1);
    ghost var r2 := Records(a[..]);
    Compute(a, pivot + 1, end);
    ghost var r3 := Records(a[..]);
    SortedSidesJoin(r1, r2, r3, start, pivot, end);
    SidesPermuted(r1, r2, r3, start, pivot, end);
    PermutedTrans(r0, r1, r3, start, end + 1);
  }
}
