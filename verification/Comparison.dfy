/**
 * ComparisonDTO: the record order used by the whole system. A record's key is
 * its trailing six bytes (indices 10..15), compared lexicographically as
 * unsigned bytes; the first byte in which two keys differ decides.
 */
module Comparison {
  import opened Wrappers
  import opened Bytes

  /** First key byte: ComparisonDTO.COMP_START. */
  const COMP_START: nat := 10
  /** Number of key bytes: ComparisonDTO.COMP_AMOUNT. */
  const COMP_AMOUNT: nat := 6

  /** A queue entry: the lane or block a record came from, and the record (null in Java for "finished"). */
  datatype ComparisonDTO = ComparisonDTO(id: int, hash: Option<Hash>)
  {
    /** `compareTo(o)`: compares the two entries' records. */
    function CompareTo(o: ComparisonDTO): (r: int)
      ensures hash.Some? && o.hash.Some? ==> r == Sign(Key(hash.value) - Key(o.hash.value))
      ensures o.hash.None? ==> r == -1
      ensures hash.None? && o.hash.Some? ==> r == 1
    {
      Compare(hash, o.hash)
    }
  }

  function Sign(x: int): int
  {
    if x < 0 then -1 else if x > 0 then 1 else 0
  }

  /** The value of the first i key bytes, read as an unsigned big-endian number. */
  function KeyPrefix(h: Hash, i: nat): nat
    requires i <= 6
  {
    if i == 0 then 0 else 256 * KeyPrefix(h, i - 1) + Unsigned(h[10 + i - 1])
  }

  /** The key of a record: bytes 10..15 as an unsigned 48-bit number. */
  function Key(h: Hash): nat
  {
    KeyPrefix(h, 6)
  }

  /** The loop of `compare` from key byte i on: the first differing byte decides. */
  function KeyScan(left: Hash, right: Hash, i: nat): int
    requires i <= COMP_AMOUNT
    decreases COMP_AMOUNT - i
  {
    if i == COMP_AMOUNT then 0
    else if Unsigned(left[COMP_START + i]) < Unsigned(right[COMP_START + i]) then -1
    else if Unsigned(left[COMP_START + i]) > Unsigned(right[COMP_START + i]) then 1
    else KeyScan(left, right, i + 1)
  }

  /**
   * `ComparisonDTO.compare`: a null right operand is greater (even if the
   * left one is null too), a null left operand is greater than a record,
   * and two records compare by key.
   */
  function Compare(left: Option<Hash>, right: Option<Hash>): (r: int)
    ensures right.None? ==> r == -1
    ensures left.None? && right.Some? ==> r == 1
    ensures left.Some? && right.Some? ==> r == Sign(Key(left.value) - Key(right.value))
  {
    if right.None? then -1
    else if left.None? then 1
    else
      KeyScanIsKeyOrder(left.value, right.value, 0);
      KeyScan(left.value, right.value, 0)
  }

  /** A smaller prefix stays smaller whatever bytes follow. */
  lemma {:induction false} PrefixOrderPersists(a: Hash, b: Hash, i: nat, j: nat)
    requires i <= j <= 6
    requires KeyPrefix(a, i) < KeyPrefix(b, i)
    ensures KeyPrefix(a, j) < KeyPrefix(b, j)
    decreases j - i
  {
    if i < j {
      assert KeyPrefix(a, i + 1) < KeyPrefix(b, i + 1);
      PrefixOrderPersists(a, b, i + 1, j);
    }
  }

  /** The byte scan agrees with the numeric order of the keys once the prefixes agree. */
  lemma {:induction false} KeyScanIsKeyOrder(a: Hash, b: Hash, i: nat)
    requires i <= 6
    requires KeyPrefix(a, i) == KeyPrefix(b, i)
    ensures KeyScan(a, b, i) == Sign(Key(a) - Key(b))
    decreases 6 - i
  {
    if i < 6 {
      var ua, ub := Unsigned(a[10 + i]), Unsigned(b[10 + i]);
      if ua < ub {
        PrefixOrderPersists(a, b, i + 1, 6);
      } else if ua > ub {
        PrefixOrderPersists(b, a, i + 1, 6);
      } else {
        KeyScanIsKeyOrder(a, b, i + 1);
      }
    }
  }

  /** The scan is zero exactly when the remaining key bytes are equal. */
  lemma {:induction false} KeyScanZero(a: Hash, b: Hash, i: nat)
    requires i <= 6
    ensures KeyScan(a, b, i) == 0 <==> a[10 + i .. 16] == b[10 + i .. 16]
    decreases 6 - i
  {
    if i < 6 {
      KeyScanZero(a, b, i + 1);
      assert a[10 + i .. 16] == [a[10 + i]] + a[10 + i + 1 .. 16];
      assert b[10 + i .. 16] == [b[10 + i]] + b[10 + i + 1 .. 16];
      if a[10 + i] != b[10 + i] {
        assert Unsigned(a[10 + i]) != Unsigned(b[10 + i]);
      }
    }
  }

  /** A key is a 48-bit number. */
  lemma {:induction false} KeyPrefixBound(h: Hash, i: nat, p: nat)
    requires i <= 6 && KeyPrefix(h, i) < p
    ensures i < 6 ==> KeyPrefix(h, i + 1) < 256 * p
  {
  }

  lemma KeyIs48Bits(h: Hash)
    ensures Key(h) < 0x1_0000_0000_0000
  {
    KeyPrefixBound(h, 0, 1);
    KeyPrefixBound(h, 1, 0x100);
    KeyPrefixBound(h, 2, 0x1_0000);
    KeyPrefixBound(h, 3, 0x100_0000);
    KeyPrefixBound(h, 4, 0x1_0000_0000);
    KeyPrefixBound(h, 5, 0x100_0000_0000);
  }

  /** Equal keys compare 0, and 0 means equal keys; otherwise the result is -1 or 1. */
  lemma CompareZeroIffKeysEqual(a: Hash, b: Hash)
    ensures Compare(Some(a), Some(b)) in {-1, 0, 1}
    ensures Compare(Some(a), Some(b)) == 0 <==> a[10..16] == b[10..16]
  {
    KeyScanIsKeyOrder(a, b, 0);
    KeyScanZero(a, b, 0);
  }

  /** Only key bytes matter: bytes 0..9 never influence the result. */
  lemma {:induction false} KeyPrefixDependsOnKeyBytes(a: Hash, b: Hash, i: nat)
    requires i <= 6 && a[10..16] == b[10..16]
    ensures KeyPrefix(a, i) == KeyPrefix(b, i)
  {
    if i > 0 {
      KeyPrefixDependsOnKeyBytes(a, b, i - 1);
      assert a[10 + i - 1] == a[10..16][i - 1];
    }
  }

  lemma OnlyKeyBytesMatter(a: Hash, a': Hash, b: Hash, b': Hash)
    requires a[10..16] == a'[10..16] && b[10..16] == b'[10..16]
    ensures Compare(Some(a), Some(b)) == Compare(Some(a'), Some(b'))
  {
    KeyPrefixDependsOnKeyBytes(a, a', 6);
    KeyPrefixDependsOnKeyBytes(b, b', 6);
  }

  /** The first differing key byte decides, compared unsigned. */
  lemma FirstDifferenceDecides(a: Hash, b: Hash, i: nat)
    requires i < 6 && a[10..10 + i] == b[10..10 + i]
    requires a[10 + i] != b[10 + i]
    ensures Compare(Some(a), Some(b)) == (if Unsigned(a[10 + i]) < Unsigned(b[10 + i]) then -1 else 1)
  {
    KeyScanIsKeyOrder(a, b, 0);
    FirstDifferenceScan(a, b, 0, i);
  }

  lemma {:induction false} FirstDifferenceScan(a: Hash, b: Hash, j: nat, i: nat)
    requires j <= i < 6 && a[10..10 + i] == b[10..10 + i]
    requires a[10 + i] != b[10 + i]
    ensures KeyScan(a, b, j) == (if Unsigned(a[10 + i]) < Unsigned(b[10 + i]) then -1 else 1)
    decreases i - j
  {
    if j < i {
      assert a[10 + j] == a[10..10 + i][j] && b[10 + j] == b[10..10 + i][j];
      FirstDifferenceScan(a, b, j + 1, i);
    } else {
      assert Unsigned(a[10 + i]) != Unsigned(b[10 + i]);
    }
  }

  /**
   * Key bytes are unsigned: where the keys first differ, a byte with its top
   * bit set (0x80..0xff, negative as a Java byte) ranks above one without.
   */
  lemma HighBytesRankAbove(a: Hash, b: Hash, i: nat)
    requires i < 6 && a[10..10 + i] == b[10..10 + i]
    requires a[10 + i] < 0 <= b[10 + i]
    ensures Compare(Some(a), Some(b)) == 1 && Compare(Some(b), Some(a)) == -1
  {
    FirstDifferenceDecides(a, b, i);
    FirstDifferenceDecides(b, a, i);
  }

  /** On records the comparison is antisymmetric and transitive: a total preorder. */
  lemma TotalPreorder(a: Hash, b: Hash, c: Hash)
    ensures Compare(Some(a), Some(b)) == -Compare(Some(b), Some(a))
    ensures Compare(Some(a), Some(b)) <= 0 && Compare(Some(b), Some(c)) <= 0 ==> Compare(Some(a), Some(c)) <= 0
    ensures Compare(Some(a), Some(b)) <= 0 || Compare(Some(b), Some(a)) <= 0
  {
  }

  /** Records [lo, hi) are in non-increasing key order (the order of a sorted block). */
  ghost predicate Descending(r: seq<Hash>, lo: int, hi: int)
    requires 0 <= lo <= hi <= |r|
  {
    forall p, q :: lo <= p < q < hi ==> Key(r[q]) <= Key(r[p])
  }

  /** Records in non-decreasing key order (the order of the merged output). */
  ghost predicate Ascending(s: seq<Hash>)
  {
    forall p, q :: 0 <= p < q < |s| ==> Key(s[p]) <= Key(s[q])
  }
}
