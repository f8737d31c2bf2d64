/**
 * Bytes and 16-byte records, as the sorter stores them: a byte buffer is a
 * concatenation of fixed-size records with no header and no padding.
 */
module Bytes {

  /** Java's signed 8-bit `byte`. */
  newtype Byte = b: int | -128 <= b < 128

  /** Size of one record (an MD5 digest), CreateSortedWordlist.HASH_SIZE. */
  const HASH_SIZE: nat := 16

  /** One record: exactly HASH_SIZE bytes. */
  type Hash = s: seq<Byte> | |s| == HASH_SIZE witness seq(16, _ => 0)

  /** Java's `b & 0xff`: the two's-complement byte read as an unsigned value. */
  function Unsigned(b: Byte): (u: nat)
    ensures u < 256
    ensures (u - b as int) % 256 == 0
  {
    if b < 0 then b as int + 256 else b as int
  }

  /** The record view of a byte buffer: record k is bytes [16k, 16k+16). */
  function Records(s: seq<Byte>): (r: seq<Hash>)
    requires |s| % 16 == 0
    ensures |r| == |s| / 16
    ensures forall k :: 0 <= k < |r| ==> r[k] == s[16 * k..][..16]
  {
    seq(|s| / 16, k requires 0 <= k < |s| / 16 => s[16 * k..][..16])
  }

  /** The bytes of a sequence of records, laid out one after the other. */
  function Flatten(rs: seq<Hash>): (s: seq<Byte>)
    ensures |s| == 16 * |rs|
  {
    if rs == [] then [] else rs[0] + Flatten(rs[1..])
  }

  /** The elements of `s` in the opposite order. */
  function Reverse<T>(s: seq<T>): (r: seq<T>)
    ensures |r| == |s|
  {
    if s == [] then [] else Reverse(s[1..]) + [s[0]]
  }

  lemma {:induction false} FlattenAppend(a: seq<Hash>, b: seq<Hash>)
    ensures Flatten(a + b) == Flatten(a) + Flatten(b)
  {
    if a == [] {
      assert a + b == b;
    } else {
      assert (a + b)[1..] == a[1..] + b;
      FlattenAppend(a[1..], b);
    }
  }

  /** Cutting the bytes of some records back into records gives the records again. */
  lemma {:induction false} RecordsOfFlatten(rs: seq<Hash>)
    ensures Records(Flatten(rs)) == rs
  {
    if rs != [] {
      RecordsOfFlatten(rs[1..]);
      var s := Flatten(rs);
      assert s == rs[0] + Flatten(rs[1..]);
      forall k | 0 <= k < |rs|
        ensures Records(s)[k] == rs[k]
      {
        if k > 0 {
          assert s[16 * k .. 16 * k + 16] == Flatten(rs[1..])[16 * (k - 1) .. 16 * (k - 1) + 16];
        }
      }
    }
  }

  /** The record view of a buffer that is a concatenation splits the same way. */
  lemma RecordsAppend(a: seq<Byte>, b: seq<Byte>)
    requires |a| % 16 == 0 && |b| % 16 == 0
    ensures Records(a + b) == Records(a) + Records(b)
  {
    var ab := a + b;
    var na, nb := |a| / 16, |b| / 16;
    assert |a| == 16 * na && |b| == 16 * nb && |ab| / 16 == na + nb;
    forall k | 0 <= k < |ab| / 16
      ensures Records(ab)[k] == (Records(a) + Records(b))[k]
    {
      if k < na {
        assert ab[16 * k .. 16 * k + 16] == a[16 * k .. 16 * k + 16];
      } else {
        var j := k - na;
        assert 16 * k == |a| + 16 * j;
        assert ab[|a|..] == b;
        assert ab[16 * k..] == ab[|a|..][16 * j..];
      }
    }
  }

  lemma {:induction false} ReverseAppend<T>(a: seq<T>, b: seq<T>)
    ensures Reverse(a + b) == Reverse(b) + Reverse(a)
  {
    if a == [] {
      assert a + b == b;
    } else {
      assert (a + b)[1..] == a[1..] + b;
      ReverseAppend(a[1..], b);
    }
  }

  lemma {:induction false} ReverseIndex<T>(s: seq<T>, k: nat)
    requires k < |s|
    ensures Reverse(s)[k] == s[|s| - 1 - k]
  {
    if k < |s| - 1 {
      ReverseIndex(s[1..], k);
    }
  }

  lemma {:induction false} ReverseMultiset<T>(s: seq<T>)
    ensures multiset(Reverse(s)) == multiset(s)
  {
    if s != [] {
      ReverseMultiset(s[1..]);
      assert s == [s[0]] + s[1..];
    }
  }

  lemma {:induction false} ReverseReverse<T>(s: seq<T>)
    ensures Reverse(Reverse(s)) == s
  {
    if s != [] {
      ReverseReverse(s[1..]);
      ReverseAppend(Reverse(s[1..]), [s[0]]);
      assert Reverse([s[0]]) == [s[0]];
      assert s == [s[0]] + s[1..];
    }
  }

  /** Appending whole records keeps a length a multiple of 16 and adds to the record count. */
  lemma WholeRecords(a: nat, n: nat)
    requires a % 16 == 0
    ensures (a + 16 * n) % 16 == 0 && (a + 16 * n) / 16 == a / 16 + n
  {
    var q := a / 16;
    assert a == 16 * q;
    assert a + 16 * n == 16 * (q + n);
  }
}
